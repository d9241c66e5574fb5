/**
  * The shape of an index: which pages hang below which, and what their slots hold.
  *
  * `Tree` is the value the page file stands for.  Each node carries its page number,
  * so that the page code of modules PageFile and BTreeFile can be compared with it, and
  * `Insert` is the recursive descent of insert_recursive on that value.
  */
module Tree {
  import opened KeyOrder

  const LEAF_MAX := 180
  const INNER_MAX := 190
  /** The smaller half of a split leaf, and both halves of a split internal page. */
  const LEAF_MIN := 90
  const INNER_MIN := 95

  datatype Entry = Entry(key: Key, offset: nat, dead: bool)

  /** `seps[i]` separates `kids[i]` from `kids[i + 1]`. */
  datatype Tree =
    | Leaf(no: nat, entries: seq<Entry>)
    | Node(no: nat, kids: seq<Tree>, seps: seq<Key>)

  /** The result of an insertion below some page: the page, or the page and a new right sibling. */
  datatype Grown =
    | Kept(t: Tree)
    | Split(left: Tree, sep: Key, right: Tree)

  // ---------------------------------------------------------------- contents

  /** All entries, left to right. */
  function Flat(t: Tree): seq<Entry> {
    match t
    case Leaf(_, es) => es
    case Node(_, kids, _) => FlatAll(kids)
  }

  function FlatAll(ts: seq<Tree>): seq<Entry> {
    if ts == [] then [] else Flat(ts[0]) + FlatAll(ts[1..])
  }

  function FlatGrown(g: Grown): seq<Entry> {
    match g
    case Kept(t) => Flat(t)
    case Split(l, _, r) => Flat(l) + Flat(r)
  }

  ghost predicate Sorted(s: seq<Entry>) {
    forall i, j | 0 <= i < j < |s| :: Rank(s[i].key) <= Rank(s[j].key)
  }

  /** The number of leading entries whose key is not above `key`. */
  function UpperBound(s: seq<Entry>, key: Key): (n: nat)
    ensures n <= |s|
    ensures forall i | 0 <= i < n :: Rank(s[i].key) <= Rank(key)
    ensures n < |s| ==> Rank(key) < Rank(s[n].key)
  {
    if s == [] || Cmp(s[0].key, key) > 0 then
      (if s == [] then 0 else CmpIsRankOrder(s[0].key, key); 0)
    else
      CmpIsRankOrder(s[0].key, key);
      1 + UpperBound(s[1..], key)
  }

  function Splice<T>(s: seq<T>, at: nat, x: T): (r: seq<T>)
    requires at <= |s|
    ensures |r| == |s| + 1
  {
    s[..at] + [x] + s[at..]
  }

  /** The list an insertion must produce: the new entry directly after the last key not above its own. */
  function Inserted(s: seq<Entry>, e: Entry): seq<Entry> {
    Splice(s, UpperBound(s, e.key), e)
  }

  // ---------------------------------------------------------------- shape

  predicate StartsWith(t: Tree, key: Key) {
    Flat(t) != [] && Flat(t)[0].key == key
  }

  predicate SepsMatch(kids: seq<Tree>, seps: seq<Key>) {
    |kids| == |seps| + 1 && forall i | 0 <= i < |seps| :: StartsWith(kids[i + 1], seps[i])
  }

  /**
    * All leaves at depth `h`, every page within its capacity, every page but the root
    * at least half full, and every separator equal to the first key on its right.
    */
  predicate Shaped(t: Tree, h: nat, root: bool): (b: bool)
    ensures b ==> Bounded(t)
    decreases t
  {
    match t
    case Leaf(_, es) =>
      h == 0 && (if root then 0 else LEAF_MIN) <= |es| <= LEAF_MAX
    case Node(_, kids, seps) =>
      && h > 0
      && (if root then 1 else INNER_MIN) <= |seps| <= INNER_MAX
      && SepsMatch(kids, seps)
      && forall i | 0 <= i < |kids| :: Shaped(kids[i], h - 1, false)
  }

  /** How many pages of the tree carry the number `p`. */
  function Times(t: Tree, p: nat): nat {
    match t
    case Leaf(no, _) => One(no, p)
    case Node(no, kids, _) => One(no, p) + TimesAll(kids, p)
  }

  function TimesAll(ts: seq<Tree>, p: nat): nat {
    if ts == [] then 0 else Times(ts[0], p) + TimesAll(ts[1..], p)
  }

  function TimesGrown(g: Grown, p: nat): nat {
    match g
    case Kept(t) => Times(t, p)
    case Split(l, _, r) => Times(l, p) + Times(r, p)
  }

  function One(no: nat, p: nat): nat {
    if no == p then 1 else 0
  }

  /** 1 for the page numbers from `a` up to, not including, `b`. */
  function Within(a: nat, b: nat, p: nat): nat {
    if a <= p < b then 1 else 0
  }

  // ---------------------------------------------------------------- insertion

  /** The child an internal page sends `key` to: right of every separator not above it. */
  function ChildIndex(seps: seq<Key>, key: Key): (c: nat)
    ensures c <= |seps|
    ensures forall i | 0 <= i < c :: Rank(seps[i]) <= Rank(key)
    ensures c < |seps| ==> Rank(key) < Rank(seps[c])
  {
    if seps == [] || Cmp(key, seps[0]) < 0 then
      (if seps == [] then 0 else CmpIsRankOrder(key, seps[0]); 0)
    else
      CmpIsRankOrder(key, seps[0]);
      1 + ChildIndex(seps[1..], key)
  }

  function MakeLeaf(no: nat, es: seq<Entry>, next: nat): Grown
    requires |es| <= LEAF_MAX + 1
  {
    if |es| <= LEAF_MAX then Kept(Leaf(no, es))
    else Split(Leaf(no, es[..LEAF_MIN + 1]), es[LEAF_MIN + 1].key, Leaf(next, es[LEAF_MIN + 1..]))
  }

  function MakeNode(no: nat, kids: seq<Tree>, seps: seq<Key>, next: nat): Grown
    requires |kids| == |seps| + 1 && |seps| <= INNER_MAX + 1
  {
    if |seps| <= INNER_MAX then Kept(Node(no, kids, seps))
    else Split(Node(no, kids[..INNER_MIN + 1], seps[..INNER_MIN]), seps[INNER_MIN],
               Node(next, kids[INNER_MIN + 1..], seps[INNER_MIN + 1..]))
  }

  /** What the descent does on its way back: hang the grown child `c` under its page again. */
  function Reattach(no: nat, kids: seq<Tree>, seps: seq<Key>, c: nat, below: Grown, next: nat): (r: (Grown, nat))
    requires |kids| == |seps| + 1 && |seps| <= INNER_MAX && c <= |seps|
    ensures next <= r.1
  {
    match below
    case Kept(k) => (Kept(Node(no, kids[..c] + [k] + kids[c + 1..], seps)), next)
    case Split(l, sep, r) =>
      var g := MakeNode(no, kids[..c] + [l, r] + kids[c + 1..], Splice(seps, c, sep), next);
      (g, if g.Kept? then next else next + 1)
  }

  /** Every page within its capacity, as the descent needs it. */
  predicate Bounded(t: Tree)
    decreases t
  {
    match t
    case Leaf(_, es) => |es| <= LEAF_MAX
    case Node(_, kids, seps) =>
      |seps| <= INNER_MAX && |kids| == |seps| + 1 && forall i | 0 <= i < |kids| :: Bounded(kids[i])
  }

  /** insert_recursive below `t`, new pages being numbered from `next`. */
  function InsertBelow(t: Tree, e: Entry, next: nat): (r: (Grown, nat))
    requires Bounded(t)
    ensures next <= r.1
    decreases t
  {
    match t
    case Leaf(no, es) =>
      var g := MakeLeaf(no, Inserted(es, e), next);
      (g, if g.Kept? then next else next + 1)
    case Node(no, kids, seps) =>
      var c := ChildIndex(seps, e.key);
      var below := InsertBelow(kids[c], e, next);
      Reattach(no, kids, seps, c, below.0, below.1)
  }

  /** bson_btree_insert without the uniqueness check: a split root gets a new root above it. */
  function Insert(t: Tree, e: Entry, next: nat): (r: (Tree, nat))
    requires Bounded(t)
  {
    var (g, next') := InsertBelow(t, e, next);
    match g
    case Kept(t') => (t', next')
    case Split(l, sep, r) => (Node(next', [l, r], [sep]), next' + 1)
  }

  // ---------------------------------------------------------------- lists of trees

  lemma {:induction false} FlatAllConcat(a: seq<Tree>, b: seq<Tree>)
    ensures FlatAll(a + b) == FlatAll(a) + FlatAll(b)
  {
    if a == [] {
      assert a + b == b;
    } else {
      assert (a + b)[1..] == a[1..] + b;
      FlatAllConcat(a[1..], b);
    }
  }

  lemma {:induction false} FlatAllSplit(ts: seq<Tree>, c: nat)
    requires c < |ts|
    ensures FlatAll(ts) == FlatAll(ts[..c]) + Flat(ts[c]) + FlatAll(ts[c + 1..])
  {
    assert ts == ts[..c] + ts[c..];
    FlatAllConcat(ts[..c], ts[c..]);
  }

  lemma {:induction false} FlatAllPair(l: Tree, r: Tree)
    ensures FlatAll([l]) == Flat(l)
    ensures FlatAll([l, r]) == Flat(l) + Flat(r)
  {
    assert [l, r][1..] == [r] && [r][1..] == [] && [l][1..] == [];
  }

  lemma {:induction false} TimesAllConcat(a: seq<Tree>, b: seq<Tree>, p: nat)
    ensures TimesAll(a + b, p) == TimesAll(a, p) + TimesAll(b, p)
  {
    if a == [] {
      assert a + b == b;
    } else {
      assert (a + b)[1..] == a[1..] + b;
      TimesAllConcat(a[1..], b, p);
    }
  }

  lemma {:induction false} TimesAllSplit(ts: seq<Tree>, c: nat, p: nat)
    requires c < |ts|
    ensures TimesAll(ts, p) == TimesAll(ts[..c], p) + Times(ts[c], p) + TimesAll(ts[c + 1..], p)
  {
    assert ts == ts[..c] + ts[c..];
    TimesAllConcat(ts[..c], ts[c..], p);
  }

  lemma {:induction false} TimesAllPair(l: Tree, r: Tree, p: nat)
    ensures TimesAll([l], p) == Times(l, p)
    ensures TimesAll([l, r], p) == Times(l, p) + Times(r, p)
  {
    assert [l, r][1..] == [r] && [r][1..] == [] && [l][1..] == [];
  }

  /** Replacing child `c` by `mid` changes only its stretch of the contents and of the page numbers. */
  lemma {:induction false} ReplacedFlat(kids: seq<Tree>, c: nat, mid: seq<Tree>)
    requires c < |kids|
    ensures FlatAll(kids[..c] + mid + kids[c + 1..]) == FlatAll(kids[..c]) + FlatAll(mid) + FlatAll(kids[c + 1..])
  {
    FlatAllConcat(kids[..c] + mid, kids[c + 1..]);
    FlatAllConcat(kids[..c], mid);
  }

  lemma {:induction false} ReplacedTimes(kids: seq<Tree>, c: nat, mid: seq<Tree>, p: nat)
    requires c < |kids|
    ensures TimesAll(kids[..c] + mid + kids[c + 1..], p)
            == TimesAll(kids, p) - Times(kids[c], p) + TimesAll(mid, p)
  {
    TimesAllConcat(kids[..c] + mid, kids[c + 1..], p);
    TimesAllConcat(kids[..c], mid, p);
    TimesAllSplit(kids, c, p);
  }

  // ---------------------------------------------------------------- sorted lists

  lemma SortedParts(a: seq<Entry>, m: seq<Entry>, b: seq<Entry>)
    requires Sorted(a + m + b)
    ensures Sorted(a) && Sorted(m) && Sorted(b)
  {
    hide Rank;
    var s := a + m + b;
    assert forall i | 0 <= i < |a| :: s[i] == a[i];
    assert forall i | 0 <= i < |m| :: s[|a| + i] == m[i];
    assert forall i | 0 <= i < |b| :: s[|a| + |m| + i] == b[i];
  }

  /** In a sorted list the position is fixed by its two neighbours. */
  lemma UpperBoundUnique(s: seq<Entry>, key: Key, n: nat)
    requires Sorted(s) && n <= |s|
    requires n > 0 ==> Rank(s[n - 1].key) <= Rank(key)
    requires n < |s| ==> Rank(key) < Rank(s[n].key)
    ensures UpperBound(s, key) == n
  {
    hide Rank;
  }

  lemma InsertedSorted(s: seq<Entry>, e: Entry)
    requires Sorted(s)
    ensures Sorted(Inserted(s, e))
  {
    hide Rank;
  }

  lemma SpliceMiddle<T>(a: seq<T>, m: seq<T>, b: seq<T>, n: nat, x: T)
    requires n <= |m|
    ensures Splice(a + m + b, |a| + n, x) == a + Splice(m, n, x) + b
  {
    assert (a + m + b)[..|a| + n] == a + m[..n];
    assert (a + m + b)[|a| + n..] == m[n..] + b;
  }

  /** The insertion point of a list is the insertion point of the part the descent picks. */
  lemma {:induction false} UpperBoundMiddle(a: seq<Entry>, m: seq<Entry>, b: seq<Entry>, key: Key)
    requires Sorted(a + m + b)
    requires a != [] ==> m != [] && Rank(m[0].key) <= Rank(key)
    requires b != [] ==> Rank(key) < Rank(b[0].key)
    ensures UpperBound(a + m + b, key) == |a| + UpperBound(m, key)
  {
    hide Rank, Sorted;
    var s := a + m + b;
    var n := UpperBound(m, key);
    assert a != [] ==> n > 0;
    assert n > 0 ==> s[|a| + n - 1] == m[n - 1];
    assert n < |m| ==> s[|a| + n] == m[n];
    assert n == |m| && b != [] ==> s[|a| + n] == b[0];
    UpperBoundUnique(s, key, |a| + n);
  }

  lemma InsertedMiddle(a: seq<Entry>, m: seq<Entry>, b: seq<Entry>, e: Entry)
    requires Sorted(a + m + b)
    requires a != [] ==> m != [] && Rank(m[0].key) <= Rank(e.key)
    requires b != [] ==> Rank(e.key) < Rank(b[0].key)
    ensures Inserted(a + m + b, e) == a + Inserted(m, e) + b
  {
    hide Rank, Sorted;
    UpperBoundMiddle(a, m, b, e.key);
    SpliceMiddle(a, m, b, UpperBound(m, e.key), e);
  }
}
