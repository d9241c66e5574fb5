/**
  * Insertion into the tree is insertion into the sorted list of its entries, and keeps
  * the shape: equal depth, page capacities and occupancy, separators, page numbering.
  */
module TreeInsert {
  import Bytes
  import opened KeyOrder
  import opened Tree

  lemma {:induction false} ShapedNonEmpty(t: Tree, h: nat)
    requires Shaped(t, h, false)
    ensures Flat(t) != []
  {
    match t
    case Leaf(_, _) =>
    case Node(_, kids, _) =>
      ShapedNonEmpty(kids[0], h - 1);
  }

  lemma SepAt(kids: seq<Tree>, seps: seq<Key>, i: nat)
    requires SepsMatch(kids, seps) && i < |seps|
    ensures Flat(kids[i + 1]) != [] && Flat(kids[i + 1])[0].key == seps[i]
  {
  }

  /** Everything right of child `c` starts with the separator on its right. */
  lemma RightOfChild(kids: seq<Tree>, seps: seq<Key>, c: nat)
    requires SepsMatch(kids, seps) && c <= |seps|
    ensures c == |seps| ==> FlatAll(kids[c + 1..]) == []
    ensures c < |seps| ==> FlatAll(kids[c + 1..]) != [] && FlatAll(kids[c + 1..])[0].key == seps[c]
  {
    if c < |seps| {
      assert kids[c + 1..][0] == kids[c + 1];
      SepAt(kids, seps, c);
    }
  }

  /** The entries left of the chosen child, in it, and right of it, relative to the key. */
  lemma {:induction false} AroundChild(kids: seq<Tree>, seps: seq<Key>, key: Key, c: nat)
    requires SepsMatch(kids, seps) && Sorted(FlatAll(kids)) && c == ChildIndex(seps, key)
    ensures FlatAll(kids) == FlatAll(kids[..c]) + Flat(kids[c]) + FlatAll(kids[c + 1..])
    ensures Sorted(Flat(kids[c]))
    ensures c == 0 ==> FlatAll(kids[..c]) == []
    ensures c > 0 ==> Flat(kids[c]) != [] && Flat(kids[c])[0].key == seps[c - 1] && Rank(seps[c - 1]) <= Rank(key)
    ensures FlatAll(kids[c + 1..]) != [] ==> Rank(key) < Rank(FlatAll(kids[c + 1..])[0].key)
  {
    hide Rank, Sorted;
    FlatAllSplit(kids, c);
    SortedParts(FlatAll(kids[..c]), Flat(kids[c]), FlatAll(kids[c + 1..]));
    RightOfChild(kids, seps, c);
    if c > 0 {
      SepAt(kids, seps, c - 1);
    }
  }

  // ---------------------------------------------------------------- what a child may hold

  /** btree.h's reading: child `i` holds keys from its left separator up to, not including, its right one. */
  ghost predicate HalfOpen(kids: seq<Tree>, seps: seq<Key>, i: nat)
    requires i < |kids| == |seps| + 1
  {
    forall j | 0 <= j < |Flat(kids[i])| ::
      && (i > 0 ==> Rank(seps[i - 1]) <= Rank(Flat(kids[i])[j].key))
      && (i < |seps| ==> Rank(Flat(kids[i])[j].key) < Rank(seps[i]))
  }

  /** What the code keeps: the right end belongs to the interval too. */
  ghost predicate Closed(kids: seq<Tree>, seps: seq<Key>, i: nat)
    requires i < |kids| == |seps| + 1
  {
    forall j | 0 <= j < |Flat(kids[i])| ::
      && (i > 0 ==> Rank(seps[i - 1]) <= Rank(Flat(kids[i])[j].key))
      && (i < |seps| ==> Rank(Flat(kids[i])[j].key) <= Rank(seps[i]))
  }

  /**
    * Every child's keys lie in the closed interval of its separators; they lie in the
    * half-open one exactly when the child's last entry is below its right separator.
    */
  lemma ChildInterval(kids: seq<Tree>, seps: seq<Key>, h: nat, i: nat)
    requires SepsMatch(kids, seps) && Sorted(FlatAll(kids)) && i < |kids|
    requires forall k | 0 <= k < |kids| :: Shaped(kids[k], h, false)
    ensures Flat(kids[i]) != [] && Closed(kids, seps, i)
    ensures HalfOpen(kids, seps, i) <==>
              i == |seps| || Rank(Flat(kids[i])[|Flat(kids[i])| - 1].key) < Rank(seps[i])
  {
    hide Rank, Shaped, FlatAll;
    ShapedNonEmpty(kids[i], h);
    FlatAllSplit(kids, i);
    RightOfChild(kids, seps, i);
    if i > 0 {
      SepAt(kids, seps, i - 1);
    }
    var a, m, b := FlatAll(kids[..i]), Flat(kids[i]), FlatAll(kids[i + 1..]);
    var s := a + m + b;
    forall j | 0 <= j < |m|
      ensures Rank(m[0].key) <= Rank(m[j].key) <= Rank(m[|m| - 1].key)
      ensures i < |seps| ==> Rank(m[j].key) <= Rank(seps[i])
    {
      assert m[0] == s[|a|] && m[j] == s[|a| + j] && m[|m| - 1] == s[|a| + |m| - 1];
      assert i < |seps| ==> b[0] == s[|a| + |m|];
    }
  }

  lemma SepsMatchSlice(kids: seq<Tree>, seps: seq<Key>, lo: nat, hi: nat)
    requires SepsMatch(kids, seps) && lo <= hi <= |seps|
    ensures SepsMatch(kids[lo..hi + 1], seps[lo..hi])
  {
    var kids', seps' := kids[lo..hi + 1], seps[lo..hi];
    forall i | 0 <= i < |seps'|
      ensures Flat(kids'[i + 1]) != [] && Flat(kids'[i + 1])[0].key == seps'[i]
    {
      assert kids'[i + 1] == kids[lo + i + 1] && seps'[i] == seps[lo + i];
    }
    assert |kids'| == |seps'| + 1;
  }

  lemma {:induction false} MakeNodeShaped(no: nat, kids: seq<Tree>, seps: seq<Key>, next: nat, h: nat, root: bool)
    requires h > 0 && SepsMatch(kids, seps)
    requires (if root then 1 else INNER_MIN) <= |seps| <= INNER_MAX + 1
    requires forall i | 0 <= i < |kids| :: Shaped(kids[i], h - 1, false)
    ensures ShapedGrown(MakeNode(no, kids, seps, next), h, root)
  {
    hide Rank;
    if |seps| > INNER_MAX {
      SepsMatchSlice(kids, seps, 0, INNER_MIN);
      SepsMatchSlice(kids, seps, INNER_MIN + 1, |seps|);
      RightOfChild(kids, seps, INNER_MIN);
      assert kids[..|kids|] == kids && seps[..|seps|] == seps;
    }
  }

  lemma {:induction false} MakeNodeFlat(no: nat, kids: seq<Tree>, seps: seq<Key>, next: nat)
    requires |kids| == |seps| + 1 && |seps| <= INNER_MAX + 1
    ensures FlatGrown(MakeNode(no, kids, seps, next)) == FlatAll(kids)
  {
    if |seps| > INNER_MAX {
      assert kids == kids[..INNER_MIN + 1] + kids[INNER_MIN + 1..];
      FlatAllConcat(kids[..INNER_MIN + 1], kids[INNER_MIN + 1..]);
    }
  }

  lemma {:induction false} MakeNodeTimes(no: nat, kids: seq<Tree>, seps: seq<Key>, next: nat, p: nat)
    requires |kids| == |seps| + 1 && |seps| <= INNER_MAX + 1
    ensures TimesGrown(MakeNode(no, kids, seps, next), p)
            == One(no, p) + TimesAll(kids, p) + if |seps| <= INNER_MAX then 0 else One(next, p)
  {
    if |seps| > INNER_MAX {
      assert kids == kids[..INNER_MIN + 1] + kids[INNER_MIN + 1..];
      TimesAllConcat(kids[..INNER_MIN + 1], kids[INNER_MIN + 1..], p);
    }
  }

  lemma {:induction false} SplicedKids(kids: seq<Tree>, seps: seq<Key>, c: nat, l: Tree, sep: Key, r: Tree)
    requires SepsMatch(kids, seps) && c <= |seps|
    requires Flat(l) != [] && Flat(r) != [] && Flat(r)[0].key == sep
    requires c > 0 ==> Flat(l)[0].key == seps[c - 1]
    ensures SepsMatch(kids[..c] + [l, r] + kids[c + 1..], Splice(seps, c, sep))
  {
    hide Rank, StartsWith;
    assert StartsWith(r, sep) by { Starts(r, sep); }
    assert c > 0 ==> StartsWith(l, seps[c - 1]) by { if c > 0 { Starts(l, seps[c - 1]); } }
    var kids', seps' := kids[..c] + [l, r] + kids[c + 1..], Splice(seps, c, sep);
    forall i | 0 <= i < |seps'| ensures StartsWith(kids'[i + 1], seps'[i]) {
      assert seps'[i] == if i < c then seps[i] else if i == c then sep else seps[i - 1];
      assert kids'[i + 1] == if i + 1 < c then kids[i + 1] else if i + 1 == c then l else if i == c then r else kids[i];
      assert i > c ==> StartsWith(kids[i - 1 + 1], seps[i - 1]);
    }
  }

  lemma Starts(t: Tree, key: Key)
    requires Flat(t) != [] && Flat(t)[0].key == key
    ensures StartsWith(t, key)
  {
  }

  lemma {:induction false} ReplacedKid(kids: seq<Tree>, seps: seq<Key>, c: nat, k: Tree)
    requires SepsMatch(kids, seps) && c <= |seps| && Flat(k) != []
    requires c > 0 ==> Flat(k)[0].key == seps[c - 1]
    ensures SepsMatch(kids[..c] + [k] + kids[c + 1..], seps)
  {
    hide Rank, StartsWith;
    assert c > 0 ==> StartsWith(k, seps[c - 1]) by { if c > 0 { Starts(k, seps[c - 1]); } }
    var kids' := kids[..c] + [k] + kids[c + 1..];
    forall i | 0 <= i < |seps| ensures StartsWith(kids'[i + 1], seps[i]) {
      assert kids'[i + 1] == if i + 1 == c then k else kids[i + 1];
    }
  }

  // ---------------------------------------------------------------- contents

  lemma ReattachFlat(no: nat, kids: seq<Tree>, seps: seq<Key>, c: nat, below: Grown, next: nat)
    requires |kids| == |seps| + 1 && |seps| <= INNER_MAX && c <= |seps|
    ensures FlatGrown(Reattach(no, kids, seps, c, below, next).0)
            == FlatAll(kids[..c]) + FlatGrown(below) + FlatAll(kids[c + 1..])
  {
    match below {
      case Kept(k) =>
        ReplacedFlat(kids, c, [k]);
        FlatAllPair(k, k);
      case Split(l, sep, r) =>
        ReplacedFlat(kids, c, [l, r]);
        FlatAllPair(l, r);
        MakeNodeFlat(no, kids[..c] + [l, r] + kids[c + 1..], Splice(seps, c, sep), next);
    }
  }

  lemma {:induction false} InsertBelowFlat(t: Tree, h: nat, root: bool, e: Entry, next: nat)
    requires Shaped(t, h, root) && Sorted(Flat(t))
    ensures FlatGrown(InsertBelow(t, e, next).0) == Inserted(Flat(t), e)
    decreases t
  {
    hide Rank, Sorted, Reattach;
    match t {
      case Leaf(no, es) =>
        var es' := Inserted(es, e);
        if |es'| > LEAF_MAX {
          assert es' == es'[..LEAF_MIN + 1] + es'[LEAF_MIN + 1..];
        }
      case Node(no, kids, seps) =>
        var c := ChildIndex(seps, e.key);
        AroundChild(kids, seps, e.key, c);
        InsertBelowFlat(kids[c], h - 1, false, e, next);
        InsertedMiddle(FlatAll(kids[..c]), Flat(kids[c]), FlatAll(kids[c + 1..]), e);
        var below := InsertBelow(kids[c], e, next);
        ReattachFlat(no, kids, seps, c, below.0, below.1);
    }
  }

  // ---------------------------------------------------------------- shape

  /** What an insertion below a page at height `h` leaves behind. */
  predicate ShapedGrown(g: Grown, h: nat, root: bool) {
    match g
    case Kept(t) => Shaped(t, h, root)
    case Split(l, sep, r) =>
      Shaped(l, h, false) && Shaped(r, h, false) && Flat(r) != [] && Flat(r)[0].key == sep
  }

  lemma {:induction false} ReattachShaped(no: nat, kids: seq<Tree>, seps: seq<Key>, c: nat, below: Grown,
                                          next: nat, h: nat, root: bool)
    requires Shaped(Node(no, kids, seps), h, root) && c <= |seps|
    requires ShapedGrown(below, h - 1, false)
    requires c > 0 ==> FlatGrown(below) != [] && FlatGrown(below)[0].key == seps[c - 1]
    ensures ShapedGrown(Reattach(no, kids, seps, c, below, next).0, h, root)
  {
    hide Rank;
    match below {
      case Kept(k) =>
        ShapedNonEmpty(k, h - 1);
        ReplacedKid(kids, seps, c, k);
      case Split(l, sep, r) =>
        ShapedNonEmpty(l, h - 1);
        SplicedKids(kids, seps, c, l, sep, r);
        MakeNodeShaped(no, kids[..c] + [l, r] + kids[c + 1..], Splice(seps, c, sep), next, h, root);
    }
  }

  lemma {:induction false} InsertBelowShaped(t: Tree, h: nat, root: bool, e: Entry, next: nat)
    requires Shaped(t, h, root) && Sorted(Flat(t))
    ensures ShapedGrown(InsertBelow(t, e, next).0, h, root)
    decreases t
  {
    hide Rank, Sorted, Reattach;
    match t {
      case Leaf(no, es) =>
      case Node(no, kids, seps) =>
        var c := ChildIndex(seps, e.key);
        AroundChild(kids, seps, e.key, c);
        InsertBelowFlat(kids[c], h - 1, false, e, next);
        InsertBelowShaped(kids[c], h - 1, false, e, next);
        assert c > 0 ==> Inserted(Flat(kids[c]), e)[0].key == seps[c - 1];
        var below := InsertBelow(kids[c], e, next);
        ReattachShaped(no, kids, seps, c, below.0, below.1, h, root);
    }
  }

  // ---------------------------------------------------------------- page numbers

  lemma {:induction false} ReattachTimes(no: nat, kids: seq<Tree>, seps: seq<Key>, c: nat, below: Grown,
                                         next: nat, p: nat)
    requires |kids| == |seps| + 1 && |seps| <= INNER_MAX && c <= |seps|
    ensures TimesGrown(Reattach(no, kids, seps, c, below, next).0, p)
            == One(no, p) + TimesAll(kids, p) - Times(kids[c], p) + TimesGrown(below, p)
               + Within(next, Reattach(no, kids, seps, c, below, next).1, p)
  {
    match below {
      case Kept(k) =>
        ReplacedTimes(kids, c, [k], p);
        TimesAllPair(k, k, p);
      case Split(l, sep, r) =>
        ReplacedTimes(kids, c, [l, r], p);
        TimesAllPair(l, r, p);
        MakeNodeTimes(no, kids[..c] + [l, r] + kids[c + 1..], Splice(seps, c, sep), next, p);
    }
  }

  lemma {:induction false} InsertBelowTimes(t: Tree, e: Entry, next: nat, p: nat)
    requires Bounded(t)
    ensures TimesGrown(InsertBelow(t, e, next).0, p) == Times(t, p) + Within(next, InsertBelow(t, e, next).1, p)
    decreases t
  {
    hide Rank, Inserted, Reattach;
    match t {
      case Leaf(no, es) =>
      case Node(no, kids, seps) =>
        var c := ChildIndex(seps, e.key);
        InsertBelowTimes(kids[c], e, next, p);
        var below := InsertBelow(kids[c], e, next);
        ReattachTimes(no, kids, seps, c, below.0, below.1, p);
    }
  }

  // ---------------------------------------------------------------- the whole tree

  /** bson_btree_insert turns the left-to-right contents into the list insertion of the new entry. */
  lemma {:induction false} InsertRefinesList(t: Tree, h: nat, e: Entry, next: nat)
    requires Shaped(t, h, true) && Sorted(Flat(t))
    ensures Flat(Insert(t, e, next).0) == Inserted(Flat(t), e)
    ensures Sorted(Flat(Insert(t, e, next).0))
  {
    hide Rank, Sorted, Shaped;
    InsertBelowFlat(t, h, true, e, next);
    InsertedSorted(Flat(t), e);
    var g := InsertBelow(t, e, next).0;
    if g.Split? {
      FlatAllPair(g.left, g.right);
    }
  }

  /** It keeps every structural rule, the tree growing by a level exactly when the root splits. */
  lemma InsertKeepsShape(t: Tree, h: nat, e: Entry, next: nat)
    requires Shaped(t, h, true) && Sorted(Flat(t))
    ensures Shaped(Insert(t, e, next).0, if InsertBelow(t, e, next).0.Kept? then h else h + 1, true)
  {
    hide Rank, Sorted, Inserted;
    InsertBelowShaped(t, h, true, e, next);
    var g := InsertBelow(t, e, next).0;
    if g.Split? {
      assert SepsMatch([g.left, g.right], [g.sep]);
    }
  }

  /** Every page keeps its number and its one parent, and the pages allocated are exactly the new ones. */
  lemma {:induction false} InsertNumbersPages(t: Tree, e: Entry, next: nat, p: nat)
    requires Bounded(t)
    ensures Times(Insert(t, e, next).0, p) == Times(t, p) + Within(next, Insert(t, e, next).1, p)
  {
    hide Rank, Inserted, Bounded;
    InsertBelowTimes(t, e, next, p);
    var g := InsertBelow(t, e, next).0;
    if g.Split? {
      TimesAllPair(g.left, g.right, p);
    }
  }

  // ---------------------------------------------------------------- occupancy

  /** 96^n. */
  function Pow96(n: nat): (r: int)
    ensures r >= 1
  {
    if n == 0 then 1 else 96 * Pow96(n - 1)
  }

  lemma {:induction false} SumOfKids(kids: seq<Tree>, h: nat, least: int)
    requires forall i | 0 <= i < |kids| :: Shaped(kids[i], h, false) && |Flat(kids[i])| >= least
    requires least >= 0
    ensures |FlatAll(kids)| >= |kids| * least
  {
    if kids == [] {
    } else {
      SumOfKids(kids[1..], h, least);
      assert |kids| * least == (|kids| - 1) * least + least;
    }
  }

  lemma {:induction false} Occupancy(t: Tree, h: nat)
    requires Shaped(t, h, false)
    ensures |Flat(t)| >= 90 * Pow96(h)
  {
    match t
    case Leaf(_, _) =>
    case Node(_, kids, seps) =>
      var least := LEAF_MIN * Pow96(h - 1);
      forall i | 0 <= i < |kids| ensures |Flat(kids[i])| >= least {
        Occupancy(kids[i], h - 1);
      }
      SumOfKids(kids, h - 1, least);
      Bytes.Scale(96, |kids|, least);
  }

  /** A tree of h + 1 >= 2 levels holds at least 2 * 90 * 96^(h - 1) entries, dead ones included. */
  lemma {:induction false} HeightBound(t: Tree, h: nat)
    requires Shaped(t, h, true) && h >= 1
    ensures |Flat(t)| >= 180 * Pow96(h - 1)
  {
    var least := LEAF_MIN * Pow96(h - 1);
    forall i | 0 <= i < |t.kids| ensures |Flat(t.kids[i])| >= least {
      Occupancy(t.kids[i], h - 1);
    }
    SumOfKids(t.kids, h - 1, least);
    Bytes.Scale(2, |t.kids|, least);
  }

  /** A leaf splits at its 181st entry, 91 to 90, and an internal page at its 191st key, the 96th moving up. */
  lemma SplitSizes(no: nat, es: seq<Entry>, kids: seq<Tree>, seps: seq<Key>, next: nat)
    requires |es| <= 181 && |seps| <= 191 && |kids| == |seps| + 1
    ensures var g := MakeLeaf(no, es, next);
            if |es| <= 180 then g == Kept(Leaf(no, es))
            else g.Split? && g.left == Leaf(no, es[..91]) && g.right == Leaf(next, es[91..]) && g.sep == es[91].key
    ensures var g := MakeNode(no, kids, seps, next);
            if |seps| <= 190 then g == Kept(Node(no, kids, seps))
            else g.Split? && g.left == Node(no, kids[..96], seps[..95]) && g.right == Node(next, kids[96..], seps[96..])
                 && g.sep == seps[95]
  {
  }
}
