/**
  * Descent, lookup, range and delete on the tree, and what they find.
  *
  * Descent goes right of a separator equal to the key, and a leaf split may cut a run
  * of equal keys, so a search can start inside a run.  The results below say exactly
  * what that costs: nothing in a unique index, and the entries before the descended
  * leaf otherwise.
  */
module TreeSearch {
  import opened KeyOrder
  import opened Tree
  import opened TreeInsert

  // ---------------------------------------------------------------- list-level meaning

  predicate Hit(e: Entry, key: Key) {
    Rank(e.key) == Rank(key)
  }

  predicate LiveHit(e: Entry, key: Key) {
    Hit(e, key) && !e.dead
  }

  /** The record offsets a complete lookup reports, in tree order. */
  function LiveOffsets(s: seq<Entry>, key: Key): seq<nat> {
    if s == [] then []
    else (if LiveHit(s[0], key) then [s[0].offset] else []) + LiveOffsets(s[1..], key)
  }

  ghost predicate HasLive(s: seq<Entry>, key: Key) {
    exists i :: 0 <= i < |s| && LiveHit(s[i], key)
  }

  /** Where a delete of (key, offset) lands: the first such pair, live or dead, or the end. */
  function FirstPair(s: seq<Entry>, key: Key, offset: nat): (n: nat)
    ensures n <= |s|
    ensures n < |s| ==> Hit(s[n], key) && s[n].offset == offset
    ensures forall i | 0 <= i < n :: !(Hit(s[i], key) && s[i].offset == offset)
  {
    if s == [] || (Hit(s[0], key) && s[0].offset == offset) then 0
    else 1 + FirstPair(s[1..], key, offset)
  }

  function Kill(s: seq<Entry>, i: nat): seq<Entry> {
    if i < |s| then s[i := s[i].(dead := true)] else s
  }

  /** A bound of a range scan. */
  datatype Bound = Unbounded | At(key: Key, inclusive: bool)

  predicate AboveLow(e: Entry, low: Bound) {
    low.At? ==> Rank(low.key) < Rank(e.key) || (low.inclusive && Hit(e, low.key))
  }

  predicate BelowHigh(e: Entry, high: Bound) {
    high.At? ==> Rank(e.key) < Rank(high.key) || (high.inclusive && Hit(e, high.key))
  }

  /** The live entries of the interval, in key order. */
  function Interval(s: seq<Entry>, low: Bound, high: Bound): seq<nat> {
    if s == [] then []
    else (if AboveLow(s[0], low) && BelowHigh(s[0], high) && !s[0].dead then [s[0].offset] else [])
         + Interval(s[1..], low, high)
  }

  // ---------------------------------------------------------------- the tree operations

  /** The number of entries in leaves before the one the descent reaches. */
  function LeafStart(t: Tree, key: Key): (a: nat)
    requires Bounded(t)
    ensures a <= |Flat(t)|
    decreases t
  {
    match t
    case Leaf(_, _) => 0
    case Node(_, kids, seps) =>
      var c := ChildIndex(seps, key);
      FlatAllSplit(kids, c);
      |FlatAll(kids[..c])| + LeafStart(kids[c], key)
  }

  /** The leaf the descent reaches. */
  function DescendTo(t: Tree, key: Key): (l: Tree)
    requires Bounded(t)
    ensures l.Leaf?
    decreases t
  {
    match t
    case Leaf(_, _) => t
    case Node(_, kids, seps) => DescendTo(kids[ChildIndex(seps, key)], key)
  }

  function Lookup(t: Tree, key: Key): seq<nat>
    requires Bounded(t)
  {
    LiveOffsets(Flat(t)[LeafStart(t, key)..], key)
  }

  /** The uniqueness check: a live entry from the descended leaf onward. */
  ghost predicate Duplicate(t: Tree, key: Key)
    requires Bounded(t)
  {
    HasLive(Flat(t)[LeafStart(t, key)..], key)
  }

  /** The position of the entry a delete marks. */
  function DeleteAt(t: Tree, key: Key, offset: nat): nat
    requires Bounded(t)
  {
    LeafStart(t, key) + FirstPair(Flat(t)[LeafStart(t, key)..], key, offset)
  }

  /** The tree with entry `i` marked dead. */
  function KillAt(t: Tree, i: nat): Tree {
    match t
    case Leaf(no, es) => Leaf(no, Kill(es, i))
    case Node(no, kids, seps) => Node(no, KillAll(kids, i), seps)
  }

  function KillAll(ts: seq<Tree>, i: nat): (r: seq<Tree>)
    ensures |r| == |ts|
  {
    if ts == [] then []
    else if i < |Flat(ts[0])| then [KillAt(ts[0], i)] + ts[1..]
    else [ts[0]] + KillAll(ts[1..], i - |Flat(ts[0])|)
  }

  function Delete(t: Tree, key: Key, offset: nat): Tree
    requires Bounded(t)
  {
    KillAt(t, DeleteAt(t, key, offset))
  }

  function RangeScan(t: Tree, low: Bound, high: Bound): seq<nat>
    requires Bounded(t)
  {
    Interval(Flat(t)[if low.At? then LeafStart(t, low.key) else 0..], low, high)
  }

  // ---------------------------------------------------------------- where the descent lands

  lemma SliceMiddle<T>(a: seq<T>, m: seq<T>, b: seq<T>, at: nat, n: nat)
    requires at + n <= |m|
    ensures (a + m + b)[|a| + at..][..n] == m[at..][..n]
  {
  }

  /**
    * The descended leaf is the stretch of the list around the end of the key's run: the
    * last entry not above the key is in it, if there is one.
    */
  lemma {:induction false} DescentReachesRunEnd(t: Tree, h: nat, root: bool, key: Key)
    requires Shaped(t, h, root) && Sorted(Flat(t))
    ensures LeafStart(t, key) + |DescendTo(t, key).entries| <= |Flat(t)|
    ensures Flat(t)[LeafStart(t, key)..][..|DescendTo(t, key).entries|] == DescendTo(t, key).entries
    ensures UpperBound(Flat(t), key) == LeafStart(t, key) + UpperBound(DescendTo(t, key).entries, key)
    ensures LeafStart(t, key) > 0 ==> UpperBound(Flat(t), key) > LeafStart(t, key)
    decreases t
  {
    hide Rank, Sorted, UpperBound, FlatAll, ChildIndex, SepsMatch;
    match t
    case Leaf(_, _) =>
    case Node(no, kids, seps) =>
      var c := ChildIndex(seps, key);
      AroundChild(kids, seps, key, c);
      DescentReachesRunEnd(kids[c], h - 1, false, key);
      var a, m, b := FlatAll(kids[..c]), Flat(kids[c]), FlatAll(kids[c + 1..]);
      UpperBoundMiddle(a, m, b, key);
      SliceMiddle(a, m, b, LeafStart(kids[c], key), |DescendTo(kids[c], key).entries|);
      assert c > 0 ==> UpperBound(m, key) > 0;
  }

  // ---------------------------------------------------------------- lookup

  lemma {:induction false} LiveOffsetsConcat(a: seq<Entry>, b: seq<Entry>, key: Key)
    ensures LiveOffsets(a + b, key) == LiveOffsets(a, key) + LiveOffsets(b, key)
  {
    hide LiveHit;
    if a == [] {
      assert a + b == b && [] + LiveOffsets(b, key) == LiveOffsets(b, key);
    } else {
      var first := if LiveHit(a[0], key) then [a[0].offset] else [];
      assert (a + b)[0] == a[0] && (a + b)[1..] == a[1..] + b;
      LiveOffsetsConcat(a[1..], b, key);
      assert first + (LiveOffsets(a[1..], key) + LiveOffsets(b, key)) == LiveOffsets(a, key) + LiveOffsets(b, key);
    }
  }

  lemma {:induction false} LiveOffsetsEmpty(s: seq<Entry>, key: Key)
    ensures LiveOffsets(s, key) == [] <==> !HasLive(s, key)
  {
    hide Rank, LiveHit;
    if s == [] {
    } else {
      LiveOffsetsEmpty(s[1..], key);
      assert forall i | 0 < i < |s| :: s[i] == s[1..][i - 1];
      if HasLive(s[1..], key) {
        var i :| 0 <= i < |s[1..]| && LiveHit(s[1..][i], key);
        assert LiveHit(s[i + 1], key);
      }
    }
  }

  /**
    * A lookup reports every live match exactly when no live match lies in a leaf before
    * the one the descent reaches.  (btree.h promises every live match without condition.)
    */
  lemma {:induction false} LookupCompleteIff(t: Tree, key: Key)
    requires Bounded(t)
    ensures Lookup(t, key) == LiveOffsets(Flat(t), key) <==> !HasLive(Flat(t)[..LeafStart(t, key)], key)
  {
    hide Rank, LiveHit;
    var a := LeafStart(t, key);
    assert Flat(t) == Flat(t)[..a] + Flat(t)[a..];
    LiveOffsetsConcat(Flat(t)[..a], Flat(t)[a..], key);
    LiveOffsetsEmpty(Flat(t)[..a], key);
  }

  /** No separator on the descent path equals the key: something the descent itself can observe. */
  predicate NoSeparatorEquals(t: Tree, key: Key)
    requires Bounded(t)
    decreases t
  {
    t.Node? ==>
      && (forall i | 0 <= i < |t.seps| :: Rank(t.seps[i]) != Rank(key))
      && NoSeparatorEquals(t.kids[ChildIndex(t.seps, key)], key)
  }

  lemma {:induction false} NothingBeforeLeaf(t: Tree, h: nat, root: bool, key: Key)
    requires Shaped(t, h, root) && Sorted(Flat(t)) && NoSeparatorEquals(t, key)
    ensures forall i | 0 <= i < LeafStart(t, key) :: Rank(Flat(t)[i].key) < Rank(key)
    decreases t
  {
    hide Rank, Sorted;
    match t
    case Leaf(_, _) =>
    case Node(_, kids, seps) =>
      var c := ChildIndex(seps, key);
      AroundChild(kids, seps, key, c);
      NothingBeforeLeaf(kids[c], h - 1, false, key);
      assert c > 0 ==> Flat(kids[c])[0].key == seps[c - 1] && Rank(seps[c - 1]) != Rank(key);
      assert c == 0 ==> FlatAll(kids[..c]) == [];
      StartBelow(FlatAll(kids[..c]), Flat(kids[c]), FlatAll(kids[c + 1..]), LeafStart(kids[c], key), key);
  }

  /** A prefix of a sorted list whose end lies below the key. */
  lemma StartBelow(a: seq<Entry>, m: seq<Entry>, b: seq<Entry>, n: nat, key: Key)
    requires Sorted(a + m + b) && n <= |m| && forall i | 0 <= i < n :: Rank(m[i].key) < Rank(key)
    requires a != [] ==> m != [] && Rank(m[0].key) < Rank(key)
    ensures forall i | 0 <= i < |a| + n :: Rank((a + m + b)[i].key) < Rank(key)
  {
    hide Rank;
    var s := a + m + b;
    forall i | 0 <= i < |a| + n ensures Rank(s[i].key) < Rank(key) {
      if i < |a| {
        assert s[|a|] == m[0];
      } else {
        assert s[i] == m[i - |a|];
      }
    }
  }

  lemma {:induction false} LookupCompleteWithoutEqualSeparator(t: Tree, h: nat, key: Key)
    requires Shaped(t, h, true) && Sorted(Flat(t)) && NoSeparatorEquals(t, key)
    ensures Lookup(t, key) == LiveOffsets(Flat(t), key)
  {
    hide Rank, Sorted;
    NothingBeforeLeaf(t, h, true, key);
    LookupCompleteIff(t, key);
  }

  // ---------------------------------------------------------------- unique indexes

  /** Of the entries with one key only the last may be live. */
  ghost predicate LastLive(s: seq<Entry>) {
    forall i, j | 0 <= i < j < |s| && Rank(s[i].key) == Rank(s[j].key) :: s[i].dead
  }

  /** In a unique tree every live entry lies in the leaf its key descends to, or after it. */
  lemma {:induction false} LiveIsReached(t: Tree, h: nat, key: Key)
    requires Shaped(t, h, true) && Sorted(Flat(t)) && LastLive(Flat(t))
    ensures !HasLive(Flat(t)[..LeafStart(t, key)], key)
  {
    hide Rank;
    DescentReachesRunEnd(t, h, true, key);
    var s, a, n := Flat(t), LeafStart(t, key), UpperBound(Flat(t), key);
    forall i | 0 <= i < |s[..a]| ensures !LiveHit(s[..a][i], key) {
      assert s[..a][i] == s[i] && Rank(s[i].key) <= Rank(s[n - 1].key) <= Rank(key);
    }
  }

  lemma {:induction false} UniqueLookupExact(t: Tree, h: nat, key: Key)
    requires Shaped(t, h, true) && Sorted(Flat(t)) && LastLive(Flat(t))
    ensures Lookup(t, key) == LiveOffsets(Flat(t), key)
  {
    hide Rank, Sorted, LastLive;
    LiveIsReached(t, h, key);
    LookupCompleteIff(t, key);
  }

  /** The uniqueness check is global, although it starts at the descended leaf. */
  lemma {:induction false} DuplicateIsGlobal(t: Tree, h: nat, key: Key)
    requires Shaped(t, h, true) && Sorted(Flat(t)) && LastLive(Flat(t))
    ensures Duplicate(t, key) <==> HasLive(Flat(t), key)
  {
    hide Rank, Sorted, LastLive, LiveHit;
    UniqueLookupExact(t, h, key);
    LiveOffsetsEmpty(Flat(t), key);
    LiveOffsetsEmpty(Flat(t)[LeafStart(t, key)..], key);
  }

  lemma InsertKeepsLastLive(s: seq<Entry>, e: Entry)
    requires Sorted(s) && LastLive(s) && !HasLive(s, e.key)
    ensures LastLive(Inserted(s, e))
  {
    hide Rank, UpperBound;
    var n := UpperBound(s, e.key);
    var r := Inserted(s, e);
    forall i, j | 0 <= i < j < |r| ensures Rank(r[i].key) == Rank(r[j].key) ==> r[i].dead {
      if j == n {
        assert r[i] == s[i];
        assert !LiveHit(s[i], e.key);
      } else if i == n {
        assert r[j] == s[j - 1] && Rank(s[n].key) <= Rank(s[j - 1].key);
      } else {
        assert r[i] == s[if i < n then i else i - 1] && r[j] == s[if j < n then j else j - 1];
      }
    }
  }

  lemma KillKeeps(s: seq<Entry>, i: nat)
    ensures Sorted(s) ==> Sorted(Kill(s, i))
    ensures LastLive(s) ==> LastLive(Kill(s, i))
    ensures |Kill(s, i)| == |s|
  {
    hide Rank;
  }

  // ---------------------------------------------------------------- delete

  lemma {:induction false} KillAtFlat(t: Tree, i: nat)
    ensures Flat(KillAt(t, i)) == Kill(Flat(t), i)
    decreases t, 1
  {
    match t
    case Leaf(_, _) =>
    case Node(_, kids, _) => KillAllFlat(kids, i);
  }

  lemma {:induction false} KillAllFlat(ts: seq<Tree>, i: nat)
    ensures FlatAll(KillAll(ts, i)) == Kill(FlatAll(ts), i)
    decreases ts, 0
  {
    if ts != [] {
      var f := Flat(ts[0]);
      if i < |f| {
        KillAtFlat(ts[0], i);
        assert KillAll(ts, i)[1..] == ts[1..];
      } else {
        KillAllFlat(ts[1..], i - |f|);
        assert KillAll(ts, i)[1..] == KillAll(ts[1..], i - |f|);
      }
    }
  }

  lemma {:induction false} KillAtShaped(t: Tree, h: nat, root: bool, i: nat)
    requires Shaped(t, h, root)
    ensures Shaped(KillAt(t, i), h, root)
    decreases t, 1
  {
    match t
    case Leaf(_, _) =>
    case Node(no, kids, seps) =>
      var kids' := KillAll(kids, i);
      KillAllShaped(kids, h - 1, i);
      forall j | 0 <= j < |seps| ensures StartsWith(kids'[j + 1], seps[j]) {
        assert StartsWith(kids[j + 1], seps[j]);
      }
  }

  lemma {:induction false} KillAllShaped(ts: seq<Tree>, h: nat, i: nat)
    requires forall j | 0 <= j < |ts| :: Shaped(ts[j], h, false)
    ensures forall j | 0 <= j < |ts| :: Shaped(KillAll(ts, i)[j], h, false)
    ensures forall j | 0 <= j < |ts| :: Flat(ts[j]) != [] ==>
              Flat(KillAll(ts, i)[j]) != [] && Flat(KillAll(ts, i)[j])[0].key == Flat(ts[j])[0].key
    decreases ts, 0
  {
    if ts != [] {
      var f, r := Flat(ts[0]), KillAll(ts, i);
      if i < |f| {
        KillAtShaped(ts[0], h, false, i);
        KillAtFlat(ts[0], i);
        assert forall j | 0 < j < |ts| :: r[j] == ts[j];
      } else {
        KillAllShaped(ts[1..], h, i - |f|);
        assert forall j | 0 < j < |ts| :: r[j] == KillAll(ts[1..], i - |f|)[j - 1] && ts[j] == ts[1..][j - 1];
      }
    }
  }

  lemma {:induction false} KillAtTimes(t: Tree, i: nat, p: nat)
    ensures Times(KillAt(t, i), p) == Times(t, p)
    decreases t, 1
  {
    match t
    case Leaf(_, _) =>
    case Node(_, kids, _) => KillAllTimes(kids, i, p);
  }

  lemma {:induction false} KillAllTimes(ts: seq<Tree>, i: nat, p: nat)
    ensures TimesAll(KillAll(ts, i), p) == TimesAll(ts, p)
    decreases ts, 0
  {
    if ts != [] {
      var f := Flat(ts[0]);
      if i < |f| {
        KillAtTimes(ts[0], i, p);
        assert KillAll(ts, i)[1..] == ts[1..];
      } else {
        KillAllTimes(ts[1..], i - |f|, p);
        assert KillAll(ts, i)[1..] == KillAll(ts[1..], i - |f|);
      }
    }
  }

  /** A delete changes at most the one entry it marks, and keeps the shape. */
  lemma {:induction false} DeleteMarksOne(t: Tree, h: nat, key: Key, offset: nat)
    requires Shaped(t, h, true)
    ensures Flat(Delete(t, key, offset)) == Kill(Flat(t), DeleteAt(t, key, offset))
    ensures Shaped(Delete(t, key, offset), h, true)
  {
    KillAtFlat(t, DeleteAt(t, key, offset));
    KillAtShaped(t, h, true, DeleteAt(t, key, offset));
  }

  /** No (key, offset) pair occurs twice, dead entries included. */
  ghost predicate PairsDistinct(s: seq<Entry>) {
    forall i, j | 0 <= i < j < |s| && s[i].offset == s[j].offset :: Rank(s[i].key) != Rank(s[j].key)
  }

  lemma LiveInPrefix(s: seq<Entry>, a: nat, i: nat, key: Key)
    requires a <= |s| && i < |s| && LiveHit(s[i], key)
    ensures i < a ==> HasLive(s[..a], key)
  {
    hide Rank;
    if i < a {
      assert LiveHit(s[..a][i], key);
    }
  }

  /** The same pair between the descended leaf and position `i`: the delete would stop there. */
  ghost predicate EarlierPair(t: Tree, key: Key, offset: nat, i: nat)
    requires Bounded(t)
  {
    exists j :: LeafStart(t, key) <= j < i && j < |Flat(t)| && Hit(Flat(t)[j], key) && Flat(t)[j].offset == offset
  }

  /** In a unique tree a delete marks the live entry asked for exactly when no earlier entry has its pair. */
  lemma UniqueDeleteExact(t: Tree, h: nat, i: nat, key: Key)
    requires Shaped(t, h, true) && Sorted(Flat(t)) && LastLive(Flat(t))
    requires i < |Flat(t)| && LiveHit(Flat(t)[i], key)
    ensures DeleteAt(t, key, Flat(t)[i].offset) == i <==> !EarlierPair(t, key, Flat(t)[i].offset, i)
    ensures DeleteAt(t, key, Flat(t)[i].offset) <= i
    ensures PairsDistinct(Flat(t)) ==> !EarlierPair(t, key, Flat(t)[i].offset, i)
  {
    hide Rank, Sorted, LastLive, Shaped, Flat;
    var s, offset := Flat(t), Flat(t)[i].offset;
    var a := LeafStart(t, key);
    LiveIsReached(t, h, key);
    LiveInPrefix(s, a, i, key);
    var n := FirstPair(s[a..], key, offset);
    assert s[a..][i - a] == s[i];
    assert n <= i - a;
    assert s[a + n] == s[a..][n];
    forall j | a <= j < a + n ensures !(Hit(s[j], key) && s[j].offset == offset) {
      assert s[j] == s[a..][j - a];
    }
  }

  // ---------------------------------------------------------------- range

  lemma {:induction false} IntervalConcat(a: seq<Entry>, b: seq<Entry>, low: Bound, high: Bound)
    ensures Interval(a + b, low, high) == Interval(a, low, high) + Interval(b, low, high)
  {
    hide Rank, AboveLow, BelowHigh, Interval;
    IntervalHead(a, low, high);
    if a == [] {
      assert a + b == b;
    } else {
      assert (a + b)[0] == a[0] && (a + b)[1..] == a[1..] + b;
      IntervalHead(a + b, low, high);
      IntervalConcat(a[1..], b, low, high);
    }
  }

  lemma {:induction false} IntervalHead(s: seq<Entry>, low: Bound, high: Bound)
    ensures s == [] ==> Interval(s, low, high) == []
    ensures s != [] && AboveLow(s[0], low) && BelowHigh(s[0], high) && !s[0].dead ==>
              Interval(s, low, high) == [s[0].offset] + Interval(s[1..], low, high)
    ensures s != [] && !(AboveLow(s[0], low) && BelowHigh(s[0], high) && !s[0].dead) ==>
              Interval(s, low, high) == Interval(s[1..], low, high)
  {
    hide Rank, AboveLow, BelowHigh;
  }

  lemma {:induction false} IntervalEmpty(s: seq<Entry>, low: Bound, high: Bound)
    requires forall i | 0 <= i < |s| :: s[i].dead || !AboveLow(s[i], low) || !BelowHigh(s[i], high)
    ensures Interval(s, low, high) == []
  {
    hide Rank, AboveLow, BelowHigh;
    if s == [] {
    } else {
      assert forall i | 0 <= i < |s[1..]| :: s[1..][i] == s[i + 1];
      IntervalEmpty(s[1..], low, high);
    }
  }

  /** Entries below the low bound do not count. */
  lemma {:induction false} SuffixInterval(s: seq<Entry>, a: nat, low: Bound, high: Bound)
    requires a <= |s| && forall i | 0 <= i < |s[..a]| :: s[..a][i].dead || !AboveLow(s[..a][i], low)
    ensures Interval(s[a..], low, high) == Interval(s, low, high)
  {
    hide Rank, BelowHigh, AboveLow, Interval;
    assert s == s[..a] + s[a..];
    IntervalConcat(s[..a], s[a..], low, high);
    IntervalEmpty(s[..a], low, high);
  }

  lemma {:induction false} BelowLow(s: seq<Entry>, a: nat, low: Bound)
    requires low.At? && a <= UpperBound(s, low.key)
    requires low.inclusive ==> !HasLive(s[..a], low.key)
    ensures forall i | 0 <= i < |s[..a]| :: s[..a][i].dead || !AboveLow(s[..a][i], low)
  {
    hide Rank;
    forall i | 0 <= i < |s[..a]| ensures s[..a][i].dead || !AboveLow(s[..a][i], low) {
      assert s[..a][i] == s[i] && Rank(s[i].key) <= Rank(low.key);
      assert low.inclusive ==> !LiveHit(s[..a][i], low.key);
    }
  }

  /**
    * A range scan is exact on every tree when it has no low bound or an exclusive one, and
    * with an inclusive low bound whenever no live entry of that key precedes the descended leaf.
    */
  lemma {:induction false} RangeExact(t: Tree, h: nat, low: Bound, high: Bound)
    requires Shaped(t, h, true) && Sorted(Flat(t))
    requires low.At? && low.inclusive ==> !HasLive(Flat(t)[..LeafStart(t, low.key)], low.key)
    ensures RangeScan(t, low, high) == Interval(Flat(t), low, high)
  {
    hide Rank, Sorted, BelowHigh, AboveLow, HasLive, Interval, LeafStart, UpperBound;
    if low.At? {
      DescentReachesRunEnd(t, h, true, low.key);
      BelowLow(Flat(t), LeafStart(t, low.key), low);
      SuffixInterval(Flat(t), LeafStart(t, low.key), low, high);
    } else {
      assert Flat(t)[0..] == Flat(t);
    }
  }

  /** The key itself satisfies the high bound. */
  predicate KeyBelow(key: Key, high: Bound) {
    high.At? ==> Rank(key) < Rank(high.key) || (high.inclusive && Rank(key) == Rank(high.key))
  }

  /** What an inclusive scan from `low` misses: live entries of that key before the descended leaf. */
  ghost predicate MissesLow(t: Tree, low: Bound, high: Bound)
    requires Bounded(t)
  {
    low.At? && low.inclusive && KeyBelow(low.key, high) && HasLive(Flat(t)[..LeafStart(t, low.key)], low.key)
  }

  /** A range scan, with any bounds, is exact when and only when it misses nothing at its low bound. */
  lemma RangeCompleteIff(t: Tree, h: nat, low: Bound, high: Bound)
    requires Shaped(t, h, true) && Sorted(Flat(t))
    ensures RangeScan(t, low, high) == Interval(Flat(t), low, high) <==> !MissesLow(t, low, high)
  {
    hide Rank, Sorted, AboveLow, BelowHigh, Interval, LeafStart, HasLive, KeyBelow;
    if MissesLow(t, low, high) {
      PrefixCounts(Flat(t), LeafStart(t, low.key), low, high);
    } else if low.At? && low.inclusive && !KeyBelow(low.key, high) {
      EmptyInterval(Flat(t), low, high);
      EmptyInterval(Flat(t)[LeafStart(t, low.key)..], low, high);
    } else {
      RangeExact(t, h, low, high);
    }
  }

  /** A live entry of the low key before position `a` is in the interval, but not in the scan from `a`. */
  lemma PrefixCounts(s: seq<Entry>, a: nat, low: Bound, high: Bound)
    requires a <= |s| && low.At? && low.inclusive && KeyBelow(low.key, high) && HasLive(s[..a], low.key)
    ensures Interval(s[a..], low, high) != Interval(s, low, high)
  {
    hide Rank, Interval;
    var p := s[..a];
    assert s == p + s[a..];
    IntervalConcat(p, s[a..], low, high);
    var i :| 0 <= i < |p| && LiveHit(p[i], low.key);
    assert p == p[..i] + p[i..];
    IntervalConcat(p[..i], p[i..], low, high);
    IntervalTakes(p[i..], low, high);
  }

  lemma IntervalTakes(s: seq<Entry>, low: Bound, high: Bound)
    requires s != [] && AboveLow(s[0], low) && BelowHigh(s[0], high) && !s[0].dead
    ensures Interval(s, low, high) != []
  {
  }

  lemma EmptyInterval(s: seq<Entry>, low: Bound, high: Bound)
    requires low.At? && !KeyBelow(low.key, high)
    ensures Interval(s, low, high) == []
  {
    hide Rank, Interval;
    IntervalEmpty(s, low, high);
  }

  lemma {:induction false} UniqueRangeExact(t: Tree, h: nat, low: Bound, high: Bound)
    requires Shaped(t, h, true) && Sorted(Flat(t)) && LastLive(Flat(t))
    ensures RangeScan(t, low, high) == Interval(Flat(t), low, high)
  {
    hide Rank, Sorted, LastLive;
    if low.At? {
      LiveIsReached(t, h, low.key);
    }
    RangeExact(t, h, low, high);
  }

  // ---------------------------------------------------------------- results by comparison

  /** What the bounds ask of a key, in terms of the comparison itself. */
  predicate InBounds(key: Key, low: Bound, high: Bound) {
    && (low.At? ==> if low.inclusive then Cmp(key, low.key) >= 0 else Cmp(key, low.key) > 0)
    && (high.At? ==> if high.inclusive then Cmp(key, high.key) <= 0 else Cmp(key, high.key) < 0)
  }

  lemma BoundsCompare(e: Entry, low: Bound, high: Bound)
    ensures AboveLow(e, low) && BelowHigh(e, high) <==> InBounds(e.key, low, high)
  {
    hide Rank, Cmp;
    if low.At? {
      CmpIsRankOrder(e.key, low.key);
    }
    if high.At? {
      CmpIsRankOrder(e.key, high.key);
    }
  }

  /** The offsets of an interval, entry by entry: each live entry in bounds adds its own, at the end. */
  lemma {:induction false} IntervalGrows(s: seq<Entry>, e: Entry, low: Bound, high: Bound)
    ensures Interval([], low, high) == []
    ensures Interval(s + [e], low, high) ==
            Interval(s, low, high) + if !e.dead && InBounds(e.key, low, high) then [e.offset] else []
  {
    hide AboveLow, BelowHigh, InBounds;
    BoundsCompare(e, low, high);
    IntervalConcat(s, [e], low, high);
    assert [e][1..] == [];
  }

  lemma {:induction false} LookupGrows(s: seq<Entry>, e: Entry, key: Key)
    ensures LiveOffsets([], key) == []
    ensures LiveOffsets(s + [e], key) ==
            LiveOffsets(s, key) + if !e.dead && Cmp(e.key, key) == 0 then [e.offset] else []
  {
    hide Rank, Cmp;
    CmpIsRankOrder(e.key, key);
    LiveOffsetsConcat(s, [e], key);
    assert [e][1..] == [];
  }

  /** The entry is live, for the record, and in bounds. */
  ghost predicate Reports(e: Entry, offset: nat, low: Bound, high: Bound) {
    !e.dead && e.offset == offset && InBounds(e.key, low, high)
  }

  lemma {:induction false} IntervalMembers(s: seq<Entry>, low: Bound, high: Bound, offset: nat)
    ensures offset in Interval(s, low, high) <==> exists i :: 0 <= i < |s| && Reports(s[i], offset, low, high)
  {
    hide AboveLow, BelowHigh, InBounds;
    if s == [] {
    } else {
      BoundsCompare(s[0], low, high);
      IntervalMembers(s[1..], low, high, offset);
      if i :| 0 <= i < |s[1..]| && Reports(s[1..][i], offset, low, high) {
        assert Reports(s[i + 1], offset, low, high);
      }
      if i :| 0 <= i < |s| && Reports(s[i], offset, low, high) {
        assert i > 0 ==> Reports(s[1..][i - 1], offset, low, high);
      }
    }
  }

  /** A range scan of a unique tree reports exactly the records of the live entries in bounds. */
  lemma {:induction false} UniqueRangeReports(t: Tree, h: nat, low: Bound, high: Bound, offset: nat)
    requires Shaped(t, h, true) && Sorted(Flat(t)) && LastLive(Flat(t))
    ensures offset in RangeScan(t, low, high) <==>
            exists i :: 0 <= i < |Flat(t)| && Reports(Flat(t)[i], offset, low, high)
  {
    hide Rank, Sorted, LastLive, Shaped, Flat, Reports;
    UniqueRangeExact(t, h, low, high);
    IntervalMembers(Flat(t), low, high, offset);
  }
}
