/**
  * Whole runs of index operations from the empty index.
  *
  * `Step` is one call of bson_btree_insert, bson_btree_delete or bson_btree_lookup on
  * the state of an index file.  The invariants hold in every reachable state, and a
  * unique index answers every call of every run as a map from keys to offsets would.
  */
module TreeRuns {
  import opened KeyOrder
  import opened Tree
  import opened TreeInsert
  import opened TreeSearch

  datatype Op =
    | InsertOp(key: Key, offset: nat)
    | DeleteOp(key: Key, offset: nat)
    | LookupOp(key: Key)

  datatype Reply = Ok | DuplicateKey | Found(offsets: seq<nat>)

  /** An index file: its tree, the number of the next page to be allocated, and the UNIQUE flag. */
  datatype Index = Index(tree: Tree, next: nat, unique: bool)

  /** bson_btree_create: one empty root leaf, page 1. */
  function Create(unique: bool): Index {
    Index(Leaf(1, []), 2, unique)
  }

  /** Depth of the leaves. */
  function Height(t: Tree): nat {
    if t.Leaf? || t.kids == [] then 0 else 1 + Height(t.kids[0])
  }

  lemma {:induction false} ShapedHeight(t: Tree, h: nat, root: bool)
    requires Shaped(t, h, root)
    ensures Height(t) == h
  {
    if t.Node? {
      ShapedHeight(t.kids[0], h - 1, false);
    }
  }

  /** What holds in every reachable index. */
  ghost predicate Wf(x: Index) {
    && Shaped(x.tree, Height(x.tree), true)
    && Sorted(Flat(x.tree))
    && (forall p :: Times(x.tree, p) == Within(1, x.next, p))
    && x.next > 1
    && (x.unique ==> LastLive(Flat(x.tree)))
    && Outgrown(x.tree)
  }

  /** The root is a leaf until more entries have been made than a leaf can hold. */
  ghost predicate Outgrown(t: Tree) {
    t.Node? ==> |Flat(t)| > LEAF_MAX
  }

  lemma InsertOutgrown(t: Tree, h: nat, e: Entry, next: nat)
    requires Shaped(t, h, true) && Sorted(Flat(t)) && Outgrown(t)
    ensures Bounded(t) && Outgrown(Insert(t, e, next).0)
  {
    hide Rank, Sorted;
    InsertRefinesList(t, h, e, next);
    if t.Leaf? {
      InsertedLength(t.entries, e);
    }
  }

  lemma InsertedLength(s: seq<Entry>, e: Entry)
    ensures |Inserted(s, e)| == |s| + 1
  {
  }

  lemma DeleteOutgrown(t: Tree, h: nat, key: Key, offset: nat)
    requires Shaped(t, h, true) && Outgrown(t)
    ensures Bounded(t) && Outgrown(Delete(t, key, offset))
  {
    hide Rank;
    DeleteMarksOne(t, h, key, offset);
  }

  ghost function Step(x: Index, op: Op): (Index, Reply)
    requires Bounded(x.tree)
  {
    match op
    case InsertOp(key, offset) =>
      if x.unique && Duplicate(x.tree, key) then (x, DuplicateKey)
      else
        var (t, next) := Insert(x.tree, Entry(key, offset, false), x.next);
        (Index(t, next, x.unique), Ok)
    case DeleteOp(key, offset) => (x.(tree := Delete(x.tree, key, offset)), Ok)
    case LookupOp(key) => (x, Found(Lookup(x.tree, key)))
  }

  lemma CreateWf(unique: bool)
    ensures Wf(Create(unique)) && Flat(Create(unique).tree) == []
  {
  }

  /** Every structural rule survives every step. */
  lemma StepKeepsWf(x: Index, op: Op)
    requires Wf(x)
    ensures Wf(Step(x, op).0)
    ensures Step(x, op).0.unique == x.unique
  {
    hide Rank, Sorted, LastLive, Shaped, Times, HasLive, Outgrown;
    var h := Height(x.tree);
    match op
    case InsertOp(key, offset) =>
      if !(x.unique && Duplicate(x.tree, key)) {
        var e := Entry(key, offset, false);
        InsertRefinesList(x.tree, h, e, x.next);
        InsertKeepsShape(x.tree, h, e, x.next);
        InsertOutgrown(x.tree, h, e, x.next);
        ShapedHeight(Insert(x.tree, e, x.next).0, if InsertBelow(x.tree, e, x.next).0.Kept? then h else h + 1, true);
        forall p ensures Times(Insert(x.tree, e, x.next).0, p) == Within(1, Insert(x.tree, e, x.next).1, p) {
          InsertNumbersPages(x.tree, e, x.next, p);
        }
        if x.unique {
          DuplicateIsGlobal(x.tree, h, key);
          InsertKeepsLastLive(Flat(x.tree), e);
        }
      }
    case DeleteOp(key, offset) =>
      var t := Delete(x.tree, key, offset);
      DeleteMarksOne(x.tree, h, key, offset);
      DeleteOutgrown(x.tree, h, key, offset);
      KillKeeps(Flat(x.tree), DeleteAt(x.tree, key, offset));
      ShapedHeight(t, h, true);
      forall p ensures Times(t, p) == Within(1, x.next, p) {
        KillAtTimes(x.tree, DeleteAt(x.tree, key, offset), p);
      }
    case LookupOp(_) =>
  }

  /** The state after a run. */
  ghost function Run(unique: bool, ops: seq<Op>): (x: Index)
    ensures Wf(x) && x.unique == unique
  {
    if ops == [] then CreateWf(unique); Create(unique)
    else
      var x := Run(unique, ops[..|ops| - 1]);
      StepKeepsWf(x, ops[|ops| - 1]);
      Step(x, ops[|ops| - 1]).0
  }

  /** An index of any reachable state with two or more levels holds 2 * 90 * 96^(levels - 2) entries or more. */
  lemma {:induction false} ReachableHeightBound(unique: bool, ops: seq<Op>)
    requires Height(Run(unique, ops).tree) >= 1
    ensures |Flat(Run(unique, ops).tree)| >= 180 * Pow96(Height(Run(unique, ops).tree) - 1)
  {
    hide Run, Sorted, LastLive, Rank, Times, Pow96, Shaped, Height, Flat;
    HeightBound(Run(unique, ops).tree, Height(Run(unique, ops).tree));
  }

  // ---------------------------------------------------------------- a unique index is a map

  /** The reference: live keys, by rank, with their offsets. */
  type Model = map<int, nat>

  ghost function ModelStep(m: Model, op: Op): (Model, Reply) {
    match op
    case InsertOp(key, offset) =>
      if Rank(key) in m then (m, DuplicateKey) else (m[Rank(key) := offset], Ok)
    case DeleteOp(key, offset) =>
      (if Rank(key) in m && m[Rank(key)] == offset then m - {Rank(key)} else m, Ok)
    case LookupOp(key) =>
      (m, Found(if Rank(key) in m then [m[Rank(key)]] else []))
  }

  /** `m` holds exactly the live entries. */
  ghost predicate Holds(s: seq<Entry>, m: Model) {
    && (forall i | 0 <= i < |s| && !s[i].dead :: Rank(s[i].key) in m && m[Rank(s[i].key)] == s[i].offset)
    && (forall r | r in m :: exists i :: 0 <= i < |s| && !s[i].dead && Rank(s[i].key) == r)
  }

  lemma HoldsLive(s: seq<Entry>, m: Model, key: Key)
    requires Holds(s, m)
    ensures HasLive(s, key) <==> Rank(key) in m
  {
    hide Rank;
    if Rank(key) in m {
      var i :| 0 <= i < |s| && !s[i].dead && Rank(s[i].key) == Rank(key);
      assert LiveHit(s[i], key);
    }
  }

  lemma {:induction false} LiveOffsetsUnique(s: seq<Entry>, i: nat, key: Key)
    requires LastLive(s) && i < |s| && LiveHit(s[i], key)
    ensures LiveOffsets(s, key) == [s[i].offset]
  {
    hide Rank;
    var a, b := s[..i], s[i..];
    assert s == a + b;
    LiveOffsetsConcat(a, b, key);
    LiveOffsetsEmpty(a, key);
    LiveOffsetsEmpty(b[1..], key);
    assert forall j | 0 <= j < |a| :: a[j] == s[j];
    assert forall j | 0 <= j < |b[1..]| :: b[1..][j] == s[i + 1 + j];
  }

  lemma InsertHolds(s: seq<Entry>, m: Model, e: Entry)
    requires Holds(s, m) && !e.dead && Rank(e.key) !in m
    ensures Holds(Inserted(s, e), m[Rank(e.key) := e.offset])
  {
    hide Rank;
    var n, r := UpperBound(s, e.key), Inserted(s, e);
    var m' := m[Rank(e.key) := e.offset];
    forall i | 0 <= i < |r| && !r[i].dead ensures Rank(r[i].key) in m' && m'[Rank(r[i].key)] == r[i].offset {
      assert r[i] == if i < n then s[i] else if i == n then e else s[i - 1];
    }
    forall k | k in m' ensures exists i :: 0 <= i < |r| && !r[i].dead && Rank(r[i].key) == k {
      if k == Rank(e.key) {
        assert r[n] == e;
      } else {
        var i :| 0 <= i < |s| && !s[i].dead && Rank(s[i].key) == k;
        assert r[if i < n then i else i + 1] == s[i];
      }
    }
  }

  lemma KillHolds(s: seq<Entry>, m: Model, i: nat)
    requires Holds(s, m) && LastLive(s) && i < |s| && !s[i].dead
    ensures Holds(Kill(s, i), m - {Rank(s[i].key)})
  {
    hide Rank;
    var r, m' := Kill(s, i), m - {Rank(s[i].key)};
    forall j | 0 <= j < |r| && !r[j].dead ensures Rank(r[j].key) in m' && m'[Rank(r[j].key)] == r[j].offset {
      assert r[j] == s[j] && j != i;
      assert Rank(s[j].key) != Rank(s[i].key);
    }
    forall k | k in m' ensures exists j :: 0 <= j < |r| && !r[j].dead && Rank(r[j].key) == k {
      var j :| 0 <= j < |s| && !s[j].dead && Rank(s[j].key) == k;
      assert r[j] == s[j];
    }
  }

  /** A delete of a live pair that meets an older, dead entry of the same pair first. */
  ghost predicate Shadowed(x: Index, op: Op)
    requires Bounded(x.tree)
  {
    op.DeleteOp? && exists i :: 0 <= i < |Flat(x.tree)| && LiveHit(Flat(x.tree)[i], op.key)
                                && Flat(x.tree)[i].offset == op.offset && EarlierPair(x.tree, op.key, op.offset, i)
  }

  /**
    * One step of a unique index gives the map's reply, and leaves what the map's step leaves
    * exactly when it is not a shadowed delete.
    */
  lemma StepRefinesModel(x: Index, m: Model, op: Op)
    requires Wf(x) && x.unique && Holds(Flat(x.tree), m)
    ensures Bounded(x.tree)
    ensures Step(x, op).1 == ModelStep(m, op).1
    ensures Holds(Flat(Step(x, op).0.tree), ModelStep(m, op).0) <==> !Shadowed(x, op)
  {
    hide Rank, Sorted, Holds, Shaped, LastLive, Times, Shadowed;
    var h, s := Height(x.tree), Flat(x.tree);
    HoldsLive(s, m, op.key);
    OnlyDeletesShadowed(x, op);
    match op
    case InsertOp(key, offset) =>
      DuplicateIsGlobal(x.tree, h, key);
      if Rank(key) !in m {
        InsertRefinesList(x.tree, h, Entry(key, offset, false), x.next);
        InsertHolds(s, m, Entry(key, offset, false));
      }
    case DeleteOp(key, offset) =>
      DeleteMarksOne(x.tree, h, key, offset);
      if Rank(key) in m && m[Rank(key)] == offset {
        UniqueDeleteHits(x, m, key, offset);
      } else {
        UniqueDeleteMisses(x, m, key, offset);
      }
    case LookupOp(key) =>
      UniqueLookupExact(x.tree, h, key);
      if Rank(key) in m {
        var i := LiveAt(s, m, key);
        LiveOffsetsUnique(s, i, key);
      } else {
        LiveOffsetsEmpty(s, key);
      }
  }

  lemma OnlyDeletesShadowed(x: Index, op: Op)
    requires Bounded(x.tree)
    ensures !op.DeleteOp? ==> !Shadowed(x, op)
  {
  }

  lemma LiveAt(s: seq<Entry>, m: Model, key: Key) returns (i: nat)
    requires Holds(s, m) && Rank(key) in m
    ensures i < |s| && LiveHit(s[i], key) && s[i].offset == m[Rank(key)]
  {
    hide Rank;
    i :| 0 <= i < |s| && !s[i].dead && Rank(s[i].key) == Rank(key);
  }

  lemma UniqueDeleteHits(x: Index, m: Model, key: Key, offset: nat)
    requires Wf(x) && x.unique && Holds(Flat(x.tree), m)
    requires Rank(key) in m && m[Rank(key)] == offset
    ensures Holds(Kill(Flat(x.tree), DeleteAt(x.tree, key, offset)), m - {Rank(key)}) <==>
              !Shadowed(x, DeleteOp(key, offset))
  {
    hide Rank, Sorted, Shaped, LastLive, Times, Holds, EarlierPair, DeleteAt;
    var s := Flat(x.tree);
    var i := LiveAt(s, m, key);
    UniqueDeleteExact(x.tree, Height(x.tree), i, key);
    KillHolds(s, m, i);
    OneLive(s, key);
    if EarlierPair(x.tree, key, offset, i) {
      KillEarlier(s, m, DeleteAt(x.tree, key, offset), i);
    }
  }

  lemma OneLive(s: seq<Entry>, key: Key)
    requires LastLive(s)
    ensures forall i, j | 0 <= i < |s| && 0 <= j < |s| && LiveHit(s[i], key) && LiveHit(s[j], key) :: i == j
  {
    hide Rank;
  }

  /** Marking an entry before the live one leaves the live one. */
  lemma KillEarlier(s: seq<Entry>, m: Model, n: nat, i: nat)
    requires n < i < |s| && !s[i].dead
    ensures !Holds(Kill(s, n), m - {Rank(s[i].key)})
  {
    hide Rank;
    assert Kill(s, n)[i] == s[i];
  }

  /** Deleting a pair that is not live re-marks a dead entry or marks none. */
  lemma UniqueDeleteMisses(x: Index, m: Model, key: Key, offset: nat)
    requires Wf(x) && x.unique && Holds(Flat(x.tree), m)
    requires Rank(key) in m ==> m[Rank(key)] != offset
    ensures Kill(Flat(x.tree), DeleteAt(x.tree, key, offset)) == Flat(x.tree)
    ensures !Shadowed(x, DeleteOp(key, offset))
  {
    hide Rank, Sorted, Shaped, LastLive, Times, EarlierPair;
    var s, a := Flat(x.tree), LeafStart(x.tree, key);
    var n := FirstPair(s[a..], key, offset);
    if a + n < |s| {
      assert s[a + n] == s[a..][n];
    }
  }

  /** The pairs a run inserts. */
  ghost predicate NoPairTwice(ops: seq<Op>) {
    forall i, j | 0 <= i < j < |ops| && ops[i].InsertOp? && ops[j].InsertOp? ::
      Rank(ops[i].key) != Rank(ops[j].key) || ops[i].offset != ops[j].offset
  }

  /** Every entry came from an insertion of the run. */
  ghost predicate FromOps(s: seq<Entry>, ops: seq<Op>) {
    forall i | 0 <= i < |s| :: CameFrom(s[i], ops)
  }

  ghost predicate CameFrom(e: Entry, ops: seq<Op>) {
    exists j :: 0 <= j < |ops| && Inserts(ops[j], e)
  }

  predicate Inserts(op: Op, e: Entry) {
    op.InsertOp? && op.key == e.key && op.offset == e.offset
  }

  lemma {:induction false} RunPairs(unique: bool, ops: seq<Op>)
    requires NoPairTwice(ops)
    ensures FromOps(Flat(Run(unique, ops).tree), ops)
    ensures PairsDistinct(Flat(Run(unique, ops).tree))
  {
    hide Rank, Sorted, Shaped, Times, LastLive, Step;
    if ops == [] {
      CreateWf(unique);
    } else {
      var ops', op := ops[..|ops| - 1], ops[|ops| - 1];
      assert forall j | 0 <= j < |ops'| :: ops'[j] == ops[j];
      RunPairs(unique, ops');
      StepPairs(Run(unique, ops'), ops', op);
      assert ops' + [op] == ops;
    }
  }

  lemma StepPairs(x: Index, ops: seq<Op>, op: Op)
    requires Wf(x) && NoPairTwice(ops + [op])
    requires FromOps(Flat(x.tree), ops) && PairsDistinct(Flat(x.tree))
    ensures FromOps(Flat(Step(x, op).0.tree), ops + [op])
    ensures PairsDistinct(Flat(Step(x, op).0.tree))
  {
    hide Rank, Sorted, Shaped, Times, LastLive, FromOps, PairsDistinct, NoPairTwice;
    var s := Flat(x.tree);
    FromMoreOps(s, ops, op);
    match op
    case InsertOp(key, offset) =>
      if !(x.unique && Duplicate(x.tree, key)) {
        InsertRefinesList(x.tree, Height(x.tree), Entry(key, offset, false), x.next);
        InsertPairs(s, ops, op, Entry(key, offset, false));
      }
    case DeleteOp(key, offset) =>
      DeleteMarksOne(x.tree, Height(x.tree), key, offset);
      KillPairs(s, ops + [op], DeleteAt(x.tree, key, offset));
    case LookupOp(_) =>
  }

  lemma FromMoreOps(s: seq<Entry>, ops: seq<Op>, op: Op)
    requires FromOps(s, ops)
    ensures FromOps(s, ops + [op])
  {
    forall i | 0 <= i < |s| ensures CameFrom(s[i], ops + [op]) {
      var j :| 0 <= j < |ops| && Inserts(ops[j], s[i]);
      assert Inserts((ops + [op])[j], s[i]);
    }
  }

  lemma InsertPairs(s: seq<Entry>, ops: seq<Op>, op: Op, e: Entry)
    requires FromOps(s, ops) && PairsDistinct(s) && Inserts(op, e) && NoPairTwice(ops + [op])
    ensures FromOps(Inserted(s, e), ops + [op]) && PairsDistinct(Inserted(s, e))
  {
    hide Rank, Inserts, CameFrom, PairsDistinct, NoPairTwice;
    var n, r, all := UpperBound(s, e.key), Inserted(s, e), ops + [op];
    FromMoreOps(s, ops, op);
    assert CameFrom(e, all) by {
      IsLast(ops, op, e);
    }
    forall i | 0 <= i < |r| ensures CameFrom(r[i], all) {
      assert r[i] == if i < n then s[i] else if i == n then e else s[i - 1];
    }
    forall i | 0 <= i < |s| ensures s[i].offset == e.offset ==> Rank(s[i].key) != Rank(e.key) {
      NewPair(s[i], ops, op, e);
    }
    SplicePairs(s, n, e);
  }

  lemma IsLast(ops: seq<Op>, op: Op, e: Entry)
    requires Inserts(op, e)
    ensures CameFrom(e, ops + [op])
  {
    assert Inserts((ops + [op])[|ops|], e);
  }

  lemma NewPair(was: Entry, ops: seq<Op>, op: Op, e: Entry)
    requires CameFrom(was, ops) && Inserts(op, e) && NoPairTwice(ops + [op])
    ensures was.offset == e.offset ==> Rank(was.key) != Rank(e.key)
  {
    hide Rank;
    var all := ops + [op];
    var j :| 0 <= j < |ops| && Inserts(ops[j], was);
    assert all[j] == ops[j] && all[|ops|] == op;
  }

  lemma SplicePairs(s: seq<Entry>, n: nat, e: Entry)
    requires PairsDistinct(s) && n <= |s|
    requires forall i | 0 <= i < |s| :: s[i].offset == e.offset ==> Rank(s[i].key) != Rank(e.key)
    ensures PairsDistinct(Splice(s, n, e))
  {
    hide Rank;
    var r := Splice(s, n, e);
    forall i, j | 0 <= i < j < |r| && r[i].offset == r[j].offset ensures Rank(r[i].key) != Rank(r[j].key) {
      assert r[i] == if i < n then s[i] else if i == n then e else s[i - 1];
      assert r[j] == if j < n then s[j] else if j == n then e else s[j - 1];
    }
  }

  lemma KillPairs(s: seq<Entry>, ops: seq<Op>, i: nat)
    requires FromOps(s, ops) && PairsDistinct(s)
    ensures FromOps(Kill(s, i), ops) && PairsDistinct(Kill(s, i))
  {
    hide Rank;
    var r := Kill(s, i);
    forall j | 0 <= j < |r| ensures CameFrom(r[j], ops) {
      var k :| 0 <= k < |ops| && Inserts(ops[k], s[j]);
      assert Inserts(ops[k], r[j]);
    }
  }

  /** The map after a run, and the replies of both. */
  ghost function ModelRun(ops: seq<Op>): Model {
    if ops == [] then map[] else ModelStep(ModelRun(ops[..|ops| - 1]), ops[|ops| - 1]).0
  }

  /** No delete of the run is shadowed when it is made. */
  ghost predicate NeverShadowed(ops: seq<Op>) {
    forall n | 0 <= n < |ops| :: !ShadowedAt(ops, n)
  }

  ghost predicate ShadowedAt(ops: seq<Op>, n: nat)
    requires n < |ops|
  {
    WfBounded(Run(true, ops[..n]));
    Shadowed(Run(true, ops[..n]), ops[n])
  }

  lemma WfBounded(x: Index)
    requires Wf(x)
    ensures Bounded(x.tree)
  {
  }

  lemma ShadowedBefore(ops: seq<Op>, k: nat, n: nat)
    requires n < k <= |ops|
    ensures ShadowedAt(ops[..k], n) <==> ShadowedAt(ops, n)
  {
    hide Run, Wf, Shadowed;
    assert ops[..k][..n] == ops[..n];
  }

  /** A run in which no (key, offset) pair is inserted twice never shadows a delete. */
  lemma NoPairTwiceNeverShadowed(ops: seq<Op>)
    requires NoPairTwice(ops)
    ensures NeverShadowed(ops)
  {
    hide Rank, Run, Wf, Shadowed;
    forall n | 0 <= n < |ops| ensures !ShadowedAt(ops, n) {
      assert forall j | 0 <= j < n :: ops[..n][j] == ops[j];
      RunPairs(true, ops[..n]);
      DistinctUnshadowed(Run(true, ops[..n]), ops[n]);
    }
  }

  lemma DistinctUnshadowed(x: Index, op: Op)
    requires Wf(x) && x.unique && PairsDistinct(Flat(x.tree))
    ensures Bounded(x.tree) && !Shadowed(x, op)
  {
    hide Rank, Sorted, Shaped, LastLive, Times, EarlierPair, PairsDistinct;
    if Shadowed(x, op) {
      var i :| 0 <= i < |Flat(x.tree)| && LiveHit(Flat(x.tree)[i], op.key) && Flat(x.tree)[i].offset == op.offset
               && EarlierPair(x.tree, op.key, op.offset, i);
      UniqueDeleteExact(x.tree, Height(x.tree), i, op.key);
    }
  }

  /** After the run the index holds what the map holds. */
  ghost predicate MapHolds(ops: seq<Op>) {
    Holds(Flat(Run(true, ops).tree), ModelRun(ops))
  }

  lemma EmptyMapHolds()
    ensures MapHolds([])
  {
  }

  lemma LastStep(ops: seq<Op>)
    requires ops != [] && MapHolds(ops[..|ops| - 1])
    ensures MapHolds(ops) <==> !ShadowedAt(ops, |ops| - 1)
  {
    hide Rank, Step, Holds, ModelStep, Wf, Shadowed, Flat;
    var before, op := ops[..|ops| - 1], ops[|ops| - 1];
    StepRefinesModel(Run(true, before), ModelRun(before), op);
  }

  /**
    * Over every run, a unique index holds what the map holds after each of its calls exactly
    * when no delete of the run is shadowed.
    */
  lemma {:induction false} UniqueIndexIsAMapIff(ops: seq<Op>)
    ensures (forall n | 0 <= n <= |ops| :: MapHolds(ops[..n])) <==> NeverShadowed(ops)
  {
    hide MapHolds, ShadowedAt;
    if ops == [] {
      EmptyMapHolds();
      assert forall n | 0 <= n <= |ops| :: ops[..n] == [];
    } else {
      var k := |ops| - 1;
      var before := ops[..k];
      UniqueIndexIsAMapIff(before);
      forall n | 0 <= n < k ensures ShadowedAt(before, n) <==> ShadowedAt(ops, n) {
        ShadowedBefore(ops, k, n);
      }
      assert forall n | 0 <= n <= k :: before[..n] == ops[..n];
      assert before[..k] == before && ops[..k + 1] == ops;
      if MapHolds(before) {
        LastStep(ops);
      }
    }
  }

  /** Then it also gives the map's reply to whatever call comes next. */
  lemma UniqueIndexIsAMap(ops: seq<Op>, op: Op)
    requires NeverShadowed(ops)
    ensures MapHolds(ops)
    ensures Step(Run(true, ops), op).1 == ModelStep(ModelRun(ops), op).1
  {
    hide Rank, Step, Holds, ModelStep, Wf, Shadowed, Flat, Run, ModelRun, ShadowedAt;
    UniqueIndexIsAMapIff(ops);
    assert ops[..|ops|] == ops;
    StepRefinesModel(Run(true, ops), ModelRun(ops), op);
  }

  /**
    * A shadowed delete: the pair (key, 0) inserted, deleted and inserted again cannot be
    * deleted, because the delete stops at the dead entry.
    */
  lemma PairTwiceFails(key: Key)
    ensures var ops := [InsertOp(key, 0), DeleteOp(key, 0), InsertOp(key, 0), DeleteOp(key, 0)];
            && ModelRun(ops) == map[]
            && Flat(Run(true, ops).tree) == [Entry(key, 0, true), Entry(key, 0, false)]
  {
    hide Rank, Stands, Run, ModelRun;
    var ins, del := [InsertOp(key, 0)], [DeleteOp(key, 0)];
    var dead, live := Entry(key, 0, true), Entry(key, 0, false);
    EmptyStands();
    InsertStands([], ins, key, [], [live]);
    DeleteStands(ins, ins + del, key, [live], [dead]);
    InsertStands(ins + del, ins + del + ins, key, [dead], [dead] + [live]);
    DeleteStands(ins + del + ins, ins + del + ins + del, key, [dead] + [live], [dead] + [live]);
    StandsIs(ins + del + ins + del, [dead] + [live], map[]);
    assert ins + del + ins + del == [InsertOp(key, 0), DeleteOp(key, 0), InsertOp(key, 0), DeleteOp(key, 0)];
  }

  /** The run leaves one leaf with these entries, and the map `m`. */
  ghost predicate Stands(ops: seq<Op>, s: seq<Entry>, m: Model) {
    Run(true, ops) == Index(Leaf(1, s), 2, true) && ModelRun(ops) == m
  }

  lemma StandsIs(ops: seq<Op>, s: seq<Entry>, m: Model)
    requires Stands(ops, s, m)
    ensures Flat(Run(true, ops).tree) == s && ModelRun(ops) == m
  {
    hide Run, ModelRun;
  }

  lemma EmptyStands()
    ensures Stands([], [], map[])
  {
  }

  lemma InsertStands(ops: seq<Op>, more: seq<Op>, key: Key, s: seq<Entry>, after: seq<Entry>)
    requires more == ops + [InsertOp(key, 0)] && Stands(ops, s, map[]) && after == s + [Entry(key, 0, false)]
    requires |s| < 2 && forall i | 0 <= i < |s| :: s[i] == Entry(key, 0, true)
    ensures Stands(more, after, map[Rank(key) := 0])
  {
    hide Rank, Step, Bounded, Run, ModelRun;
    RunsTo(ops, InsertOp(key, 0));
    SmallInsert(key, s);
  }

  lemma DeleteStands(ops: seq<Op>, more: seq<Op>, key: Key, s: seq<Entry>, after: seq<Entry>)
    requires more == ops + [DeleteOp(key, 0)] && Stands(ops, s, map[Rank(key) := 0])
    requires 0 < |s| <= 2 && forall i | 0 <= i < |s| :: s[i].key == key && s[i].offset == 0
    requires after == s[0 := Entry(key, 0, true)]
    ensures Stands(more, after, map[])
  {
    hide Rank, Step, Bounded, Run, ModelRun;
    RunsTo(ops, DeleteOp(key, 0));
    SmallDelete(key, s, after);
    assert map[Rank(key) := 0] - {Rank(key)} == map[];
  }

  /** One more operation. */
  lemma RunsTo(before: seq<Op>, op: Op)
    ensures Bounded(Run(true, before).tree) && Run(true, before + [op]) == Step(Run(true, before), op).0
    ensures ModelRun(before + [op]) == ModelStep(ModelRun(before), op).0
  {
    hide Rank, Step, ModelStep, Wf;
    WfBounded(Run(true, before));
    assert (before + [op])[..|before|] == before;
  }

  lemma SmallInsert(key: Key, s: seq<Entry>)
    requires |s| < 2 && forall i | 0 <= i < |s| :: s[i] == Entry(key, 0, true)
    ensures Step(Index(Leaf(1, s), 2, true), InsertOp(key, 0)) ==
            (Index(Leaf(1, s + [Entry(key, 0, false)]), 2, true), Ok)
  {
    hide Rank;
    var e := Entry(key, 0, false);
    assert s[0..] == s && !HasLive(s, key);
    assert UpperBound(s, key) == |s|;
    assert Inserted(s, e) == s + [e];
  }

  lemma SmallDelete(key: Key, s: seq<Entry>, after: seq<Entry>)
    requires 0 < |s| <= 2 && forall i | 0 <= i < |s| :: s[i].key == key && s[i].offset == 0
    requires after == s[0 := Entry(key, 0, true)]
    ensures Step(Index(Leaf(1, s), 2, true), DeleteOp(key, 0)) == (Index(Leaf(1, after), 2, true), Ok)
  {
    hide Rank;
    assert s[0..] == s;
    assert Kill(s, 0) == after;
  }

  // ---------------------------------------------------------------- where the promises fail

  /** `n` insertions of one key at offsets 0, 1, ... */
  function SameKey(key: Key, n: nat): seq<Op> {
    if n == 0 then [] else SameKey(key, n - 1) + [InsertOp(key, n - 1)]
  }

  function SameEntries(key: Key, n: nat): (s: seq<Entry>)
    ensures |s| == n
    ensures forall i | 0 <= i < n :: s[i] == Entry(key, i, false)
  {
    if n == 0 then [] else SameEntries(key, n - 1) + [Entry(key, n - 1, false)]
  }

  lemma {:induction false} SameKeyFits(key: Key, n: nat)
    requires n <= LEAF_MAX
    ensures Run(false, SameKey(key, n)) == Index(Leaf(1, SameEntries(key, n)), 2, false)
  {
    hide Rank, Sorted, Step, Wf;
    if n == 0 {
    } else {
      SameKeyFits(key, n - 1);
      SameKeyStep(key, n);
      var ops := SameKey(key, n);
      assert ops[..|ops| - 1] == SameKey(key, n - 1);
    }
  }

  lemma SameKeyStep(key: Key, n: nat)
    requires 0 < n <= LEAF_MAX
    ensures Step(Index(Leaf(1, SameEntries(key, n - 1)), 2, false), InsertOp(key, n - 1)).0
            == Index(Leaf(1, SameEntries(key, n)), 2, false)
  {
    hide Rank, Sorted;
    var e, s := Entry(key, n - 1, false), SameEntries(key, n - 1);
    assert UpperBound(s, key) == n - 1;
    assert Inserted(s, e) == SameEntries(key, n);
  }

  /** The tree they build once the root leaf has split: 91 entries on page 1, 90 on page 2. */
  function SplitTree(key: Key): Tree {
    var all := SameEntries(key, LEAF_MAX + 1);
    Node(3, [Leaf(1, all[..LEAF_MIN + 1]), Leaf(2, all[LEAF_MIN + 1..])], [key])
  }

  lemma {:induction false} SameKeySplits(key: Key)
    ensures Run(false, SameKey(key, LEAF_MAX + 1)).tree == SplitTree(key)
  {
    hide Rank, Sorted, SplitTree;
    SameKeyFits(key, LEAF_MAX);
    var ops, e, s := SameKey(key, LEAF_MAX + 1), Entry(key, LEAF_MAX, false), SameEntries(key, LEAF_MAX);
    assert ops[..|ops| - 1] == SameKey(key, LEAF_MAX);
    assert UpperBound(s, key) == LEAF_MAX;
    InsertSplits(s, e);
    assert Run(false, ops) == Step(Run(false, SameKey(key, LEAF_MAX)), InsertOp(key, LEAF_MAX)).0;
  }

  /** In that tree the left child holds keys equal to its right separator, against btree.h's half-open interval. */
  lemma SplitTreeNotHalfOpen(key: Key)
    ensures var t := Run(false, SameKey(key, 181)).tree;
            && t.Node? && |t.kids| == |t.seps| + 1 == 2 && t.kids[0].Leaf? && |t.kids[0].entries| == 91
            && Rank(t.kids[0].entries[90].key) == Rank(t.seps[0]) && !HalfOpen(t.kids, t.seps, 0)
  {
    hide Rank, Run;
    SameKeySplits(key);
    var t := SplitTree(key);
    assert Flat(t.kids[0])[LEAF_MIN].key == key;
  }

  lemma InsertSplits(s: seq<Entry>, e: Entry)
    requires |s| == LEAF_MAX && s == SameEntries(e.key, LEAF_MAX) && e == Entry(e.key, LEAF_MAX, false)
    ensures Insert(Leaf(1, s), e, 2).0 == SplitTree(e.key)
  {
    hide Rank, Sorted;
    assert UpperBound(s, e.key) == LEAF_MAX;
    assert Inserted(s, e) == SameEntries(e.key, LEAF_MAX + 1);
  }

  /**
    * btree.h promises that lookup reports every live match.  After 181 insertions of one
    * key into a non-unique index, at offsets 0 to 180, all 181 are live but it reports 90
    * of them, and a delete of the first entry leaves it live.
    */
  lemma NonUniqueLookupMisses(key: Key)
    ensures var t := Run(false, SameKey(key, 181)).tree;
            |LiveOffsets(Flat(t), key)| == 181 && |Lookup(t, key)| == 90 && Delete(t, key, 0) == t
  {
    hide Rank, Sorted, Run;
    SameKeySplits(key);
    var t := SplitTree(key);
    var all := SameEntries(key, LEAF_MAX + 1);
    FlatAllPair(t.kids[0], t.kids[1]);
    assert all == all[..LEAF_MIN + 1] + all[LEAF_MIN + 1..];
    assert ChildIndex([key], key) == 1;
    assert t.kids[..1] == [t.kids[0]];
    FlatAllPair(t.kids[0], t.kids[0]);
    assert LeafStart(t, key) == LEAF_MIN + 1;
    AllLive(all, key);
    AllLive(all[LEAF_MIN + 1..], key);
    assert FirstPair(all[LEAF_MIN + 1..], key, 0) == LEAF_MIN;
    KillNone(t.kids, LEAF_MAX + 1);
  }

  lemma {:induction false} AllLive(s: seq<Entry>, key: Key)
    requires forall i | 0 <= i < |s| :: LiveHit(s[i], key)
    ensures |LiveOffsets(s, key)| == |s|
  {
    hide Rank, LiveHit;
    if s == [] {
    } else {
      AllLive(s[1..], key);
    }
  }

  lemma {:induction false} KillNone(ts: seq<Tree>, i: nat)
    requires i >= |FlatAll(ts)|
    ensures KillAll(ts, i) == ts
  {
    if ts == [] {
    } else {
      KillNone(ts[1..], i - |Flat(ts[0])|);
    }
  }
}
