/**
  * The open index files of a collection: entering a document in all of them and taking one
  * out again (collection.py's _index_update_for_insert and _index_update_for_delete).
  */
module Handles {
  import opened Codec
  import opened KeyOrder
  import opened TreeRuns
  import opened IndexKeys
  import opened Agreement
  import opened CollectionState
  import opened BTreeFile
  import Grammar
  import Tree

  // ---------------------------------------------------------------- several trees in one heap

  ghost function Objects(hs: seq<BTree>): set<object>
    reads hs
  {
    set k, o | 0 <= k < |hs| && o in hs[k].Repr :: o
  }

  /** Every tree is well formed and no two share a page. */
  ghost predicate Separate(hs: seq<BTree>)
    reads hs, Objects(hs)
  {
    && (forall k | 0 <= k < |hs| :: hs[k] in hs[k].Repr && hs[k].Valid())
    && forall j, k | 0 <= j < k < |hs| :: hs[j].Repr !! hs[k].Repr
  }

  ghost function States(hs: seq<BTree>): (xs: seq<Index>)
    reads hs
    ensures |xs| == |hs|
  {
    seq(|hs|, k requires 0 <= k < |hs| reads hs => hs[k].Abs())
  }

  /** One call on an index, for any value of it. */
  ghost function Call(x: Index, op: Op): (Index, Reply) {
    if Tree.Bounded(x.tree) then Step(x, op) else (x, Ok)
  }

  lemma CallIsStep(x: Index, op: Op)
    requires Wf(x)
    ensures Tree.Bounded(x.tree) && Call(x, op) == Step(x, op)
  {
    hide Wf, Step;
    WfBounded(x);
  }

  lemma ValidWf(h: BTree)
    requires h.Valid()
    ensures Wf(h.Abs()) && h in h.Repr
  {
    hide Wf;
  }

  method InsertInto(hs: seq<BTree>, k: nat, key: Key, off: nat) returns (duplicate: bool)
    requires Separate(hs) && k < |hs|
    modifies hs[k].Repr
    ensures Call(old(States(hs))[k], InsertOp(key, off)).1 == if duplicate then DuplicateKey else Ok
    ensures States(hs) == old(States(hs))[k := Call(old(States(hs))[k], InsertOp(key, off)).0]
    ensures fresh(hs[k].Repr - old(hs[k].Repr))
    ensures forall j | 0 <= j < |hs| && j != k :: hs[j].Repr == old(hs[j].Repr)
    ensures Separate(hs)
  {
    hide BTree.Valid, BTree.Heap, Wf, Step, Tree.Bounded, Call;
    ValidWf(hs[k]);
    CallIsStep(hs[k].Abs(), InsertOp(key, off));
    duplicate := hs[k].InsertKey(key, off);
    ValidWf(hs[k]);
    assert forall j | 0 <= j < |hs| && j != k :: hs[j].Abs() == old(hs[j].Abs());
    forall j | 0 <= j < |hs| && j != k ensures hs[j].Repr !! hs[k].Repr {
      assert hs[j].Repr == old(hs[j].Repr);
      StillApart(hs[j].Repr, old(hs[k].Repr), hs[k].Repr);
    }
  }

  lemma StillApart(a: set<object>, b: set<object>, more: set<object>)
    requires a !! b && a !! more - b
    ensures a !! more
  {
  }

  method DeleteFrom(hs: seq<BTree>, k: nat, key: Key, off: nat)
    requires Separate(hs) && k < |hs|
    modifies hs[k].Repr
    ensures States(hs) == old(States(hs))[k := Call(old(States(hs))[k], DeleteOp(key, off)).0]
    ensures forall j | 0 <= j < |hs| :: hs[j].Repr == old(hs[j].Repr)
    ensures Separate(hs)
  {
    hide BTree.Valid, BTree.Heap, Wf, Step, Tree.Bounded, Call;
    ValidWf(hs[k]);
    CallIsStep(hs[k].Abs(), DeleteOp(key, off));
    hs[k].DeleteKey(key, off);
    ValidWf(hs[k]);
    assert forall j | 0 <= j < |hs| && j != k :: hs[j].Abs() == old(hs[j].Abs());
  }

  // ---------------------------------------------------------------- what one index answers

  /** The state the trees must be in: those of `st`, which numbers its next record `off`. */
  ghost predicate Serves(hs: seq<BTree>, paths: seq<Path>, st: State, off: nat)
    reads hs
  {
    Inv(st) && st.paths == paths && |hs| == |paths| && States(hs) == st.indexes && st.end == off
  }

  lemma BlocksIsCall(st: State, doc: seq<Field>, k: nat)
    requires Inv(st) && k < |st.paths| && IndexableAt(doc, st.paths[k])
    ensures var c := Call(st.indexes[k], InsertOp(KeyAt(doc, st.paths[k]), st.end));
            && (Blocks(st, k, doc) <==> c.1 == DuplicateKey) && c.0 == AddedTo(st, doc, k)
            && (Blocks(st, k, doc) ==> c.0 == st.indexes[k])
            && Call(AddedTo(st, doc, k), DeleteOp(KeyAt(doc, st.paths[k]), st.end)).0 == RolledBack(st, doc, k)
  {
    hide Wf, KeyAt, Indexable, Increasing, Grounded, Covers, RunOrdered, Step;
    var x, op := st.indexes[k], InsertOp(KeyAt(doc, st.paths[k]), st.end);
    assert Agrees(st.rows, st.paths[k], x);
    CallIsStep(x, op);
    StepKeepsWf(x, op);
    CallIsStep(Step(x, op).0, DeleteOp(op.key, op.offset));
    RefusalChangesNothing(x, op);
  }

  lemma RefusalChangesNothing(x: Index, op: Op)
    requires Wf(x) && op.InsertOp?
    ensures Tree.Bounded(x.tree)
    ensures Step(x, op).1 == DuplicateKey ==> Step(x, op).0 == x
  {
    hide Wf;
    WfBounded(x);
  }

  // ---------------------------------------------------------------- all of them

  lemma InvSizes(st: State)
    requires Inv(st)
    ensures |st.indexes| == |st.paths|
  {
  }

  /** resolve_index_value and encode_btree_key; None when the latter raises. */
  method KeyFor(fs: seq<Field>, path: Path) returns (key: Grammar.Option<Key>)
    requires ValidValue(Document(fs))
    ensures key == if IndexableAt(fs, path) then Grammar.Some(KeyAt(fs, path)) else Grammar.None
  {
    ValueIsValid(fs, path);
    var value := ResolveIndexValue(fs, path);
    var encoded := EncodeKey(value);
    key := if encoded.Keyed? then Grammar.Some(encoded.key) else Grammar.None;
  }

  lemma ValueIsValid(fs: seq<Field>, path: Path)
    requires ValidValue(Document(fs))
    ensures ValidValue(IndexValue(fs, path))
  {
    hide DirectValue;
    DirectValid(Document(fs), path);
  }

  /** One turn of the insertion loop. */
  method EnterOne(hs: seq<BTree>, paths: seq<Path>, fs: seq<Field>, off: nat, k: nat, ghost st: State)
    returns (how: Entering, key: Grammar.Option<Key>)
    requires Inv(st) && st.paths == paths && |hs| == |paths| && st.end == off && ValidValue(Document(fs))
    requires k < |hs| && States(hs)[k] == st.indexes[k]
    requires Separate(hs)
    modifies hs[k].Repr
    ensures how.NoKey? <==> !IndexableAt(fs, paths[k])
    ensures !how.NoKey? ==> key == Grammar.Some(KeyAt(fs, paths[k])) && (how.Rejected? <==> Blocks(st, k, fs))
    ensures States(hs) == if how.Entered? then old(States(hs))[k := AddedTo(st, fs, k)] else old(States(hs))
    ensures fresh(hs[k].Repr - old(hs[k].Repr))
    ensures forall j | 0 <= j < |hs| && j != k :: hs[j].Repr == old(hs[j].Repr)
    ensures Separate(hs)
  {
    hide BTree.Valid, BTree.Heap, Wf, Step, Tree.Bounded, Call, Inv, Blocks, AddedTo, RolledBack, KeyAt, IndexableAt;
    hide ValidValue;
    key := KeyFor(fs, paths[k]);
    if key.None? {
      return NoKey, key;
    }
    BlocksIsCall(st, fs, k);
    var duplicate := InsertInto(hs, k, key.value, off);
    how := if duplicate then Rejected else Entered;
  }

  /** The insertion loop: how it ended, and under which keys the indexes before took the document. */
  method EnterUntil(hs: seq<BTree>, paths: seq<Path>, fs: seq<Field>, off: nat, ghost st: State)
    returns (how: Entering, keys: seq<Key>)
    requires Separate(hs) && Serves(hs, paths, st, off) && ValidValue(Document(fs))
    modifies Objects(hs)
    ensures how == HowEntered(st, fs) && |keys| == FirstHalt(st, fs)
    ensures forall j | 0 <= j < |keys| :: IndexableAt(fs, paths[j]) && keys[j] == KeyAt(fs, paths[j])
    ensures forall j | 0 <= j < |hs| :: States(hs)[j] == if j < |keys| then AddedTo(st, fs, j) else st.indexes[j]
    ensures forall j | 0 <= j < |hs| :: fresh(hs[j].Repr - old(hs[j].Repr))
    ensures Separate(hs)
  {
    hide BTree.Valid, BTree.Heap, Wf, Step, Tree.Bounded, Call, Inv, Blocks, AddedTo, RolledBack, KeyAt, IndexableAt;
    hide FirstHalt, ValidValue;
    keys := [];
    how := Entered;
    var k := 0;
    FirstHaltIs(st, fs);
    InvSizes(st);
    while k < |hs|
      invariant 0 <= k <= |hs| && |keys| == k && how == Entered
      invariant forall j | 0 <= j < k ::
                  IndexableAt(fs, paths[j]) && !Blocks(st, j, fs) && keys[j] == KeyAt(fs, paths[j])
      invariant forall j | 0 <= j < |hs| :: States(hs)[j] == if j < k then AddedTo(st, fs, j) else st.indexes[j]
      invariant forall j | 0 <= j < |hs| :: fresh(hs[j].Repr - old(hs[j].Repr))
      invariant Separate(hs)
    {
      var key;
      how, key := EnterOne(hs, paths, fs, off, k, st);
      if how != Entered {
        break;
      }
      keys := keys + [key.value];
      k := k + 1;
    }
  }

  /** The rollback loop. */
  method TakeBack(hs: seq<BTree>, paths: seq<Path>, fs: seq<Field>, keys: seq<Key>, off: nat, ghost st: State)
    requires Inv(st) && st.paths == paths && |hs| == |paths| && st.end == off && |keys| <= |hs|
    requires forall j | 0 <= j < |keys| :: IndexableAt(fs, paths[j]) && keys[j] == KeyAt(fs, paths[j])
    requires forall j | 0 <= j < |hs| :: States(hs)[j] == if j < |keys| then AddedTo(st, fs, j) else st.indexes[j]
    requires Separate(hs)
    modifies Objects(hs)
    ensures forall j | 0 <= j < |hs| :: States(hs)[j] == if j < |keys| then RolledBack(st, fs, j) else st.indexes[j]
    ensures forall j | 0 <= j < |hs| :: hs[j].Repr == old(hs[j].Repr)
    ensures Separate(hs)
  {
    hide BTree.Valid, BTree.Heap, Wf, Step, Tree.Bounded, Call, Inv, Blocks, AddedTo, RolledBack, KeyAt, IndexableAt;
    InvSizes(st);
    var k := 0;
    while k < |keys|
      invariant 0 <= k <= |keys|
      invariant forall j | 0 <= j < |hs| ::
                  States(hs)[j] ==
                  if j < k then RolledBack(st, fs, j) else if j < |keys| then AddedTo(st, fs, j) else st.indexes[j]
      invariant forall j | 0 <= j < |hs| :: hs[j].Repr == old(hs[j].Repr)
      invariant Separate(hs)
    {
      BlocksIsCall(st, fs, k);
      DeleteFrom(hs, k, keys[k], off);
      k := k + 1;
    }
  }

  /**
    * _index_update_for_insert: enter the document everywhere; or take back what was entered and
    * refuse; or raise where a value has no key, leaving what was entered.
    */
  method EnterAll(hs: seq<BTree>, paths: seq<Path>, fs: seq<Field>, off: nat, ghost st: State) returns (how: Entering)
    requires Separate(hs) && Serves(hs, paths, st, off) && ValidValue(Document(fs))
    modifies Objects(hs)
    ensures how == HowEntered(st, fs)
    ensures States(hs) == Add(st, fs, 1).indexes
    ensures forall j | 0 <= j < |hs| :: fresh(hs[j].Repr - old(hs[j].Repr))
    ensures Separate(hs)
  {
    hide BTree.Valid, BTree.Heap, Inv, Blocks, AddedTo, RolledBack, KeyAt, IndexableAt, FirstHalt, HowEntered;
    hide ValidValue;
    var keys;
    how, keys := EnterUntil(hs, paths, fs, off, st);
    AddedIndexes(st, fs);
    if how == Rejected {
      TakeBack(hs, paths, fs, keys, off, st);
    }
  }

  lemma AddedIndexes(st: State, doc: seq<Field>)
    requires Inv(st)
    ensures |Add(st, doc, 1).indexes| == |st.paths| == |st.indexes|
    ensures forall j | 0 <= j < FirstHalt(st, doc) :: IndexableAt(doc, st.paths[j])
    ensures forall j | 0 <= j < |st.paths| ::
              Add(st, doc, 1).indexes[j] ==
              if j >= FirstHalt(st, doc) then st.indexes[j]
              else if HowEntered(st, doc) != Rejected then AddedTo(st, doc, j)
              else RolledBack(st, doc, j)
  {
    hide Agrees, Increasing, Blocks, AddedTo, RolledBack, KeyAt, IndexableAt, FirstHalt, HowEntered;
    FirstHaltIs(st, doc);
  }

  /** _index_update_for_delete: the entry goes from every index, or up to the first at which the value has no key. */
  method RemoveAll(hs: seq<BTree>, paths: seq<Path>, fs: seq<Field>, off: nat, ghost st: State, ghost i: nat)
    returns (raised: bool)
    requires Separate(hs) && st.paths == paths && |hs| == |paths| && States(hs) == st.indexes
    requires i < |st.rows| && st.rows[i].off == off && st.rows[i].doc == fs && ValidValue(Document(fs))
    modifies Objects(hs)
    ensures Formed(st) && States(hs) == Removed(st, i).indexes
    ensures raised <==> FirstKeyless(paths, fs) < |paths|
    ensures forall j | 0 <= j < |hs| :: hs[j].Repr == old(hs[j].Repr)
    ensures Separate(hs)
  {
    hide BTree.Valid, BTree.Heap, Wf, Step, Tree.Bounded, Call, RemovedFrom, KeyAt, IndexableAt, ValidValue;
    hide FirstKeyless;
    HandlesFormed(hs, st);
    var k := 0;
    while k < |hs|
      invariant 0 <= k <= FirstKeyless(paths, fs)
      invariant forall j | 0 <= j < |hs| :: States(hs)[j] == if j < k then RemovedFrom(st, i, j) else st.indexes[j]
      invariant forall j | 0 <= j < |hs| :: hs[j].Repr == old(hs[j].Repr)
      invariant Separate(hs)
    {
      var key := KeyFor(fs, paths[k]);
      if key.None? {
        return true;
      }
      RemovalIsCall(st, i, k);
      DeleteFrom(hs, k, key.value, off);
      k := k + 1;
    }
    raised := false;
  }

  lemma HandlesFormed(hs: seq<BTree>, st: State)
    requires Separate(hs) && |hs| == |st.paths| && States(hs) == st.indexes
    ensures Formed(st)
  {
    hide BTree.Valid, BTree.Heap, Wf;
    forall k | 0 <= k < |hs| ensures Wf(st.indexes[k]) {
      ValidWf(hs[k]);
      assert States(hs)[k] == hs[k].Abs();
    }
  }

  lemma RemovalIsCall(st: State, i: nat, k: nat)
    requires Formed(st) && i < |st.rows| && k < FirstKeyless(st.paths, st.rows[i].doc)
    ensures Call(st.indexes[k], DeleteOp(KeyAt(st.rows[i].doc, st.paths[k]), st.rows[i].off)).0 == RemovedFrom(st, i, k)
  {
    hide Wf, KeyAt, IndexableAt, Step, FirstKeyless;
    CallIsStep(st.indexes[k], DeleteOp(KeyAt(st.rows[i].doc, st.paths[k]), st.rows[i].off));
  }
}
