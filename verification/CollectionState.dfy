/**
  * A whole collection as a value, what each mutation of collection.py makes of it, and what
  * the mutations keep: every index goes on agreeing with the records, unless an insertion
  * raises half way.  Module CollectionRuns goes on from here to whole runs.
  */
module CollectionState {
  import opened Codec
  import opened KeyOrder
  import opened Tree
  import opened TreeSearch
  import opened TreeRuns
  import opened IndexKeys
  import opened Agreement

  /** Rows in file order, the end of data, and the indexes, each with its path and its direction. */
  datatype State = State(rows: seq<Row>, end: nat, paths: seq<Path>, descending: seq<bool>, indexes: seq<Index>)

  /** The indexes have different names: create_index makes the name from path and direction. */
  ghost predicate NamesDiffer(paths: seq<Path>, descending: seq<bool>) {
    && |paths| == |descending|
    && forall j, k | 0 <= j < k < |paths| :: paths[j] != paths[k] || descending[j] != descending[k]
  }

  ghost predicate Inv(st: State) {
    && Increasing(st.rows, st.end)
    && NamesDiffer(st.paths, st.descending)
    && |st.indexes| == |st.paths|
    && forall k | 0 <= k < |st.paths| :: Agrees(st.rows, st.paths[k], st.indexes[k])
  }

  ghost predicate ExactAt(st: State, k: nat)
    requires k < |st.paths| && |st.indexes| == |st.paths|
  {
    Exact(st.rows, st.paths[k], Flat(st.indexes[k].tree))
  }

  /** Unique indexes hold live entries for live rows only. */
  ghost predicate ExactUnique(st: State)
    requires |st.indexes| == |st.paths|
  {
    forall k | 0 <= k < |st.paths| && st.indexes[k].unique :: ExactAt(st, k)
  }

  ghost predicate CanIndex(paths: seq<Path>, doc: seq<Field>) {
    forall k | 0 <= k < |paths| :: IndexableAt(doc, paths[k])
  }

  // ---------------------------------------------------------------- inserting

  /** Index `k` refuses the document. */
  ghost predicate Blocks(st: State, k: nat, doc: seq<Field>)
    requires Inv(st) && k < |st.paths| && IndexableAt(doc, st.paths[k])
  {
    Step(st.indexes[k], InsertOp(KeyAt(doc, st.paths[k]), st.end)).1 == DuplicateKey
  }

  /** The insertion loop ends at index `k`: the value there has no key, or the index refuses it. */
  ghost predicate Halts(st: State, k: nat, doc: seq<Field>)
    requires Inv(st) && k < |st.paths|
  {
    IndexableAt(doc, st.paths[k]) ==> Blocks(st, k, doc)
  }

  /** The first true element, or the length. */
  function FirstTrue(bs: seq<bool>): (d: nat)
    ensures d <= |bs|
    ensures forall j | 0 <= j < d :: !bs[j]
    ensures d < |bs| ==> bs[d]
  {
    if bs == [] || bs[0] then 0 else 1 + FirstTrue(bs[1..])
  }

  /** The index at which the insertion loop ends, or the number of indexes. */
  ghost function FirstHalt(st: State, doc: seq<Field>): (d: nat)
    requires Inv(st)
    ensures d <= |st.paths|
  {
    FirstTrue(seq(|st.paths|, k requires 0 <= k < |st.paths| => Halts(st, k, doc)))
  }

  lemma FirstHaltIs(st: State, doc: seq<Field>)
    requires Inv(st)
    ensures forall j | 0 <= j < FirstHalt(st, doc) :: IndexableAt(doc, st.paths[j]) && !Blocks(st, j, doc)
    ensures FirstHalt(st, doc) < |st.paths| ==> Halts(st, FirstHalt(st, doc), doc)
  {
    hide Agrees, Increasing, Blocks, IndexableAt;
    var bs := seq(|st.paths|, k requires 0 <= k < |st.paths| => Halts(st, k, doc));
    forall j | 0 <= j < FirstTrue(bs) ensures IndexableAt(doc, st.paths[j]) && !Blocks(st, j, doc) {
      assert !bs[j];
    }
  }

  ghost function AddedTo(st: State, doc: seq<Field>, k: nat): Index
    requires Inv(st) && k < |st.paths| && IndexableAt(doc, st.paths[k])
  {
    Step(st.indexes[k], InsertOp(KeyAt(doc, st.paths[k]), st.end)).0
  }

  ghost function RolledBack(st: State, doc: seq<Field>, k: nat): Index
    requires Inv(st) && k < |st.paths| && IndexableAt(doc, st.paths[k])
  {
    TakenBack(st.indexes[k], KeyAt(doc, st.paths[k]), st.end)
  }

  ghost predicate Accepts(st: State, doc: seq<Field>)
    requires Inv(st)
  {
    FirstHalt(st, doc) == |st.paths|
  }

  /** A value that has no key is met before any index refuses the document. */
  ghost predicate Raises(st: State, doc: seq<Field>)
    requires Inv(st)
  {
    FirstHalt(st, doc) < |st.paths| && !IndexableAt(doc, st.paths[FirstHalt(st, doc)])
  }

  /** How entering a document in the indexes ends. */
  datatype Entering = Entered | Rejected | NoKey

  ghost function HowEntered(st: State, doc: seq<Field>): Entering
    requires Inv(st)
  {
    if Raises(st, doc) then NoKey else if Accepts(st, doc) then Entered else Rejected
  }

  /**
    * Append the document and enter it in every index.  If one refuses, take the entries of the
    * indexes before it back and tombstone the record.  If a value has no key, just stop: only
    * DuplicateKeyError is caught, so the record stays live and the entries made so far stay.
    */
  ghost function Add(st: State, doc: seq<Field>, size: nat): (r: State)
    requires Inv(st)
    ensures |r.indexes| == |r.paths| && r.paths == st.paths && r.descending == st.descending
  {
    FirstHaltIs(st, doc);
    var d := FirstHalt(st, doc);
    var stays := HowEntered(st, doc) != Rejected;
    State(st.rows + [Row(st.end, stays, doc)], st.end + size, st.paths, st.descending,
          seq(|st.paths|, k requires 0 <= k < |st.paths| =>
            if k >= d then st.indexes[k] else if stays then AddedTo(st, doc, k) else RolledBack(st, doc, k)))
  }

  lemma AddedRow(st: State, doc: seq<Field>, size: nat)
    requires Inv(st)
    ensures Add(st, doc, size).rows == st.rows + [Row(st.end, HowEntered(st, doc) != Rejected, doc)]
  {
    hide Inv, HowEntered, AddedTo, RolledBack, FirstHalt;
  }

  // ---------------------------------------------------------------- deleting

  ghost function DroppedFrom(st: State, i: nat, k: nat): Index
    requires Inv(st) && k < |st.paths| && i < |st.rows| && CanIndex(st.paths, st.rows[i].doc)
  {
    Step(st.indexes[k], DeleteOp(KeyAt(st.rows[i].doc, st.paths[k]), st.rows[i].off)).0
  }

  /** Tombstone row `i` and delete its entry from every index. */
  ghost function Drop(st: State, i: nat): (r: State)
    requires Inv(st) && i < |st.rows| && CanIndex(st.paths, st.rows[i].doc)
    ensures |r.indexes| == |r.paths| && r.paths == st.paths && r.descending == st.descending
  {
    State(Buried(st.rows, i), st.end, st.paths, st.descending,
          seq(|st.paths|, k requires 0 <= k < |st.paths| => DroppedFrom(st, i, k)))
  }

  /** A live row can be dropped: its keys were computed when it was added. */
  lemma LiveCanDrop(st: State, i: nat)
    requires Inv(st) && i < |st.rows| && st.rows[i].live
    ensures CanIndex(st.paths, st.rows[i].doc)
  {
    hide Rank, Indexable, Wf, IndexableAt;
    forall k | 0 <= k < |st.paths| ensures IndexableAt(st.rows[i].doc, st.paths[k]) {
      assert Agrees(st.rows, st.paths[k], st.indexes[k]);
      CoveredIndexable(st.rows, st.paths[k], Flat(st.indexes[k].tree));
    }
  }

  // ---------------------------------------------------------------- what they keep

  /** An accepted or refused document leaves every index in agreement. */
  lemma AddKeeps(st: State, doc: seq<Field>, size: nat)
    requires Inv(st) && !Raises(st, doc) && size > 0
    ensures Inv(Add(st, doc, size))
    ensures forall k | 0 <= k < |st.paths| && ExactAt(st, k) :: ExactAt(Add(st, doc, size), k)
    ensures ExactUnique(st) ==> ExactUnique(Add(st, doc, size))
  {
    hide Agrees, Increasing, Exact, IndexableAt, Step, FirstHalt, TakenBack, Raises;
    var r := Add(st, doc, size);
    StillIncreasing(st.rows, st.end, r.rows[|st.rows|], size);
    forall k | 0 <= k < |st.paths|
      ensures Agrees(r.rows, r.paths[k], r.indexes[k])
      ensures ExactAt(st, k) ==> ExactAt(r, k)
      ensures r.indexes[k].unique == st.indexes[k].unique
    {
      AddKeepsOne(st, doc, size, k);
    }
  }

  lemma AddKeepsOne(st: State, doc: seq<Field>, size: nat, k: nat)
    requires Inv(st) && !Raises(st, doc) && k < |st.paths|
    ensures var r := Add(st, doc, size);
            && Agrees(r.rows, r.paths[k], r.indexes[k])
            && (ExactAt(st, k) ==> ExactAt(r, k))
            && r.indexes[k].unique == st.indexes[k].unique
  {
    hide Increasing, Exact, Indexable, Step, FirstHalt, TakenBack, Grounded, Covers, RunOrdered, Wf, Rank, Raises;
    var d, path, x := FirstHalt(st, doc), st.paths[k], st.indexes[k];
    assert Agrees(st.rows, path, x);
    var row := Row(st.end, d == |st.paths|, doc);
    FirstHaltIs(st, doc);
    if k < d {
      assert !Blocks(st, k, doc);
      UniqueKept(x, InsertOp(KeyAt(doc, path), st.end));
      UniqueTakenBack(x, KeyAt(doc, path), st.end);
      InsertReplies(x, KeyAt(doc, path), st.end);
      if row.live {
        InsertAgrees(st.rows, st.end, row, path, x);
      } else {
        RollbackAgrees(st.rows, st.end, row, path, x);
      }
    } else {
      DeadRow(st.rows, st.end, row, path, Flat(x.tree));
    }
  }

  /**
    * _index_update_for_insert promises that a failed insert never leaves a partially indexed
    * document.  That holds exactly when no value without a key is met before a refusal.
    */
  lemma AddKeepsIff(st: State, doc: seq<Field>, size: nat)
    requires Inv(st) && size > 0
    ensures Inv(Add(st, doc, size)) <==> !Raises(st, doc)
  {
    hide Agrees, Add, FirstHalt;
    if Raises(st, doc) {
      RaisedNotCovered(st, doc, size, FirstHalt(st, doc));
    } else {
      AddKeeps(st, doc, size);
    }
  }

  /** After such a stop the document is live, but index `k` from there on has no entry for it. */
  lemma RaisedNotCovered(st: State, doc: seq<Field>, size: nat, k: nat)
    requires Inv(st) && Raises(st, doc) && FirstHalt(st, doc) <= k < |st.paths|
    ensures var r := Add(st, doc, size);
            && r.rows == st.rows + [Row(st.end, true, doc)] && r.indexes[k] == st.indexes[k]
            && (forall j | 0 <= j < |Flat(r.indexes[k].tree)| :: Flat(r.indexes[k].tree)[j].offset < st.end)
            && !Agrees(r.rows, r.paths[k], r.indexes[k])
  {
    hide Increasing, Indexable, Step, FirstHalt, TakenBack, Grounded, RunOrdered, Wf, Rank, KeyAt;
    var r, s := Add(st, doc, size), Flat(st.indexes[k].tree);
    assert Agrees(st.rows, st.paths[k], st.indexes[k]);
    forall j | 0 <= j < |s| ensures s[j].offset < st.end {
      BelowEnd(st.rows, st.end, st.paths[k], s, j);
    }
    assert r.rows[|st.rows|] == Row(st.end, true, doc);
  }

  // ---------------------------------------------------------------- deleting what was half inserted

  /** The trees are well formed, whatever they have to do with the rows. */
  ghost predicate Formed(st: State) {
    |st.indexes| == |st.paths| && forall k | 0 <= k < |st.paths| :: Wf(st.indexes[k])
  }

  /** The first path at which the document has no key, or the number of paths. */
  ghost function FirstKeyless(paths: seq<Path>, doc: seq<Field>): (d: nat)
    ensures d <= |paths|
    ensures forall j | 0 <= j < d :: IndexableAt(doc, paths[j])
    ensures d < |paths| ==> !IndexableAt(doc, paths[d])
  {
    if paths == [] || !IndexableAt(doc, paths[0]) then 0
    else
      assert forall j | 0 < j < |paths| :: paths[1..][j - 1] == paths[j];
      1 + FirstKeyless(paths[1..], doc)
  }

  ghost function RemovedFrom(st: State, i: nat, k: nat): Index
    requires Formed(st) && i < |st.rows| && k < FirstKeyless(st.paths, st.rows[i].doc)
  {
    WfBounded(st.indexes[k]);
    Step(st.indexes[k], DeleteOp(KeyAt(st.rows[i].doc, st.paths[k]), st.rows[i].off)).0
  }

  /**
    * Tombstone row `i` and delete its entries from the indexes, up to the first at which its
    * value has no key: there the deletion raises.
    */
  ghost function Removed(st: State, i: nat): State
    requires Formed(st) && i < |st.rows|
  {
    var d := FirstKeyless(st.paths, st.rows[i].doc);
    State(Buried(st.rows, i), st.end, st.paths, st.descending,
          seq(|st.paths|, k requires 0 <= k < |st.paths| => if k < d then RemovedFrom(st, i, k) else st.indexes[k]))
  }

  lemma InvFormed(st: State)
    requires Inv(st)
    ensures Formed(st)
  {
    hide Wf, Increasing, Grounded, Covers, RunOrdered;
    forall k | 0 <= k < |st.paths| ensures Wf(st.indexes[k]) {
      assert Agrees(st.rows, st.paths[k], st.indexes[k]);
    }
  }

  /** For a document with a key everywhere it is the ordinary deletion. */
  lemma RemovedIsDrop(st: State, i: nat)
    requires Inv(st) && i < |st.rows| && CanIndex(st.paths, st.rows[i].doc)
    ensures Formed(st) && Removed(st, i) == Drop(st, i)
  {
    hide Agrees, Increasing, Step, KeyAt, IndexableAt, Wf;
    InvFormed(st);
    assert FirstKeyless(st.paths, st.rows[i].doc) == |st.paths|;
  }

  /**
    * Deleting a half-inserted document raises too, but by then the indexes agree with the
    * records again: what is left is what a refusal would have left.
    */
  lemma DeletingRepairs(st: State, doc: seq<Field>, size: nat)
    requires Inv(st) && Raises(st, doc) && size > 0
    ensures Formed(Add(st, doc, size)) && |Add(st, doc, size).rows| == |st.rows| + 1
    ensures var r, d := Removed(Add(st, doc, size), |st.rows|), FirstHalt(st, doc);
            && d == FirstKeyless(st.paths, doc) < |st.paths|
            && r.rows == st.rows + [Row(st.end, false, doc)]
            && (forall k | 0 <= k < d :: r.indexes[k] == RolledBack(st, doc, k))
            && (forall k | d <= k < |st.paths| :: r.indexes[k] == st.indexes[k])
            && Inv(r) && (forall k | 0 <= k < |st.paths| && ExactAt(st, k) :: ExactAt(r, k))
  {
    hide Agrees, Increasing, Exact, IndexableAt, Step, FirstHalt, KeyAt, Wf, TakenBack, NamesDiffer;
    FirstHaltIs(st, doc);
    var half, d := Add(st, doc, size), FirstHalt(st, doc);
    assert FirstKeyless(st.paths, doc) == d;
    forall k | 0 <= k < |st.paths| ensures Wf(half.indexes[k]) {
      HalfFormed(st, doc, size, k);
    }
    var r := Removed(half, |st.rows|);
    StillIncreasing(st.rows, st.end, r.rows[|st.rows|], size);
    forall k | 0 <= k < |st.paths|
      ensures Agrees(r.rows, r.paths[k], r.indexes[k])
      ensures ExactAt(st, k) ==> ExactAt(r, k)
      ensures r.indexes[k] == if k < d then RolledBack(st, doc, k) else st.indexes[k]
    {
      RemovedOne(st, doc, size, k);
    }
  }

  lemma HalfFormed(st: State, doc: seq<Field>, size: nat, k: nat)
    requires Inv(st) && k < |st.paths|
    ensures Wf(Add(st, doc, size).indexes[k])
  {
    hide Increasing, IndexableAt, Step, FirstHalt, KeyAt, Wf, TakenBack, Grounded, Covers, RunOrdered;
    var x := st.indexes[k];
    assert Agrees(st.rows, st.paths[k], x);
    FirstHaltIs(st, doc);
    if k < FirstHalt(st, doc) {
      var key := KeyAt(doc, st.paths[k]);
      TakenBackIs(x, key, st.end);
      StepKeepsWf(Step(x, InsertOp(key, st.end)).0, DeleteOp(key, st.end));
    }
  }

  lemma TakenBackIs(x: Index, key: Key, offset: nat)
    requires Wf(x)
    ensures Bounded(x.tree) && Wf(Step(x, InsertOp(key, offset)).0) && Bounded(Step(x, InsertOp(key, offset)).0.tree)
    ensures TakenBack(x, key, offset) == Step(Step(x, InsertOp(key, offset)).0, DeleteOp(key, offset)).0
  {
    hide Wf, Step;
    WfBounded(x);
    StepKeepsWf(x, InsertOp(key, offset));
    WfBounded(Step(x, InsertOp(key, offset)).0);
  }

  lemma RemovedOne(st: State, doc: seq<Field>, size: nat, k: nat)
    requires Inv(st) && Raises(st, doc) && k < |st.paths| && Formed(Add(st, doc, size))
    requires FirstKeyless(st.paths, doc) == FirstHalt(st, doc) && |Add(st, doc, size).rows| == |st.rows| + 1
    ensures k < FirstHalt(st, doc) ==> IndexableAt(doc, st.paths[k])
    ensures var r := Removed(Add(st, doc, size), |st.rows|);
            && Agrees(r.rows, st.paths[k], r.indexes[k]) && |r.indexes| == |st.paths|
            && (ExactAt(st, k) ==> Exact(r.rows, st.paths[k], Flat(r.indexes[k].tree)))
            && r.indexes[k] == if k < FirstHalt(st, doc) then RolledBack(st, doc, k) else st.indexes[k]
  {
    hide Increasing, Exact, Indexable, Step, FirstHalt, TakenBack, Grounded, Covers, RunOrdered, Wf, Rank;
    var path, x := st.paths[k], st.indexes[k];
    assert Agrees(st.rows, path, x);
    FirstHaltIs(st, doc);
    var row := Row(st.end, false, doc);
    var r := Removed(Add(st, doc, size), |st.rows|);
    assert r.rows == st.rows + [row];
    if k < FirstHalt(st, doc) {
      assert !Blocks(st, k, doc);
      TakenBackIs(x, KeyAt(doc, path), st.end);
      InsertReplies(x, KeyAt(doc, path), st.end);
      RollbackAgrees(st.rows, st.end, row, path, x);
    } else {
      DeadRow(st.rows, st.end, row, path, Flat(x.tree));
    }
  }

  lemma UniqueKept(x: Index, op: Op)
    requires Wf(x)
    ensures Step(x, op).0.unique == x.unique
  {
    hide Wf;
    StepKeepsWf(x, op);
  }

  lemma UniqueTakenBack(x: Index, key: Key, offset: nat)
    requires Wf(x)
    ensures TakenBack(x, key, offset).unique == x.unique
  {
    hide Wf, Step;
    WfBounded(x);
    StepKeepsWf(x, InsertOp(key, offset));
    WfBounded(Step(x, InsertOp(key, offset)).0);
    StepKeepsWf(Step(x, InsertOp(key, offset)).0, DeleteOp(key, offset));
  }

  lemma InsertReplies(x: Index, key: Key, offset: nat)
    requires Wf(x)
    ensures Step(x, InsertOp(key, offset)).1 == Ok || Step(x, InsertOp(key, offset)).1 == DuplicateKey
  {
    hide Rank, Sorted, Times, LastLive;
  }

  lemma DropKeeps(st: State, i: nat)
    requires Inv(st) && i < |st.rows| && CanIndex(st.paths, st.rows[i].doc)
    ensures Inv(Drop(st, i))
    ensures st.rows[i].live && ExactUnique(st) ==> ExactUnique(Drop(st, i))
  {
    hide Agrees, Increasing, Exact, IndexableAt, Step;
    var r := Drop(st, i);
    BuriedIncreasing(st.rows, st.end, i);
    forall k | 0 <= k < |st.paths|
      ensures Agrees(r.rows, r.paths[k], r.indexes[k])
      ensures r.indexes[k].unique == st.indexes[k].unique
      ensures st.rows[i].live && ExactAt(st, k) && st.indexes[k].unique ==> ExactAt(r, k)
    {
      DropKeepsOne(st, i, k);
    }
  }

  lemma DropKeepsOne(st: State, i: nat, k: nat)
    requires Inv(st) && i < |st.rows| && CanIndex(st.paths, st.rows[i].doc) && k < |st.paths|
    ensures var r := Drop(st, i);
            && Agrees(r.rows, r.paths[k], r.indexes[k])
            && r.indexes[k].unique == st.indexes[k].unique
            && (st.rows[i].live && ExactAt(st, k) && st.indexes[k].unique ==> ExactAt(r, k))
  {
    hide Increasing, Exact, Indexable, Step, Grounded, Covers, RunOrdered, Wf, Rank, PairBefore, Buried;
    var path, x := st.paths[k], st.indexes[k];
    assert Agrees(st.rows, path, x);
    UniqueKept(x, DeleteOp(KeyAt(st.rows[i].doc, path), st.rows[i].off));
    DeleteAgrees(st.rows, st.end, i, path, x);
    if st.rows[i].live && ExactAt(st, k) {
      DeleteExact(st.rows, st.end, i, path, x);
    }
  }

  /** On an index that is not unique, exactness survives exactly when the delete finds its pair. */
  lemma DropExactIff(st: State, i: nat, k: nat)
    requires Inv(st) && i < |st.rows| && st.rows[i].live && CanIndex(st.paths, st.rows[i].doc)
    requires k < |st.paths| && ExactAt(st, k)
    ensures Bounded(st.indexes[k].tree)
    ensures ExactAt(Drop(st, i), k) <==>
              !PairBefore(st.indexes[k].tree, KeyAt(st.rows[i].doc, st.paths[k]), st.rows[i].off)
  {
    hide Increasing, Exact, Indexable, Step, Grounded, Covers, RunOrdered, Wf, Rank, PairBefore, Buried;
    assert Agrees(st.rows, st.paths[k], st.indexes[k]);
    DeleteExact(st.rows, st.end, i, st.paths[k], st.indexes[k]);
  }

  lemma BuriedIncreasing(rows: seq<Row>, end: nat, i: nat)
    requires Increasing(rows, end) && i < |rows|
    ensures Increasing(Buried(rows, i), end)
  {
  }

  /** _apply_single_update: the old row goes, then the new document comes or is refused. */
  ghost function Change(st: State, i: nat, doc: seq<Field>, size: nat): (r: State)
    requires Inv(st) && i < |st.rows| && CanIndex(st.paths, st.rows[i].doc)
    ensures |r.indexes| == |r.paths| && r.paths == st.paths
  {
    DropKeeps(st, i);
    Add(Drop(st, i), doc, size)
  }

  /** `after` is what an update makes of `st`; `how` says how it ended. */
  ghost predicate Changes(st: State, i: nat, doc: seq<Field>, size: nat, after: State, how: Entering) {
    && Inv(st) && i < |st.rows| && CanIndex(st.paths, st.rows[i].doc)
    && after == Change(st, i, doc, size) && how == HowChanged(st, i, doc)
  }

  ghost function HowChanged(st: State, i: nat, doc: seq<Field>): Entering
    requires Inv(st) && i < |st.rows| && CanIndex(st.paths, st.rows[i].doc)
  {
    DropKeeps(st, i);
    HowEntered(Drop(st, i), doc)
  }

  /** An update keeps the agreement even when it is refused and the old document is lost. */
  lemma ChangeKeeps(st: State, i: nat, doc: seq<Field>, size: nat)
    requires Inv(st) && ExactUnique(st) && i < |st.rows| && st.rows[i].live
    requires CanIndex(st.paths, st.rows[i].doc) && HowChanged(st, i, doc) != NoKey && size > 0
    ensures Inv(Change(st, i, doc, size)) && ExactUnique(Change(st, i, doc, size))
  {
    hide Inv, ExactUnique, Add, Drop, CanIndex, Raises, Accepts;
    DropKeeps(st, i);
    AddKeeps(Drop(st, i), doc, size);
  }

  // ---------------------------------------------------------------- when an insert is refused

  /** Some unique index already holds the document's key for a live row. */
  ghost predicate Taken(st: State, k: nat, doc: seq<Field>)
    requires k < |st.paths|
  {
    exists i :: 0 <= i < |st.rows| && st.rows[i].live && SameKeyAt(st.rows[i].doc, doc, st.paths[k])
  }

  ghost predicate SameKeyAt(a: seq<Field>, b: seq<Field>, path: Path) {
    IndexableAt(a, path) && IndexableAt(b, path) && Rank(KeyAt(a, path)) == Rank(KeyAt(b, path))
  }

  lemma BlocksIff(st: State, k: nat, doc: seq<Field>)
    requires Inv(st) && ExactUnique(st) && k < |st.paths| && IndexableAt(doc, st.paths[k])
    ensures Blocks(st, k, doc) <==> st.indexes[k].unique && Taken(st, k, doc)
  {
    hide Rank, IndexableAt, KeyAt, Wf, Duplicate, Taken, HasLive, Grounded, Covers, Exact, Increasing;
    var path, x := st.paths[k], st.indexes[k];
    assert Agrees(st.rows, path, x);
    WfBounded(x);
    if x.unique {
      assert ExactAt(st, k);
      UniqueDuplicate(x, KeyAt(doc, path));
      LiveIffTaken(st, k, doc);
    }
  }

  lemma UniqueDuplicate(x: Index, key: Key)
    requires Wf(x) && x.unique
    ensures Bounded(x.tree) && (Duplicate(x.tree, key) <==> HasLive(Flat(x.tree), key))
  {
    hide Rank, Times, Sorted, LastLive, HasLive;
    DuplicateIsGlobal(x.tree, Height(x.tree), key);
  }

  lemma LiveIffTaken(st: State, k: nat, doc: seq<Field>)
    requires k < |st.paths| && IndexableAt(doc, st.paths[k]) && |st.indexes| == |st.paths|
    requires var s := Flat(st.indexes[k].tree);
             Grounded(st.rows, st.paths[k], s) && Covers(st.rows, st.paths[k], s) && Exact(st.rows, st.paths[k], s)
    ensures HasLive(Flat(st.indexes[k].tree), KeyAt(doc, st.paths[k])) <==> Taken(st, k, doc)
  {
    hide Rank, IndexableAt, KeyAt, Flat, Grounded, Covers, Exact, Points, HasLive, SameKeyAt, Covered;
    var path, s, key := st.paths[k], Flat(st.indexes[k].tree), KeyAt(doc, st.paths[k]);
    if HasLive(s, key) {
      var i := HolderOf(st.rows, path, s, doc);
      assert SameKeyAt(st.rows[i].doc, doc, path);
    }
    if i :| 0 <= i < |st.rows| && st.rows[i].live && SameKeyAt(st.rows[i].doc, doc, path) {
      HolderIsLive(st.rows, path, s, doc, i);
    }
  }

  /** The live row behind a live entry with the document's key. */
  lemma HolderOf(rows: seq<Row>, path: Path, s: seq<Entry>, doc: seq<Field>) returns (i: nat)
    requires Grounded(rows, path, s) && Exact(rows, path, s) && IndexableAt(doc, path) && HasLive(s, KeyAt(doc, path))
    ensures i < |rows| && rows[i].live && SameKeyAt(rows[i].doc, doc, path)
  {
    hide Rank, IndexableAt, KeyAt;
    var j :| 0 <= j < |s| && LiveHit(s[j], KeyAt(doc, path));
    assert PointsSome(s[j], rows, path);
    i :| 0 <= i < |rows| && Points(s[j], rows[i], path);
  }

  lemma HolderIsLive(rows: seq<Row>, path: Path, s: seq<Entry>, doc: seq<Field>, i: nat)
    requires Covers(rows, path, s) && i < |rows| && rows[i].live && SameKeyAt(rows[i].doc, doc, path)
    ensures HasLive(s, KeyAt(doc, path))
  {
    hide Rank, IndexableAt, KeyAt;
    assert Covered(rows[i], path, s);
    var j :| 0 <= j < |s| && !s[j].dead && Points(s[j], rows[i], path);
    assert LiveHit(s[j], KeyAt(doc, path));
  }

  /** Some unique index has the document's key for a live row. */
  ghost predicate Collides(st: State, doc: seq<Field>)
    requires |st.indexes| == |st.paths|
  {
    exists k :: 0 <= k < |st.paths| && st.indexes[k].unique && Taken(st, k, doc)
  }

  /** A document is not accepted exactly when a unique index has its key for a live document. */
  lemma RefusedIff(st: State, doc: seq<Field>)
    requires Inv(st) && ExactUnique(st) && !Raises(st, doc)
    ensures !Accepts(st, doc) <==> Collides(st, doc)
  {
    hide Agrees, Increasing, Blocks, ExactUnique, IndexableAt, KeyAt, Rank, FirstHalt;
    FirstHaltIs(st, doc);
    forall k | 0 <= k < |st.paths| && IndexableAt(doc, st.paths[k])
      ensures Blocks(st, k, doc) <==> st.indexes[k].unique && Taken(st, k, doc)
    {
      BlocksIff(st, k, doc);
    }
  }

  /** The document has no key for index `k`, or has the key of a live document there and must not. */
  ghost predicate Unfit(st: State, k: nat, doc: seq<Field>)
    requires k < |st.paths| == |st.indexes|
  {
    !IndexableAt(doc, st.paths[k]) || (st.indexes[k].unique && Taken(st, k, doc))
  }

  /** Index `k` is the first the document is unfit for. */
  ghost predicate FirstUnfit(st: State, k: nat, doc: seq<Field>)
    requires |st.indexes| == |st.paths|
  {
    k < |st.paths| && Unfit(st, k, doc) && forall j | 0 <= j < k :: !Unfit(st, j, doc)
  }

  ghost predicate Fits(st: State, doc: seq<Field>)
    requires |st.indexes| == |st.paths|
  {
    forall k | 0 <= k < |st.paths| :: !Unfit(st, k, doc)
  }

  /** It has no key for the first index it is unfit for, or it has one. */
  ghost predicate UnfitFirst(st: State, doc: seq<Field>, hasKey: bool)
    requires |st.indexes| == |st.paths|
  {
    exists k: nat :: FirstUnfit(st, k, doc) && IndexableAt(doc, st.paths[k]) == hasKey
  }

  /** The insertion loop ends at the first index the document is unfit for, and why is what it answers. */
  lemma EnteringByKeys(st: State, doc: seq<Field>)
    requires Inv(st) && ExactUnique(st)
    ensures HowEntered(st, doc) == Entered <==> Fits(st, doc)
    ensures HowEntered(st, doc) == NoKey <==> UnfitFirst(st, doc, false)
    ensures HowEntered(st, doc) == Rejected <==> UnfitFirst(st, doc, true)
  {
    hide Agrees, Increasing, Blocks, ExactUnique, IndexableAt, KeyAt, Rank, FirstHalt, Taken;
    FirstHaltIs(st, doc);
    forall k | 0 <= k < |st.paths| && IndexableAt(doc, st.paths[k])
      ensures Blocks(st, k, doc) <==> st.indexes[k].unique && Taken(st, k, doc)
    {
      BlocksIff(st, k, doc);
    }
    var d := FirstHalt(st, doc);
    if d < |st.paths| {
      assert FirstUnfit(st, d, doc);
    }
  }

  /** After a refusal the document it collided with is still there. */
  lemma RefusedCollides(st: State, doc: seq<Field>, size: nat)
    requires Inv(st) && ExactUnique(st) && HowEntered(st, doc) == Rejected && size > 0
    ensures Collides(Add(st, doc, size), doc)
  {
    hide Agrees, Increasing, ExactUnique, SameKeyAt, FirstHalt, AddedTo, RolledBack, IndexableAt, Raises, Accepts;
    RefusedIff(st, doc);
    var r := Add(st, doc, size);
    var k :| 0 <= k < |st.paths| && st.indexes[k].unique && Taken(st, k, doc);
    var i :| 0 <= i < |st.rows| && st.rows[i].live && SameKeyAt(st.rows[i].doc, doc, st.paths[k]);
    AddKeepsOne(st, doc, size, k);
    assert r.rows[i] == st.rows[i];
  }

  lemma RefusedChangeCollides(st: State, i: nat, doc: seq<Field>, size: nat)
    requires Inv(st) && ExactUnique(st) && i < |st.rows| && st.rows[i].live && size > 0
    requires CanIndex(st.paths, st.rows[i].doc) && HowChanged(st, i, doc) == Rejected
    ensures Collides(Change(st, i, doc, size), doc)
  {
    hide Inv, ExactUnique, Add, Drop, CanIndex, HowEntered, Collides;
    DropKeeps(st, i);
    RefusedCollides(Drop(st, i), doc, size);
  }
}
