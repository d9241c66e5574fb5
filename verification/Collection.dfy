/**
  * The collection (collection.py): a data file and its index files, changed together.
  *
  * Each method does to the bytes and the pages what the Python method does, in its order;
  * its contract says that the state they stand for changes as module CollectionState says.
  */
module Collection {
  import opened Bytes
  import opened Grammar
  import opened Codec
  import opened Faults
  import opened KeyOrder
  import opened IndexKeys
  import opened Query
  import opened Agreement
  import opened CollectionState
  import opened CollectionRuns
  import opened Search
  import opened StoredRows
  import opened Handles
  import opened DataFile
  import Encoder
  import Decoder
  import RecordFile
  import Updates
  import BTreeFile
  import TreeRuns
  import TreeSearch
  import Tree

  /**
    * How a mutation ends: done; nothing to do; refused by a unique index; half done, because a
    * value at an indexed path has no key; not encodable; or no room to grow the file.
    */
  datatype Outcome = Finished | Unchanged | Refused | Unindexable | BadDocument(status: Status) | NoRoom

  function OutcomeOf(how: Entering): (o: Outcome)
    ensures o.Finished? || o.Refused? || o.Unindexable?
  {
    match how
    case Entered => Finished
    case Rejected => Refused
    case NoKey => Unindexable
  }

  // ---------------------------------------------------------------- facts about states

  /** The two documents have the same key on the path, or none. */
  ghost predicate SameKeys(a: seq<Field>, b: seq<Field>, path: Path) {
    && (IndexableAt(a, path) <==> IndexableAt(b, path))
    && (IndexableAt(a, path) ==> KeyAt(a, path) == KeyAt(b, path))
  }

  /** Documents with the same keys are entered alike. */
  lemma SameKeysAdd(st: State, a: seq<Field>, b: seq<Field>, sizeA: nat, sizeB: nat)
    requires Inv(st) && forall k | 0 <= k < |st.paths| :: SameKeys(a, b, st.paths[k])
    ensures HowEntered(st, a) == HowEntered(st, b)
    ensures Add(st, a, sizeA).indexes == Add(st, b, sizeB).indexes
  {
    hide Inv, KeyAt, IndexableAt, Halts, SameKeys, AddedTo, RolledBack, HowEntered;
    forall k | 0 <= k < |st.paths| ensures Halts(st, k, a) == Halts(st, k, b) {
      SameKeysOne(st, a, b, k);
    }
    var xs := seq(|st.paths|, k requires 0 <= k < |st.paths| => Halts(st, k, a));
    var ys := seq(|st.paths|, k requires 0 <= k < |st.paths| => Halts(st, k, b));
    assert xs == ys;
    assert FirstHalt(st, a) == FirstHalt(st, b);
    SameHow(st, a, b);
    FirstHaltIs(st, a);
    FirstHaltIs(st, b);
    forall k | 0 <= k < FirstHalt(st, a)
      ensures AddedTo(st, a, k) == AddedTo(st, b, k) && RolledBack(st, a, k) == RolledBack(st, b, k)
    {
      SameKeysOne(st, a, b, k);
    }
  }

  lemma SameHow(st: State, a: seq<Field>, b: seq<Field>)
    requires Inv(st) && forall k | 0 <= k < |st.paths| :: SameKeys(a, b, st.paths[k])
    requires FirstHalt(st, a) == FirstHalt(st, b)
    ensures HowEntered(st, a) == HowEntered(st, b)
  {
    hide Inv, KeyAt, IndexableAt, FirstHalt;
  }

  lemma SameKeysOne(st: State, a: seq<Field>, b: seq<Field>, k: nat)
    requires Inv(st) && k < |st.paths| && SameKeys(a, b, st.paths[k])
    ensures Halts(st, k, a) == Halts(st, k, b)
    ensures IndexableAt(a, st.paths[k]) ==>
              && IndexableAt(b, st.paths[k])
              && AddedTo(st, a, k) == AddedTo(st, b, k) && RolledBack(st, a, k) == RolledBack(st, b, k)
  {
    hide Inv, KeyAt, IndexableAt, TreeRuns.Step, TakenBack;
  }

  /** A document and what the file keeps of it are entered alike. */
  lemma {:induction false} StoredKeys(st: State, fs: seq<Field>, size: nat)
    requires Inv(st) && ValidValue(Document(fs))
    ensures HowEntered(st, fs) == HowEntered(st, NormalFields(fs))
    ensures Add(st, fs, 1).indexes == Add(st, NormalFields(fs), size).indexes
  {
    hide Inv, KeyAt, IndexableAt, ValidValue, HowEntered, Add;
    forall k | 0 <= k < |st.paths| ensures SameKeys(fs, NormalFields(fs), st.paths[k]) {
      StoringKeepsIndexable(fs, st.paths[k]);
      if IndexableAt(fs, st.paths[k]) {
        StoringKeepsKeys(fs, st.paths[k]);
      }
    }
    SameKeysAdd(st, fs, NormalFields(fs), 1, size);
  }

  /** `after` is what adding the document makes of `st`; `how` says how it ended. */
  ghost predicate Adds(st: State, doc: seq<Field>, size: nat, after: State, how: Entering) {
    Inv(st) && after == Add(st, doc, size) && how == HowEntered(st, doc)
  }

  lemma StillExact(st: State, doc: seq<Field>, size: nat)
    requires Inv(st) && size > 0
    ensures HowEntered(st, doc) != NoKey ==>
              Inv(Add(st, doc, size)) && (ExactUnique(st) ==> ExactUnique(Add(st, doc, size)))
    ensures HowEntered(st, doc) == NoKey ==> !Inv(Add(st, doc, size))
    ensures HowEntered(st, doc) == Rejected && ExactUnique(st) ==> Collides(Add(st, doc, size), doc)
  {
    hide Inv, ExactUnique, Add, Raises, Accepts, Collides;
    AddKeepsIff(st, doc, size);
    if HowEntered(st, doc) != NoKey {
      AddKeeps(st, doc, size);
    }
    InvSizes(st);
    if HowEntered(st, doc) == Rejected && ExactUnique(st) {
      RefusedCollides(st, doc, size);
    }
  }

  /** A row buried while its entries stay: what is left when an update fails to grow the file. */
  lemma BuryKeeps(st: State, i: nat)
    requires Inv(st) && i < |st.rows|
    ensures Inv(st.(rows := Buried(st.rows, i)))
  {
    hide Increasing, Grounded, Covers, RunOrdered, TreeRuns.Wf, Buried;
    BuriedIncreasing(st.rows, st.end, i);
    forall k | 0 <= k < |st.paths| ensures Agrees(Buried(st.rows, i), st.paths[k], st.indexes[k]) {
      assert Agrees(st.rows, st.paths[k], st.indexes[k]);
      BuryKeepsOne(st.rows, st.end, i, st.paths[k], st.indexes[k]);
    }
  }

  lemma BuryKeepsOne(rows: seq<Row>, end: nat, i: nat, path: Path, x: TreeRuns.Index)
    requires Increasing(rows, end) && i < |rows| && Agrees(rows, path, x)
    ensures Agrees(Buried(rows, i), path, x)
  {
    hide Increasing, Grounded, Covers, RunOrdered, TreeRuns.Wf, Buried;
    var s := Tree.Flat(x.tree);
    BuriedGrounded(rows, i, path, s, s);
    BuriedCovers(rows, end, i, path, s, |s|);
  }

  /** The record at the end of the rows starts where they ended. */
  lemma LastRecord(rs: seq<RecordFile.Rec>, off: nat, i: nat)
    requires AllStored(rs) && i < |rs| && Rows(rs)[i].off == off
    ensures off == RecordFile.EndOf(rs[..i])
  {
    hide IsStored;
  }

  /** The encoder, and what its bytes will be read back as. */
  method EncodeDoc(fs: seq<Field>) returns (r: Result<seq<byte>>)
    requires ValidValue(Document(fs))
    ensures r.Ok? <==> Encodable(fs)
    ensures r.Err? ==> RefusedWith(fs, r.status)
    ensures r.Ok? ==>
              && r.value == Encoding(fs) && IsStored(r.value) && RecordFile.TrueLength(r.value)
              && DecodeSpec(r.value) == Ok(NormalFields(fs))
  {
    hide ValidValue, Faultless, RefusedWith, Encoding, IsStored, RecordFile.TrueLength, DecodeSpec;
    r := Encoder.Encode(fs);
    if r.Ok? {
      EncodingIsStored(fs);
    }
  }

  /** A stored document encodes to its record's bytes, and is its own normal form. */
  lemma StoredDoc(rs: seq<RecordFile.Rec>, i: nat)
    requires AllStored(rs) && i < |rs|
    ensures Encodable(Rows(rs)[i].doc) && NormalFields(Rows(rs)[i].doc) == Rows(rs)[i].doc
    ensures ValidValue(Document(Rows(rs)[i].doc))
  {
    hide Encoding, DecodeSpec, ValidValue, Faultless, NormalFields;
    var doc := DecodeSpec(rs[i].doc).value;
    EncodingIsStored(doc);
  }

  lemma DropRows(st: State, i: nat)
    requires Inv(st) && i < |st.rows| && CanIndex(st.paths, st.rows[i].doc)
    ensures Drop(st, i).rows == Agreement.Buried(st.rows, i) && Drop(st, i).end == st.end
  {
    hide Inv, DroppedFrom, CanIndex;
  }

  lemma UpdateKeeps(st: State, i: nat, doc: seq<Field>, size: nat)
    requires Inv(st) && i < |st.rows| && st.rows[i].live && size > 0 && CanIndex(st.paths, st.rows[i].doc)
    ensures |st.indexes| == |st.paths|
    ensures HowChanged(st, i, doc) != NoKey ==>
              Inv(Change(st, i, doc, size)) && (ExactUnique(st) ==> ExactUnique(Change(st, i, doc, size)))
    ensures HowChanged(st, i, doc) == NoKey ==> !Inv(Change(st, i, doc, size))
    ensures HowChanged(st, i, doc) == Rejected && ExactUnique(st) ==> Collides(Change(st, i, doc, size), doc)
  {
    hide Inv, ExactUnique, Add, Drop, CanIndex, HowEntered, Collides;
    InvSizes(st);
    DropKeeps(st, i);
    StillExact(Drop(st, i), doc, size);
  }

  lemma {:induction false} RowsLive(rs: seq<RecordFile.Rec>, i: nat, j: nat)
    requires AllStored(rs) && i <= j <= |rs| && j == NextLive(rs, i)
    ensures forall k | i <= k < j :: !Rows(rs)[k].live
    ensures j < |rs| ==> Rows(rs)[j].live && Rows(rs)[j].off == RecordFile.EndOf(rs[..j])
  {
    hide IsStored, RecordFile.EndOf;
  }

  lemma {:induction false} ScanEnds(rows: seq<Row>, found: seq<Row>, filter: Filter)
    ensures After(found, ScanRows(rows[|rows|..], filter)) == Some(found)
  {
    assert rows[|rows|..] == [] && found + [] == found;
  }

  /** The filter raises on the row's document, and the row is live. */
  ghost predicate RaisesOn(row: Row, filter: Filter) {
    row.live && Matches(row.doc, filter).None?
  }

  /** What a scan of a data file finds: every live document the filter matches, in file order. */
  lemma ScanFinds(rs: seq<RecordFile.Rec>, filter: Filter)
    requires AllStored(rs)
    ensures ScanRows(Rows(rs), filter).None? <==> exists i :: 0 <= i < |rs| && RaisesOn(Rows(rs)[i], filter)
    ensures var found := ScanRows(Rows(rs), filter);
            found.Some? ==>
              && Rising(found.value)
              && forall row :: row in found.value <==> row in Rows(rs) && Picks(row, filter)
  {
    hide Matches, ScanRows, Picks, Rows, IsStored, RecordFile.EndOf;
    var rows := Rows(rs);
    RowsIncrease(rs);
    ScanRaisesIff(rows, filter);
    assert NeverRaises(rows, filter) <==> forall i | 0 <= i < |rs| :: !RaisesOn(rows[i], filter);
    if ScanRows(rows, filter).Some? {
      ScanReturns(rows, filter);
    }
  }

  lemma AfterNothing(rest: Option<seq<Row>>)
    ensures After([], rest) == rest
  {
    assert rest.Some? ==> [] + rest.value == rest.value;
  }

  lemma EncodableIsValid(fs: seq<Field>)
    requires Encodable(fs)
    ensures ValidValue(Document(fs))
  {
  }

  lemma PairsMore(found: seq<Row>, row: Row)
    ensures Pairs(found + [row]) == Pairs(found) + [(row.off, row.doc)]
  {
  }

  lemma {:induction false} SearchEnds(rows: seq<Row>, offs: seq<nat>, found: seq<Row>, filter: Filter)
    ensures After(found, SearchRows(rows, offs[|offs|..], filter)) == Some(found)
  {
    assert offs[|offs|..] == [] && found + [] == found;
  }

  lemma {:induction false} BuildEnds(x: TreeRuns.Index, rows: seq<Row>, path: Path)
    requires TreeRuns.Wf(x)
    ensures Build(x, rows[|rows|..], path) == Some(x)
  {
  }

  lemma {:induction false} IndexAdded(st: State, path: Path, down: bool, unique: bool)
    requires Inv(st)
    ensures |st.indexes| == |st.paths| && TreeRuns.Wf(TreeRuns.Create(unique))
    ensures Inv(AddIndex(st, path, down, unique))
    ensures HowMade(st, path, down, unique) == Created ==>
              Build(TreeRuns.Create(unique), st.rows, path).Some?
    ensures HowMade(st, path, down, unique) == BuildRaised ==>
              Build(TreeRuns.Create(unique), st.rows, path).None?
    ensures ExactUnique(st) ==> ExactUnique(AddIndex(st, path, down, unique))
  {
    hide Agrees, Increasing, Exact, Build, IndexableAt, KeysDistinct, AddIndex;
    BuildSucceedsIff(st.rows, st.end, path, unique);
    AddIndexKeeps(st, path, down, unique);
  }

  /** A fresh tree beside separate ones. */
  lemma MoreHandles(hs: seq<BTreeFile.BTree>, h: BTreeFile.BTree)
    requires Separate(hs) && h in h.Repr && h.Valid()
    requires forall k | 0 <= k < |hs| :: hs[k].Repr !! h.Repr
    ensures Separate(hs + [h]) && States(hs + [h]) == States(hs) + [h.Abs()]
  {
    hide BTreeFile.BTree.Valid, BTreeFile.BTree.Heap;
    assert forall k | 0 <= k < |hs| :: (hs + [h])[k] == hs[k];
  }

  /** A record's bytes carry their own length. */
  lemma StoredBytes(rs: seq<RecordFile.Rec>, j: nat)
    requires AllStored(rs) && j < |rs|
    ensures IsStored(rs[j].doc) && RecordFile.TrueLength(rs[j].doc) && DecodeSpec(rs[j].doc) == Ok(Rows(rs)[j].doc)
  {
    hide Encoding, DecodeSpec, ValidValue, Faultless, NormalFields, RecordFile.TrueLength;
    EncodingIsStored(DecodeSpec(rs[j].doc).value);
  }

  lemma NoDocs(rows: seq<Row>, rs: seq<RecordFile.Rec>)
    requires rs == [] && AllStored(rs)
    ensures Packed(rows[..0], Rows(rs))
  {
  }

  lemma {:induction false} DocsSkip(rows: seq<Row>, i: nat, j: nat)
    requires i <= j <= |rows| && forall k | i <= k < j :: !rows[k].live
    ensures LiveDocs(rows[..j]) == LiveDocs(rows[..i])
    decreases j - i
  {
    if i == j {
    } else {
      DocsSkip(rows, i, j - 1);
      assert rows[..j][..j - 1] == rows[..j - 1];
    }
  }

  /** Copying live row `j` extends the packed rows. */
  lemma PackedMore(rows: seq<Row>, j: nat, was: seq<Row>, packed: seq<Row>)
    requires j < |rows| && rows[j].live && Packed(rows[..j], was)
    requires |packed| == |was| + 1 && packed[..|was|] == was && packed[|was|].live && packed[|was|].doc == rows[j].doc
    ensures Packed(rows[..j + 1], packed)
  {
    hide LiveDocs;
    assert rows[..j + 1] == rows[..j] + [rows[j]] && packed == was + [packed[|was|]];
    AddedDocs(rows[..j], rows[j]);
    AddedDocs(was, packed[|was|]);
  }

  lemma HandleBounded(h: BTreeFile.BTree)
    requires h.Valid()
    ensures Tree.Bounded(h.tree)
  {
    hide BTreeFile.BTree.Heap;
    ValidWf(h);
    TreeRuns.WfBounded(h.Abs());
  }

  lemma UniqueFlag(hs: seq<BTreeFile.BTree>, k: nat)
    requires k < |hs|
    ensures States(hs)[k].unique == hs[k].unique
  {
  }

  lemma {:induction false} RebuiltIs(st: State, packed: seq<Row>, end: nat, k: nat)
    requires Inv(st) && Increasing(packed, end) && Packed(st.rows, packed) && k < |st.paths|
    ensures TreeRuns.Wf(TreeRuns.Create(st.indexes[k].unique))
    ensures var b := Build(TreeRuns.Create(st.indexes[k].unique), packed, st.paths[k]);
            b.Some? && b.value == Rebuilt(st, packed, end, k)
  {
    hide Inv, Increasing, Packed, Build, LiveIndexable, TreeRuns.Wf;
    RebuildSucceeds(st, packed, end, k);
  }

  /** After compaction the live counter is the total. */
  lemma {:induction false} AllPackedLive(rows: seq<Row>, rs: seq<RecordFile.Rec>)
    requires AllStored(rs) && Packed(rows, Rows(rs))
    ensures RecordFile.LiveIn(rs) == |rs|
  {
    hide IsStored, DecodeSpec, RecordFile.EndOf;
    forall i | 0 <= i < |rs| ensures rs[i].live {
      assert Rows(rs)[i].live;
    }
    EveryRecordLive(rs);
  }

  lemma {:induction false} EveryRecordLive(rs: seq<RecordFile.Rec>)
    requires forall i | 0 <= i < |rs| :: rs[i].live
    ensures RecordFile.LiveIn(rs) == |rs|
  {
    if rs == [] {
    } else {
      EveryRecordLive(rs[1..]);
    }
  }

  // ---------------------------------------------------------------- several rows at once

  /** The rows with those in `gone` dead. */
  ghost function Culled(rows: seq<Row>, gone: seq<Row>): (r: seq<Row>)
    ensures |r| == |rows|
  {
    seq(|rows|, i requires 0 <= i < |rows| => if rows[i] in gone then rows[i].(live := false) else rows[i])
  }

  lemma CullNone(rows: seq<Row>)
    ensures Culled(rows, []) == rows
  {
  }

  lemma RowIndex(rows: seq<Row>, r: Row) returns (i: nat)
    requires r in rows
    ensures i < |rows| && rows[i] == r
  {
    i :| 0 <= i < |rows| && rows[i] == r;
  }

  /** The next row to go is still as it was, and burying it is culling one more. */
  lemma CullMore(rows: seq<Row>, end: nat, found: seq<Row>, k: nat, i: nat)
    requires Increasing(rows, end) && Rising(found) && k < |found| && i < |rows| && rows[i] == found[k]
    ensures Culled(rows, found[..k])[i] == rows[i]
    ensures Agreement.Buried(Culled(rows, found[..k]), i) == Culled(rows, found[..k + 1])
  {
    assert rows[i] !in found[..k];
    assert found[..k + 1] == found[..k] + [found[k]];
    assert forall j | 0 <= j < |rows| && rows[j] == rows[i] :: j == i;
  }

  /** How update_many ends. */
  datatype BulkResult = Updated(matched: nat, modified: nat) | FilterRaised | UpdateRaised | Stopped(outcome: Outcome)

  /** What the update returns for the document, if it returns, is a document of values. */
  ghost predicate Suits(update: seq<Field> -> Option<seq<Field>>, doc: seq<Field>) {
    update(doc).Some? ==> ValidValue(Document(update(doc).value))
  }

  /** The update suits the documents of the rows that are to be updated. */
  ghost predicate UpdatesTo(update: seq<Field> -> Option<seq<Field>>, rows: seq<Row>, filter: Filter) {
    forall i | 0 <= i < |rows| && Picks(rows[i], filter) :: Suits(update, rows[i].doc)
  }

  /** The copies made so far end no later than the originals, so a file below 2^60 bytes has room for them. */
  lemma CopyFits(rs: seq<RecordFile.Rec>, j: nat, end: nat, size: nat)
    requires j < |rs| && end <= RecordFile.EndOf(rs[..j]) && size <= 0x4000_0000_0000_0000
    ensures end + 1 + |rs[j].doc| <= RecordFile.EndOf(rs[..j + 1]) <= RecordFile.EndOf(rs)
    ensures NoRoomFor(size, end, |rs[j].doc|) ==> RecordFile.EndOf(rs) > 0x1000_0000_0000_0000
  {
    hide RecordFile.EndOf, NoRoomFor;
    EndOfAppended(rs[..j], rs[j]);
    assert rs[..j + 1] == rs[..j] + [rs[j]];
    RecordFile.EndOfGrows(rs, j + 1, |rs|);
    if RecordFile.EndOf(rs) <= 0x1000_0000_0000_0000 {
      RoomBelow(size, end, |rs[j].doc|);
    }
  }

  /** The update operators suit the documents of any file. */
  lemma OperatorsSuit(rs: seq<RecordFile.Rec>, u: Updates.Update, plus: Updates.FloatSum, filter: Filter)
    requires AllStored(rs) && Updates.ValidUpdate(u)
    ensures UpdatesTo(Updates.Operators(u, plus), Rows(rs), filter)
  {
    hide ValidValue, Encodable, IsStored, Updates.Applied, Updates.ValidUpdate, Picks, Rows, NormalFields;
    forall i | 0 <= i < |Rows(rs)| ensures Suits(Updates.Operators(u, plus), Rows(rs)[i].doc) {
      StoredDoc(rs, i);
      Updates.AppliedValid(Rows(rs)[i].doc, u, plus);
    }
  }

  lemma SuitsTargets(update: seq<Field> -> Option<seq<Field>>, st: State, filter: Filter, found: seq<Row>)
    requires UpdatesTo(update, st.rows, filter) && forall r | r in found :: r in st.rows && Picks(r, filter)
    ensures forall k | 0 <= k < |found| :: Suits(update, found[k].doc)
  {
    hide Suits, Picks;
    forall k | 0 <= k < |found| ensures Suits(update, found[k].doc) {
      var i := RowIndex(st.rows, found[k]);
    }
  }

  /** The update changes what is stored of the row. */
  predicate Alters(r: Row, update: seq<Field> -> Option<seq<Field>>) {
    update(r.doc).Some? && NormalFields(update(r.doc).value) != r.doc
  }

  /** The rows an update changes. */
  function Altered(found: seq<Row>, update: seq<Field> -> Option<seq<Field>>): seq<Row> {
    if found == [] then []
    else Altered(found[..|found| - 1], update) + if Alters(found[|found| - 1], update) then [found[|found| - 1]] else []
  }

  /** The rows in `gone` are dead, and what the update makes of them follows, live and in order. */
  ghost predicate Extends(rows: seq<Row>, after: seq<Row>, gone: seq<Row>, update: seq<Field> -> Option<seq<Field>>) {
    && |after| == |rows| + |gone| && after[..|rows|] == Culled(rows, gone)
    && forall a | 0 <= a < |gone| ::
         && Alters(gone[a], update) && after[|rows| + a].live
         && after[|rows| + a].doc == NormalFields(update(gone[a].doc).value)
  }

  /** Why update_many stops at a target whose document is `was`. */
  ghost predicate Explains(r: BulkResult, was: seq<Field>, update: seq<Field> -> Option<seq<Field>>) {
    match r
    case UpdateRaised => update(was).None?
    case Stopped(o) =>
      && update(was).Some? && !o.Finished? && !o.Unchanged?
      && (o.BadDocument? ==> !Encodable(update(was).value) && RefusedWith(update(was).value, o.status))
      && (o.Unindexable? ==> NormalFields(update(was).value) != was)
    case _ => true
  }

  /** The target is dead too, but nothing follows for it: no room to append its new document. */
  ghost predicate Gone(rows: seq<Row>, after: seq<Row>, gone: seq<Row>, r: Row,
                       update: seq<Field> -> Option<seq<Field>>) {
    && |after| == |rows| + |gone| && after[..|rows|] == Culled(rows, gone + [r])
    && forall a | 0 <= a < |gone| ::
         && Alters(gone[a], update) && after[|rows| + a].live
         && after[|rows| + a].doc == NormalFields(update(gone[a].doc).value)
  }

  /** A refused update: the target is dead too, and the refused document follows, dead. */
  ghost predicate Lost(rows: seq<Row>, after: seq<Row>, gone: seq<Row>, r: Row,
                       update: seq<Field> -> Option<seq<Field>>) {
    && update(r.doc).Some? && |after| == |rows| + |gone| + 1
    && Gone(rows, after[..|after| - 1], gone, r, update)
    && !after[|after| - 1].live && after[|after| - 1].doc == NormalFields(update(r.doc).value)
  }

  /**
    * How update_many leaves the rows: every altered target replaced, or the targets before
    * `at` done and the reason for stopping there.
    */
  ghost predicate BulkDone(rows: seq<Row>, after: seq<Row>, found: seq<Row>, update: seq<Field> -> Option<seq<Field>>,
                           r: BulkResult, at: nat)
  {
    match r
    case FilterRaised => after == rows
    case Updated(matched, modified) =>
      && matched == |found| && modified == |Altered(found, update)|
      && Extends(rows, after, Altered(found, update), update)
    case Stopped(Refused) => at < |found| && Lost(rows, after, Altered(found[..at], update), found[at], update)
    case Stopped(Unindexable) =>
      && at < |found| && Explains(r, found[at].doc, update)
      && Extends(rows, after, Altered(found[..at + 1], update), update)
    case Stopped(NoRoom) =>
      && at < |found| && Explains(r, found[at].doc, update)
      && Gone(rows, after, Altered(found[..at], update), found[at], update)
    case _ =>
      at < |found| && Explains(r, found[at].doc, update) && Extends(rows, after, Altered(found[..at], update), update)
  }

  lemma AllDone(rows: seq<Row>, after: seq<Row>, found: seq<Row>, update: seq<Field> -> Option<seq<Field>>, k: nat)
    requires k == |found| && Extends(rows, after, Altered(found[..k], update), update)
    ensures BulkDone(rows, after, found, update, Updated(|found|, |Altered(found[..k], update)|), k)
  {
    hide Extends, Altered;
    assert found[..k] == found;
  }

  /** What an update did to the rows, for how it ended. */
  ghost predicate Ended(before: State, i: nat, doc: seq<Field>, after: State, how: Entering) {
    exists size :: Changes(before, i, doc, size, after, how)
  }

  /** What one turn of update_many does to row `i`, which was `t`. */
  ghost predicate TurnDone(before: State, after: State, i: nat, t: Row, update: seq<Field> -> Option<seq<Field>>,
                           stop: Option<BulkResult>, changed: bool)
  {
    match stop
    case None =>
      && update(t.doc).Some? && changed == Alters(t, update)
      && (if changed then Ended(before, i, NormalFields(update(t.doc).value), after, Entered) else after == before)
    case Some(r) =>
      && Explains(r, t.doc, update) && (r.UpdateRaised? || r.Stopped?)
      && (r == Stopped(Refused) ==> Ended(before, i, NormalFields(update(t.doc).value), after, Rejected))
      && (r == Stopped(Unindexable) ==> Ended(before, i, NormalFields(update(t.doc).value), after, NoKey))
      && (r == Stopped(NoRoom) ==>
            i < |before.rows| && after == before.(rows := Agreement.Buried(before.rows, i)))
      && (r != Stopped(Refused) && r != Stopped(Unindexable) && r != Stopped(NoRoom) ==> after == before)
  }

  lemma StopsHere(rows: seq<Row>, end: nat, before: State, after: State, found: seq<Row>, k: nat, i: nat,
                  update: seq<Field> -> Option<seq<Field>>, r: BulkResult, changed: bool)
    requires Increasing(rows, end) && Rising(found) && k < |found| && i < |rows| && rows[i] == found[k]
    requires Extends(rows, before.rows, Altered(found[..k], update), update)
    requires TurnDone(before, after, i, found[k], update, Some(r), changed)
    ensures !r.FilterRaised? && BulkDone(rows, after.rows, found, update, r, k)
  {
    hide Extends, Altered, Increasing, NormalFields, Lost, Gone, Ended;
    if r == Stopped(NoRoom) {
      OneGone(rows, end, before, found, k, i, update);
    }
    if r == Stopped(Refused) {
      OneLost(rows, end, before, after, found, k, i, update);
    }
    if r == Stopped(Unindexable) {
      OneMore(rows, end, before, after, found, k, i, update, true, NoKey);
    }
  }

  lemma NothingYet(rows: seq<Row>, update: seq<Field> -> Option<seq<Field>>)
    ensures Altered([], update) == [] && Extends(rows, rows, [], update)
  {
    CullNone(rows);
    assert rows[..|rows|] == rows;
  }

  lemma {:induction false} AlteredAmong(found: seq<Row>, update: seq<Field> -> Option<seq<Field>>)
    ensures forall r | r in Altered(found, update) :: r in found && Alters(r, update)
  {
    hide Alters;
    if found == [] {
    } else {
      AlteredAmong(found[..|found| - 1], update);
    }
  }

  /** The next target is still live where it was found. */
  lemma StillThere(rows: seq<Row>, end: nat, now: seq<Row>, found: seq<Row>, k: nat, i: nat,
                   update: seq<Field> -> Option<seq<Field>>)
    requires Increasing(rows, end) && Rising(found) && k < |found| && i < |rows| && rows[i] == found[k]
    requires Extends(rows, now, Altered(found[..k], update), update)
    ensures i < |now| && now[i] == rows[i]
  {
    hide Alters, NormalFields;
    AlteredAmong(found[..k], update);
    assert rows[i] !in found[..k];
    assert now[i] == now[..|rows|][i];
  }

  /** One update more: an unchanged row leaves the rows alone, a changed one is replaced at the end. */
  lemma OneMore(rows: seq<Row>, end: nat, before: State, after: State, found: seq<Row>, k: nat, i: nat,
                update: seq<Field> -> Option<seq<Field>>, changed: bool, how: Entering)
    requires Increasing(rows, end) && Rising(found) && k < |found| && i < |rows| && rows[i] == found[k]
    requires Extends(rows, before.rows, Altered(found[..k], update), update) && update(found[k].doc).Some?
    requires changed == Alters(found[k], update)
    requires if changed then
               how != Rejected && Ended(before, i, NormalFields(update(found[k].doc).value), after, how)
             else after == before
    ensures Extends(rows, after.rows, Altered(found[..k + 1], update), update)
    ensures |Altered(found[..k + 1], update)| == |Altered(found[..k], update)| + if changed then 1 else 0
  {
    hide NormalFields, Increasing, Changes, Culled, Altered, Extends;
    AlteredStep(found, k, update);
    if changed {
      var size :| Changes(before, i, NormalFields(update(found[k].doc).value), size, after, how);
      ChangedRows(before, i, NormalFields(update(found[k].doc).value), size, after, how);
      CullAltered(rows, end, found, k, i, update);
      ExtendsMore(rows, before.rows, after.rows, Altered(found[..k], update), i, found[k], before.end, update);
    }
  }

  /** The next target dies. */
  lemma OneGone(rows: seq<Row>, end: nat, before: State, found: seq<Row>, k: nat, i: nat,
                update: seq<Field> -> Option<seq<Field>>)
    requires Increasing(rows, end) && Rising(found) && k < |found| && i < |rows| && rows[i] == found[k]
    requires Extends(rows, before.rows, Altered(found[..k], update), update)
    ensures i < |before.rows|
    ensures Gone(rows, Agreement.Buried(before.rows, i), Altered(found[..k], update), found[k], update)
  {
    hide NormalFields, Increasing, Culled, Altered;
    var gone, after := Altered(found[..k], update), Agreement.Buried(before.rows, i);
    CullAltered(rows, end, found, k, i, update);
    assert after[..|rows|] == Agreement.Buried(before.rows[..|rows|], i);
    forall a | 0 <= a < |gone|
      ensures Alters(gone[a], update) && after[|rows| + a].live
      ensures after[|rows| + a].doc == NormalFields(update(gone[a].doc).value)
    {
      assert after[|rows| + a] == before.rows[|rows| + a];
    }
  }

  /** A refused update of the next target. */
  lemma OneLost(rows: seq<Row>, end: nat, before: State, after: State, found: seq<Row>, k: nat, i: nat,
                update: seq<Field> -> Option<seq<Field>>)
    requires Increasing(rows, end) && Rising(found) && k < |found| && i < |rows| && rows[i] == found[k]
    requires Extends(rows, before.rows, Altered(found[..k], update), update) && update(found[k].doc).Some?
    requires Ended(before, i, NormalFields(update(found[k].doc).value), after, Rejected)
    ensures Lost(rows, after.rows, Altered(found[..k], update), found[k], update)
  {
    hide NormalFields, Increasing, Changes, Culled, Altered, Extends, Gone;
    var size :| Changes(before, i, NormalFields(update(found[k].doc).value), size, after, Rejected);
    RefusedRows(before, i, NormalFields(update(found[k].doc).value), size, after);
    OneGone(rows, end, before, found, k, i, update);
    ExtendsSize(rows, before.rows, Altered(found[..k], update), update);
    assert after.rows[..|after.rows| - 1] == Agreement.Buried(before.rows, i);
  }

  lemma ExtendsSize(rows: seq<Row>, after: seq<Row>, gone: seq<Row>, update: seq<Field> -> Option<seq<Field>>)
    requires Extends(rows, after, gone, update)
    ensures |after| == |rows| + |gone|
  {
    hide Culled, Alters, NormalFields;
  }

  lemma RefusedRows(st: State, i: nat, doc: seq<Field>, size: nat, after: State)
    requires Changes(st, i, doc, size, after, Rejected)
    ensures i < |st.rows| && after.rows == Agreement.Buried(st.rows, i) + [Row(st.end, false, doc)]
  {
    hide Inv, DroppedFrom, CanIndex, AddedTo, RolledBack, FirstHalt;
    DropKeeps(st, i);
  }

  lemma AlteredStep(found: seq<Row>, k: nat, update: seq<Field> -> Option<seq<Field>>)
    requires k < |found|
    ensures Altered(found[..k + 1], update) ==
            if Alters(found[k], update) then Altered(found[..k], update) + [found[k]] else Altered(found[..k], update)
  {
    hide Alters;
    assert found[..k + 1][..k] == found[..k];
  }

  lemma ExtendsMore(rows: seq<Row>, before: seq<Row>, after: seq<Row>, gone: seq<Row>, i: nat, r: Row, off: nat,
                    update: seq<Field> -> Option<seq<Field>>)
    requires Extends(rows, before, gone, update) && i < |rows| && Alters(r, update)
    requires after == Agreement.Buried(before, i) + [Row(off, true, NormalFields(update(r.doc).value))]
    requires Agreement.Buried(Culled(rows, gone), i) == Culled(rows, gone + [r])
    ensures Extends(rows, after, gone + [r], update)
  {
    hide NormalFields, Culled;
    assert after[..|rows|] == Agreement.Buried(before[..|rows|], i);
    forall a | 0 <= a < |gone + [r]|
      ensures Alters((gone + [r])[a], update) && after[|rows| + a].live
      ensures after[|rows| + a].doc == NormalFields(update((gone + [r])[a].doc).value)
    {
      assert (gone + [r])[a] == if a < |gone| then gone[a] else r;
      assert a < |gone| ==> after[|rows| + a] == before[|rows| + a];
    }
  }

  lemma CullAltered(rows: seq<Row>, end: nat, found: seq<Row>, k: nat, i: nat, update: seq<Field> -> Option<seq<Field>>)
    requires Increasing(rows, end) && Rising(found) && k < |found| && i < |rows| && rows[i] == found[k]
    ensures var gone := Altered(found[..k], update);
            Agreement.Buried(Culled(rows, gone), i) == Culled(rows, gone + [found[k]])
  {
    AlteredAmong(found[..k], update);
    assert forall j | 0 <= j < |rows| && rows[j] == rows[i] :: j == i;
  }

  lemma ChangedRows(st: State, i: nat, doc: seq<Field>, size: nat, after: State, how: Entering)
    requires Changes(st, i, doc, size, after, how) && how != Rejected
    ensures i < |st.rows| && after.rows == Agreement.Buried(st.rows, i) + [Row(st.end, true, doc)]
  {
    hide Inv, DroppedFrom, CanIndex, AddedTo, RolledBack, FirstHalt;
    DropKeeps(st, i);
  }

  // ---------------------------------------------------------------- the collection

  class Collection {
    var file: DataFile
    var paths: seq<Path>
    var descending: seq<bool>
    var handles: seq<BTreeFile.BTree>

    ghost predicate FileOk()
      reads this, file, file.mem
    {
      file.Valid() && AllStored(file.recs)
    }

    /** The data file shares nothing with the index files. */
    ghost predicate Apart()
      reads this, file, handles
    {
      forall k | 0 <= k < |handles| ::
        this !in handles[k].Repr && file !in handles[k].Repr && file.mem !in handles[k].Repr
    }

    /** What the bytes and pages stand for. */
    ghost function Abs(): State
      requires AllStored(file.recs)
      reads this, file, handles
    {
      State(Rows(file.recs), RecordFile.EndOf(file.recs), paths, descending, States(handles))
    }

    /** The files are well formed and share nothing. */
    ghost predicate Sound()
      reads this, file, file.mem, handles, Objects(handles)
    {
      FileOk() && Apart() && Separate(handles)
    }

    /** The files are sound and the indexes agree with the records. */
    ghost predicate Valid()
      reads this, file, file.mem, handles, Objects(handles)
    {
      Sound() && Inv(Abs())
    }

    /** A new collection: an empty data file and no indexes. */
    constructor ()
      ensures fresh(file) && fresh(file.mem) && handles == []
      ensures AllStored(file.recs) && Abs() == Empty(RecordFile.HEADER_LEN)
      ensures Valid()
    {
      file := new DataFile();
      paths, descending, handles := [], [], [];
    }

    /** Append the bytes of a document. */
    method AppendRow(bytes: seq<byte>) returns (r: RecordFile.Reply<nat>)
      requires FileOk() && Apart() && IsStored(bytes) && RecordFile.TrueLength(bytes)
      modifies file, file.mem
      ensures r.Failure? <==> NoRoomFor(old(file.mem.Length), RecordFile.EndOf(old(file.recs)), |bytes|)
      ensures r.Failure? ==> file.recs == old(file.recs) && file.mem.Length == old(file.mem.Length)
      ensures r.Success? ==>
                && r.value == RecordFile.EndOf(old(file.recs))
                && file.recs == old(file.recs) + [RecordFile.Rec(true, bytes)]
      ensures file.mem == old(file.mem) || fresh(file.mem)
      ensures r.Success? ==>
                Rows(file.recs) == old(Rows(file.recs)) + [Row(r.value, true, DecodeSpec(bytes).value)]
                && RecordFile.EndOf(file.recs) == r.value + 1 + |bytes|
      ensures States(handles) == old(States(handles))
      ensures old(Separate(handles)) ==> Separate(handles)
      ensures Apart() && FileOk()
    {
      hide IsStored, RecordFile.Holds, RecordFile.EndOf, BTreeFile.BTree.Valid, BTreeFile.BTree.Heap;
      hide Capacity, NoRoomFor, RecordFile.Apply, RecordFile.AppendWrites, Resized, RecordFile.ZeroFrom;
      EndOfAppended(file.recs, RecordFile.Rec(true, bytes));
      r := file.Append(bytes);
      if r.Success? {
        RowsAppended(old(file.recs), RecordFile.Rec(true, bytes));
      }
    }

    /** Tombstone record `i`. */
    method BuryRow(off: nat, ghost i: nat)
      requires FileOk() && Apart() && file.IsRecord(off, i)
      modifies file, file.mem
      ensures file.recs == RecordFile.Tombstoned(old(file.recs), i) && file.mem == old(file.mem)
      ensures AllStored(file.recs) && Rows(file.recs) == Agreement.Buried(old(Rows(file.recs)), i)
      ensures RecordFile.EndOf(file.recs) == RecordFile.EndOf(old(file.recs))
      ensures States(handles) == old(States(handles))
      ensures old(Separate(handles)) ==> Separate(handles)
      ensures Apart() && FileOk()
    {
      hide IsStored, RecordFile.Holds, RecordFile.EndOf, BTreeFile.BTree.Valid, BTreeFile.BTree.Heap, Rows;
      hide RecordFile.Tombstoned, Agreement.Buried, BuriedBytes, RecordFile.ZeroFrom;
      var done := file.Tombstone(off, i);
      RowsBuried(old(file.recs), i);
    }

    /** The state of the files between appending a document and entering it in the indexes. */
    ghost predicate Appended(st: State, fs: seq<Field>, off: nat, size: nat)
      reads this, file, handles
    {
      && AllStored(file.recs) && Serves(handles, paths, st, off) && ValidValue(Document(fs))
      && st.descending == descending
      && Rows(file.recs) == st.rows + [Row(off, true, NormalFields(fs))]
      && RecordFile.EndOf(file.recs) == st.end + size
    }

    /** Enter an appended document everywhere, tombstone it if an index refuses it, or stop half way. */
    method EnterRow(fs: seq<Field>, off: nat, ghost st: State, ghost size: nat) returns (how: Entering)
      requires Appended(st, fs, off, size) && size > 0
      requires Sound()
      modifies file, file.mem, Objects(handles)
      ensures AllStored(file.recs) && Adds(st, NormalFields(fs), size, Abs(), how)
      ensures file.mem == old(file.mem)
      ensures forall k | 0 <= k < |handles| :: fresh(handles[k].Repr - old(handles[k].Repr))
      ensures Sound()
      ensures how != NoKey <==> Valid()
    {
      hide BTreeFile.BTree.Valid, BTreeFile.BTree.Heap, Inv, KeyAt, IndexableAt, IsStored, ValidValue;
      hide RecordFile.Holds, RecordFile.EndOf, Rows, NormalFields, DecodeSpec, Blocks, AddedTo, RolledBack, FirstHalt;
      hide HowEntered, Separate;
      ghost var i := |st.rows|;
      ghost var rows := Rows(file.recs);
      how := EnterAll(handles, paths, fs, off, st);
      StoredKeys(st, fs, size);
      if how == Rejected {
        LastRecord(file.recs, off, i);
        BuryRow(off, i);
        assert Rows(file.recs) == st.rows + [Row(off, false, NormalFields(fs))];
      }
      StillExact(st, NormalFields(fs), size);
    }

    /** What insert_one does with the encoded document. */
    method AddRow(fs: seq<Field>, bytes: seq<byte>) returns (r: Outcome)
      requires ValidValue(Document(fs)) && IsStored(bytes) && RecordFile.TrueLength(bytes)
      requires DecodeSpec(bytes) == Ok(NormalFields(fs))
      requires Valid()
      modifies file, file.mem, Objects(handles)
      ensures AllStored(file.recs)
      ensures r.NoRoom? || r.Finished? || r.Refused? || r.Unindexable?
      ensures r.NoRoom? <==> NoRoomFor(old(file.mem.Length), old(Abs().end), |bytes|)
      ensures r.NoRoom? ==> Abs() == old(Abs())
      ensures !r.NoRoom? ==>
                exists how :: Adds(old(Abs()), NormalFields(fs), 1 + |bytes|, Abs(), how) && r == OutcomeOf(how)
      ensures !r.Unindexable? && old(ExactUnique(Abs())) ==> ExactUnique(Abs())
      ensures r.Refused? && old(ExactUnique(Abs())) ==> |handles| == |paths| && Collides(Abs(), NormalFields(fs))
      ensures Sound()
      ensures !r.Unindexable? <==> Valid()
    {
      hide BTreeFile.BTree.Valid, BTreeFile.BTree.Heap, Inv, IsStored, ValidValue, Rows;
      hide RecordFile.Holds, RecordFile.EndOf, RecordFile.TrueLength, NormalFields, DecodeSpec;
      hide ExactUnique, Add, HowEntered, Separate, Collides, NoRoomFor;
      ghost var st := Abs();
      InvSizes(st);
      var off := AppendRow(bytes);
      if off.Failure? {
        return NoRoom;
      }
      var how := EnterRow(fs, off.value, st, 1 + |bytes|);
      StillExact(st, NormalFields(fs), 1 + |bytes|);
      r := OutcomeOf(how);
    }

    /**
      * insert_one (and the insertion of an upsert, whose document comes from elsewhere):
      * encode, append, enter in every index, and tombstone the record again if one refuses.
      * The document brings its `_id` along.
      */
    method InsertOne(fs: seq<Field>) returns (r: Outcome)
      requires Valid() && ValidValue(Document(fs))
      modifies file, file.mem, Objects(handles)
      ensures AllStored(file.recs)
      ensures !r.Unchanged? && (r.BadDocument? <==> !Encodable(fs))
      ensures r.BadDocument? ==> RefusedWith(fs, r.status)
      ensures r.NoRoom? <==> Encodable(fs) && NoRoomFor(old(file.mem.Length), old(Abs().end), |Encoding(fs)|)
      ensures r.BadDocument? || r.NoRoom? ==> Abs() == old(Abs())
      ensures r.Finished? || r.Refused? || r.Unindexable? ==>
                && Abs().rows == old(Abs().rows) + [Row(old(Abs().end), !r.Refused?, NormalFields(fs))]
                && Inv(old(Abs())) && Abs() == Add(old(Abs()), NormalFields(fs), 1 + |Encoding(fs)|)
                && HowEntered(old(Abs()), NormalFields(fs)) ==
                   if r.Finished? then Entered else if r.Refused? then Rejected else NoKey
      ensures !r.Unindexable? && old(ExactUnique(Abs())) ==> ExactUnique(Abs())
      ensures r.Refused? && old(ExactUnique(Abs())) ==> |handles| == |paths| && Collides(Abs(), NormalFields(fs))
      ensures Sound()
      ensures !r.Unindexable? <==> Valid()
    {
      hide BTreeFile.BTree.Valid, BTreeFile.BTree.Heap, Inv, IsStored, ValidValue, Encoding, Encodable, Rows;
      hide RecordFile.Holds, RecordFile.EndOf, RecordFile.TrueLength, NormalFields, DecodeSpec, RefusedWith;
      hide ExactUnique, Add, HowEntered, Separate, Collides, NoRoomFor;
      AddedRow(Abs(), NormalFields(fs), 1 + |Encoding(fs)|);
      var encoded := EncodeDoc(fs);
      if encoded.Err? {
        return BadDocument(encoded.status);
      }
      r := AddRow(fs, encoded.value);
    }

    /** Row `i` is live, at `off`, and holds `doc`. */
    ghost predicate Holding(i: nat, off: nat, doc: seq<Field>)
      reads this, file
    {
      AllStored(file.recs) && i < |file.recs| && Rows(file.recs)[i] == Row(off, true, doc)
    }

    /**
      * Tombstone a live record and delete its entries: delete_one and each turn of delete_many, in
      * any collection.  It raises half way if the document has no key at some indexed path.
      */
    method RemoveRecord(off: nat, doc: seq<Field>, ghost i: nat) returns (raised: bool)
      requires Sound() && |handles| == |paths| && Holding(i, off, doc)
      modifies file, file.mem, Objects(handles)
      ensures AllStored(file.recs)
      ensures Formed(old(Abs())) && Abs() == Removed(old(Abs()), i)
      ensures raised <==> FirstKeyless(paths, doc) < |paths|
      ensures file.mem == old(file.mem)
      ensures forall k | 0 <= k < |handles| :: handles[k].Repr == old(handles[k].Repr)
      ensures Sound()
    {
      hide BTreeFile.BTree.Valid, BTreeFile.BTree.Heap, KeyAt, IndexableAt, IsStored, ValidValue, Separate;
      hide RecordFile.Holds, RecordFile.EndOf, Rows, DecodeSpec, RemovedFrom, Encodable, FirstKeyless;
      hide Agreement.Buried, NormalFields;
      ghost var st := Abs();
      LastRecord(file.recs, off, i);
      StoredDoc(file.recs, i);
      BuryRow(off, i);
      raised := RemoveAll(handles, paths, doc, off, st, i);
    }

    /** The same where the indexes agree with the records: it does not raise, and they agree afterwards. */
    method DeleteRecord(off: nat, doc: seq<Field>, ghost i: nat)
      requires Valid() && Holding(i, off, doc)
      modifies file, file.mem, Objects(handles)
      ensures AllStored(file.recs) && CanIndex(paths, old(Abs()).rows[i].doc)
      ensures Abs() == Drop(old(Abs()), i)
      ensures file.mem == old(file.mem)
      ensures forall k | 0 <= k < |handles| :: handles[k].Repr == old(handles[k].Repr)
      ensures old(ExactUnique(Abs())) ==> ExactUnique(Abs())
      ensures Valid()
    {
      hide BTreeFile.BTree.Valid, BTreeFile.BTree.Heap, Inv, IndexableAt, IsStored, Separate, Removed, Drop;
      hide RecordFile.Holds, RecordFile.EndOf, Rows, ExactUnique, CanIndex, FirstKeyless;
      ghost var st := Abs();
      InvSizes(st);
      LiveCanDrop(st, i);
      RemovedIsDrop(st, i);
      DropKeeps(st, i);
      var raised := RemoveRecord(off, doc, i);
    }

    /** The file after an update's tombstone and append; the indexes still as before. */
    ghost predicate Swapped(st: State, i: nat, fs: seq<Field>, newOff: nat, size: nat)
      reads this, file, handles
    {
      && AllStored(file.recs) && i < |st.rows| && Serves(handles, paths, st, newOff)
      && st.descending == descending
      && Rows(file.recs) == Agreement.Buried(st.rows, i) + [Row(newOff, true, NormalFields(fs))]
      && RecordFile.EndOf(file.recs) == st.end + size
    }

    /** Tombstone record `i` and append another, for all the indexes to follow. */
    method Replace(off: nat, fs: seq<Field>, bytes: seq<byte>, ghost i: nat, ghost st: State)
      returns (r: RecordFile.Reply<nat>)
      requires Encodable(fs) && bytes == Encoding(fs)
      requires FileOk() && Apart() && file.IsRecord(off, i) && st == Abs() && Inv(st)
      requires Separate(handles)
      modifies file, file.mem
      ensures file.mem == old(file.mem) || fresh(file.mem)
      ensures AllStored(file.recs)
      ensures r.Failure? <==> NoRoomFor(old(file.mem.Length), st.end, |bytes|)
      ensures r.Failure? ==>
                Abs() == st.(rows := Agreement.Buried(st.rows, i)) && file.mem.Length == old(file.mem.Length)
      ensures r.Success? ==> Swapped(st, i, fs, r.value, 1 + |bytes|)
      ensures Separate(handles)
      ensures Apart() && FileOk()
    {
      hide IsStored, RecordFile.Holds, RecordFile.EndOf, BTreeFile.BTree.Valid, BTreeFile.BTree.Heap, Rows, Inv;
      hide Encodable, Encoding, NormalFields, DecodeSpec, ValidValue, RecordFile.TrueLength, Separate;
      hide NoRoomFor;
      InvSizes(st);
      EncodingIsStored(fs);
      BuryRow(off, i);
      r := AppendRow(bytes);
    }

    /** Take the old document out of every index and enter the new one. */
    method Repoint(off: nat, was: seq<Field>, fs: seq<Field>, newOff: nat, ghost i: nat, ghost st: State,
                   ghost size: nat)
      returns (how: Entering)
      requires Swapped(st, i, fs, newOff, size) && st.rows[i] == Row(off, true, was) && size > 0
      requires CanIndex(paths, was) && ValidValue(Document(was)) && ValidValue(Document(fs))
      requires FileOk() && Apart()
      requires Separate(handles)
      modifies file, file.mem, Objects(handles)
      ensures AllStored(file.recs)
      ensures Abs() == Change(st, i, NormalFields(fs), size) && how == HowChanged(st, i, NormalFields(fs))
      ensures file.mem == old(file.mem)
      ensures forall k | 0 <= k < |handles| :: fresh(handles[k].Repr - old(handles[k].Repr))
      ensures Sound()
      ensures how != NoKey <==> Valid()
    {
      hide BTreeFile.BTree.Valid, BTreeFile.BTree.Heap, Inv, KeyAt, IndexableAt, IsStored, ValidValue, HowEntered;
      hide RecordFile.Holds, RecordFile.EndOf, Rows, DecodeSpec, DroppedFrom, Add, NormalFields, Agreement.Buried;
      hide Separate, Removed, Drop;
      DropKeeps(st, i);
      DropRows(st, i);
      InvSizes(st);
      RemovedIsDrop(st, i);
      var raised := RemoveAll(handles, paths, was, off, st, i);
      how := EnterRow(fs, newOff, Drop(st, i), size);
    }

    /** The rewriting part of an update: old record dead, new one appended, every index repointed. */
    method Rewrite(off: nat, was: seq<Field>, fs: seq<Field>, bytes: seq<byte>, ghost i: nat, ghost st: State)
      returns (r: Outcome)
      requires Encodable(fs) && bytes == Encoding(fs)
      requires FileOk() && st == Abs() && Holding(i, off, was)
      requires Valid()
      modifies file, file.mem, Objects(handles)
      ensures AllStored(file.recs) && (file.mem == old(file.mem) || fresh(file.mem))
      ensures r.NoRoom? || r == OutcomeOf(Entered) || r == OutcomeOf(Rejected) || r == OutcomeOf(NoKey)
      ensures r.NoRoom? <==> NoRoomFor(old(file.mem.Length), st.end, |bytes|)
      ensures r.NoRoom? ==>
                Abs() == st.(rows := Agreement.Buried(st.rows, i)) && file.mem.Length == old(file.mem.Length)
      ensures !r.NoRoom? ==>
                && i < |st.rows| && CanIndex(st.paths, st.rows[i].doc)
                && Abs() == Change(st, i, NormalFields(fs), 1 + |bytes|)
                && r == OutcomeOf(HowChanged(st, i, NormalFields(fs)))
      ensures forall k | 0 <= k < |handles| :: fresh(handles[k].Repr - old(handles[k].Repr))
      ensures Sound()
      ensures !r.Unindexable? <==> Valid()
    {
      hide BTreeFile.BTree.Valid, BTreeFile.BTree.Heap, Inv, KeyAt, IndexableAt, IsStored, ValidValue;
      hide Encoding, Encodable;
      hide RecordFile.Holds, RecordFile.EndOf, Rows, DecodeSpec, NormalFields, RecordFile.TrueLength, Agreement.Buried;
      hide Change, HowChanged, Separate, NoRoomFor;
      EncodableIsValid(fs);
      LiveCanDrop(st, i);
      LastRecord(file.recs, off, i);
      StoredDoc(file.recs, i);
      var newOff := Replace(off, fs, bytes, i, st);
      if newOff.Failure? {
        BuryKeeps(st, i);
        return NoRoom;
      }
      var how := Repoint(off, was, fs, newOff.value, i, st, 1 + |bytes|);
      r := OutcomeOf(how);
    }

    /**
      * _apply_single_update: nothing if the encodings are equal, otherwise a rewrite; a refusal
      * leaves both the old and the new record dead.
      */
    method UpdateRecord(off: nat, was: seq<Field>, fs: seq<Field>, ghost i: nat) returns (r: Outcome)
      requires Valid() && Holding(i, off, was) && ValidValue(Document(fs))
      modifies file, file.mem, Objects(handles)
      ensures AllStored(file.recs) && (file.mem == old(file.mem) || fresh(file.mem))
      ensures r.BadDocument? <==> !Encodable(fs)
      ensures r.BadDocument? ==> RefusedWith(fs, r.status)
      ensures r.Unchanged? <==> Encodable(fs) && NormalFields(fs) == was
      ensures r.BadDocument? || r.Unchanged? ==> Abs() == old(Abs())
      ensures r.NoRoom? <==>
                && Encodable(fs) && NormalFields(fs) != was
                && NoRoomFor(old(file.mem.Length), old(Abs().end), |Encoding(fs)|)
      ensures r.NoRoom? ==>
                && Abs() == old(Abs()).(rows := Agreement.Buried(old(Abs()).rows, i))
                && file.mem.Length == old(file.mem.Length)
      ensures r.Finished? ==> Changes(old(Abs()), i, NormalFields(fs), 1 + |Encoding(fs)|, Abs(), Entered)
      ensures r.Refused? ==> Changes(old(Abs()), i, NormalFields(fs), 1 + |Encoding(fs)|, Abs(), Rejected)
      ensures r.Unindexable? ==> Changes(old(Abs()), i, NormalFields(fs), 1 + |Encoding(fs)|, Abs(), NoKey)
      ensures forall k | 0 <= k < |handles| :: fresh(handles[k].Repr - old(handles[k].Repr))
      ensures !r.NoRoom? && !r.Unindexable? && old(ExactUnique(Abs())) ==> ExactUnique(Abs())
      ensures r.Refused? && old(ExactUnique(Abs())) ==> |handles| == |paths| && Collides(Abs(), NormalFields(fs))
      ensures Sound()
      ensures !r.Unindexable? <==> Valid()
    {
      hide BTreeFile.BTree.Valid, BTreeFile.BTree.Heap, Inv, KeyAt, IndexableAt, IsStored, ValidValue;
      hide Encoding, Encodable, RefusedWith;
      hide RecordFile.Holds, RecordFile.EndOf, Rows, DecodeSpec, ExactUnique, Add, NormalFields, RecordFile.TrueLength;
      hide Change, Drop, HowChanged, Separate, Collides, NoRoomFor;
      ghost var st := Abs();
      InvSizes(st);
      StoredDoc(file.recs, i);
      var oldBytes := EncodeDoc(was);
      var newBytes := EncodeDoc(fs);
      if newBytes.Err? {
        return BadDocument(newBytes.status);
      }
      SameBytesIff(fs, was);
      if newBytes.value == oldBytes.value {
        return Unchanged;
      }
      r := Rewrite(off, was, fs, newBytes.value, i, st);
      if !r.NoRoom? {
        UpdateKeeps(st, i, NormalFields(fs), 1 + |newBytes.value|);
      }
    }

    // -------------------------------------------------------------- finding

    /** read_record and decode. */
    method ReadDoc(off: nat, ghost i: nat) returns (r: Option<seq<Field>>)
      requires FileOk() && file.IsRecord(off, i)
      ensures r == if Rows(file.recs)[i].live then Some(Rows(file.recs)[i].doc) else None
    {
      hide RecordFile.Holds, RecordFile.EndOf, DecodeSpec, Encodable, Encoding;
      var raw := file.ReadRecord(off, i);
      if raw.value.None? {
        return None;
      }
      assert IsStored(file.recs[i].doc);
      var doc := Decoder.Decode(raw.value.value);
      r := Some(doc.value);
    }

    /** The full-scan half of __scan. */
    method FullScan(filter: Filter) returns (r: Option<seq<(nat, seq<Field>)>>, ghost found: seq<Row>)
      requires FileOk()
      ensures r == Shown(ScanRows(Rows(file.recs), filter))
      ensures ScanRows(Rows(file.recs), filter) == if r.Some? then Some(found) else None
      ensures r.None? <==> exists i :: 0 <= i < |file.recs| && RaisesOn(Rows(file.recs)[i], filter)
      ensures r.Some? ==>
                && r.value == Pairs(found) && Rising(found)
                && forall row :: row in found <==> row in Rows(file.recs) && Picks(row, filter)
    {
      hide IsStored, RecordFile.Holds, RecordFile.EndOf, DecodeSpec, Matches, ScanRows, Rows, Pairs;
      hide Picks, RaisesOn, Rising;
      ghost var rows := Rows(file.recs);
      ScanFinds(file.recs, filter);
      var prev: int, out := -1, [];
      ghost var i := 0;
      found := [];
      assert rows[0..] == rows && Pairs(found) == [];
      AfterNothing(ScanRows(rows, filter));
      while true
        invariant prev >= -1 && i <= |rows| && out == Pairs(found)
        invariant if prev == -1 then i == 0 else i > 0 && file.IsRecord(prev, i - 1)
        invariant After(found, ScanRows(rows[i..], filter)) == ScanRows(rows, filter)
        decreases |rows| - i
      {
        var next := file.NextLiveOffset(prev, i);
        ghost var j := NextLive(file.recs, i);
        RowsLive(file.recs, i, j);
        ScanSkips(rows, i, j, filter);
        if next.value.None? {
          ScanEnds(rows, found, filter);
          return Some(out), found;
        }
        var off := next.value.value;
        var doc := ReadDoc(off, j);
        ScanTurn(rows, j, filter);
        AfterTurn(found, rows[j], filter, ScanRows(rows[j + 1..], filter));
        var matched := Matches(doc.value, filter);
        if matched.None? {
          return None, found;
        }
        if matched.value {
          PairsMore(found, rows[j]);
          out, found := out + [(off, doc.value)], found + [rows[j]];
        }
        prev, i := off, j + 1;
      }
    }

    /** The index half of __scan: read what the index reported and apply the filter again. */
    method ScanOffsets(offs: seq<nat>, filter: Filter)
      returns (r: Option<seq<(nat, seq<Field>)>>, ghost found: seq<Row>)
      requires FileOk()
      requires AllRows(Rows(file.recs), offs)
      ensures r == Shown(SearchRows(Rows(file.recs), offs, filter))
      ensures SearchRows(Rows(file.recs), offs, filter) == if r.Some? then Some(found) else None
    {
      hide IsStored, RecordFile.Holds, RecordFile.EndOf, DecodeSpec, Matches, SearchRows, Rows, Pairs;
      ghost var rows := Rows(file.recs);
      RowsIncrease(file.recs);
      var k, out := 0, [];
      found := [];
      assert offs[0..] == offs && Pairs(found) == [];
      AfterNothing(SearchRows(rows, offs, filter));
      while k < |offs|
        invariant 0 <= k <= |offs| && out == Pairs(found)
        invariant After(found, SearchRows(rows, offs[k..], filter)) == SearchRows(rows, offs, filter)
      {
        ghost var i :| 0 <= i < |rows| && rows[i].off == offs[k];
        LastRecord(file.recs, offs[k], i);
        SearchTurn(rows, RecordFile.EndOf(file.recs), offs, k, i, filter);
        var doc := ReadDoc(offs[k], i);
        if doc.Some? {
          AfterTurn(found, rows[i], filter, SearchRows(rows, offs[k + 1..], filter));
          var matched := Matches(doc.value, filter);
          if matched.None? {
            return None, found;
          }
          if matched.value {
            PairsMore(found, rows[i]);
            out, found := out + [(offs[k], doc.value)], found + [rows[i]];
          }
        }
        k := k + 1;
      }
      SearchEnds(rows, offs, found, filter);
      r := Some(out);
    }

    /** _iter_matches and __scan: through an index if the filter is one equality on an indexed path. */
    method FindMatches(filter: Filter) returns (r: Option<seq<(nat, seq<Field>)>>, ghost found: seq<Row>)
      requires Valid() && forall i | 0 <= i < |filter| :: ValidValue(filter[i].cond.v)
      ensures r == Shown(Find(Abs(), filter))
      ensures Find(Abs(), filter) == if r.Some? then Some(found) else None
      ensures r.Some? ==> r.value == Pairs(found)
    {
      hide BTreeFile.BTree.Valid, BTreeFile.BTree.Heap, IsStored, Tree.Bounded, RecordFile.EndOf;
      hide RecordFile.Holds, Matches;
      hide SearchRows, ScanRows, Rows, Pairs, EncodeKey, TreeSearch.Lookup, TreeRuns.Wf, Grounded, Covers;
      hide RunOrdered, Increasing;
      var route := Route(paths, filter);
      if route.None? {
        r, found := FullScan(filter);
      } else {
        var (k, key) := route.value;
        HandleBounded(handles[k]);
        ghost var st := Abs();
        assert Agrees(st.rows, st.paths[k], st.indexes[k]);
        LookupRows(st.rows, st.paths[k], st.indexes[k], key);
        var offs := handles[k].LookupKey(key);
        r, found := ScanOffsets(offs, filter);
      }
    }

    // -------------------------------------------------------------- indexes and compaction

    /** One turn of the build loop: whether the live record at `off` could be entered. */
    method BuildOne(h: BTreeFile.BTree, off: nat, path: Path, ghost j: nat) returns (ok: bool)
      requires FileOk() && file.IsRecord(off, j) && file.recs[j].live
      requires h in h.Repr && this !in h.Repr && file !in h.Repr && file.mem !in h.Repr
      requires h.Valid()
      modifies h.Repr
      ensures FileOk() && file.recs == old(file.recs)
      ensures TreeRuns.Wf(old(h.Abs())) && TreeRuns.Wf(h.Abs())
      ensures Build(old(h.Abs()), Rows(file.recs)[j..], path) ==
              if ok then Build(h.Abs(), Rows(file.recs)[j + 1..], path) else None
      ensures fresh(h.Repr - old(h.Repr)) && h in h.Repr
      ensures h.Valid()
    {
      hide BTreeFile.BTree.Valid, BTreeFile.BTree.Heap, IsStored, RecordFile.Holds, RecordFile.EndOf, TreeRuns.Wf;
      hide TreeRuns.Step, Build, KeyAt, IndexableAt, Tree.Bounded, ValidValue;
      ValidWf(h);
      var doc := ReadDoc(off, j);
      BuildTurn(h.Abs(), Rows(file.recs), j, path);
      StoredDoc(file.recs, j);
      var key := KeyFor(doc.value, path);
      if key.None? {
        return false;
      }
      var duplicate := h.InsertKey(key.value, off);
      ValidWf(h);
      ok := !duplicate;
    }

    /** The build loop of create_index, over the live records in file order. */
    method BuildIndex(path: Path, unique: bool) returns (ok: bool, h: BTreeFile.BTree)
      requires FileOk()
      ensures fresh(h.Repr) && h in h.Repr && h.Valid()
      ensures TreeRuns.Wf(TreeRuns.Create(unique))
      ensures ok <==> Build(TreeRuns.Create(unique), Rows(file.recs), path).Some?
      ensures ok ==> h.Abs() == Build(TreeRuns.Create(unique), Rows(file.recs), path).value
    {
      hide BTreeFile.BTree.Valid, BTreeFile.BTree.Heap, IsStored, RecordFile.Holds, RecordFile.EndOf, Rows, TreeRuns.Wf;
      hide TreeRuns.Step, Build, KeyAt, IndexableAt, Tree.Bounded, ValidValue;
      ghost var rows := Rows(file.recs);
      h := new BTreeFile.BTree(unique);
      ValidWf(h);
      ghost var built := Build(h.Abs(), rows, path);
      var prev: int := -1;
      ghost var i := 0;
      assert rows[0..] == rows;
      while true
        invariant prev >= -1 && i <= |rows|
        invariant if prev == -1 then i == 0 else i > 0 && file.IsRecord(prev, i - 1)
        invariant fresh(h.Repr) && h in h.Repr && h.Valid() && TreeRuns.Wf(h.Abs())
        invariant Build(h.Abs(), rows[i..], path) == built
        decreases |rows| - i
      {
        var next := file.NextLiveOffset(prev, i);
        ghost var j := NextLive(file.recs, i);
        RowsLive(file.recs, i, j);
        BuildSkips(h.Abs(), rows, i, j, path);
        if next.value.None? {
          BuildEnds(h.Abs(), rows, path);
          ValidWf(h);
          return true, h;
        }
        prev, i := next.value.value, j + 1;
        ok := BuildOne(h, prev, path, j);
        if !ok {
          return false, h;
        }
      }
    }

    /**
      * create_index: nothing if the index is there already, an error if one of its name differs,
      * otherwise a build, of which nothing is left when it raises.
      */
    method CreateIndex(path: Path, down: bool, unique: bool) returns (made: Making)
      requires Valid()
      modifies this
      ensures file == old(file) && Inv(old(Abs()))
      ensures made == AlreadyThere <==> HasIndex(old(Abs()), path, down, unique)
      ensures made == NameTaken <==> HasIndex(old(Abs()), path, down, !unique)
      ensures made == BuildRaised <==>
                && !HasIndex(old(Abs()), path, down, true) && !HasIndex(old(Abs()), path, down, false)
                && CannotIndex(old(Abs()), path, unique)
      ensures made == HowMade(old(Abs()), path, down, unique)
      ensures Abs() == AddIndex(old(Abs()), path, down, unique)
      ensures old(ExactUnique(Abs())) ==> ExactUnique(Abs())
      ensures Valid()
    {
      hide BTreeFile.BTree.Valid, BTreeFile.BTree.Heap, IsStored, RecordFile.Holds, RecordFile.EndOf, Rows, TreeRuns.Wf;
      hide Build, IndexableAt, KeysDistinct, LiveIndexable, ExactUnique, Agrees, Increasing;
      hide HasIndex, CannotIndex;
      ghost var st := Abs();
      HowMadeIff(st, path, down, unique);
      IndexAdded(st, path, down, unique);
      var k := NameAt(paths, descending, path, down);
      if k < |paths| {
        UniqueFlag(handles, k);
        return if handles[k].unique == unique then AlreadyThere else NameTaken;
      }
      var ok, h := BuildIndex(path, unique);
      if !ok {
        return BuildRaised;
      }
      MoreHandles(handles, h);
      paths, descending, handles := paths + [path], descending + [down], handles + [h];
      made := Created;
    }

    /** One turn of the copying loop: live record `j`, at `off`, appended to the new file. */
    method CopyOne(tmp: DataFile, off: nat, ghost j: nat) returns (ok: bool)
      requires FileOk() && file.IsRecord(off, j) && file.recs[j].live
      requires tmp != file && tmp.mem != file.mem && tmp.Valid() && AllStored(tmp.recs)
      requires Packed(Rows(file.recs)[..j], Rows(tmp.recs))
      requires RecordFile.EndOf(tmp.recs) <= RecordFile.EndOf(file.recs[..j])
      modifies tmp, tmp.mem
      ensures tmp.mem == old(tmp.mem) || fresh(tmp.mem)
      ensures tmp.Valid() && AllStored(tmp.recs)
      ensures FileOk() && file.recs == old(file.recs)
      ensures ok ==> Packed(Rows(file.recs)[..j + 1], Rows(tmp.recs))
      ensures ok ==> RecordFile.EndOf(tmp.recs) <= RecordFile.EndOf(file.recs[..j + 1])
      ensures !ok ==> RecordFile.EndOf(file.recs) > 0x1000_0000_0000_0000
    {
      hide IsStored, RecordFile.Holds, RecordFile.EndOf, Packed, RecordFile.TrueLength, DecodeSpec, NoRoomFor;
      CopyFits(file.recs, j, RecordFile.EndOf(tmp.recs), tmp.mem.Length);
      EndOfAppended(tmp.recs, RecordFile.Rec(true, file.recs[j].doc));
      var raw := file.ReadRecord(off, j);
      StoredBytes(file.recs, j);
      ghost var was := tmp.recs;
      var appended := tmp.Append(raw.value.value);
      if appended.Failure? {
        return false;
      }
      RowsAppended(was, RecordFile.Rec(true, raw.value.value));
      PackedMore(Rows(file.recs), j, Rows(was), Rows(tmp.recs));
      ok := true;
    }

    /** The copying loop of compact: every live record's bytes into a new file. */
    method CopyLive() returns (ok: bool, tmp: DataFile)
      requires FileOk()
      ensures fresh(tmp) && fresh(tmp.mem) && tmp.Valid() && AllStored(tmp.recs)
      ensures ok ==> Packed(Rows(file.recs), Rows(tmp.recs))
      ensures RecordFile.EndOf(file.recs) <= 0x1000_0000_0000_0000 ==> ok
    {
      hide IsStored, RecordFile.Holds, RecordFile.EndOf, Rows, LiveDocs;
      ghost var rows := Rows(file.recs);
      tmp := new DataFile();
      var prev: int := -1;
      ghost var i := 0;
      NoDocs(rows, tmp.recs);
      while true
        invariant prev >= -1 && i <= |rows|
        invariant if prev == -1 then i == 0 else i > 0 && file.IsRecord(prev, i - 1)
        invariant fresh(tmp) && fresh(tmp.mem) && tmp.Valid() && AllStored(tmp.recs)
        invariant Packed(rows[..i], Rows(tmp.recs)) && RecordFile.EndOf(tmp.recs) <= RecordFile.EndOf(file.recs[..i])
        decreases |rows| - i
      {
        var next := file.NextLiveOffset(prev, i);
        ghost var j := NextLive(file.recs, i);
        RowsLive(file.recs, i, j);
        DocsSkip(rows, i, j);
        RecordFile.EndOfGrows(file.recs[..j], i, j);
        assert file.recs[..j][..i] == file.recs[..i] && file.recs[..j][..j] == file.recs[..j];
        if next.value.None? {
          assert rows[..j] == rows;
          return true, tmp;
        }
        ok := CopyOne(tmp, next.value.value, j);
        if !ok {
          return false, tmp;
        }
        prev, i := next.value.value, j + 1;
      }
    }

    /** Build every index anew over the packed file. */
    method RebuildAll(ghost st: State) returns (hs: seq<BTreeFile.BTree>)
      requires FileOk() && |handles| == |paths| && st.paths == paths && Inv(st) && States(handles) == st.indexes
      requires Packed(st.rows, Rows(file.recs)) && Increasing(Rows(file.recs), RecordFile.EndOf(file.recs))
      ensures States(hs) == Compacted(st, Rows(file.recs), RecordFile.EndOf(file.recs)).indexes
      ensures forall k | 0 <= k < |hs| :: fresh(hs[k].Repr)
      ensures Separate(hs)
    {
      hide BTreeFile.BTree.Valid, BTreeFile.BTree.Heap, IsStored, RecordFile.Holds, RecordFile.EndOf, Rows, TreeRuns.Wf;
      hide Build, IndexableAt, KeysDistinct, Inv, LiveIndexable, ExactUnique, Rebuilt, Increasing, Packed;
      ghost var packed, end := Rows(file.recs), RecordFile.EndOf(file.recs);
      hs := [];
      var k := 0;
      while k < |paths|
        invariant 0 <= k <= |paths| && |hs| == k
        invariant forall j | 0 <= j < k :: hs[j].Abs() == Rebuilt(st, packed, end, j)
        invariant forall j | 0 <= j < k :: fresh(hs[j].Repr)
        invariant Separate(hs)
      {
        RebuildSucceeds(st, packed, end, k);
        UniqueFlag(handles, k);
        var ok, h := BuildIndex(paths[k], handles[k].unique);
        RebuiltIs(st, packed, end, k);
        MoreHandles(hs, h);
        hs := hs + [h];
        k := k + 1;
      }
    }

    /** compact: copy the live records to a new file, put it in place, rebuild every index. */
    method Compact() returns (ok: bool)
      requires Valid()
      modifies this
      ensures AllStored(file.recs)
      ensures RecordFile.EndOf(old(file.recs)) <= 0x1000_0000_0000_0000 ==> ok
      ensures !ok ==> file == old(file) && Abs() == old(Abs())
      ensures ok ==>
                && Inv(old(Abs())) && Packed(old(Abs()).rows, Rows(file.recs))
                && Increasing(Rows(file.recs), RecordFile.EndOf(file.recs))
                && Abs() == Compacted(old(Abs()), Rows(file.recs), RecordFile.EndOf(file.recs))
      ensures ok ==> ExactUnique(Abs()) && RecordFile.LiveIn(file.recs) == |file.recs|
      ensures Valid()
    {
      hide BTreeFile.BTree.Valid, BTreeFile.BTree.Heap, IsStored, RecordFile.Holds, RecordFile.EndOf, Rows, TreeRuns.Wf;
      hide Inv, ExactUnique, Rebuilt, Increasing, Packed, LiveDocs;
      ghost var st := Abs();
      InvSizes(st);
      var tmp;
      ok, tmp := CopyLive();
      if !ok {
        return;
      }
      RowsIncrease(tmp.recs);
      file := tmp;
      var hs := RebuildAll(st);
      handles := hs;
      CompactKeeps(st, Rows(file.recs), RecordFile.EndOf(file.recs));
      AllPackedLive(st.rows, file.recs);
    }

    // -------------------------------------------------------------- many at once

    /** delete_many: gather every match, then tombstone them one by one. */
    method DeleteMany(filter: Filter) returns (n: Option<nat>, ghost found: seq<Row>)
      requires Valid() && forall i | 0 <= i < |filter| :: ValidValue(filter[i].cond.v)
      modifies file, file.mem, Objects(handles)
      ensures AllStored(file.recs)
      ensures Find(old(Abs()), filter) == if n.Some? then Some(found) else None
      ensures n.Some? ==> n.value == |found| && Rows(file.recs) == Culled(old(Rows(file.recs)), found)
      ensures n.None? ==> Abs() == old(Abs())
      ensures old(ExactUnique(Abs())) ==> ExactUnique(Abs())
      ensures Valid()
    {
      hide BTreeFile.BTree.Valid, BTreeFile.BTree.Heap, Inv, IsStored, RecordFile.Holds, RecordFile.EndOf, Rows, Find;
      hide Shown, Pairs, ExactUnique, Culled, DroppedFrom, Increasing, Agreement.Buried, Matches, CanIndex;
      ghost var st := Abs();
      InvSizes(st);
      RowsIncrease(file.recs);
      var targets;
      targets, found := FindMatches(filter);
      if targets.None? {
        return None, found;
      }
      FindReturns(st, filter);
      CullNone(st.rows);
      var k := 0;
      while k < |targets.value|
        invariant 0 <= k <= |found| && AllStored(file.recs) && Rows(file.recs) == Culled(st.rows, found[..k])
        invariant file.mem == old(file.mem)
        invariant forall j | 0 <= j < |handles| :: handles[j].Repr == old(handles[j].Repr)
        invariant |handles| == |paths|
        invariant old(ExactUnique(Abs())) ==> ExactUnique(Abs())
        invariant Valid()
      {
        ghost var i := RowIndex(st.rows, found[k]);
        CullMore(st.rows, st.end, found, k, i);
        DeleteRecord(targets.value[k].0, targets.value[k].1, i);
        k := k + 1;
      }
      assert found[..k] == found;
      n := Some(|targets.value|);
    }

    /** A live document has the new document's key in a unique index. */
    ghost predicate RefusedFor(update: seq<Field> -> Option<seq<Field>>, was: seq<Field>)
      requires AllStored(file.recs)
      reads this, file, handles
    {
      update(was).Some? && |handles| == |paths| && Collides(Abs(), NormalFields(update(was).value))
    }

    /** The file has no room for what the update makes of the document. */
    ghost predicate FullFor(update: seq<Field> -> Option<seq<Field>>, was: seq<Field>)
      reads this, file
    {
      update(was).Some? && NoRoomFor(file.mem.Length, RecordFile.EndOf(file.recs), |Encoding(update(was).value)|)
    }

    /** A call that stopped for a refusal or for lack of room had to, at its target `at`. */
    ghost predicate Justified(r: BulkResult, found: seq<Row>, at: nat, update: seq<Field> -> Option<seq<Field>>,
                              exact: bool)
      requires AllStored(file.recs)
      reads this, file, handles
    {
      && (r == Stopped(Refused) && exact ==> at < |found| && RefusedFor(update, found[at].doc))
      && (r == Stopped(NoRoom) ==> at < |found| && FullFor(update, found[at].doc))
    }

    /** One turn of update_many: whether the row changed, or how the whole call ends. */
    method UpdateTarget(off: nat, was: seq<Field>, update: seq<Field> -> Option<seq<Field>>, ghost i: nat)
      returns (stop: Option<BulkResult>, changed: bool)
      requires Suits(update, was)
      requires Valid() && Holding(i, off, was)
      modifies file, file.mem, Objects(handles)
      ensures AllStored(file.recs) && (file.mem == old(file.mem) || fresh(file.mem))
      ensures TurnDone(old(Abs()), Abs(), i, Row(off, true, was), update, stop, changed)
      ensures forall k | 0 <= k < |handles| :: fresh(handles[k].Repr - old(handles[k].Repr))
      ensures |handles| == |paths|
      ensures stop != Some(Stopped(NoRoom)) && stop != Some(Stopped(Unindexable)) && old(ExactUnique(Abs())) ==>
                ExactUnique(Abs())
      ensures stop == Some(Stopped(Refused)) && old(ExactUnique(Abs())) ==> RefusedFor(update, was)
      ensures stop == Some(Stopped(NoRoom)) ==> FullFor(update, was)
      ensures Sound()
      ensures stop != Some(Stopped(Unindexable)) <==> Valid()
    {
      hide BTreeFile.BTree.Valid, BTreeFile.BTree.Heap, Inv, IsStored, RecordFile.Holds, RecordFile.EndOf;
      hide Rows, Separate;
      hide ExactUnique, Changes, Encodable, Encoding, ValidValue, CanIndex, NormalFields, NoRoomFor;
      InvSizes(Abs());
      var fs := update(was);
      if fs.None? {
        return Some(UpdateRaised), false;
      }
      var outcome := UpdateRecord(off, was, fs.value, i);
      if outcome.Refused? || outcome.BadDocument? || outcome.NoRoom? || outcome.Unindexable? {
        return Some(Stopped(outcome)), false;
      }
      return None, outcome.Finished?;
    }

    /** One turn of update_many within its loop: `st` is where the loop began, `k` targets are done. */
    method UpdateNext(off: nat, was: seq<Field>, update: seq<Field> -> Option<seq<Field>>, ghost st: State,
                      ghost found: seq<Row>, ghost k: nat)
      returns (stop: Option<BulkResult>, changed: bool)
      requires k < |found| && found[k] == Row(off, true, was) && Rising(found) && Suits(update, was)
      requires Increasing(st.rows, st.end) && found[k] in st.rows
      requires FileOk() && Extends(st.rows, Rows(file.recs), Altered(found[..k], update), update)
      requires Valid()
      modifies file, file.mem, Objects(handles)
      ensures AllStored(file.recs) && (file.mem == old(file.mem) || fresh(file.mem))
      ensures stop.Some? ==>
                !stop.value.FilterRaised? && BulkDone(st.rows, Rows(file.recs), found, update, stop.value, k)
      ensures stop.None? ==>
                && Extends(st.rows, Rows(file.recs), Altered(found[..k + 1], update), update)
                && |Altered(found[..k + 1], update)| == |Altered(found[..k], update)| + if changed then 1 else 0
      ensures forall j | 0 <= j < |handles| :: fresh(handles[j].Repr - old(handles[j].Repr))
      ensures |handles| == |paths|
      ensures stop != Some(Stopped(NoRoom)) && stop != Some(Stopped(Unindexable)) && old(ExactUnique(Abs())) ==>
                ExactUnique(Abs())
      ensures stop == Some(Stopped(Refused)) && old(ExactUnique(Abs())) ==> RefusedFor(update, was)
      ensures stop == Some(Stopped(NoRoom)) ==> FullFor(update, was)
      ensures Sound()
      ensures stop != Some(Stopped(Unindexable)) <==> Valid()
    {
      hide BTreeFile.BTree.Valid, BTreeFile.BTree.Heap, Inv, IsStored, RecordFile.Holds, RecordFile.EndOf, Rows;
      hide ExactUnique, Increasing, Extends, Altered, Suits, Ended, NormalFields, BulkDone, Explains, Alters, Separate;
      InvSizes(Abs());
      ghost var i := RowIndex(st.rows, found[k]);
      StillThere(st.rows, st.end, Rows(file.recs), found, k, i, update);
      ghost var before := Abs();
      stop, changed := UpdateTarget(off, was, update, i);
      if stop.Some? {
        StopsHere(st.rows, st.end, before, Abs(), found, k, i, update, stop.value, changed);
      } else {
        OneMore(st.rows, st.end, before, Abs(), found, k, i, update, changed, Entered);
      }
    }

    /** The loop of update_many over the gathered targets. */
    method UpdateEach(targets: seq<(nat, seq<Field>)>, update: seq<Field> -> Option<seq<Field>>, ghost found: seq<Row>)
      returns (r: BulkResult, ghost at: nat)
      requires targets == Pairs(found) && Rising(found)
      requires forall j | 0 <= j < |found| :: Suits(update, found[j].doc)
      requires FileOk() && forall t | t in found :: t in Rows(file.recs) && t.live
      requires Valid()
      modifies file, file.mem, Objects(handles)
      ensures AllStored(file.recs)
      ensures !r.FilterRaised? && BulkDone(old(Rows(file.recs)), Rows(file.recs), found, update, r, at)
      ensures |handles| == |paths|
      ensures r != Stopped(NoRoom) && r != Stopped(Unindexable) && old(ExactUnique(Abs())) ==> ExactUnique(Abs())
      ensures Justified(r, found, at, update, old(ExactUnique(Abs())))
      ensures Sound()
      ensures r != Stopped(Unindexable) <==> Valid()
    {
      hide BTreeFile.BTree.Valid, BTreeFile.BTree.Heap, Inv, IsStored, RecordFile.Holds, RecordFile.EndOf, Rows, Pairs;
      hide ExactUnique, Increasing, Extends, Altered, Suits, NormalFields, BulkDone, Separate, RefusedFor, FullFor;
      ghost var st := Abs();
      InvSizes(st);
      RowsIncrease(file.recs);
      NothingYet(st.rows, update);
      var k, modified := 0, 0;
      while k < |targets|
        invariant 0 <= k <= |found| && AllStored(file.recs) && modified == |Altered(found[..k], update)|
        invariant Extends(st.rows, Rows(file.recs), Altered(found[..k], update), update)
        invariant file.mem == old(file.mem) || fresh(file.mem)
        invariant forall j | 0 <= j < |handles| :: fresh(handles[j].Repr - old(handles[j].Repr))
        invariant |handles| == |paths|
        invariant old(ExactUnique(Abs())) ==> ExactUnique(Abs())
        invariant Valid()
      {
        var stop, changed := UpdateNext(targets[k].0, targets[k].1, update, st, found, k);
        if stop.Some? {
          return stop.value, k;
        }
        modified := modified + if changed then 1 else 0;
        k := k + 1;
      }
      AllDone(st.rows, Rows(file.recs), found, update, k);
      r, at := Updated(|targets|, modified), k;
    }

    /**
      * update_many: gather every match, then update them one by one, stopping at the first
      * error.  `update` is what the update operators make of a document, None where they raise.
      */
    method UpdateMany(filter: Filter, update: seq<Field> -> Option<seq<Field>>)
      returns (r: BulkResult, ghost found: seq<Row>, ghost at: nat)
      requires FileOk() && UpdatesTo(update, Rows(file.recs), filter)
      requires Valid() && forall i | 0 <= i < |filter| :: ValidValue(filter[i].cond.v)
      modifies file, file.mem, Objects(handles)
      ensures AllStored(file.recs)
      ensures Find(old(Abs()), filter) == if r.FilterRaised? then None else Some(found)
      ensures BulkDone(old(Rows(file.recs)), Rows(file.recs), found, update, r, at)
      ensures r.FilterRaised? ==> Abs() == old(Abs())
      ensures r != Stopped(NoRoom) && r != Stopped(Unindexable) && old(ExactUnique(Abs())) ==> ExactUnique(Abs())
      ensures Justified(r, found, at, update, old(ExactUnique(Abs())))
      ensures Sound()
      ensures r != Stopped(Unindexable) <==> Valid()
    {
      hide BTreeFile.BTree.Valid, BTreeFile.BTree.Heap, Inv, IsStored, RecordFile.Holds, RecordFile.EndOf, Rows, Find;
      hide Shown, Pairs, Matches, ExactUnique, Increasing, UpdatesTo, Suits, Extends, Lost, Gone, Altered, Explains;
      hide RefusedFor, FullFor;
      ghost var st := Abs();
      InvSizes(st);
      var targets;
      targets, found := FindMatches(filter);
      at := 0;
      if targets.None? {
        return FilterRaised, found, at;
      }
      FindReturns(st, filter);
      SuitsTargets(update, st, filter, found);
      r, at := UpdateEach(targets.value, update, found);
    }

    /** update_many with $set, $unset and $inc. */
    method UpdateManyWith(filter: Filter, u: Updates.Update, plus: Updates.FloatSum)
      returns (r: BulkResult, ghost found: seq<Row>, ghost at: nat)
      requires Valid() && Updates.ValidUpdate(u) && forall i | 0 <= i < |filter| :: ValidValue(filter[i].cond.v)
      modifies file, file.mem, Objects(handles)
      ensures AllStored(file.recs)
      ensures Find(old(Abs()), filter) == if r.FilterRaised? then None else Some(found)
      ensures BulkDone(old(Rows(file.recs)), Rows(file.recs), found, Updates.Operators(u, plus), r, at)
      ensures r.FilterRaised? ==> Abs() == old(Abs())
      ensures r != Stopped(NoRoom) && r != Stopped(Unindexable) && old(ExactUnique(Abs())) ==> ExactUnique(Abs())
      ensures Justified(r, found, at, Updates.Operators(u, plus), old(ExactUnique(Abs())))
      ensures Sound()
      ensures r != Stopped(Unindexable) <==> Valid()
    {
      hide Separate, Inv, Rows, Find, ExactUnique, UpdatesTo, BulkDone, IsStored, Updates.Operators, Justified;
      hide BTreeFile.BTree.Valid, BTreeFile.BTree.Heap, RecordFile.Holds, Updates.ValidUpdate, ValidValue;
      OperatorsSuit(file.recs, u, plus, filter);
      r, found, at := UpdateMany(filter, Updates.Operators(u, plus));
    }
  }
}
