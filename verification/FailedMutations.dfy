/**
  * What failed mutations leave behind, on collections built by calls alone: a document that
  * is live but in one index of two, and an update that loses its document.
  */
module FailedMutations {
  import opened Codec
  import opened KeyOrder
  import opened Tree
  import opened TreeSearch
  import opened IndexKeys
  import opened Query
  import opened Agreement
  import opened CollectionState
  import opened CollectionRuns
  import opened Search
  import Bytes
  import Grammar
  import NonUniqueFind
  import TreeRuns

  // ---------------------------------------------------------------- half inserted

  /** create_index(a), create_index(b). */
  function TwoIndexes(a: seq<Bytes.byte>, b: seq<Bytes.byte>): seq<Action> {
    [MakeIndex([a], false, false), MakeIndex([b], false, false)]
  }

  /** No documents, two empty indexes. */
  function Bare(a: seq<Bytes.byte>, b: seq<Bytes.byte>): State {
    State([], 0, [[a], [b]], [false, false], [TreeRuns.Create(false), TreeRuns.Create(false)])
  }

  /** The document {a: v, b: w}. */
  function TwoFields(a: seq<Bytes.byte>, v: Value, b: seq<Bytes.byte>, w: Value): Doc {
    [Field(a, v), Field(b, w)]
  }

  lemma BareReached(a: seq<Bytes.byte>, b: seq<Bytes.byte>)
    requires a != b
    ensures Run(0, TwoIndexes(a, b)) == Grammar.Some(Bare(a, b)) && Inv(Bare(a, b))
  {
    hide Rank, TreeRuns.Create, Run, Inv;
    var x, first, second := TreeRuns.Create(false), [MakeIndex([a], false, false)], [MakeIndex([b], false, false)];
    var one := State([], 0, [[a]], [false], [x]);
    NonUniqueFind.RunUnfold([]);
    IndexMade([], Empty(0), [a], false);
    assert [] + first == first && [] + [[a]] == [[a]] && [] + [false] == [false] && [] + [x] == [x];
    IndexMade(first, one, [b], false);
    assert first + second == TwoIndexes(a, b);
    assert [[a]] + [[b]] == [[a], [b]] && [false] + [false] == [false, false] && [x] + [x] == [x, x];
  }

  /** create_index on a collection without documents. */
  lemma IndexMade(calls: seq<Action>, st: State, path: Path, unique: bool)
    requires Run(0, calls) == Grammar.Some(st) && Inv(st) && st.rows == [] && |st.paths| == |st.descending|
    requires NameAt(st.paths, st.descending, path, false) == |st.paths|
    ensures var r := st.(paths := st.paths + [path], descending := st.descending + [false],
                         indexes := st.indexes + [TreeRuns.Create(unique)]);
            Run(0, calls + [MakeIndex(path, false, unique)]) == Grammar.Some(r) && Inv(r)
  {
    hide Inv, Run, AddIndex, TreeRuns.Create, NameAt;
    EmptyIndexAdded(st, path, unique);
    CallAppended(calls, MakeIndex(path, false, unique), st);
  }

  /** Over no documents an index of a new name is built and empty. */
  lemma EmptyIndexAdded(st: State, path: Path, unique: bool)
    requires Inv(st) && st.rows == [] && NameAt(st.paths, st.descending, path, false) == |st.paths|
    ensures AddIndex(st, path, false, unique) ==
            st.(paths := st.paths + [path], descending := st.descending + [false],
                indexes := st.indexes + [TreeRuns.Create(unique)])
  {
    hide Inv, TreeRuns.Wf;
    TreeRuns.CreateWf(unique);
  }

  lemma CallAppended(calls: seq<Action>, call: Action, st: State)
    requires Run(0, calls) == Grammar.Some(st) && Inv(st) && Permitted(st, call)
    ensures Run(0, calls + [call]) == Grammar.Some(Perform(st, call)) && Inv(Perform(st, call))
  {
    hide Inv, ExactUnique, Perform, Permitted, Run;
    assert (calls + [call])[..|calls|] == calls;
    NonUniqueFind.RunUnfold(calls + [call]);
  }

  lemma FieldValues(a: seq<Bytes.byte>, v: Value, b: seq<Bytes.byte>, w: Value)
    requires a != b
    ensures IndexValue(TwoFields(a, v, b, w), [a]) == v && IndexValue(TwoFields(a, v, b, w), [b]) == w
  {
    var doc := TwoFields(a, v, b, w);
    assert [a][1..] == [] && [b][1..] == [] && doc[1..] == [Field(b, w)];
    assert Get(doc, a) == Grammar.Some(v) && Get(doc, b) == Grammar.Some(w);
    assert DirectValue(v, []) == Grammar.Some(v) && DirectValue(w, []) == Grammar.Some(w);
  }

  /**
    * create_index(a), create_index(b), insert_one({a: v, b: w}) where w has no key, a string
    * say.  The insertion raises, but the document is live, the index on a has its entry and
    * the index on b has none.
    */
  lemma HalfInserted(a: seq<Bytes.byte>, v: Value, b: seq<Bytes.byte>, w: Value)
    requires a != b && Indexable(v) && ValidValue(w) && !Indexable(w)
    ensures Run(0, TwoIndexes(a, b)).Some?
    ensures var st, doc := Run(0, TwoIndexes(a, b)).value, TwoFields(a, v, b, w);
            var r := Add(st, doc, 1);
            && HowEntered(st, doc) == NoKey && r.rows == [Row(0, true, doc)] && !Inv(r)
            && r.paths == [[a], [b]] && Flat(r.indexes[0].tree) == [Entry(EncodeKey(v).key, 0, false)]
            && Flat(r.indexes[1].tree) == []
  {
    hide Rank, EncodeKey, ValidValue, TreeRuns.Wf, Run, Inv, Add, TreeRuns.Step, TreeRuns.Create;
    BareReached(a, b);
    FieldValues(a, v, b, w);
    var st, doc := Bare(a, b), TwoFields(a, v, b, w);
    FirstEntry(EncodeKey(v).key);
    StopsAt(st, doc, 1);
    AddKeepsIff(st, doc, 1);
    AddedIndexesAre(st, doc);
  }

  /** The first insertion into an empty index. */
  lemma FirstEntry(key: Key)
    ensures Bounded(TreeRuns.Create(false).tree) && Flat(TreeRuns.Create(false).tree) == []
    ensures var (x, reply) := TreeRuns.Step(TreeRuns.Create(false), TreeRuns.InsertOp(key, 0));
            reply == TreeRuns.Ok && Flat(x.tree) == [Entry(key, 0, false)]
  {
    hide Rank;
    assert Inserted([], Entry(key, 0, false)) == [Entry(key, 0, false)];
  }

  /** With empty indexes that are not unique, an insertion stops at the first value without a key. */
  lemma StopsAt(st: State, doc: Doc, d: nat)
    requires Inv(st) && st.end == 0 && d < |st.paths| && !IndexableAt(doc, st.paths[d])
    requires forall k | 0 <= k < d :: IndexableAt(doc, st.paths[k]) && st.indexes[k] == TreeRuns.Create(false)
    ensures FirstHalt(st, doc) == d && Raises(st, doc)
  {
    hide Inv, IndexableAt, KeyAt, TreeRuns.Step, TreeRuns.Create, FirstHalt;
    FirstHaltIs(st, doc);
    forall k | 0 <= k < d ensures !Halts(st, k, doc) {
      FirstEntry(KeyAt(doc, st.paths[k]));
    }
    assert Halts(st, d, doc);
  }

  lemma AddedIndexesAre(st: State, doc: Doc)
    requires Inv(st) && Raises(st, doc)
    ensures FirstHalt(st, doc) < |st.paths| && |Add(st, doc, 1).indexes| == |st.paths| == |st.indexes|
    ensures Add(st, doc, 1).rows == st.rows + [Row(st.end, true, doc)]
    ensures forall k | 0 <= k < |st.paths| ::
              if k < FirstHalt(st, doc) then
                IndexableAt(doc, st.paths[k]) && Add(st, doc, 1).indexes[k] == AddedTo(st, doc, k)
              else Add(st, doc, 1).indexes[k] == st.indexes[k]
  {
    hide Agrees, Increasing, IndexableAt, AddedTo, RolledBack, FirstHalt, NamesDiffer;
    FirstHaltIs(st, doc);
  }

  /**
    * create_index(a), create_index(b), insert_one({a: w, b: v}) where w has no key: the scan
    * finds the document by its b, the index on b does not.
    */
  lemma HalfInsertedNotFound(a: seq<Bytes.byte>, w: Value, b: seq<Bytes.byte>, v: Value)
    requires a != b && Indexable(v) && ValidValue(w) && !Indexable(w)
    ensures Run(0, TwoIndexes(a, b)).Some? && ValidValue(v)
    ensures var st, doc := Run(0, TwoIndexes(a, b)).value, TwoFields(a, w, b, v);
            var r, filter := Add(st, doc, 1), [Clause([b], Literal(v))];
            && HowEntered(st, doc) == NoKey && r.paths == [[a], [b]]
            && ScanRows(r.rows, filter) == Grammar.Some([Row(0, true, doc)])
            && Bounded(r.indexes[1].tree) && Lookup(r.indexes[1].tree, EncodeKey(v).key) == []
            && SearchRows(r.rows, Lookup(r.indexes[1].tree, EncodeKey(v).key), filter) == Grammar.Some([])
  {
    hide Rank, EncodeKey, TreeRuns.Wf, Run, Inv, Add, TreeRuns.Step, TreeRuns.Create, Matches;
    BareReached(a, b);
    FieldValues(a, w, b, v);
    var st, doc := Bare(a, b), TwoFields(a, w, b, v);
    StopsAt(st, doc, 0);
    AddedIndexesAre(st, doc);
    FirstEntry(EncodeKey(v).key);
    EmptyLookup(EncodeKey(v).key);
    FoundByScan(doc, b, v);
    assert [Row(0, true, doc)][1..] == [] && [Row(0, true, doc)] + [] == [Row(0, true, doc)];
  }

  lemma EmptyLookup(key: Key)
    ensures Bounded(TreeRuns.Create(false).tree) && Lookup(TreeRuns.Create(false).tree, key) == []
  {
    hide Rank;
  }

  lemma FoundByScan(doc: Doc, b: seq<Bytes.byte>, v: Value)
    requires Indexable(v) && IndexValue(doc, [b]) == v && Get(doc, b) == Grammar.Some(v)
    ensures Matches(doc, [Clause([b], Literal(v))]) == Grammar.Some(true)
  {
    hide EncodeKey, ValuesEqual, Matches;
    NonUniqueFind.ValuesEqualSelf(v);
    PayloadOfKey(v);
    assert [b][1..] == [];
    MatchIsKeyMatch(doc, [b], Literal(v));
  }

  // ---------------------------------------------------------------- lost by an update

  /** create_index(name, unique=True), insert {name: v} and {name: w}, update the first to {name: w}. */
  function LosingCalls(name: seq<Bytes.byte>, v: Value, w: Value): seq<Action> {
    var one, two := NonUniqueFind.OneField(name, v), NonUniqueFind.OneField(name, w);
    [MakeIndex([name], false, true), InsertDoc(one, 1), InsertDoc(two, 1), UpdateRow(0, two, 1)]
  }

  /** A document with a key everywhere never makes an insertion raise. */
  lemma KeyedNeverRaises(st: State, doc: Doc)
    requires Inv(st) && CanIndex(st.paths, doc)
    ensures !Raises(st, doc)
  {
    hide Inv, IndexableAt, FirstHalt;
  }

  /** insert_one where nothing clashes. */
  lemma DocInserted(calls: seq<Action>, st: State, doc: Doc)
    requires Run(0, calls) == Grammar.Some(st) && CanIndex(st.paths, doc)
    requires |st.paths| == |st.descending| == |st.indexes|
    requires !Clashes(Abstract(st), doc)
    ensures Inv(st)
    ensures var r := Add(st, doc, 1);
            && Run(0, calls + [InsertDoc(doc, 1)]) == Grammar.Some(r) && r.paths == st.paths
            && r.rows == st.rows + [Row(st.end, true, doc)]
            && Abstract(r) == Abstract(st).(docs := Abstract(st).docs + [doc])
  {
    hide Inv, ExactUnique, CanIndex, Run, Clashes, Abstract, FirstHalt, AddedTo, RolledBack;
    KeyedNeverRaises(st, doc);
    AddRefines(st, doc, 1);
    CallAppended(calls, InsertDoc(doc, 1), st);
  }

  lemma UniqueMade(name: seq<Bytes.byte>)
    ensures Run(0, [MakeIndex([name], false, true)]) ==
            Grammar.Some(State([], 0, [[name]], [false], [TreeRuns.Create(true)]))
  {
    hide Rank, TreeRuns.Create, Run, Inv;
    var x, call := TreeRuns.Create(true), [MakeIndex([name], false, true)];
    NonUniqueFind.RunUnfold([]);
    IndexMade([], Empty(0), [name], true);
    assert [] + call == call && [] + [[name]] == [[name]] && [] + [false] == [false] && [] + [x] == [x];
  }

  /** The only constraint is the unique index on the field. */
  lemma ClashIs(name: seq<Bytes.byte>, other: Value, v: Value, docs: seq<Doc>)
    requires Indexable(other) && Indexable(v) && (docs == [] || docs == [NonUniqueFind.OneField(name, other)])
    ensures var ref := Reference(docs, [Constraint([name], false, true)]);
            Clashes(ref, NonUniqueFind.OneField(name, v)) <==> docs != [] && SameIndexed(other, v)
  {
    hide EncodeKey, ValidValue, Rank, SameIndexed;
    NonUniqueFind.OneFieldKey(name, other);
    NonUniqueFind.OneFieldKey(name, v);
    KeyEqualityIsValueEquality(other, v);
    var ref, doc := Reference(docs, [Constraint([name], false, true)]), NonUniqueFind.OneField(name, v);
    if docs != [] {
      assert SameKeyAt(docs[0], doc, [name]) <==> SameIndexed(other, v);
      assert ref.constraints[0].unique && ref.constraints[0].path == [name];
    }
  }

  /**
    * create_index(name, unique=True), insert {name: v} and {name: w} with different values, then
    * update the first to {name: w}: the update is refused and {name: v} is gone.
    */
  lemma LostByUpdate(name: seq<Bytes.byte>, v: Value, w: Value)
    requires Indexable(v) && Indexable(w) && !SameIndexed(v, w)
    ensures Run(0, LosingCalls(name, v, w)).Some?
    ensures var st := Run(0, LosingCalls(name, v, w)).value;
            LiveDocs(st.rows) == [NonUniqueFind.OneField(name, w)] && |st.rows| == 3
  {
    hide Rank, EncodeKey, ValidValue, SameIndexed, Run, Inv, TreeRuns.Create, Change, Add, Clashes, LiveDocs;
    var one, two := NonUniqueFind.OneField(name, v), NonUniqueFind.OneField(name, w);
    var calls := LosingCalls(name, v, w);
    NonUniqueFind.OneFieldKey(name, v);
    NonUniqueFind.OneFieldKey(name, w);
    UniqueMade(name);
    var st0 := State([], 0, [[name]], [false], [TreeRuns.Create(true)]);
    StartReference(name);
    assert calls[..1] == [MakeIndex([name], false, true)] && [] + [one] == [one] && [one] + [two] == [one, two];
    ClashIs(name, v, v, []);
    DocInserted(calls[..1], st0, one);
    var st1 := Add(st0, one, 1);
    assert calls[..1] + [calls[1]] == calls[..2];
    ClashIs(name, v, w, [one]);
    DocInserted(calls[..2], st1, two);
    var st2 := Add(st1, two, 1);
    assert calls[..2] + [calls[2]] == calls[..3];
    LosesFirst(calls[..3], st2, name, v, w);
    assert calls[..3] + [calls[3]] == calls;
  }

  lemma StartReference(name: seq<Bytes.byte>)
    ensures Abstract(State([], 0, [[name]], [false], [TreeRuns.Create(true)])) ==
            Reference([], [Constraint([name], false, true)])
  {
  }

  lemma LosesFirst(calls: seq<Action>, st: State, name: seq<Bytes.byte>, v: Value, w: Value)
    requires Indexable(v) && Indexable(w)
    requires Run(0, calls) == Grammar.Some(st) && |st.paths| == |st.descending| == |st.indexes| && st.paths == [[name]]
    requires var one, two := NonUniqueFind.OneField(name, v), NonUniqueFind.OneField(name, w);
             && |st.rows| == 2 && st.rows[0].live && st.rows[0].doc == one
             && Abstract(st) == Reference([one, two], [Constraint([name], false, true)])
    ensures var two := NonUniqueFind.OneField(name, w); var after := Run(0, calls + [UpdateRow(0, two, 1)]);
            after.Some? && LiveDocs(after.value.rows) == [two] && |after.value.rows| == 3
  {
    hide Rank, EncodeKey, ValidValue, SameIndexed, Run, Inv, ExactUnique, Clashes, Add, Drop, Raises;
    var one, two := NonUniqueFind.OneField(name, v), NonUniqueFind.OneField(name, w);
    NonUniqueFind.OneFieldKey(name, v);
    NonUniqueFind.OneFieldKey(name, w);
    LiveCanDrop(st, 0);
    DropKeeps(st, 0);
    KeyedNeverRaises(Drop(st, 0), two);
    assert st.rows[..0] == [] && LiveBefore(st.rows, 0) == 0;
    assert [one, two][..0] + [one, two][1..] == [two];
    UpdateLosesIff(st, 0, two, 1);
    ClashIs(name, w, w, [two]);
    assert SameIndexed(w, w) by {
      KeyEqualityIsValueEquality(w, w);
    }
    CallAppended(calls, UpdateRow(0, two, 1), st);
    ChangeLength(st, 0, two);
  }

  lemma ChangeLength(st: State, i: nat, doc: Doc)
    requires Inv(st) && i < |st.rows| && CanIndex(st.paths, st.rows[i].doc)
    ensures |Change(st, i, doc, 1).rows| == |st.rows| + 1
  {
    hide Inv, CanIndex, DroppedFrom, AddedTo, RolledBack, FirstHalt;
    DropKeeps(st, i);
  }
}
