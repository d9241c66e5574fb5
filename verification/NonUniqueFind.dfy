/**
  * What a user sees of an incomplete lookup: a find on a non-unique index that returns
  * fewer documents than the scan it replaces.
  *
  * The collection is built by calls alone: an index on one field, then 181 documents with
  * one value in it.
  */
module NonUniqueFind {
  import opened Codec
  import opened KeyOrder
  import opened Tree
  import opened TreeSearch
  import opened IndexKeys
  import opened Query
  import opened Agreement
  import opened CollectionState
  import opened CollectionRuns
  import opened Search
  import Bytes
  import Grammar
  import TreeRuns

  const DOCUMENTS := 181

  /** The document {name: v}. */
  function OneField(name: seq<Bytes.byte>, v: Value): Doc {
    [Field(name, v)]
  }

  /** create_index(name), then `n` times insert_one({name: v}); sizes are set to 1. */
  function Calls(name: seq<Bytes.byte>, v: Value, n: nat): seq<Action> {
    if n == 0 then [MakeIndex([name], false, false)] else Calls(name, v, n - 1) + [InsertDoc(OneField(name, v), 1)]
  }

  function SameRows(doc: Doc, n: nat): (rows: seq<Row>)
    ensures |rows| == n && forall i | 0 <= i < n :: rows[i] == Row(i, true, doc)
  {
    seq(n, i requires 0 <= i < n => Row(i, true, doc))
  }

  lemma OneFieldKey(name: seq<Bytes.byte>, v: Value)
    requires Indexable(v)
    ensures IndexValue(OneField(name, v), [name]) == v && IndexableAt(OneField(name, v), [name])
    ensures KeyAt(OneField(name, v), [name]) == EncodeKey(v).key
    ensures ListFree(Document(OneField(name, v)), [name])
  {
    hide EncodeKey;
    var doc := OneField(name, v);
    assert [name][1..] == [];
    assert Get(doc, name) == Grammar.Some(v);
    assert DirectValue(v, []) == Grammar.Some(v);
    PayloadOfKey(v);
  }

  /** The state those calls lead to: `n` live rows and the index of `n` insertions of one key. */
  ghost function Built(name: seq<Bytes.byte>, v: Value, n: nat): State
    requires Indexable(v)
  {
    State(SameRows(OneField(name, v), n), n, [[name]], [false],
          [TreeRuns.Run(false, TreeRuns.SameKey(EncodeKey(v).key, n))])
  }

  lemma {:induction false} CallsBuild(name: seq<Bytes.byte>, v: Value, n: nat)
    requires Indexable(v)
    ensures Run(0, Calls(name, v, n)) == Grammar.Some(Built(name, v, n))
  {
    hide Rank, EncodeKey, Perform, Permitted, Indexable, Run, Inv, ExactUnique, Built;
    var calls := Calls(name, v, n);
    RunUnfold(calls);
    if n == 0 {
      assert calls[..0] == [];
      RunUnfold([]);
      IndexBuilt(name, v);
    } else {
      assert calls[..|calls| - 1] == Calls(name, v, n - 1);
      CallsBuild(name, v, n - 1);
      OneMoreDocument(name, v, n - 1);
    }
  }

  /** The last call of a run. */
  lemma RunUnfold(calls: seq<Action>)
    ensures calls == [] ==> Run(0, calls) == Grammar.Some(Empty(0))
    ensures calls != [] && Run(0, calls[..|calls| - 1]).Some? ==>
              var st, call := Run(0, calls[..|calls| - 1]).value, calls[|calls| - 1];
              Permitted(st, call) ==> Run(0, calls) == Grammar.Some(Perform(st, call))
  {
    hide Inv, ExactUnique, Perform, Permitted;
  }

  lemma IndexBuilt(name: seq<Bytes.byte>, v: Value)
    requires Indexable(v)
    ensures Inv(Empty(0)) && Permitted(Empty(0), MakeIndex([name], false, false))
    ensures Perform(Empty(0), MakeIndex([name], false, false)) == Built(name, v, 0)
  {
    hide Rank, EncodeKey, TreeRuns.Wf, Indexable;
    TreeRuns.CreateWf(false);
  }

  lemma OneMoreDocument(name: seq<Bytes.byte>, v: Value, n: nat)
    requires Indexable(v) && Inv(Built(name, v, n))
    ensures Permitted(Built(name, v, n), InsertDoc(OneField(name, v), 1))
    ensures Perform(Built(name, v, n), InsertDoc(OneField(name, v), 1)) == Built(name, v, n + 1)
  {
    hide Rank, EncodeKey, TreeRuns.Wf, ValidValue, Increasing, Agrees, TreeRuns.Run, KeyAt;
    var st, doc, key := Built(name, v, n), OneField(name, v), EncodeKey(v).key;
    OneFieldKey(name, v);
    assert Agrees(st.rows, st.paths[0], st.indexes[0]);
    NotBlocked(st, doc);
    KeyRunStep(key, n);
    var r := Add(st, doc, 1);
    assert r.rows == SameRows(doc, n + 1);
    assert r.indexes == [AddedTo(st, doc, 0)];
  }

  lemma NotBlocked(st: State, doc: Doc)
    requires Inv(st) && CanIndex(st.paths, doc) && |st.paths| == 1 && !st.indexes[0].unique
    ensures FirstHalt(st, doc) == 1
  {
    hide Rank, Increasing, KeyAt, Indexable, Grounded, Covers, RunOrdered;
    FirstHaltIs(st, doc);
    assert Agrees(st.rows, st.paths[0], st.indexes[0]);
    assert !Halts(st, 0, doc);
  }

  lemma KeyRunStep(key: Key, n: nat)
    ensures Bounded(TreeRuns.Run(false, TreeRuns.SameKey(key, n)).tree)
    ensures TreeRuns.Run(false, TreeRuns.SameKey(key, n + 1)) ==
            TreeRuns.Step(TreeRuns.Run(false, TreeRuns.SameKey(key, n)), TreeRuns.InsertOp(key, n)).0
  {
    hide Rank, TreeRuns.Wf, TreeRuns.Step;
    var ops := TreeRuns.SameKey(key, n + 1);
    assert ops[..|ops| - 1] == TreeRuns.SameKey(key, n);
    TreeRuns.WfBounded(TreeRuns.Run(false, TreeRuns.SameKey(key, n)));
  }

  lemma {:induction false} ScanTakesAll(rows: seq<Row>, filter: Filter)
    requires forall i | 0 <= i < |rows| :: Picks(rows[i], filter)
    ensures ScanRows(rows, filter).Some? && |ScanRows(rows, filter).value| == |rows|
  {
    hide Matches;
    if rows == [] {
    } else {
      assert forall i | 0 <= i < |rows[1..]| :: rows[1..][i] == rows[i + 1];
      ScanTakesAll(rows[1..], filter);
    }
  }

  lemma {:induction false} SearchTakesAll(rows: seq<Row>, offs: seq<nat>, filter: Filter)
    requires forall i | 0 <= i < |rows| :: Picks(rows[i], filter)
    requires forall k | 0 <= k < |offs| :: OffsetOf(rows, offs[k])
    ensures SearchRows(rows, offs, filter).Some? && |SearchRows(rows, offs, filter).value| == |offs|
  {
    hide Matches;
    if offs == [] {
    } else {
      assert forall i | 0 <= i < |offs[1..]| :: offs[1..][i] == offs[i + 1];
      SearchTakesAll(rows, offs[1..], filter);
      assert OffsetOf(rows, offs[0]);
    }
  }

  lemma ValuesEqualSelf(v: Value)
    requires Indexable(v)
    ensures ValuesEqual(v, v) && !v.Document?
  {
    hide Bytes.FromLE;
    PayloadOfKey(v);
    if v.Double? {
      NotNaN(v);
    }
  }

  /** {name: v} matches the filter {name: v}. */
  lemma OwnFilter(name: seq<Bytes.byte>, v: Value)
    requires Indexable(v)
    ensures Matches(OneField(name, v), [Clause([name], Literal(v))]) == Grammar.Some(true)
  {
    hide EncodeKey, ValuesEqual, Matches;
    OneFieldKey(name, v);
    ValuesEqualSelf(v);
    MatchIsKeyMatch(OneField(name, v), [name], Literal(v));
  }

  /**
    * After create_index(name) and 181 calls insert_one({name: v}), all 181 documents are there
    * and find({name: v}) would scan 181 of them, but it returns 90.
    */
  lemma FindMissesDocuments(name: seq<Bytes.byte>, v: Value)
    requires Indexable(v)
    ensures Run(0, Calls(name, v, DOCUMENTS)).Some? && ValidValue(v)
    ensures var st, filter := Run(0, Calls(name, v, DOCUMENTS)).value, [Clause([name], Literal(v))];
            && ScanRows(st.rows, filter).Some? && |ScanRows(st.rows, filter).value| == DOCUMENTS
            && Find(st, filter).Some? && |Find(st, filter).value| == 90
  {
    hide Rank, EncodeKey, Matches, Run, TreeRuns.Wf, Increasing, TreeRuns.Run, Grounded, Covers, RunOrdered;
    hide ScanRows, SearchRows, Lookup;
    CallsBuild(name, v, DOCUMENTS);
    var st, filter, key := Built(name, v, DOCUMENTS), [Clause([name], Literal(v))], EncodeKey(v).key;
    OwnFilter(name, v);
    ValuesEqualSelf(v);
    assert Agrees(st.rows, st.paths[0], st.indexes[0]);
    ScanTakesAll(st.rows, filter);
    TreeRuns.NonUniqueLookupMisses(key);
    TreeRuns.WfBounded(st.indexes[0]);
    LookupRows(st.rows, st.paths[0], st.indexes[0], key);
    SearchTakesAll(st.rows, Lookup(st.indexes[0].tree, key), filter);
    assert Route(st.paths, filter) == Grammar.Some((0, key));
  }
}
