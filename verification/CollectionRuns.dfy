/**
  * Index builds, compaction, and whole runs of collection operations.
  *
  * The reference is a plain list of documents with a list of constraints.  Over every run
  * the collection holds exactly the reference's documents, refuses what it refuses, and
  * keeps each index in agreement with the records.
  */
module CollectionRuns {
  import opened Codec
  import opened KeyOrder
  import opened TreeSearch
  import opened TreeRuns
  import opened IndexKeys
  import opened Agreement
  import opened CollectionState
  import Tree
  import Grammar

  type Doc = seq<Field>

  /** The documents of the live rows, in file order. */
  function LiveDocs(rows: seq<Row>): seq<Doc> {
    if rows == [] then []
    else LiveDocs(rows[..|rows| - 1]) + if rows[|rows| - 1].live then [rows[|rows| - 1].doc] else []
  }

  /** How many live rows precede row `i`. */
  function LiveBefore(rows: seq<Row>, i: nat): nat
    requires i <= |rows|
  {
    |LiveDocs(rows[..i])|
  }

  // ---------------------------------------------------------------- building an index

  ghost predicate LiveIndexable(rows: seq<Row>, path: Path) {
    forall i | 0 <= i < |rows| && rows[i].live :: IndexableAt(rows[i].doc, path)
  }

  /** The build loop of create_index; None when a key or an insert raises. */
  ghost function Build(x: Index, rows: seq<Row>, path: Path): Grammar.Option<Index>
    requires Wf(x)
    decreases rows
  {
    if rows == [] then Grammar.Some(x)
    else if !rows[0].live then Build(x, rows[1..], path)
    else if !IndexableAt(rows[0].doc, path) then Grammar.None
    else
      var op := InsertOp(KeyAt(rows[0].doc, path), rows[0].off);
      StepKeepsWf(x, op);
      if Step(x, op).1 == DuplicateKey then Grammar.None else Build(Step(x, op).0, rows[1..], path)
  }

  /** No two live rows share a key. */
  ghost predicate KeysDistinct(rows: seq<Row>, path: Path) {
    forall i, j | 0 <= i < j < |rows| && rows[i].live && rows[j].live :: !SameKeyAt(rows[i].doc, rows[j].doc, path)
  }

  lemma PrefixIncreasing(rows: seq<Row>, end: nat, n: nat)
    requires Increasing(rows, end) && n < |rows|
    ensures Increasing(rows[..n], rows[n].off) && rows[..n + 1] == rows[..n] + [rows[n]]
  {
  }

  /** One turn of the loop on a live row. */
  lemma BuildStep(rows: seq<Row>, end: nat, n: nat, path: Path, x: Index)
    requires Increasing(rows, end) && n < |rows| && rows[n].live && IndexableAt(rows[n].doc, path)
    requires Agrees(rows[..n], path, x) && Exact(rows[..n], path, Tree.Flat(x.tree))
    ensures Tree.Bounded(x.tree)
    ensures var (x', reply) := Step(x, InsertOp(KeyAt(rows[n].doc, path), rows[n].off));
            if reply == DuplicateKey then
              x.unique && exists i :: 0 <= i < n && rows[i].live && SameKeyAt(rows[i].doc, rows[n].doc, path)
            else
              Agrees(rows[..n + 1], path, x') && Exact(rows[..n + 1], path, Tree.Flat(x'.tree)) && x'.unique == x.unique
  {
    hide Rank, Wf, Grounded, Covers, Exact, RunOrdered, Increasing, KeyAt, IndexableAt, Step, Duplicate, HasLive;
    var before, row := rows[..n], rows[n];
    var op := InsertOp(KeyAt(row.doc, path), row.off);
    WfBounded(x);
    PrefixIncreasing(rows, end, n);
    InsertReplies(x, op.key, op.offset);
    UniqueKept(x, op);
    if Step(x, op).1 == Ok {
      InsertAgrees(before, row.off, row, path, x);
    } else {
      RefusalReason(x, op);
      UniqueDuplicate(x, op.key);
      var st := State(before, row.off, [path], [false], [x]);
      LiveIffTaken(st, 0, row.doc);
      var i :| 0 <= i < |before| && before[i].live && SameKeyAt(before[i].doc, row.doc, path);
      assert rows[i] == before[i];
    }
  }

  lemma RefusalReason(x: Index, op: Op)
    requires op.InsertOp? && Wf(x) && Step(x, op).1 == DuplicateKey
    ensures x.unique && Tree.Bounded(x.tree) && Duplicate(x.tree, op.key)
  {
    hide Rank, Tree.Times, Tree.Sorted, LastLive, Duplicate;
  }

  lemma {:induction false} BuildFrom(rows: seq<Row>, end: nat, n: nat, path: Path, x: Index)
    requires Increasing(rows, end) && n <= |rows|
    requires Agrees(rows[..n], path, x) && Exact(rows[..n], path, Tree.Flat(x.tree))
    ensures match Build(x, rows[n..], path)
            case Some(x') => Agrees(rows, path, x') && Exact(rows, path, Tree.Flat(x'.tree)) && x'.unique == x.unique
            case None => !LiveIndexable(rows, path) || (x.unique && !KeysDistinct(rows, path))
    decreases |rows| - n
  {
    hide Rank, Wf, Agrees, Exact, Increasing, KeyAt, IndexableAt, Step, SameKeyAt;
    if n == |rows| {
      assert rows[..n] == rows;
    } else {
      var rest, row := rows[n..], rows[n];
      assert rest[0] == row && rest[1..] == rows[n + 1..];
      if !row.live {
        PrefixIncreasing(rows, end, n);
        DeadKeeps(rows[..n], row, path, x);
        BuildFrom(rows, end, n + 1, path, x);
      } else if IndexableAt(row.doc, path) {
        BuildStep(rows, end, n, path, x);
        AgreesWf(rows[..n], path, x);
        BuildOnLive(x, rest, path);
        var next := Step(x, InsertOp(KeyAt(row.doc, path), row.off));
        if next.1 != DuplicateKey {
          BuildFrom(rows, end, n + 1, path, next.0);
        }
      }
    }
  }

  lemma AgreesWf(rows: seq<Row>, path: Path, x: Index)
    requires Agrees(rows, path, x)
    ensures Wf(x)
  {
  }

  lemma {:induction false} BuildOnLive(x: Index, rest: seq<Row>, path: Path)
    requires Wf(x) && rest != [] && rest[0].live && IndexableAt(rest[0].doc, path)
    ensures Tree.Bounded(x.tree)
    ensures var next := Step(x, InsertOp(KeyAt(rest[0].doc, path), rest[0].off));
            && Wf(next.0)
            && Build(x, rest, path) == if next.1 == DuplicateKey then Grammar.None else Build(next.0, rest[1..], path)
  {
    hide Rank, KeyAt, IndexableAt;
    WfBounded(x);
    StepKeepsWf(x, InsertOp(KeyAt(rest[0].doc, path), rest[0].off));
  }

  lemma DeadKeeps(rows: seq<Row>, row: Row, path: Path, x: Index)
    requires Increasing(rows, row.off) && Agrees(rows, path, x) && Exact(rows, path, Tree.Flat(x.tree)) && !row.live
    ensures Agrees(rows + [row], path, x) && Exact(rows + [row], path, Tree.Flat(x.tree))
  {
    hide Wf, Grounded, Covers, Exact, RunOrdered, Increasing;
    DeadRow(rows, row.off, row, path, Tree.Flat(x.tree));
  }

  lemma EmptyAgrees(path: Path, unique: bool)
    ensures Agrees([], path, Create(unique)) && Exact([], path, Tree.Flat(Create(unique).tree))
  {
    hide Rank;
    CreateWf(unique);
  }

  /** Two live rows with one key cannot both be in an agreeing unique index. */
  lemma UniqueMeansDistinct(rows: seq<Row>, end: nat, path: Path, x: Index)
    requires Increasing(rows, end) && Agrees(rows, path, x) && x.unique
    ensures KeysDistinct(rows, path)
  {
    hide Rank, IndexableAt, KeyAt, Tree.Times, Tree.Sorted, Tree.Shaped, Grounded, RunOrdered;
    var s := Tree.Flat(x.tree);
    forall i, j | 0 <= i < j < |rows| && rows[i].live && rows[j].live
      ensures !SameKeyAt(rows[i].doc, rows[j].doc, path)
    {
      assert Covered(rows[i], path, s) && Covered(rows[j], path, s);
      var a :| 0 <= a < |s| && !s[a].dead && Points(s[a], rows[i], path);
      var b :| 0 <= b < |s| && !s[b].dead && Points(s[b], rows[j], path);
      assert a != b;
    }
  }

  /**
    * Building an index succeeds exactly when every live document has a key on the path and, if
    * it is to be unique, the keys differ.
    */
  lemma {:induction false} BuildSucceedsIff(rows: seq<Row>, end: nat, path: Path, unique: bool)
    requires Increasing(rows, end)
    ensures Wf(Create(unique))
    ensures Build(Create(unique), rows, path).Some? <==>
              LiveIndexable(rows, path) && (unique ==> KeysDistinct(rows, path))
    ensures var b := Build(Create(unique), rows, path);
            b.Some? ==>
              Agrees(rows, path, b.value) && Exact(rows, path, Tree.Flat(b.value.tree)) && b.value.unique == unique
  {
    hide Rank, Exact, Increasing, IndexableAt, Step, SameKeyAt, Build, KeysDistinct, Wf, Grounded, Covers, RunOrdered;
    CreateWf(unique);
    EmptyAgrees(path, unique);
    assert rows[..0] == [] && rows[0..] == rows;
    BuildFrom(rows, end, 0, path, Create(unique));
    var b := Build(Create(unique), rows, path);
    if b.Some? {
      CoveredIndexable(rows, path, Tree.Flat(b.value.tree));
      if unique {
        UniqueMeansDistinct(rows, end, path, b.value);
      }
    }
  }

  /** Dead rows do not matter to a build. */
  lemma {:induction false} BuildSkips(x: Index, rows: seq<Row>, i: nat, j: nat, path: Path)
    requires Wf(x) && i <= j <= |rows| && forall k | i <= k < j :: !rows[k].live
    ensures Build(x, rows[i..], path) == Build(x, rows[j..], path)
    decreases j - i
  {
    hide Wf, IndexableAt;
    if i == j {
    } else {
      assert rows[i..][1..] == rows[i + 1..];
      BuildSkips(x, rows, i + 1, j, path);
    }
  }

  lemma {:induction false} BuildTurn(x: Index, rows: seq<Row>, i: nat, path: Path)
    requires Wf(x) && i < |rows| && rows[i].live
    ensures Tree.Bounded(x.tree)
    ensures !IndexableAt(rows[i].doc, path) ==> Build(x, rows[i..], path) == Grammar.None
    ensures IndexableAt(rows[i].doc, path) ==>
              var next := Step(x, InsertOp(KeyAt(rows[i].doc, path), rows[i].off));
              && Wf(next.0)
              && Build(x, rows[i..], path) ==
                 if next.1 == DuplicateKey then Grammar.None else Build(next.0, rows[i + 1..], path)
  {
    hide Wf, IndexableAt, KeyAt, Step;
    WfBounded(x);
    assert rows[i..][1..] == rows[i + 1..];
    if IndexableAt(rows[i].doc, path) {
      BuildOnLive(x, rows[i..], path);
    }
  }

  // ---------------------------------------------------------------- create_index and compact

  /** The index of that path and direction, whose file create_index would find, or the number of indexes. */
  function NameAt(paths: seq<Path>, descending: seq<bool>, path: Path, down: bool): (k: nat)
    requires |paths| == |descending|
    ensures k <= |paths|
    ensures k < |paths| ==> paths[k] == path && descending[k] == down
    ensures k == |paths| ==> forall j | 0 <= j < k :: paths[j] != path || descending[j] != down
  {
    if paths == [] || (paths[0] == path && descending[0] == down) then 0
    else 1 + NameAt(paths[1..], descending[1..], path, down)
  }

  /** How create_index ends: a new index; the one there is, if it is the same; or an error. */
  datatype Making = Created | AlreadyThere | NameTaken | BuildRaised

  ghost function HowMade(st: State, path: Path, down: bool, unique: bool): Making
    requires Inv(st)
  {
    var k := NameAt(st.paths, st.descending, path, down);
    if k < |st.paths| then (if st.indexes[k].unique == unique then AlreadyThere else NameTaken)
    else if !LiveIndexable(st.rows, path) || (unique && !KeysDistinct(st.rows, path)) then BuildRaised
    else Created
  }

  /** There is an index of that path and direction, unique or not as `unique` says. */
  ghost predicate HasIndex(st: State, path: Path, down: bool, unique: bool)
    requires Inv(st)
  {
    exists k :: 0 <= k < |st.paths|
                && st.paths[k] == path && st.descending[k] == down && st.indexes[k].unique == unique
  }

  /** A live document has no key on the path, or two share one and the index is to be unique. */
  ghost predicate CannotIndex(st: State, path: Path, unique: bool) {
    || (exists i :: 0 <= i < |st.rows| && st.rows[i].live && !IndexableAt(st.rows[i].doc, path))
    || (unique && exists i, j :: 0 <= i < j < |st.rows| && st.rows[i].live && st.rows[j].live
                                 && SameKeyAt(st.rows[i].doc, st.rows[j].doc, path))
  }

  /** What create_index answers, by what there is. */
  lemma HowMadeIff(st: State, path: Path, down: bool, unique: bool)
    requires Inv(st)
    ensures HowMade(st, path, down, unique) == AlreadyThere <==> HasIndex(st, path, down, unique)
    ensures HowMade(st, path, down, unique) == NameTaken <==> HasIndex(st, path, down, !unique)
    ensures HowMade(st, path, down, unique) == BuildRaised <==>
              !HasIndex(st, path, down, true) && !HasIndex(st, path, down, false) && CannotIndex(st, path, unique)
  {
    hide Agrees, Increasing, IndexableAt, SameKeyAt;
    var k := NameAt(st.paths, st.descending, path, down);
    if k < |st.paths| {
      assert HasIndex(st, path, down, st.indexes[k].unique);
    }
  }

  /** create_index; unless it creates an index it leaves nothing behind. */
  ghost function AddIndex(st: State, path: Path, down: bool, unique: bool): (r: State)
    requires Inv(st)
  {
    if HowMade(st, path, down, unique) != Created then st
    else
      BuildSucceedsIff(st.rows, st.end, path, unique);
      var b := Build(Create(unique), st.rows, path);
      st.(paths := st.paths + [path], descending := st.descending + [down], indexes := st.indexes + [b.value])
  }

  lemma AddIndexKeeps(st: State, path: Path, down: bool, unique: bool)
    requires Inv(st)
    ensures var r, made := AddIndex(st, path, down, unique), HowMade(st, path, down, unique) == Created;
            && Inv(r) && (ExactUnique(st) ==> ExactUnique(r)) && r.rows == st.rows && r.end == st.end
            && (if made then
                  && |r.indexes| == |st.indexes| + 1 && r.indexes[|st.indexes|].unique == unique
                  && r.paths == st.paths + [path] && r.descending == st.descending + [down]
                else r == st)
            && forall k | 0 <= k < |st.paths| :: r.indexes[k] == st.indexes[k]
  {
    hide Rank, Agrees, Exact, Increasing, IndexableAt, Build, KeysDistinct, LiveIndexable;
    if HowMade(st, path, down, unique) == Created {
      BuildSucceedsIff(st.rows, st.end, path, unique);
      var r := AddIndex(st, path, down, unique);
      if ExactUnique(st) {
        forall k | 0 <= k < |r.paths| && r.indexes[k].unique ensures ExactAt(r, k) {
          assert k < |st.paths| ==> ExactAt(st, k);
        }
      }
    }
  }

  /** `packed` holds the live documents of `rows`, in order and all live. */
  ghost predicate Packed(rows: seq<Row>, packed: seq<Row>) {
    && LiveDocs(packed) == LiveDocs(rows)
    && forall i | 0 <= i < |packed| :: packed[i].live
  }

  /** Some row is live and holds the document. */
  lemma {:induction false} DocHasRow(rows: seq<Row>, a: nat) returns (i: nat)
    requires a < |LiveDocs(rows)|
    ensures i < |rows| && rows[i].live && rows[i].doc == LiveDocs(rows)[a] && LiveBefore(rows, i) == a
  {
    var n := |rows| - 1;
    if a < |LiveDocs(rows[..n])| {
      i := DocHasRow(rows[..n], a);
      assert rows[..n][..i] == rows[..i];
    } else {
      i := n;
    }
  }

  lemma {:induction false} RowHasDoc(rows: seq<Row>, i: nat)
    requires i < |rows|
    ensures LiveBefore(rows, i) <= |LiveDocs(rows)|
    ensures LiveDocs(rows)[..LiveBefore(rows, i)] == LiveDocs(rows[..i])
    ensures rows[i].live ==>
              LiveBefore(rows, i) < |LiveDocs(rows)| && LiveDocs(rows)[LiveBefore(rows, i)] == rows[i].doc
  {
    var n := |rows| - 1;
    if i == n {
    } else {
      RowHasDoc(rows[..n], i);
      assert rows[..n][..i] == rows[..i];
    }
  }

  lemma RowsHaveDocs(rows: seq<Row>, i: nat, j: nat)
    requires i < j < |rows| && rows[i].live
    ensures LiveBefore(rows, i) < LiveBefore(rows, j)
  {
    RowHasDoc(rows[..j], i);
    assert rows[..j][..i] == rows[..i];
  }

  /** What the rows' keys have to be depends on the live documents only. */
  ghost predicate DocsDistinct(docs: seq<Doc>, path: Path) {
    forall a, b | 0 <= a < b < |docs| :: !SameKeyAt(docs[a], docs[b], path)
  }

  lemma {:induction false} DistinctByDocs(rows: seq<Row>, path: Path)
    ensures KeysDistinct(rows, path) <==> DocsDistinct(LiveDocs(rows), path)
    ensures LiveIndexable(rows, path) <==> forall a | 0 <= a < |LiveDocs(rows)| :: IndexableAt(LiveDocs(rows)[a], path)
  {
    hide SameKeyAt, IndexableAt, LiveDocs, LiveBefore;
    var docs := LiveDocs(rows);
    forall i | 0 <= i < |rows| && rows[i].live
      ensures LiveBefore(rows, i) < |docs| && docs[LiveBefore(rows, i)] == rows[i].doc
    {
      RowHasDoc(rows, i);
    }
    forall i, j | 0 <= i < j < |rows| && rows[i].live && rows[j].live
      ensures LiveBefore(rows, i) < LiveBefore(rows, j)
    {
      RowsHaveDocs(rows, i, j);
    }
    if !DocsDistinct(docs, path) {
      var a, b :| 0 <= a < b < |docs| && SameKeyAt(docs[a], docs[b], path);
      var i := DocHasRow(rows, a);
      var j := DocHasRow(rows, b);
      LaterRow(rows, i, j);
    }
    forall a | 0 <= a < |docs| ensures LiveIndexable(rows, path) ==> IndexableAt(docs[a], path) {
      var i := DocHasRow(rows, a);
    }
  }

  lemma LaterRow(rows: seq<Row>, i: nat, j: nat)
    requires i < |rows| && j < |rows| && rows[j].live && LiveBefore(rows, i) < LiveBefore(rows, j)
    ensures i < j
  {
    if j < i {
      RowsHaveDocs(rows, j, i);
    }
  }

  /** Index `k` as compaction rebuilds it. */
  ghost function Rebuilt(st: State, packed: seq<Row>, end: nat, k: nat): Index
    requires Inv(st) && Increasing(packed, end) && Packed(st.rows, packed) && k < |st.paths|
  {
    RebuildSucceeds(st, packed, end, k);
    Build(Create(st.indexes[k].unique), packed, st.paths[k]).value
  }

  /** Rebuilding an index over the packed rows never raises, and leaves it exact. */
  lemma {:induction false} RebuildSucceeds(st: State, packed: seq<Row>, end: nat, k: nat)
    requires Inv(st) && Increasing(packed, end) && Packed(st.rows, packed) && k < |st.paths|
    ensures Wf(Create(st.indexes[k].unique)) && LiveIndexable(packed, st.paths[k])
    ensures var b := Build(Create(st.indexes[k].unique), packed, st.paths[k]);
            && b.Some? && Agrees(packed, st.paths[k], b.value)
            && Exact(packed, st.paths[k], Tree.Flat(b.value.tree)) && b.value.unique == st.indexes[k].unique
  {
    hide Rank, Wf, Exact, Increasing, IndexableAt, SameKeyAt, Build, KeysDistinct, DocsDistinct, Grounded;
    hide Covers, RunOrdered;
    var path, x := st.paths[k], st.indexes[k];
    assert Agrees(st.rows, path, x);
    CoveredIndexable(st.rows, path, Tree.Flat(x.tree));
    DistinctByDocs(st.rows, path);
    DistinctByDocs(packed, path);
    if x.unique {
      UniqueMeansDistinct(st.rows, st.end, path, x);
    }
    BuildSucceedsIff(packed, end, path, x.unique);
  }

  /** compact: the live records in a new file, and every index rebuilt over it. */
  ghost function Compacted(st: State, packed: seq<Row>, end: nat): (r: State)
    requires Inv(st) && Increasing(packed, end) && Packed(st.rows, packed)
  {
    State(packed, end, st.paths, st.descending,
          seq(|st.paths|, k requires 0 <= k < |st.paths| => Rebuilt(st, packed, end, k)))
  }

  /** After compaction every index is exact, unique or not, and no record is dead. */
  lemma CompactKeeps(st: State, packed: seq<Row>, end: nat)
    requires Inv(st) && Increasing(packed, end) && Packed(st.rows, packed)
    ensures var r := Compacted(st, packed, end);
            && Inv(r) && ExactUnique(r) && LiveDocs(r.rows) == LiveDocs(st.rows)
            && (forall k | 0 <= k < |st.paths| :: ExactAt(r, k) && r.indexes[k].unique == st.indexes[k].unique)
            && |LiveDocs(r.rows)| == |r.rows|
  {
    hide Agrees, Exact, Increasing, Build, IndexableAt;
    var r := Compacted(st, packed, end);
    forall k | 0 <= k < |st.paths|
      ensures Agrees(r.rows, r.paths[k], r.indexes[k]) && ExactAt(r, k) && r.indexes[k].unique == st.indexes[k].unique
    {
      RebuildSucceeds(st, packed, end, k);
    }
    AllLive(packed);
  }

  lemma {:induction false} AllLive(rows: seq<Row>)
    requires forall i | 0 <= i < |rows| :: rows[i].live
    ensures |LiveDocs(rows)| == |rows|
  {
    if rows == [] {
    } else {
      AllLive(rows[..|rows| - 1]);
    }
  }

  // ---------------------------------------------------------------- the reference

  /** An index as its user knows it. */
  datatype Constraint = Constraint(path: Path, descending: bool, unique: bool)

  /** A list of documents and a list of constraints. */
  datatype Reference = Reference(docs: seq<Doc>, constraints: seq<Constraint>)

  datatype RefAction =
    | Put(doc: Doc)
    | Replace(at: nat, doc: Doc)
    | Remove(at: nat)
    | Constrain(constraint: Constraint)
    | Nothing

  /** Some unique path has the document's key among the documents. */
  ghost predicate Clashes(ref: Reference, doc: Doc) {
    exists k, a :: 0 <= k < |ref.constraints| && 0 <= a < |ref.docs| && ref.constraints[k].unique
                   && SameKeyAt(ref.docs[a], doc, ref.constraints[k].path)
  }

  function Without(docs: seq<Doc>, at: nat): seq<Doc> {
    if at < |docs| then docs[..at] + docs[at + 1..] else docs
  }

  ghost function PutDoc(ref: Reference, doc: Doc): Reference {
    if Clashes(ref, doc) then ref else ref.(docs := ref.docs + [doc])
  }

  /** The list has a constraint on the same path in the same direction. */
  predicate SameName(ref: Reference, c: Constraint) {
    exists k :: 0 <= k < |ref.constraints| && ref.constraints[k].path == c.path
                && ref.constraints[k].descending == c.descending
  }

  /** Every document has a key on the path, and different ones if they have to be. */
  ghost predicate Suitable(docs: seq<Doc>, c: Constraint) {
    (forall a | 0 <= a < |docs| :: IndexableAt(docs[a], c.path)) && (c.unique ==> DocsDistinct(docs, c.path))
  }

  ghost function RefStep(ref: Reference, a: RefAction): Reference {
    match a
    case Put(doc) => PutDoc(ref, doc)
    case Replace(at, doc) => PutDoc(ref.(docs := Without(ref.docs, at)), doc)
    case Remove(at) => ref.(docs := Without(ref.docs, at))
    case Constrain(c) =>
      if SameName(ref, c) || !Suitable(ref.docs, c) then ref else ref.(constraints := ref.constraints + [c])
    case Nothing => ref
  }

  /** What a collection stands for. */
  ghost function Abstract(st: State): Reference
    requires |st.indexes| == |st.paths| == |st.descending|
  {
    Reference(LiveDocs(st.rows), seq(|st.paths|, k requires 0 <= k < |st.paths| =>
                                   Constraint(st.paths[k], st.descending[k], st.indexes[k].unique)))
  }

  lemma {:induction false} BuriedDocs(rows: seq<Row>, i: nat)
    requires i < |rows| && rows[i].live
    ensures LiveDocs(Buried(rows, i)) == Without(LiveDocs(rows), LiveBefore(rows, i))
  {
    var n, r := |rows| - 1, Buried(rows, i);
    RowHasDoc(rows, i);
    if i < n {
      assert r[..n] == Buried(rows[..n], i) && rows[..n][..i] == rows[..i];
      BuriedDocs(rows[..n], i);
      RowHasDoc(rows[..n], i);
    } else {
      assert r[..n] == rows[..n];
    }
  }

  lemma {:induction false} AddedDocs(rows: seq<Row>, row: Row)
    ensures LiveDocs(rows + [row]) == LiveDocs(rows) + if row.live then [row.doc] else []
  {
    assert (rows + [row])[..|rows|] == rows;
  }

  lemma TakenIsClash(st: State, k: nat, doc: Doc)
    requires k < |st.paths|
    ensures Taken(st, k, doc) <==>
              exists a :: 0 <= a < |LiveDocs(st.rows)| && SameKeyAt(LiveDocs(st.rows)[a], doc, st.paths[k])
  {
    hide SameKeyAt, LiveDocs, LiveBefore, IndexableAt;
    var docs, path := LiveDocs(st.rows), st.paths[k];
    if Taken(st, k, doc) {
      var i :| 0 <= i < |st.rows| && st.rows[i].live && SameKeyAt(st.rows[i].doc, doc, path);
      RowHasDoc(st.rows, i);
      assert SameKeyAt(docs[LiveBefore(st.rows, i)], doc, path);
    }
    if a :| 0 <= a < |docs| && SameKeyAt(docs[a], doc, path) {
      var i := DocHasRow(st.rows, a);
    }
  }

  /** Adding a document is putting it in the list. */
  lemma AddRefines(st: State, doc: Doc, size: nat)
    requires Inv(st) && ExactUnique(st) && !Raises(st, doc) && size > 0
    ensures Abstract(Add(st, doc, size)) == PutDoc(Abstract(st), doc)
    ensures Accepts(st, doc) <==> !Clashes(Abstract(st), doc)
  {
    hide Agrees, Increasing, ExactUnique, LiveDocs, FirstHalt, SameKeyAt, Taken, Raises;
    var r, ref := Add(st, doc, size), Abstract(st);
    RefusedIff(st, doc);
    AddedDocs(st.rows, r.rows[|st.rows|]);
    forall k | 0 <= k < |st.paths|
      ensures r.indexes[k].unique == st.indexes[k].unique
      ensures Taken(st, k, doc) <==>
                exists a :: 0 <= a < |ref.docs| && SameKeyAt(ref.docs[a], doc, ref.constraints[k].path)
    {
      AddKeepsOne(st, doc, size, k);
      TakenIsClash(st, k, doc);
    }
    assert Abstract(r).constraints == ref.constraints;
    ClashesIff(st, doc, ref);
  }

  lemma ClashesIff(st: State, doc: Doc, ref: Reference)
    requires |st.indexes| == |st.paths| == |ref.constraints|
    requires forall k | 0 <= k < |st.paths| :: ref.constraints[k].unique == st.indexes[k].unique
    requires forall k | 0 <= k < |st.paths| ::
               Taken(st, k, doc) <==>
               exists a :: 0 <= a < |ref.docs| && SameKeyAt(ref.docs[a], doc, ref.constraints[k].path)
    ensures Clashes(ref, doc) <==> exists k :: 0 <= k < |st.paths| && st.indexes[k].unique && Taken(st, k, doc)
  {
    hide SameKeyAt, Taken;
  }

  lemma DropRefines(st: State, i: nat)
    requires Inv(st) && i < |st.rows| && st.rows[i].live && CanIndex(st.paths, st.rows[i].doc)
    ensures var ref := Abstract(st);
            Abstract(Drop(st, i)) == ref.(docs := Without(ref.docs, LiveBefore(st.rows, i)))
  {
    hide Agrees, Increasing, LiveDocs, CanIndex, LiveBefore, ExactUnique;
    BuriedDocs(st.rows, i);
    forall k | 0 <= k < |st.paths| ensures Drop(st, i).indexes[k].unique == st.indexes[k].unique {
      DropKeepsOne(st, i, k);
    }
    assert Abstract(Drop(st, i)).constraints == Abstract(st).constraints;
  }

  // ---------------------------------------------------------------- runs

  /** One call on a collection; sizes and packed rows come from the record file. */
  datatype Action =
    | InsertDoc(doc: Doc, size: nat)
    | UpdateRow(i: nat, doc: Doc, size: nat)
    | DeleteRow(i: nat)
    | MakeIndex(path: Path, descending: bool, unique: bool)
    | Compact(packed: seq<Row>, end: nat)

  /** Rows named are live, and no value without a key is met before a refusal. */
  ghost predicate Permitted(st: State, a: Action)
    requires Inv(st)
  {
    match a
    case InsertDoc(doc, size) => !Raises(st, doc) && size > 0
    case UpdateRow(i, doc, size) =>
      i < |st.rows| && st.rows[i].live && size > 0 && (LiveCanDrop(st, i); HowChanged(st, i, doc) != NoKey)
    case DeleteRow(i) => i < |st.rows| && st.rows[i].live
    case MakeIndex(_, _, _) => true
    case Compact(packed, end) => Packed(st.rows, packed) && Increasing(packed, end)
  }

  ghost function Perform(st: State, a: Action): State
    requires Inv(st) && Permitted(st, a)
  {
    match a
    case InsertDoc(doc, size) => Add(st, doc, size)
    case UpdateRow(i, doc, size) => LiveCanDrop(st, i); Change(st, i, doc, size)
    case DeleteRow(i) => LiveCanDrop(st, i); Drop(st, i)
    case MakeIndex(path, down, unique) => AddIndex(st, path, down, unique)
    case Compact(packed, end) => Compacted(st, packed, end)
  }

  /** The call as the reference sees it. */
  ghost function Seen(st: State, a: Action): RefAction
    requires Inv(st) && Permitted(st, a)
  {
    match a
    case InsertDoc(doc, _) => Put(doc)
    case UpdateRow(i, doc, _) => Replace(LiveBefore(st.rows, i), doc)
    case DeleteRow(i) => Remove(LiveBefore(st.rows, i))
    case MakeIndex(path, down, unique) => Constrain(Constraint(path, down, unique))
    case Compact(_, _) => Nothing
  }

  /** Every call keeps the agreement and does to the list what the reference does. */
  lemma PerformRefines(st: State, a: Action)
    requires Inv(st) && ExactUnique(st) && Permitted(st, a)
    ensures Inv(Perform(st, a)) && ExactUnique(Perform(st, a))
    ensures Abstract(Perform(st, a)) == RefStep(Abstract(st), Seen(st, a))
  {
    hide Inv, ExactUnique, Add, Drop, Change, AddIndex, Compacted, CanIndex, LiveDocs, LiveBefore, Abstract;
    hide PutDoc, Packed, Increasing;
    match a
    case InsertDoc(doc, size) =>
      AddKeeps(st, doc, size);
      AddRefines(st, doc, size);
    case UpdateRow(i, doc, size) =>
      LiveCanDrop(st, i);
      UpdateRefines(st, i, doc, size);
    case DeleteRow(i) =>
      LiveCanDrop(st, i);
      DropKeeps(st, i);
      DropRefines(st, i);
    case MakeIndex(path, down, unique) =>
      AddIndexKeeps(st, path, down, unique);
      MakeIndexRefines(st, path, down, unique);
    case Compact(packed, end) =>
      CompactKeeps(st, packed, end);
      CompactRefines(st, packed, end);
  }

  lemma UpdateRefines(st: State, i: nat, doc: Doc, size: nat)
    requires Inv(st) && ExactUnique(st) && i < |st.rows| && st.rows[i].live && size > 0
    requires CanIndex(st.paths, st.rows[i].doc) && HowChanged(st, i, doc) != NoKey
    ensures Inv(Change(st, i, doc, size)) && ExactUnique(Change(st, i, doc, size))
    ensures var ref := Abstract(st);
            Abstract(Change(st, i, doc, size)) == PutDoc(ref.(docs := Without(ref.docs, LiveBefore(st.rows, i))), doc)
  {
    hide Inv, ExactUnique, Add, Drop, CanIndex, LiveDocs, LiveBefore, Abstract, PutDoc;
    ChangeKeeps(st, i, doc, size);
    DropKeeps(st, i);
    DropRefines(st, i);
    AddRefines(Drop(st, i), doc, size);
  }

  /**
    * An update moves the document to the end of the list, except that it is lost without a
    * replacement exactly when the new document clashes with one of the others.
    */
  lemma UpdateLosesIff(st: State, i: nat, doc: Doc, size: nat)
    requires Inv(st) && ExactUnique(st) && i < |st.rows| && st.rows[i].live && size > 0
    requires CanIndex(st.paths, st.rows[i].doc) && HowChanged(st, i, doc) != NoKey
    ensures var others := Abstract(st).(docs := Without(LiveDocs(st.rows), LiveBefore(st.rows, i)));
            && (HowChanged(st, i, doc) == Rejected <==> Clashes(others, doc))
            && LiveDocs(Change(st, i, doc, size).rows) == others.docs + if Clashes(others, doc) then [] else [doc]
  {
    hide Inv, ExactUnique, Add, Drop, CanIndex, LiveDocs, LiveBefore, Clashes, Raises, Accepts;
    DropKeeps(st, i);
    DropRefines(st, i);
    AddRefines(Drop(st, i), doc, size);
    UpdateRefines(st, i, doc, size);
  }

  lemma MakeIndexRefines(st: State, path: Path, down: bool, unique: bool)
    requires Inv(st)
    ensures var r := AddIndex(st, path, down, unique);
            && |r.indexes| == |r.paths| == |r.descending|
            && Abstract(r) == RefStep(Abstract(st), Constrain(Constraint(path, down, unique)))
  {
    hide Agrees, ExactUnique, LiveDocs, Increasing, Build, KeysDistinct, DocsDistinct, LiveIndexable, IndexableAt;
    AddIndexKeeps(st, path, down, unique);
    DistinctByDocs(st.rows, path);
    var r, c, ref := AddIndex(st, path, down, unique), Constraint(path, down, unique), Abstract(st);
    assert SameName(ref, c) <==> NameAt(st.paths, st.descending, path, down) < |st.paths| by {
      var k := NameAt(st.paths, st.descending, path, down);
      assert k < |st.paths| ==> ref.constraints[k].path == path && ref.constraints[k].descending == down;
    }
    if HowMade(st, path, down, unique) == Created {
      assert Abstract(r).constraints == ref.constraints + [c];
    }
  }

  lemma CompactRefines(st: State, packed: seq<Row>, end: nat)
    requires Inv(st) && Packed(st.rows, packed) && Increasing(packed, end)
    ensures |Compacted(st, packed, end).indexes| == |st.paths| == |st.descending|
    ensures Abstract(Compacted(st, packed, end)) == Abstract(st)
  {
    hide Agrees, ExactUnique, LiveDocs, Increasing, Rebuilt, Exact;
    CompactKeeps(st, packed, end);
    assert Abstract(Compacted(st, packed, end)).constraints == Abstract(st).constraints;
  }

  /** A collection with no records and no indexes. */
  function Empty(start: nat): State {
    State([], start, [], [], [])
  }

  /** The state after a run, when every call was permitted where it was made. */
  ghost function Run(start: nat, calls: seq<Action>): (st: Grammar.Option<State>)
    ensures st.Some? ==> Inv(st.value) && ExactUnique(st.value)
  {
    if calls == [] then Grammar.Some(Empty(start))
    else
      var before := Run(start, calls[..|calls| - 1]);
      if before.None? || !Permitted(before.value, calls[|calls| - 1]) then Grammar.None
      else
        PerformRefines(before.value, calls[|calls| - 1]);
        Grammar.Some(Perform(before.value, calls[|calls| - 1]))
  }

  /** The reference's state after the same calls. */
  ghost function RefRun(start: nat, calls: seq<Action>): Reference
    requires Run(start, calls).Some?
  {
    if calls == [] then Reference([], [])
    else
      var before := calls[..|calls| - 1];
      RefStep(RefRun(start, before), Seen(Run(start, before).value, calls[|calls| - 1]))
  }

  /**
    * Over every run, the collection's live documents and its constraints are the
    * reference's, and every index agrees with the records: each live document has its live
    * entry, and the live entries of a unique index are those pairs exactly.
    */
  lemma {:induction false} CollectionRefinesList(start: nat, calls: seq<Action>)
    requires Run(start, calls).Some?
    ensures Inv(Run(start, calls).value)
    ensures Abstract(Run(start, calls).value) == RefRun(start, calls)
    ensures var st := Run(start, calls).value;
            forall k | 0 <= k < |st.paths| ::
              && LiveIndexable(st.rows, st.paths[k])
              && RowPairs(st.rows, st.paths[k]) <= LivePairs(Tree.Flat(st.indexes[k].tree))
              && (st.indexes[k].unique ==> LivePairs(Tree.Flat(st.indexes[k].tree)) == RowPairs(st.rows, st.paths[k]))
  {
    hide Permitted, Perform, Seen, RefStep, Agrees, Increasing, LiveDocs, RowPairs, LivePairs, Exact, LiveIndexable;
    if calls == [] {
      EmptyAbstract(start);
    } else {
      CollectionRefinesList(start, calls[..|calls| - 1]);
      PerformRefines(Run(start, calls[..|calls| - 1]).value, calls[|calls| - 1]);
    }
    PairsAgree(Run(start, calls).value);
  }

  lemma EmptyAbstract(start: nat)
    ensures Abstract(Empty(start)) == Reference([], [])
  {
  }

  lemma PairsAgree(st: State)
    requires Inv(st) && ExactUnique(st)
    ensures forall k | 0 <= k < |st.paths| ::
              && LiveIndexable(st.rows, st.paths[k])
              && RowPairs(st.rows, st.paths[k]) <= LivePairs(Tree.Flat(st.indexes[k].tree))
              && (st.indexes[k].unique ==> LivePairs(Tree.Flat(st.indexes[k].tree)) == RowPairs(st.rows, st.paths[k]))
  {
    hide Rank, Wf, Increasing, Exact, RowPairs, LivePairs, RunOrdered, Grounded, Covers, IndexableAt;
    forall k | 0 <= k < |st.paths|
      ensures LiveIndexable(st.rows, st.paths[k])
      ensures RowPairs(st.rows, st.paths[k]) <= LivePairs(Tree.Flat(st.indexes[k].tree))
      ensures st.indexes[k].unique ==> LivePairs(Tree.Flat(st.indexes[k].tree)) == RowPairs(st.rows, st.paths[k])
    {
      var path, s := st.paths[k], Tree.Flat(st.indexes[k].tree);
      assert Agrees(st.rows, path, st.indexes[k]);
      CoveredIndexable(st.rows, path, s);
      ExactMeansEqualPairs(st.rows, st.end, path, s);
      assert st.indexes[k].unique ==> ExactAt(st, k);
    }
  }
}
