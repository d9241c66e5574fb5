/**
  * Keeping indexes in step with the records (collection.py), on values.
  *
  * A collection is its rows, one per record in file order, and its indexes.  The
  * functions below are what collection.py's mutations make of such a state; module
  * Collection proves that its methods compute them.  Here it is proved what they keep:
  * every live document stays indexed, and unique indexes hold nothing else.
  */
module Agreement {
  import opened Codec
  import opened KeyOrder
  import opened Tree
  import opened TreeInsert
  import opened TreeSearch
  import opened TreeRuns
  import opened IndexKeys

  /** A record: its file offset, whether it is live, and the document it decodes to. */
  datatype Row = Row(off: nat, live: bool, doc: seq<Field>)

  // ---------------------------------------------------------------- one index and the rows

  ghost predicate Increasing(rows: seq<Row>, end: nat) {
    && (forall i, j | 0 <= i < j < |rows| :: rows[i].off < rows[j].off)
    && (forall i | 0 <= i < |rows| :: rows[i].off < end)
  }

  /** The entry is the one an index on `path` gets for the row. */
  ghost predicate Points(e: Entry, row: Row, path: Path) {
    e.offset == row.off && IndexableAt(row.doc, path) && Rank(e.key) == Rank(KeyAt(row.doc, path))
  }

  ghost predicate PointsSome(e: Entry, rows: seq<Row>, path: Path) {
    exists i :: 0 <= i < |rows| && Points(e, rows[i], path)
  }

  ghost predicate Covered(row: Row, path: Path, s: seq<Entry>) {
    exists j :: 0 <= j < |s| && !s[j].dead && Points(s[j], row, path)
  }

  /** No entry, dead or live, was ever made for anything but a row. */
  ghost predicate Grounded(rows: seq<Row>, path: Path, s: seq<Entry>) {
    forall j | 0 <= j < |s| :: PointsSome(s[j], rows, path)
  }

  /** Every live row has a live entry. */
  ghost predicate Covers(rows: seq<Row>, path: Path, s: seq<Entry>) {
    forall i | 0 <= i < |rows| && rows[i].live :: Covered(rows[i], path, s)
  }

  /** No live entry is left over from a row that is dead. */
  ghost predicate Exact(rows: seq<Row>, path: Path, s: seq<Entry>) {
    forall j, i | 0 <= j < |s| && 0 <= i < |rows| && !s[j].dead && Points(s[j], rows[i], path) :: rows[i].live
  }

  /** Equal keys stand in the order in which their records were written. */
  ghost predicate RunOrdered(s: seq<Entry>) {
    forall i, j | 0 <= i < j < |s| && Rank(s[i].key) == Rank(s[j].key) :: s[i].offset < s[j].offset
  }

  ghost predicate Agrees(rows: seq<Row>, path: Path, x: Index) {
    && Wf(x)
    && Grounded(rows, path, Flat(x.tree))
    && Covers(rows, path, Flat(x.tree))
    && RunOrdered(Flat(x.tree))
  }

  /** The live (key, offset) pairs of an index, and those its rows call for. */
  ghost function LivePairs(s: seq<Entry>): set<(int, nat)> {
    set j | 0 <= j < |s| && !s[j].dead :: (Rank(s[j].key), s[j].offset)
  }

  ghost function RowPairs(rows: seq<Row>, path: Path): set<(int, nat)>
    requires forall i | 0 <= i < |rows| && rows[i].live :: IndexableAt(rows[i].doc, path)
  {
    set i | 0 <= i < |rows| && rows[i].live :: (Rank(KeyAt(rows[i].doc, path)), rows[i].off)
  }

  lemma CoveredIndexable(rows: seq<Row>, path: Path, s: seq<Entry>)
    requires Covers(rows, path, s)
    ensures forall i | 0 <= i < |rows| && rows[i].live :: IndexableAt(rows[i].doc, path)
  {
    hide Rank, Indexable;
    forall i | 0 <= i < |rows| && rows[i].live ensures IndexableAt(rows[i].doc, path) {
      assert Covered(rows[i], path, s);
    }
  }

  /** An agreeing index is exact when its live entries are the pairs of the live rows, no more and no fewer. */
  lemma ExactMeansEqualPairs(rows: seq<Row>, end: nat, path: Path, s: seq<Entry>)
    requires Increasing(rows, end) && Grounded(rows, path, s) && Covers(rows, path, s)
    requires forall i | 0 <= i < |rows| && rows[i].live :: IndexableAt(rows[i].doc, path)
    ensures RowPairs(rows, path) <= LivePairs(s)
    ensures Exact(rows, path, s) <==> LivePairs(s) == RowPairs(rows, path)
  {
    hide Rank, IndexableAt, KeyAt;
    forall i | 0 <= i < |rows| && rows[i].live
      ensures (Rank(KeyAt(rows[i].doc, path)), rows[i].off) in LivePairs(s)
    {
      assert Covered(rows[i], path, s);
    }
    if Exact(rows, path, s) {
      forall j | 0 <= j < |s| && !s[j].dead ensures (Rank(s[j].key), s[j].offset) in RowPairs(rows, path) {
        assert PointsSome(s[j], rows, path);
      }
    }
    if LivePairs(s) == RowPairs(rows, path) {
      forall j, i | 0 <= j < |s| && 0 <= i < |rows| && !s[j].dead && Points(s[j], rows[i], path) ensures rows[i].live {
        assert (Rank(s[j].key), s[j].offset) in LivePairs(s);
        var k :| 0 <= k < |rows| && rows[k].live
                 && (Rank(KeyAt(rows[k].doc, path)), rows[k].off) == (Rank(s[j].key), s[j].offset);
        assert rows[k].off == rows[i].off;
      }
    }
  }

  // ---------------------------------------------------------------- a new row

  lemma StillPoints(e: Entry, rows: seq<Row>, row: Row, path: Path)
    requires PointsSome(e, rows, path)
    ensures PointsSome(e, rows + [row], path)
  {
    hide Points;
    var i :| 0 <= i < |rows| && Points(e, rows[i], path);
    assert (rows + [row])[i] == rows[i];
  }

  lemma StillCovered(row: Row, path: Path, s: seq<Entry>, n: nat, e: Entry)
    requires Covered(row, path, s) && n <= |s|
    ensures Covered(row, path, Splice(s, n, e))
  {
    hide Points;
    var j :| 0 <= j < |s| && !s[j].dead && Points(s[j], row, path);
    assert Splice(s, n, e)[if j < n then j else j + 1] == s[j];
  }

  /** A row no entry points to, added dead, changes nothing. */
  lemma DeadRow(rows: seq<Row>, end: nat, row: Row, path: Path, s: seq<Entry>)
    requires Increasing(rows, end) && row.off == end && !row.live
    requires Grounded(rows, path, s) && Covers(rows, path, s)
    ensures Grounded(rows + [row], path, s) && Covers(rows + [row], path, s)
    ensures Exact(rows, path, s) ==> Exact(rows + [row], path, s)
  {
    hide Points, Covered;
    forall j | 0 <= j < |s| ensures PointsSome(s[j], rows + [row], path) {
      StillPoints(s[j], rows, row, path);
    }
    forall j | 0 <= j < |s| ensures !Points(s[j], row, path) {
      EntryBelow(s[j], rows, end, row, path);
    }
  }

  lemma EntryBelow(e: Entry, rows: seq<Row>, end: nat, row: Row, path: Path)
    requires Increasing(rows, end) && PointsSome(e, rows, path)
    ensures e.offset < end
    ensures row.off >= end ==> !Points(e, row, path)
  {
    hide Rank, Indexable;
  }

  lemma NewRow(rows: seq<Row>, end: nat, row: Row, path: Path, s: seq<Entry>, e: Entry)
    requires Increasing(rows, end) && row.off == end && row.live && !e.dead && Points(e, row, path)
    requires Grounded(rows, path, s) && Covers(rows, path, s)
    ensures Grounded(rows + [row], path, Inserted(s, e)) && Covers(rows + [row], path, Inserted(s, e))
    ensures Exact(rows, path, s) ==> Exact(rows + [row], path, Inserted(s, e))
  {
    hide Points, UpperBound, Rank;
    var n, r := UpperBound(s, e.key), Inserted(s, e);
    forall j | 0 <= j < |r| ensures PointsSome(r[j], rows + [row], path) {
      assert r[j] == if j < n then s[j] else if j == n then e else s[j - 1];
      if j == n {
        assert (rows + [row])[|rows|] == row;
      } else {
        StillPoints(r[j], rows, row, path);
      }
    }
    forall i | 0 <= i < |rows + [row]| && (rows + [row])[i].live ensures Covered((rows + [row])[i], path, r) {
      if i < |rows| {
        StillCovered(rows[i], path, s, n, e);
      } else {
        assert r[n] == e;
      }
    }
    if Exact(rows, path, s) {
      NewRowExact(rows, end, row, path, s, e);
    }
  }

  lemma NewRowExact(rows: seq<Row>, end: nat, row: Row, path: Path, s: seq<Entry>, e: Entry)
    requires Increasing(rows, end) && row.off == end && row.live && Points(e, row, path)
    requires Grounded(rows, path, s) && Exact(rows, path, s)
    ensures Exact(rows + [row], path, Inserted(s, e))
  {
    hide UpperBound, Rank, Indexable;
    var n, r, rows' := UpperBound(s, e.key), Inserted(s, e), rows + [row];
    forall j, i | 0 <= j < |r| && 0 <= i < |rows'| && !r[j].dead && Points(r[j], rows'[i], path) ensures rows'[i].live {
      assert r[j] == if j < n then s[j] else if j == n then e else s[j - 1];
      if i < |rows| && j != n {
        assert rows'[i] == rows[i];
      }
    }
  }

  /** The new entry is last of its run and has the highest offset. */
  lemma NewRunOrdered(rows: seq<Row>, end: nat, path: Path, s: seq<Entry>, e: Entry)
    requires Increasing(rows, end) && Grounded(rows, path, s) && RunOrdered(s) && Sorted(s) && e.offset == end
    ensures RunOrdered(Inserted(s, e))
  {
    hide Rank, Points, Grounded, Increasing, RunOrdered, Sorted;
    forall j | 0 <= j < |s| ensures s[j].offset < e.offset {
      BelowEnd(rows, end, path, s, j);
    }
    HighestRunOrdered(s, e);
  }

  lemma HighestRunOrdered(s: seq<Entry>, e: Entry)
    requires RunOrdered(s) && Sorted(s) && forall j | 0 <= j < |s| :: s[j].offset < e.offset
    ensures RunOrdered(Inserted(s, e))
  {
    hide Rank, UpperBound;
    var n, r := UpperBound(s, e.key), Inserted(s, e);
    forall i, j | 0 <= i < j < |r| ensures Rank(r[i].key) == Rank(r[j].key) ==> r[i].offset < r[j].offset {
      if j == n {
        assert r[i] == s[i];
      } else if i == n {
        assert r[j] == s[j - 1] && Rank(s[n].key) <= Rank(s[j - 1].key);
      } else {
        assert r[i] == s[if i < n then i else i - 1] && r[j] == s[if j < n then j else j - 1];
      }
    }
  }

  lemma BelowEnd(rows: seq<Row>, end: nat, path: Path, s: seq<Entry>, j: nat)
    requires Increasing(rows, end) && Grounded(rows, path, s) && j < |s|
    ensures s[j].offset < end
  {
    hide Rank, Indexable;
    assert PointsSome(s[j], rows, path);
  }

  // ---------------------------------------------------------------- a row dies

  function Buried(rows: seq<Row>, i: nat): (r: seq<Row>)
    requires i < |rows|
    ensures |r| == |rows|
  {
    rows[i := rows[i].(live := false)]
  }

  lemma BuriedPoints(e: Entry, rows: seq<Row>, i: nat, path: Path, k: nat)
    requires i < |rows| && k < |rows|
    ensures Points(e, Buried(rows, i)[k], path) <==> Points(e, rows[k], path)
  {
    hide Rank, Indexable;
  }

  lemma BuriedGrounded(rows: seq<Row>, i: nat, path: Path, s: seq<Entry>, s': seq<Entry>)
    requires i < |rows| && Grounded(rows, path, s)
    requires |s'| == |s| && forall j | 0 <= j < |s| :: s'[j].key == s[j].key && s'[j].offset == s[j].offset
    ensures Grounded(Buried(rows, i), path, s')
  {
    hide Points;
    forall j | 0 <= j < |s'| ensures PointsSome(s'[j], Buried(rows, i), path) {
      var k :| 0 <= k < |rows| && Points(s[j], rows[k], path);
      BuriedPoints(s'[j], rows, i, path, k);
      SamePoints(s[j], s'[j], rows[k], path);
    }
  }

  lemma SamePoints(e: Entry, e': Entry, row: Row, path: Path)
    requires e.key == e'.key && e.offset == e'.offset
    ensures Points(e, row, path) <==> Points(e', row, path)
  {
  }

  /** Marking an entry of row `i`, or none, and burying the row. */
  lemma BuriedCovers(rows: seq<Row>, end: nat, i: nat, path: Path, s: seq<Entry>, n: nat)
    requires Increasing(rows, end) && i < |rows| && Covers(rows, path, s)
    requires n < |s| ==> s[n].offset == rows[i].off
    ensures Covers(Buried(rows, i), path, Kill(s, n))
  {
    hide Rank, Indexable;
    var rows', s' := Buried(rows, i), Kill(s, n);
    forall k | 0 <= k < |rows'| && rows'[k].live ensures Covered(rows'[k], path, s') {
      assert rows'[k] == rows[k] && Covered(rows[k], path, s);
      var j :| 0 <= j < |s| && !s[j].dead && Points(s[j], rows[k], path);
      assert j != n && s'[j] == s[j];
    }
  }

  /** Of the entries of one row there is only one. */
  lemma OneEntryPerRow(row: Row, path: Path, s: seq<Entry>, j: nat, k: nat)
    requires RunOrdered(s) && j < |s| && k < |s| && Points(s[j], row, path) && Points(s[k], row, path)
    ensures j == k
  {
    hide Rank, Indexable;
  }

  /** Exactness survives exactly when the row's entry is the one marked. */
  lemma BuriedExact(rows: seq<Row>, end: nat, i: nat, path: Path, s: seq<Entry>, n: nat, at: nat)
    requires Increasing(rows, end) && i < |rows| && RunOrdered(s) && Exact(rows, path, s)
    requires at < |s| && !s[at].dead && Points(s[at], rows[i], path)
    requires n < |s| ==> s[n].offset == rows[i].off
    ensures Exact(Buried(rows, i), path, Kill(s, n)) <==> n == at
  {
    hide Rank, Indexable, Points, RunOrdered;
    var rows', s' := Buried(rows, i), Kill(s, n);
    if n == at {
      forall j, k | 0 <= j < |s'| && 0 <= k < |rows'| && !s'[j].dead && Points(s'[j], rows'[k], path)
        ensures rows'[k].live
      {
        BuriedPoints(s'[j], rows, i, path, k);
        assert s'[j] == s[j] && j != n;
        if k == i {
          OneEntryPerRow(rows[i], path, s, j, at);
        }
      }
    } else {
      assert s'[at] == s[at];
      BuriedPoints(s'[at], rows, i, path, i);
      assert !rows'[i].live;
    }
  }

  lemma KilledRunOrdered(s: seq<Entry>, n: nat)
    requires RunOrdered(s)
    ensures RunOrdered(Kill(s, n))
  {
    hide Rank;
  }

  // ---------------------------------------------------------------- calls on one index

  /** A pair in a leaf before the one its key descends to: what delete cannot see. */
  ghost predicate PairBefore(t: Tree, key: Key, offset: nat)
    requires Bounded(t)
  {
    exists j :: 0 <= j < LeafStart(t, key) && Hit(Flat(t)[j], key) && Flat(t)[j].offset == offset
  }

  /** A delete lands on its pair unless the pair lies before the descended leaf; then it marks nothing. */
  lemma {:induction false} DeleteLands(t: Tree, key: Key, offset: nat, at: nat)
    requires Bounded(t) && RunOrdered(Flat(t))
    requires at < |Flat(t)| && Hit(Flat(t)[at], key) && Flat(t)[at].offset == offset
    ensures DeleteAt(t, key, offset) == if at >= LeafStart(t, key) then at else |Flat(t)|
    ensures PairBefore(t, key, offset) <==> at < LeafStart(t, key)
  {
    hide Rank, Bounded, Flat;
    var s, a := Flat(t), LeafStart(t, key);
    var n := FirstPair(s[a..], key, offset);
    forall j | 0 <= j < |s| && Hit(s[j], key) && s[j].offset == offset ensures j == at {
    }
    if a + n < |s| {
      assert s[a..][n] == s[a + n];
    }
    if at >= a {
      assert s[a..][at - a] == s[at];
    }
  }

  lemma InsertSorted(x: Index, op: Op)
    requires Wf(x) && op.InsertOp? && Step(x, op).1 == Ok
    ensures Flat(Step(x, op).0.tree) == Inserted(Flat(x.tree), Entry(op.key, op.offset, false))
    ensures Sorted(Flat(x.tree)) && Bounded(x.tree)
  {
    hide Rank, Times, LastLive;
    InsertRefinesList(x.tree, Height(x.tree), Entry(op.key, op.offset, false), x.next);
  }

  /** Indexing a new live row. */
  lemma InsertAgrees(rows: seq<Row>, end: nat, row: Row, path: Path, x: Index)
    requires Increasing(rows, end) && Agrees(rows, path, x)
    requires row.off == end && row.live && IndexableAt(row.doc, path)
    requires Step(x, InsertOp(KeyAt(row.doc, path), end)).1 == Ok
    ensures Agrees(rows + [row], path, Step(x, InsertOp(KeyAt(row.doc, path), end)).0)
    ensures Exact(rows, path, Flat(x.tree)) ==>
              Exact(rows + [row], path, Flat(Step(x, InsertOp(KeyAt(row.doc, path), end)).0.tree))
  {
    hide Rank, Wf, Step, Indexable, KeyAt, Grounded, Covers, Exact, RunOrdered, Increasing, Sorted, UpperBound;
    var op, e := InsertOp(KeyAt(row.doc, path), end), Entry(KeyAt(row.doc, path), end, false);
    StepKeepsWf(x, op);
    InsertSorted(x, op);
    NewRow(rows, end, row, path, Flat(x.tree), e);
    NewRunOrdered(rows, end, path, Flat(x.tree), e);
  }

  lemma DeleteKills(x: Index, key: Key, offset: nat)
    requires Wf(x)
    ensures Bounded(x.tree)
    ensures Wf(Step(x, DeleteOp(key, offset)).0)
    ensures Flat(Step(x, DeleteOp(key, offset)).0.tree) == Kill(Flat(x.tree), DeleteAt(x.tree, key, offset))
    ensures var n := DeleteAt(x.tree, key, offset); n < |Flat(x.tree)| ==> Flat(x.tree)[n].offset == offset
  {
    hide Rank, Times, LastLive, Sorted, Kill;
    StepKeepsWf(x, DeleteOp(key, offset));
    DeleteMarksOne(x.tree, Height(x.tree), key, offset);
    var s, a := Flat(x.tree), LeafStart(x.tree, key);
    var n := FirstPair(s[a..], key, offset);
    assert n < |s[a..]| ==> s[a..][n] == s[a + n];
  }

  lemma KillKeepsPairs(s: seq<Entry>, n: nat)
    ensures |Kill(s, n)| == |s|
    ensures forall j | 0 <= j < |s| :: Kill(s, n)[j].key == s[j].key && Kill(s, n)[j].offset == s[j].offset
  {
  }

  /** Dropping row `i` from an index keeps the agreement, whether or not the delete finds the entry. */
  lemma DeleteAgrees(rows: seq<Row>, end: nat, i: nat, path: Path, x: Index)
    requires Increasing(rows, end) && Agrees(rows, path, x) && i < |rows| && IndexableAt(rows[i].doc, path)
    ensures Agrees(Buried(rows, i), path, Step(x, DeleteOp(KeyAt(rows[i].doc, path), rows[i].off)).0)
  {
    hide Rank, Wf, Step, Indexable, KeyAt, Grounded, Covers, RunOrdered, Increasing, Kill, DeleteAt, Buried;
    var key, off, s := KeyAt(rows[i].doc, path), rows[i].off, Flat(x.tree);
    DeleteKills(x, key, off);
    var n := DeleteAt(x.tree, key, off);
    KillKeepsPairs(s, n);
    BuriedGrounded(rows, i, path, s, Kill(s, n));
    BuriedCovers(rows, end, i, path, s, n);
    KilledRunOrdered(s, n);
  }

  /**
    * Dropping a live row leaves no live entry behind exactly when its pair does not lie
    * before the leaf its key descends to; in a unique index it never does.
    */
  lemma DeleteExact(rows: seq<Row>, end: nat, i: nat, path: Path, x: Index)
    requires Increasing(rows, end) && Agrees(rows, path, x) && Exact(rows, path, Flat(x.tree))
    requires i < |rows| && rows[i].live && IndexableAt(rows[i].doc, path)
    ensures Bounded(x.tree)
    ensures Exact(Buried(rows, i), path, Flat(Step(x, DeleteOp(KeyAt(rows[i].doc, path), rows[i].off)).0.tree))
            <==> !PairBefore(x.tree, KeyAt(rows[i].doc, path), rows[i].off)
    ensures x.unique ==> !PairBefore(x.tree, KeyAt(rows[i].doc, path), rows[i].off)
  {
    hide Rank, Wf, Step, Indexable, KeyAt, Grounded, Exact, RunOrdered, Increasing, Kill, DeleteAt, Buried, PairBefore;
    var key, off, s := KeyAt(rows[i].doc, path), rows[i].off, Flat(x.tree);
    DeleteKills(x, key, off);
    assert Covered(rows[i], path, s);
    var at :| 0 <= at < |s| && !s[at].dead && Points(s[at], rows[i], path);
    DeleteLands(x.tree, key, off, at);
    BuriedExact(rows, end, i, path, s, DeleteAt(x.tree, key, off), at);
    if x.unique {
      UniqueReaches(x, at, key);
    }
  }

  lemma {:induction false} UniqueReaches(x: Index, at: nat, key: Key)
    requires Wf(x) && x.unique && at < |Flat(x.tree)| && LiveHit(Flat(x.tree)[at], key)
    ensures LeafStart(x.tree, key) <= at
  {
    hide Rank, Times, LastLive, Sorted;
    LiveIsReached(x.tree, Height(x.tree), key);
    LiveInPrefix(Flat(x.tree), LeafStart(x.tree, key), at, key);
  }

  // ---------------------------------------------------------------- the rollback

  /** An insertion taken back by the delete of the same pair. */
  ghost function TakenBack(x: Index, key: Key, offset: nat): Index
    requires Wf(x)
  {
    StepKeepsWf(x, InsertOp(key, offset));
    Step(Step(x, InsertOp(key, offset)).0, DeleteOp(key, offset)).0
  }

  lemma {:induction false} InsertedAt(s: seq<Entry>, e: Entry)
    ensures UpperBound(s, e.key) < |Inserted(s, e)| && Inserted(s, e)[UpperBound(s, e.key)] == e
  {
    hide Rank;
  }

  lemma {:induction false} UpperBoundInserted(s: seq<Entry>, e: Entry)
    requires Sorted(s)
    ensures UpperBound(Inserted(s, e), e.key) == UpperBound(s, e.key) + 1
  {
    hide Rank, UpperBound;
    var n, r := UpperBound(s, e.key), Inserted(s, e);
    assert r[n] == e;
    assert n < |s| ==> r[n + 1] == s[n];
    InsertedSorted(s, e);
    UpperBoundUnique(r, e.key, n + 1);
  }

  /** On any tree, unique or not, the delete of a rollback finds the entry just inserted. */
  lemma {:induction false} RollbackFinds(x: Index, key: Key, offset: nat)
    requires Wf(x) && Step(x, InsertOp(key, offset)).1 == Ok && RunOrdered(Flat(x.tree))
    requires forall j | 0 <= j < |Flat(x.tree)| :: Flat(x.tree)[j].offset < offset
    ensures var s, e := Flat(x.tree), Entry(key, offset, false);
            Flat(TakenBack(x, key, offset).tree) == Kill(Inserted(s, e), UpperBound(s, key))
  {
    hide Rank, Step, Kill, RunOrdered, UpperBound, LeafStart, DeleteAt, Times, LastLive, Sorted;
    var s, e := Flat(x.tree), Entry(key, offset, false);
    var x1 := Step(x, InsertOp(key, offset)).0;
    StepKeepsWf(x, InsertOp(key, offset));
    InsertSorted(x, InsertOp(key, offset));
    HighestRunOrdered(s, e);
    InsertedAt(s, e);
    UpperBoundInserted(s, e);
    DescentReachesRunEnd(x1.tree, Height(x1.tree), true, key);
    DeleteLands(x1.tree, key, offset, UpperBound(s, key));
    DeleteKills(x1, key, offset);
  }

  /** So the rollback leaves exactly the live pairs there were before. */
  lemma RollbackRestoresPairs(x: Index, key: Key, offset: nat)
    requires Wf(x) && Step(x, InsertOp(key, offset)).1 == Ok && RunOrdered(Flat(x.tree))
    requires forall j | 0 <= j < |Flat(x.tree)| :: Flat(x.tree)[j].offset < offset
    ensures LivePairs(Flat(TakenBack(x, key, offset).tree)) == LivePairs(Flat(x.tree))
  {
    hide Rank, Wf, Step, RunOrdered, UpperBound, TakenBack;
    RollbackFinds(x, key, offset);
    var s, e := Flat(x.tree), Entry(key, offset, false);
    var n := UpperBound(s, key);
    var r := Kill(Inserted(s, e), n);
    forall j | 0 <= j < |s| && !s[j].dead ensures (Rank(s[j].key), s[j].offset) in LivePairs(r) {
      assert r[if j < n then j else j + 1] == s[j];
    }
    forall j | 0 <= j < |r| && !r[j].dead ensures (Rank(r[j].key), r[j].offset) in LivePairs(s) {
      assert j != n && r[j] == s[if j < n then j else j - 1];
    }
  }

  /** A rolled-back insertion: the row is there, dead, and the index agrees as before. */
  lemma RollbackAgrees(rows: seq<Row>, end: nat, row: Row, path: Path, x: Index)
    requires Increasing(rows, end) && Agrees(rows, path, x)
    requires row.off == end && !row.live && IndexableAt(row.doc, path)
    requires Step(x, InsertOp(KeyAt(row.doc, path), end)).1 == Ok
    ensures Agrees(rows + [row], path, TakenBack(x, KeyAt(row.doc, path), end))
    ensures Exact(rows, path, Flat(x.tree)) ==>
              Exact(rows + [row], path, Flat(TakenBack(x, KeyAt(row.doc, path), end).tree))
  {
    hide Rank, Wf, Step, Indexable, KeyAt, Grounded, Covers, Exact, RunOrdered, Increasing, UpperBound, Kill;
    var key, s := KeyAt(row.doc, path), Flat(x.tree);
    var lit := row.(live := true);
    WfBounded(x);
    var rows1, x1 := rows + [lit], Step(x, InsertOp(key, end)).0;
    InsertAgrees(rows, end, lit, path, x);
    StillIncreasing(rows, end, lit, 1);
    assert Buried(rows1, |rows|) == rows + [row] && rows1[|rows|] == lit;
    DeleteAgrees(rows1, end + 1, |rows|, path, x1);
    if Exact(rows, path, s) {
      forall j | 0 <= j < |s| ensures s[j].offset < end {
        BelowEnd(rows, end, path, s, j);
      }
      RollbackFinds(x, key, end);
      var e := Entry(key, end, false);
      InsertedAt(s, e);
      InsertSorted(x, InsertOp(key, end));
      BuriedExact(rows1, end + 1, |rows|, path, Inserted(s, e), UpperBound(s, key), UpperBound(s, key));
    }
  }

  lemma StillIncreasing(rows: seq<Row>, end: nat, row: Row, size: nat)
    requires Increasing(rows, end) && row.off == end && size > 0
    ensures Increasing(rows + [row], end + size)
  {
  }
}
