/**
  * Finding documents (collection.py): the full scan, the search through an index, and when
  * the second gives what the first gives, in the same order.
  */
module Search {
  import opened Grammar
  import opened Codec
  import opened KeyOrder
  import opened TreeSearch
  import opened TreeRuns
  import opened IndexKeys
  import opened Query
  import opened Agreement
  import opened CollectionState
  import Tree

  // ---------------------------------------------------------------- the two searches

  /** Every live row the filter matches, in file order; None when the filter raises on one. */
  function ScanRows(rows: seq<Row>, filter: Filter): Option<seq<Row>> {
    if rows == [] then Some([])
    else if !rows[0].live then ScanRows(rows[1..], filter)
    else
      var m, rest := Matches(rows[0].doc, filter), ScanRows(rows[1..], filter);
      if m.None? || rest.None? then None else Some((if m.value then [rows[0]] else []) + rest.value)
  }

  function RowAt(rows: seq<Row>, off: nat): (r: Option<Row>)
    ensures r.Some? ==> r.value in rows && r.value.off == off
    ensures r.None? ==> forall i | 0 <= i < |rows| :: rows[i].off != off
  {
    if rows == [] then None else if rows[0].off == off then Some(rows[0]) else RowAt(rows[1..], off)
  }

  /** The rows at the offsets an index reports, those since tombstoned skipped, the filter applied again. */
  function SearchRows(rows: seq<Row>, offs: seq<nat>, filter: Filter): Option<seq<Row>> {
    if offs == [] then Some([])
    else
      var row := RowAt(rows, offs[0]);
      if row.None? || !row.value.live then SearchRows(rows, offs[1..], filter)
      else
        var m, rest := Matches(row.value.doc, filter), SearchRows(rows, offs[1..], filter);
        if m.None? || rest.None? then None else Some((if m.value then [row.value] else []) + rest.value)
  }

  function FirstPath(paths: seq<Path>, path: Path): (k: nat)
    ensures k <= |paths|
    ensures k < |paths| ==> paths[k] == path
  {
    if paths == [] || paths[0] == path then 0 else 1 + FirstPath(paths[1..], path)
  }

  /** _index_lookup_for_filter up to the lookup itself: the index to ask and the key to ask for. */
  function Route(paths: seq<Path>, filter: Filter): (r: Option<(nat, Key)>)
    requires forall i | 0 <= i < |filter| :: ValidValue(filter[i].cond.v)
    ensures r.Some? ==>
              && |filter| == 1 && r.value.0 < |paths| && paths[r.value.0] == filter[0].path
              && EncodeKey(filter[0].cond.v) == Keyed(r.value.1)
  {
    if |filter| != 1 || (filter[0].cond.Literal? && filter[0].cond.v.Document?) then None
    else
      var k, key := FirstPath(paths, filter[0].path), EncodeKey(filter[0].cond.v);
      if k == |paths| || !key.Keyed? then None else Some((k, key.key))
  }

  /** An index is asked exactly for one equality clause whose operand has a key: the first on that path. */
  lemma {:induction false} RouteIff(paths: seq<Path>, filter: Filter, k: nat, key: Key)
    requires forall i | 0 <= i < |filter| :: ValidValue(filter[i].cond.v)
    ensures Route(paths, filter) == Some((k, key)) <==>
              && |filter| == 1 && !(filter[0].cond.Literal? && filter[0].cond.v.Document?)
              && k < |paths| && paths[k] == filter[0].path && (forall j | 0 <= j < k :: paths[j] != filter[0].path)
              && EncodeKey(filter[0].cond.v) == Keyed(key)
    ensures Route(paths, filter).None? <==>
              || |filter| != 1 || (filter[0].cond.Literal? && filter[0].cond.v.Document?)
              || (forall j | 0 <= j < |paths| :: paths[j] != filter[0].path)
              || !EncodeKey(filter[0].cond.v).Keyed?
  {
    hide EncodeKey, ValidValue;
    if |filter| == 1 {
      FirstPathIs(paths, filter[0].path);
    }
  }

  lemma {:induction false} FirstPathIs(paths: seq<Path>, path: Path)
    ensures forall j | 0 <= j < FirstPath(paths, path) :: paths[j] != path
  {
    if paths == [] || paths[0] == path {
    } else {
      FirstPathIs(paths[1..], path);
      assert forall j | 0 < j < |paths| :: paths[j] == paths[1..][j - 1];
    }
  }

  /** __scan. */
  ghost function Find(st: State, filter: Filter): Option<seq<Row>>
    requires Inv(st) && forall i | 0 <= i < |filter| :: ValidValue(filter[i].cond.v)
  {
    var route := Route(st.paths, filter);
    if route.None? then ScanRows(st.rows, filter)
    else
      assert Agrees(st.rows, st.paths[route.value.0], st.indexes[route.value.0]);
      WfBounded(st.indexes[route.value.0]);
      SearchRows(st.rows, Lookup(st.indexes[route.value.0].tree, route.value.1), filter)
  }

  /** A search as its caller sees it: offsets with documents. */
  function Pairs(rows: seq<Row>): (r: seq<(nat, seq<Field>)>)
    ensures |r| == |rows|
    ensures forall i | 0 <= i < |rows| :: r[i] == (rows[i].off, rows[i].doc)
  {
    seq(|rows|, i requires 0 <= i < |rows| => (rows[i].off, rows[i].doc))
  }

  function Shown(found: Option<seq<Row>>): Option<seq<(nat, seq<Field>)>> {
    if found.None? then None else Some(Pairs(found.value))
  }

  /** Rows found so far, then the rest of a search. */
  function After(found: seq<Row>, rest: Option<seq<Row>>): Option<seq<Row>> {
    if rest.None? then None else Some(found + rest.value)
  }

  /** One row's share of a search. */
  function Turn(row: Row, filter: Filter, rest: Option<seq<Row>>): Option<seq<Row>> {
    var m := Matches(row.doc, filter);
    if m.None? then None else After(if m.value then [row] else [], rest)
  }

  lemma {:induction false} ScanSkips(rows: seq<Row>, i: nat, j: nat, filter: Filter)
    requires i <= j <= |rows| && forall k | i <= k < j :: !rows[k].live
    ensures ScanRows(rows[i..], filter) == ScanRows(rows[j..], filter)
    decreases j - i
  {
    if i == j {
    } else {
      assert rows[i..][1..] == rows[i + 1..];
      ScanSkips(rows, i + 1, j, filter);
    }
  }

  lemma {:induction false} ScanTurn(rows: seq<Row>, i: nat, filter: Filter)
    requires i < |rows| && rows[i].live
    ensures ScanRows(rows[i..], filter) == Turn(rows[i], filter, ScanRows(rows[i + 1..], filter))
  {
    hide Matches;
    assert rows[i..][1..] == rows[i + 1..];
  }

  lemma {:induction false} AfterTurn(found: seq<Row>, row: Row, filter: Filter, rest: Option<seq<Row>>)
    ensures Matches(row.doc, filter).Some? ==>
              After(found, Turn(row, filter, rest)) ==
              After(if Matches(row.doc, filter).value then found + [row] else found, rest)
    ensures Matches(row.doc, filter).None? ==> After(found, Turn(row, filter, rest)) == None
  {
    hide Matches;
    if Matches(row.doc, filter) == Some(true) && rest.Some? {
      assert (found + [row]) + rest.value == found + ([row] + rest.value);
    }
    if Matches(row.doc, filter) == Some(false) && rest.Some? {
      assert [] + rest.value == rest.value;
    }
  }

  lemma {:induction false} RowAtIs(rows: seq<Row>, end: nat, i: nat)
    requires Increasing(rows, end) && i < |rows|
    ensures RowAt(rows, rows[i].off) == Some(rows[i])
  {
    var r := RowAt(rows, rows[i].off);
    var j :| 0 <= j < |rows| && rows[j] == r.value;
    SameOffset(rows, end, i, j);
  }

  lemma {:induction false} SearchTurn(rows: seq<Row>, end: nat, offs: seq<nat>, k: nat, i: nat, filter: Filter)
    requires Increasing(rows, end) && k < |offs| && i < |rows| && rows[i].off == offs[k]
    ensures SearchRows(rows, offs[k..], filter) ==
            if rows[i].live then Turn(rows[i], filter, SearchRows(rows, offs[k + 1..], filter))
            else SearchRows(rows, offs[k + 1..], filter)
  {
    hide Matches, Increasing, RowAt;
    RowAtIs(rows, end, i);
    assert offs[k..][1..] == offs[k + 1..];
  }

  // ---------------------------------------------------------------- what the searches return

  predicate Picks(row: Row, filter: Filter) {
    row.live && Matches(row.doc, filter) == Some(true)
  }

  ghost predicate NeverRaises(rows: seq<Row>, filter: Filter) {
    forall i | 0 <= i < |rows| && rows[i].live :: Matches(rows[i].doc, filter).Some?
  }

  ghost predicate Ascending(offs: seq<nat>) {
    forall i, j | 0 <= i < j < |offs| :: offs[i] < offs[j]
  }

  ghost predicate Rising(rows: seq<Row>) {
    forall i, j | 0 <= i < j < |rows| :: rows[i].off < rows[j].off
  }

  lemma {:induction false} ScanRuns(rows: seq<Row>, filter: Filter)
    requires NeverRaises(rows, filter)
    ensures ScanRows(rows, filter).Some?
  {
    hide Matches;
    if rows == [] {
    } else {
      assert forall i | 0 <= i < |rows[1..]| :: rows[1..][i] == rows[i + 1];
      ScanRuns(rows[1..], filter);
    }
  }

  /** The scan raises exactly when the filter raises on some live document. */
  lemma {:induction false} ScanRaisesIff(rows: seq<Row>, filter: Filter)
    ensures ScanRows(rows, filter).None? <==> !NeverRaises(rows, filter)
  {
    hide Matches;
    if rows == [] {
    } else {
      assert forall i | 0 <= i < |rows[1..]| :: rows[1..][i] == rows[i + 1];
      ScanRaisesIff(rows[1..], filter);
      if !NeverRaises(rows[1..], filter) {
        var i :| 0 <= i < |rows[1..]| && rows[1..][i].live && Matches(rows[1..][i].doc, filter).None?;
        assert Matches(rows[i + 1].doc, filter).None?;
      }
    }
  }

  lemma {:induction false} SearchRuns(rows: seq<Row>, offs: seq<nat>, filter: Filter)
    requires NeverRaises(rows, filter)
    ensures SearchRows(rows, offs, filter).Some?
  {
    hide Matches;
    if offs == [] {
    } else {
      SearchRuns(rows, offs[1..], filter);
    }
  }

  lemma {:induction false} ScanReturns(rows: seq<Row>, filter: Filter)
    requires ScanRows(rows, filter).Some? && Rising(rows)
    ensures forall r :: r in ScanRows(rows, filter).value <==> r in rows && Picks(r, filter)
    ensures Rising(ScanRows(rows, filter).value)
  {
    hide Matches;
    if rows == [] {
    } else {
      assert forall i | 0 <= i < |rows[1..]| :: rows[1..][i] == rows[i + 1];
      ScanReturns(rows[1..], filter);
      assert forall r :: r in rows <==> r == rows[0] || r in rows[1..];
      var rest := ScanRows(rows[1..], filter).value;
      forall j | 0 <= j < |rest| ensures rows[0].off < rest[j].off {
        assert rest[j] in rows[1..];
      }
    }
  }

  lemma {:induction false} SearchReturns(rows: seq<Row>, offs: seq<nat>, filter: Filter)
    requires SearchRows(rows, offs, filter).Some? && Rising(rows) && Ascending(offs)
    ensures forall r :: r in SearchRows(rows, offs, filter).value <==> r in rows && r.off in offs && Picks(r, filter)
    ensures Rising(SearchRows(rows, offs, filter).value)
  {
    hide Matches;
    if offs == [] {
    } else {
      assert forall i | 0 <= i < |offs[1..]| :: offs[1..][i] == offs[i + 1];
      SearchReturns(rows, offs[1..], filter);
      assert forall o :: o in offs <==> o == offs[0] || o in offs[1..];
    }
  }

  /** Rising lists with the same members are the same list. */
  lemma {:induction false} RisingEqual(a: seq<Row>, b: seq<Row>)
    requires Rising(a) && Rising(b) && forall r :: r in a <==> r in b
    ensures a == b
  {
    hide Rising;
    HasMember(a);
    HasMember(b);
    if a == [] {
    } else {
      SameHead(a, b);
      TailMembers(a, b);
      RisingEqual(a[1..], b[1..]);
      assert a == [a[0]] + a[1..] && b == [b[0]] + b[1..];
    }
  }

  lemma HasMember(a: seq<Row>)
    ensures a != [] ==> exists r :: r in a
  {
    if a != [] {
      assert a[0] in a;
    }
  }

  lemma SameHead(a: seq<Row>, b: seq<Row>)
    requires Rising(a) && Rising(b) && a != [] && b != [] && forall r :: r in a <==> r in b
    ensures a[0] == b[0]
  {
    assert a[0] in b && b[0] in a;
  }

  lemma TailMembers(a: seq<Row>, b: seq<Row>)
    requires Rising(a) && Rising(b) && a != [] && b != [] && a[0] == b[0]
    requires forall r :: r in a <==> r in b
    ensures Rising(a[1..]) && Rising(b[1..])
    ensures forall r :: r in a[1..] <==> r in b[1..]
  {
    forall r ensures r in a[1..] <==> r in b[1..] {
      TailMember(a, r);
      TailMember(b, r);
    }
  }

  lemma TailMember(a: seq<Row>, r: Row)
    requires Rising(a) && a != []
    ensures r in a[1..] <==> r in a && r != a[0]
  {
    if r in a && r != a[0] {
      var i :| 0 <= i < |a| && a[i] == r;
      assert a[1..][i - 1] == r;
    }
  }

  // ---------------------------------------------------------------- the offsets of a lookup

  lemma {:induction false} LiveOffsetsMembers(s: seq<Tree.Entry>, key: Key, off: nat)
    ensures off in LiveOffsets(s, key) <==> exists j :: 0 <= j < |s| && LiveHit(s[j], key) && s[j].offset == off
  {
    hide Rank, LiveHit;
    if s == [] {
    } else {
      LiveOffsetsMembers(s[1..], key, off);
      if j :| 0 <= j < |s[1..]| && LiveHit(s[1..][j], key) && s[1..][j].offset == off {
        assert s[j + 1] == s[1..][j];
      }
      if j :| 0 <= j < |s| && LiveHit(s[j], key) && s[j].offset == off {
        assert j > 0 ==> s[1..][j - 1] == s[j];
      }
    }
  }

  lemma {:induction false} LiveOffsetsRise(s: seq<Tree.Entry>, key: Key)
    requires RunOrdered(s)
    ensures Ascending(LiveOffsets(s, key))
  {
    hide Rank, Ascending;
    if s == [] {
      NoneAscend();
    } else {
      assert forall j | 0 <= j < |s[1..]| :: s[1..][j] == s[j + 1];
      LiveOffsetsRise(s[1..], key);
      if LiveHit(s[0], key) {
        RestIsAbove(s, key);
        ConsRises(s[0].offset, LiveOffsets(s[1..], key));
      } else {
        assert [] + LiveOffsets(s[1..], key) == LiveOffsets(s[1..], key);
      }
    }
  }

  lemma NoneAscend()
    ensures Ascending([])
  {
  }

  lemma ConsRises(x: nat, rest: seq<nat>)
    requires Ascending(rest) && forall j | 0 <= j < |rest| :: x < rest[j]
    ensures Ascending([x] + rest)
  {
  }

  lemma RestIsAbove(s: seq<Tree.Entry>, key: Key)
    requires RunOrdered(s) && s != [] && LiveHit(s[0], key)
    ensures var rest := LiveOffsets(s[1..], key); forall j | 0 <= j < |rest| :: s[0].offset < rest[j]
  {
    hide Rank, LiveOffsets;
    var rest := LiveOffsets(s[1..], key);
    forall j | 0 <= j < |rest| ensures s[0].offset < rest[j] {
      LiveOffsetsMembers(s[1..], key, rest[j]);
      var i :| 0 <= i < |s[1..]| && LiveHit(s[1..][i], key) && s[1..][i].offset == rest[j];
      assert s[1..][i] == s[i + 1];
    }
  }

  /**
    * A live row is among the offsets a lookup reports exactly when its key is the one looked
    * up and its entry does not lie before the descended leaf.
    */
  lemma LookedUp(rows: seq<Row>, end: nat, path: Path, x: Index, key: Key, i: nat)
    requires Increasing(rows, end) && Agrees(rows, path, x) && Tree.Bounded(x.tree)
    requires i < |rows| && rows[i].live && IndexableAt(rows[i].doc, path)
    ensures rows[i].off in Lookup(x.tree, key) <==>
              Rank(KeyAt(rows[i].doc, path)) == Rank(key) && !PairBefore(x.tree, key, rows[i].off)
  {
    hide Rank, Indexable, KeyAt, Increasing, LiveOffsets, Wf, Tree.Bounded, Tree.Flat, RunOrdered, Grounded, LeafStart;
    var s := Tree.Flat(x.tree);
    var at := OnlyEntry(rows, end, path, x, i);
    SuffixHas(s, LeafStart(x.tree, key), key, at);
    LiveOffsetsMembers(s[LeafStart(x.tree, key)..], key, rows[i].off);
  }

  /** A live row's one entry, which is live. */
  lemma OnlyEntry(rows: seq<Row>, end: nat, path: Path, x: Index, i: nat) returns (at: nat)
    requires Increasing(rows, end) && Agrees(rows, path, x) && i < |rows| && rows[i].live
    ensures var s := Tree.Flat(x.tree);
            && at < |s| && !s[at].dead && Points(s[at], rows[i], path)
            && forall j | 0 <= j < |s| && s[j].offset == rows[i].off :: j == at
  {
    hide Rank, Indexable, KeyAt, Increasing, Wf, Tree.Flat, RunOrdered, Grounded;
    var s := Tree.Flat(x.tree);
    assert Covered(rows[i], path, s);
    at :| 0 <= at < |s| && !s[at].dead && Points(s[at], rows[i], path);
    forall j | 0 <= j < |s| && s[j].offset == rows[i].off ensures j == at {
      EntryOfRow(rows, end, path, s, i, j);
      OneEntryPerRow(rows[i], path, s, j, at);
    }
  }

  /** Of an offset that only entry `at` has: what a suffix holds of it. */
  lemma SuffixHas(s: seq<Tree.Entry>, a: nat, key: Key, at: nat)
    requires a <= |s| && at < |s| && !s[at].dead
    requires forall j | 0 <= j < |s| && s[j].offset == s[at].offset :: j == at
    ensures (exists j :: 0 <= j < |s[a..]| && LiveHit(s[a..][j], key) && s[a..][j].offset == s[at].offset)
            <==> at >= a && Hit(s[at], key)
    ensures (exists j :: 0 <= j < a && Hit(s[j], key) && s[j].offset == s[at].offset) <==> at < a && Hit(s[at], key)
  {
    hide Rank;
    assert forall j | 0 <= j < |s[a..]| :: s[a..][j] == s[a + j];
    if at >= a {
      assert s[a..][at - a] == s[at];
    }
  }

  /** An entry with a row's offset is that row's. */
  lemma EntryOfRow(rows: seq<Row>, end: nat, path: Path, s: seq<Tree.Entry>, i: nat, j: nat)
    requires Increasing(rows, end) && Grounded(rows, path, s) && i < |rows| && j < |s| && s[j].offset == rows[i].off
    ensures Points(s[j], rows[i], path)
  {
    hide Rank, Indexable, KeyAt, Increasing;
    assert PointsSome(s[j], rows, path);
    var k :| 0 <= k < |rows| && Points(s[j], rows[k], path);
    SameOffset(rows, end, i, k);
  }

  lemma SameOffset(rows: seq<Row>, end: nat, i: nat, k: nat)
    requires Increasing(rows, end) && i < |rows| && k < |rows| && rows[i].off == rows[k].off
    ensures i == k
  {
  }

  /** Every offset a lookup reports is a row's. */
  lemma RowOfLookup(rows: seq<Row>, path: Path, x: Index, key: Key, off: nat) returns (i: nat)
    requires Agrees(rows, path, x) && Tree.Bounded(x.tree) && off in Lookup(x.tree, key)
    ensures i < |rows| && rows[i].off == off
  {
    hide Rank, Wf, Indexable, KeyAt;
    var s, a := Tree.Flat(x.tree), LeafStart(x.tree, key);
    LiveOffsetsMembers(s[a..], key, off);
    var j :| 0 <= j < |s[a..]| && LiveHit(s[a..][j], key) && s[a..][j].offset == off;
    assert s[a..][j] == s[a + j] && PointsSome(s[a + j], rows, path);
    i :| 0 <= i < |rows| && Points(s[a + j], rows[i], path);
  }

  /** Every offset is some row's. */
  ghost predicate AllRows(rows: seq<Row>, offs: seq<nat>) {
    forall k | 0 <= k < |offs| :: OffsetOf(rows, offs[k])
  }

  ghost predicate OffsetOf(rows: seq<Row>, off: nat) {
    exists i :: 0 <= i < |rows| && rows[i].off == off
  }

  lemma LookupRows(rows: seq<Row>, path: Path, x: Index, key: Key)
    requires Agrees(rows, path, x) && Tree.Bounded(x.tree)
    ensures AllRows(rows, Lookup(x.tree, key))
  {
    hide Agrees, Lookup;
    var offs := Lookup(x.tree, key);
    forall k | 0 <= k < |offs| ensures OffsetOf(rows, offs[k]) {
      var i := RowOfLookup(rows, path, x, key, offs[k]);
      assert rows[i].off == offs[k];
    }
  }

  // ---------------------------------------------------------------- the two agree

  /** No live document has a list on the path. */
  ghost predicate NoLists(rows: seq<Row>, path: Path) {
    forall i | 0 <= i < |rows| && rows[i].live :: ListFree(Document(rows[i].doc), path)
  }

  /** No live document holds a value equal to `v` under the other of int and float. */
  ghost predicate NoCrossTyped(rows: seq<Row>, path: Path, v: Value) {
    forall i | 0 <= i < |rows| && rows[i].live :: !CrossTyped(IndexValue(rows[i].doc, path), v)
  }

  /** No matching row has its entry before the leaf the key descends to. */
  ghost predicate NothingHidden(rows: seq<Row>, filter: Filter, t: Tree.Tree, key: Key)
    requires Tree.Bounded(t)
  {
    forall i | 0 <= i < |rows| && Picks(rows[i], filter) :: !PairBefore(t, key, rows[i].off)
  }

  /**
    * Without lists on the path, searching through an index, unique or not, returns the rows of
    * the full scan, in its order, exactly when no live document holds the operand's number
    * under the other numeric type and no matching row's entry lies before the descended leaf.
    */
  lemma IndexSearchIsScan(st: State, k: nat, cond: Condition)
    requires Inv(st) && k < |st.paths| && Indexable(cond.v) && NoLists(st.rows, st.paths[k])
    ensures Tree.Bounded(st.indexes[k].tree)
    ensures var filter, t, key := [Clause(st.paths[k], cond)], st.indexes[k].tree, EncodeKey(cond.v).key;
            SearchRows(st.rows, Lookup(t, key), filter) == ScanRows(st.rows, filter)
            <==> NoCrossTyped(st.rows, st.paths[k], cond.v) && NothingHidden(st.rows, filter, t, key)
  {
    hide Rank, EncodeKey, Wf, Lookup, Grounded, Covers, RunOrdered, Matches, KeyAt, CrossTyped, Tree.Flat, PairBefore;
    hide SearchRows, ScanRows, Ascending;
    var path, x, key := st.paths[k], st.indexes[k], EncodeKey(cond.v).key;
    assert Agrees(st.rows, path, x);
    WfBounded(x);
    var s, filter, offs := Tree.Flat(x.tree), [Clause(path, cond)], Lookup(x.tree, key);
    CoveredIndexable(st.rows, path, s);
    forall i | 0 <= i < |st.rows| && st.rows[i].live
      ensures Matches(st.rows[i].doc, filter).Some?
      ensures Picks(st.rows[i], filter) ==>
                (st.rows[i].off in offs <==>
                 !CrossTyped(IndexValue(st.rows[i].doc, path), cond.v) && !PairBefore(x.tree, key, st.rows[i].off))
      ensures CrossTyped(IndexValue(st.rows[i].doc, path), cond.v) ==> Picks(st.rows[i], filter)
    {
      MatchIsKeyMatch(st.rows[i].doc, path, cond);
      LookedUp(st.rows, st.end, path, x, key, i);
      CrossMatches(IndexValue(st.rows[i].doc, path), cond.v);
    }
    LookupAscends(x, key);
    ScanRuns(st.rows, filter);
    SearchRuns(st.rows, offs, filter);
    ScanReturns(st.rows, filter);
    SearchReturns(st.rows, offs, filter);
    var a, b := SearchRows(st.rows, offs, filter).value, ScanRows(st.rows, filter).value;
    if forall i | 0 <= i < |st.rows| && Picks(st.rows[i], filter) :: st.rows[i].off in offs {
      RisingEqual(a, b);
    } else {
      var i :| 0 <= i < |st.rows| && Picks(st.rows[i], filter) && st.rows[i].off !in offs;
      assert st.rows[i] in b && st.rows[i] !in a;
    }
  }

  lemma CrossMatches(stored: Value, operand: Value)
    ensures CrossTyped(stored, operand) ==> ValuesEqual(stored, operand)
  {
  }

  /** The lookup is complete on a unique index, and on any index where no separator equals the key. */
  lemma {:induction false} LookupComplete(x: Index, key: Key)
    requires Wf(x) && Tree.Bounded(x.tree) && (x.unique || NoSeparatorEquals(x.tree, key))
    ensures Lookup(x.tree, key) == LiveOffsets(Tree.Flat(x.tree), key)
  {
    hide Rank, Tree.Times, Tree.Sorted, LastLive, Lookup, LiveOffsets;
    if x.unique {
      UniqueLookupExact(x.tree, Height(x.tree), key);
    } else {
      LookupCompleteWithoutEqualSeparator(x.tree, Height(x.tree), key);
    }
  }

  /** Nothing is hidden in a unique index, nor in any index where no separator equals the key. */
  lemma HidesNothing(rows: seq<Row>, end: nat, path: Path, x: Index, filter: Filter, key: Key)
    requires Increasing(rows, end) && Agrees(rows, path, x) && Tree.Bounded(x.tree)
    requires x.unique || NoSeparatorEquals(x.tree, key)
    ensures NothingHidden(rows, filter, x.tree, key)
  {
    hide Rank, Wf, Tree.Bounded, RunOrdered, Grounded, Covers, PairBefore, NoSeparatorEquals, Matches, Increasing;
    forall i | 0 <= i < |rows| && Picks(rows[i], filter) ensures !PairBefore(x.tree, key, rows[i].off) {
      if x.unique {
        UniqueHides(rows, end, path, x, key, i);
      } else {
        SeparatorHides(x, key, rows[i].off);
      }
    }
  }

  lemma UniqueHides(rows: seq<Row>, end: nat, path: Path, x: Index, key: Key, i: nat)
    requires Increasing(rows, end) && Agrees(rows, path, x) && Tree.Bounded(x.tree) && x.unique
    requires i < |rows| && rows[i].live
    ensures !PairBefore(x.tree, key, rows[i].off)
  {
    hide Rank, Indexable, KeyAt, Increasing, Wf, Tree.Bounded, RunOrdered, Grounded;
    var s := Tree.Flat(x.tree);
    var at := OnlyEntry(rows, end, path, x, i);
    if j :| 0 <= j < LeafStart(x.tree, key) && Hit(s[j], key) && s[j].offset == rows[i].off {
      UniqueReaches(x, at, key);
    }
  }

  lemma SeparatorHides(x: Index, key: Key, off: nat)
    requires Wf(x) && Tree.Bounded(x.tree) && NoSeparatorEquals(x.tree, key)
    ensures !PairBefore(x.tree, key, off)
  {
    hide Rank, Tree.Times, Tree.Sorted, LastLive, NoSeparatorEquals;
    NothingBeforeLeaf(x.tree, Height(x.tree), true, key);
  }

  /** An index has at most one entry per record, dead ones included, so with 180 records or fewer it is one leaf. */
  lemma FewRecords(rows: seq<Row>, end: nat, path: Path, x: Index, key: Key)
    requires Increasing(rows, end) && Agrees(rows, path, x)
    ensures |Tree.Flat(x.tree)| <= |rows|
    ensures |rows| <= 180 ==> x.tree.Leaf? && Tree.Bounded(x.tree) && NoSeparatorEquals(x.tree, key)
  {
    hide Rank, Tree.Times, Tree.Sorted, TreeSearch.LastLive, Tree.Flat, Grounded, RunOrdered, Increasing, Covers;
    var s := Tree.Flat(x.tree);
    var offs := seq(|s|, j requires 0 <= j < |s| => s[j].offset);
    forall j | 0 <= j < |s| ensures offs[j] in RowOffsets(rows) {
      EntryHasRow(rows, path, s, j);
    }
    forall i, j | 0 <= i < j < |s| ensures offs[i] != offs[j] {
      OffsetsDiffer(rows, end, path, s, i, j);
    }
    DistinctFit(offs, RowOffsets(rows));
    RowOffsetsFew(rows);
  }

  function RowOffsets(rows: seq<Row>): set<nat> {
    set i | 0 <= i < |rows| :: rows[i].off
  }

  lemma {:induction false} RowOffsetsFew(rows: seq<Row>)
    ensures |RowOffsets(rows)| <= |rows|
  {
    if rows == [] {
    } else {
      var n := |rows| - 1;
      RowOffsetsFew(rows[..n]);
      assert RowOffsets(rows) == RowOffsets(rows[..n]) + {rows[n].off};
    }
  }

  lemma {:induction false} DistinctFit(s: seq<nat>, a: set<nat>)
    requires forall i, j | 0 <= i < j < |s| :: s[i] != s[j]
    requires forall i | 0 <= i < |s| :: s[i] in a
    ensures |s| <= |a|
  {
    if s == [] {
    } else {
      DistinctFit(s[1..], a - {s[0]});
    }
  }

  lemma EntryHasRow(rows: seq<Row>, path: Path, s: seq<Tree.Entry>, j: nat)
    requires Grounded(rows, path, s) && j < |s|
    ensures s[j].offset in RowOffsets(rows)
  {
    hide Rank, Indexable, KeyAt;
    assert PointsSome(s[j], rows, path);
  }

  lemma OffsetsDiffer(rows: seq<Row>, end: nat, path: Path, s: seq<Tree.Entry>, i: nat, j: nat)
    requires Increasing(rows, end) && Grounded(rows, path, s) && RunOrdered(s) && i < j < |s|
    ensures s[i].offset != s[j].offset
  {
    hide Rank, Indexable, KeyAt, Increasing, RunOrdered, Points;
    assert PointsSome(s[i], rows, path) && PointsSome(s[j], rows, path);
    var a :| 0 <= a < |rows| && Points(s[i], rows[a], path);
    var b :| 0 <= b < |rows| && Points(s[j], rows[b], path);
    if s[i].offset == s[j].offset {
      PointsHere(s[i], rows[a], path);
      PointsHere(s[j], rows[b], path);
      SameOffset(rows, end, a, b);
      OneEntryPerRow(rows[a], path, s, i, j);
    }
  }

  lemma PointsHere(e: Tree.Entry, row: Row, path: Path)
    requires Points(e, row, path)
    ensures e.offset == row.off
  {
    hide Rank, Indexable, KeyAt;
  }

  /**
    * find({path: v}) and find({path: {"$eq": v}}) through an index are the full scan if the index
    * is unique, or no separator equals the key, or the data file holds at most 180 records.
    */
  lemma FindIsScan(st: State, k: nat, cond: Condition)
    requires Inv(st) && k < |st.paths| && FirstPath(st.paths, st.paths[k]) == k && Indexable(cond.v)
    requires NoLists(st.rows, st.paths[k]) && NoCrossTyped(st.rows, st.paths[k], cond.v)
    ensures Tree.Bounded(st.indexes[k].tree)
    ensures |st.rows| <= 180 || st.indexes[k].unique
            || NoSeparatorEquals(st.indexes[k].tree, EncodeKey(cond.v).key) ==>
              Find(st, [Clause(st.paths[k], cond)]) == ScanRows(st.rows, [Clause(st.paths[k], cond)])
  {
    hide Rank, Wf, Lookup, Grounded, Covers, RunOrdered, KeyAt, CrossTyped, SearchRows, ScanRows, FirstPath, NoLists;
    hide NoCrossTyped, Increasing, NothingHidden, NoSeparatorEquals, Tree.Bounded;
    var x, key := st.indexes[k], EncodeKey(cond.v).key;
    assert Agrees(st.rows, st.paths[k], x);
    WfBounded(x);
    IndexSearchIsScan(st, k, cond);
    FewRecords(st.rows, st.end, st.paths[k], x, key);
    if |st.rows| <= Tree.LEAF_MAX || x.unique || NoSeparatorEquals(x.tree, key) {
      HidesNothing(st.rows, st.end, st.paths[k], x, [Clause(st.paths[k], cond)], key);
    }
  }

  /** Whatever path it takes, a search returns matching live rows in rising order. */
  lemma FindReturns(st: State, filter: Filter)
    requires Inv(st) && forall i | 0 <= i < |filter| :: ValidValue(filter[i].cond.v)
    requires Find(st, filter).Some?
    ensures forall r | r in Find(st, filter).value :: r in st.rows && Picks(r, filter)
    ensures Rising(Find(st, filter).value)
    ensures var route := Route(st.paths, filter);
            route.Some? ==>
              && Tree.Bounded(st.indexes[route.value.0].tree)
              && forall r :: r in Find(st, filter).value <==>
                    r in st.rows && Picks(r, filter)
                    && r.off in Lookup(st.indexes[route.value.0].tree, route.value.1)
  {
    hide Rank, EncodeKey, Wf, LiveOffsets, Grounded, Covers, Matches, SearchRows, ScanRows, Picks, Ascending;
    var route := Route(st.paths, filter);
    if route.None? {
      ScanReturns(st.rows, filter);
    } else {
      var x := st.indexes[route.value.0];
      assert Agrees(st.rows, st.paths[route.value.0], x);
      WfBounded(x);
      LookupAscends(x, route.value.1);
      SearchReturns(st.rows, Lookup(x.tree, route.value.1), filter);
    }
  }

  lemma LookupAscends(x: Index, key: Key)
    requires Tree.Bounded(x.tree) && RunOrdered(Tree.Flat(x.tree))
    ensures Ascending(Lookup(x.tree, key))
  {
    hide Rank, Ascending, LiveOffsets, RunOrdered, LeafStart, Tree.Flat, Tree.Bounded;
    var s, a := Tree.Flat(x.tree), LeafStart(x.tree, key);
    SuffixOrdered(s, a);
    LiveOffsetsRise(s[a..], key);
  }

  lemma SuffixOrdered(s: seq<Tree.Entry>, a: nat)
    requires RunOrdered(s) && a <= |s|
    ensures RunOrdered(s[a..])
  {
    hide Rank;
    assert forall j | 0 <= j < |s[a..]| :: s[a..][j] == s[a + j];
  }

  /**
    * After an insertion that raised at one index the document is live and the full scan sees it,
    * but no lookup in that index or a later one reports it, whatever the key.
    */
  lemma HalfInsertedMissed(st: State, doc: seq<Field>, size: nat, k: nat, key: Key)
    requires Inv(st) && Raises(st, doc) && FirstHalt(st, doc) <= k < |st.paths|
    ensures var r := Add(st, doc, size);
            && |r.rows| == |st.rows| + 1 && r.rows[|st.rows|] == Row(st.end, true, doc)
            && Tree.Bounded(r.indexes[k].tree) && st.end !in Lookup(r.indexes[k].tree, key)
  {
    hide Rank, Wf, Raises, Add, FirstHalt, Increasing, Grounded, Covers, RunOrdered;
    RaisedNotCovered(st, doc, size, k);
    assert Agrees(st.rows, st.paths[k], st.indexes[k]);
    WfBounded(st.indexes[k]);
    var s, a := Tree.Flat(st.indexes[k].tree), LeafStart(st.indexes[k].tree, key);
    LiveOffsetsMembers(s[a..], key, st.end);
    assert forall j | 0 <= j < |s[a..]| :: s[a..][j] == s[a + j];
  }
}
