/**
  * The update operators $set, $unset and $inc (query.py): writes through dotted paths, what
  * they leave alone, and what follows for `_id` and for unique indexes.
  *
  * A document is a value here, so the nested dictionaries that the code walks through and
  * writes in place are rebuilt along the path.
  */
module Updates {
  import opened Bytes
  import opened Grammar
  import opened Codec
  import opened IndexKeys
  import opened Query
  import opened Agreement
  import opened CollectionState
  import opened CollectionRuns
  import TreeRuns
  import Tree
  import Utf8

  /** A dotted path has a segment at least. */
  type Target = p: Path | p != [] witness [[]]

  datatype Update = Update(sets: seq<(Target, Value)>, unsets: seq<Target>, incs: seq<(Target, Value)>)

  /** "_id" */
  const ID: seq<byte> := [95, 105, 100]

  // ---------------------------------------------------------------- writing through a path

  /** The dictionary under a key, or a new one if there is none. */
  function Under(fs: seq<Field>, key: seq<byte>): seq<Field> {
    var v := Get(fs, key);
    if v.Some? && v.value.Document? then v.value.fields else []
  }

  /** _set_path: whatever is in the way and is no dictionary is replaced by one. */
  function SetPath(fs: seq<Field>, p: Target, v: Value): seq<Field>
    decreases p
  {
    if |p| == 1 then SetField(fs, p[0], v)
    else SetField(fs, p[0], Document(SetPath(Under(fs, p[0]), p[1..], v)))
  }

  function RemoveField(fs: seq<Field>, key: seq<byte>): seq<Field> {
    if fs == [] then []
    else if fs[0].key == key then RemoveField(fs[1..], key)
    else [fs[0]] + RemoveField(fs[1..], key)
  }

  /** _unset_path: a path that does not exist is left alone. */
  function UnsetPath(fs: seq<Field>, p: Target): seq<Field>
    decreases p
  {
    if |p| == 1 then RemoveField(fs, p[0])
    else
      var v := Get(fs, p[0]);
      if v.Some? && v.value.Document? then SetField(fs, p[0], Document(UnsetPath(v.value.fields, p[1..]))) else fs
  }

  lemma {:induction false} GetRemove(fs: seq<Field>, key: seq<byte>, other: seq<byte>)
    ensures Get(RemoveField(fs, key), other) == if other == key then None else Get(fs, other)
  {
    if fs == [] {
    } else {
      GetRemove(fs[1..], key, other);
      assert ([fs[0]] + RemoveField(fs[1..], key))[1..] == RemoveField(fs[1..], key);
    }
  }

  lemma {:induction false} RemoveAbsent(fs: seq<Field>, key: seq<byte>)
    requires forall j | 0 <= j < |fs| :: fs[j].key != key
    ensures RemoveField(fs, key) == fs
  {
    if fs == [] {
    } else {
      RemoveAbsent(fs[1..], key);
      assert fs == [fs[0]] + fs[1..];
    }
  }

  /** A field is taken out of its place; the others keep their order. */
  lemma {:induction false} RemovedPlace(fs: seq<Field>, key: seq<byte>, i: nat)
    requires i < |fs| && fs[i].key == key && forall j | 0 <= j < |fs| && j != i :: fs[j].key != key
    ensures RemoveField(fs, key) == fs[..i] + fs[i + 1..]
  {
    var rest := fs[1..];
    assert forall j | 0 <= j < |rest| :: rest[j] == fs[j + 1];
    if i == 0 {
      RemoveAbsent(rest, key);
    } else {
      RemovedPlace(rest, key, i - 1);
      assert fs[..i] == [fs[0]] + rest[..i - 1] && fs[i + 1..] == rest[i..];
    }
  }

  /** One path leads through the other's place. */
  predicate Related(p: Path, q: Path) {
    p <= q || q <= p
  }

  lemma RelatedRest(p: Target, q: Target)
    ensures Related(p, q) <==> p[0] == q[0] && Related(p[1..], q[1..])
  {
    assert p == [p[0]] + p[1..] && q == [q[0]] + q[1..];
  }

  /** What was set is there. */
  lemma {:induction false} SetPathAt(fs: seq<Field>, p: Target, v: Value)
    ensures DirectValue(Document(SetPath(fs, p, v)), p) == Some(v)
    decreases p
  {
    if |p| == 1 {
      GetSet(fs, p[0], v, p[0]);
      assert p[1..] == [];
    } else {
      var sub := SetPath(Under(fs, p[0]), p[1..], v);
      GetSet(fs, p[0], Document(sub), p[0]);
      SetPathAt(Under(fs, p[0]), p[1..], v);
    }
  }

  /** A path that is not related to it still leads to what it led to. */
  lemma {:induction false} SetPathElsewhere(fs: seq<Field>, p: Target, v: Value, q: Target)
    requires !Related(p, q)
    ensures DirectValue(Document(SetPath(fs, p, v)), q) == DirectValue(Document(fs), q)
    decreases p
  {
    RelatedRest(p, q);
    if |p| == 1 {
      GetSet(fs, p[0], v, q[0]);
    } else {
      var sub := SetPath(Under(fs, p[0]), p[1..], v);
      GetSet(fs, p[0], Document(sub), q[0]);
      if p[0] == q[0] {
        SetPathElsewhere(Under(fs, p[0]), p[1..], v, q[1..]);
        NotUnder(fs, q);
      }
    }
  }

  /** A longer path goes on from what is under its first segment. */
  lemma NotUnder(fs: seq<Field>, q: Target)
    requires |q| > 1
    ensures DirectValue(Document(fs), q) == DirectValue(Document(Under(fs, q[0])), q[1..])
  {
  }

  /** What was removed is gone. */
  lemma {:induction false} UnsetPathAt(fs: seq<Field>, p: Target)
    ensures DirectValue(Document(UnsetPath(fs, p)), p) == None
    decreases p
  {
    if |p| == 1 {
      GetRemove(fs, p[0], p[0]);
    } else {
      var v := Get(fs, p[0]);
      if v.Some? && v.value.Document? {
        GetSet(fs, p[0], Document(UnsetPath(v.value.fields, p[1..])), p[0]);
        UnsetPathAt(v.value.fields, p[1..]);
      }
    }
  }

  lemma {:induction false} UnsetPathElsewhere(fs: seq<Field>, p: Target, q: Target)
    requires !Related(p, q)
    ensures DirectValue(Document(UnsetPath(fs, p)), q) == DirectValue(Document(fs), q)
    decreases p
  {
    RelatedRest(p, q);
    if |p| == 1 {
      GetRemove(fs, p[0], q[0]);
    } else {
      var v := Get(fs, p[0]);
      if v.Some? && v.value.Document? {
        GetSet(fs, p[0], Document(UnsetPath(v.value.fields, p[1..])), q[0]);
        if p[0] == q[0] {
          UnsetPathElsewhere(v.value.fields, p[1..], q[1..]);
        }
      }
    }
  }

  lemma {:induction false} SetSame(fs: seq<Field>, key: seq<byte>, v: Value)
    ensures SetField(fs, key, v) == fs <==> Get(fs, key) == Some(v)
  {
    if fs == [] {
    } else if fs[0].key == key {
      assert fs == [fs[0]] + fs[1..];
      assert ([Field(key, v)] + fs[1..])[0] == Field(key, v);
    } else {
      SetSame(fs[1..], key, v);
      assert fs == [fs[0]] + fs[1..];
      assert ([fs[0]] + SetField(fs[1..], key, v))[1..] == SetField(fs[1..], key, v);
    }
  }

  /** Setting a path changes the document unless the value is there already. */
  lemma {:induction false} SetPathSame(fs: seq<Field>, p: Target, v: Value)
    ensures SetPath(fs, p, v) == fs <==> DirectValue(Document(fs), p) == Some(v)
    decreases p
  {
    if |p| == 1 {
      SetSame(fs, p[0], v);
      assert p[1..] == [];
    } else {
      var sub := SetPath(Under(fs, p[0]), p[1..], v);
      SetSame(fs, p[0], Document(sub));
      SetPathSame(Under(fs, p[0]), p[1..], v);
      NotUnder(fs, p);
    }
  }

  // ---------------------------------------------------------------- the three operators

  /** Python's `current + delta` where one of them is a float: eight bytes, or an exception. */
  type FloatSum = f: (Value, Value) -> Option<seq<byte>> | forall a, b :: f(a, b).Some? ==> |f(a, b).value| == 8
    witness (a, b) => None

  function Sum(a: Value, b: Value, plus: FloatSum): Option<Value> {
    if a.Int? && b.Int? then Some(Int(a.i + b.i))
    else
      var r := plus(a, b);
      if r.None? then None else Some(Double(r.value))
  }

  /** One item of $set; None when it raises. */
  function SetOne(fs: seq<Field>, item: (Target, Value), id: Option<Value>): Option<seq<Field>> {
    if item.0 == [ID] && id.Some? && !ValuesEqual(item.1, id.value) then None else Some(SetPath(fs, item.0, item.1))
  }

  function UnsetOne(fs: seq<Field>, p: Target): Option<seq<Field>> {
    if p == [ID] then None else Some(UnsetPath(fs, p))
  }

  function IncOne(fs: seq<Field>, item: (Target, Value), plus: FloatSum): Option<seq<Field>> {
    if item.0 == [ID] || !(item.1.Int? || item.1.Double?) then None
    else
      var v := DirectValue(Document(fs), item.0);
      var current := if v.None? then Int(0) else v.value;
      if !(current.Int? || current.Double?) then None
      else
        var sum := Sum(current, item.1, plus);
        if sum.None? then None else Some(SetPath(fs, item.0, sum.value))
  }

  function Sets(fs: seq<Field>, items: seq<(Target, Value)>, id: Option<Value>): Option<seq<Field>>
    decreases items
  {
    if items == [] then Some(fs)
    else
      var r := SetOne(fs, items[0], id);
      if r.None? then None else Sets(r.value, items[1..], id)
  }

  function Unsets(fs: seq<Field>, paths: seq<Target>): Option<seq<Field>>
    decreases paths
  {
    if paths == [] then Some(fs)
    else
      var r := UnsetOne(fs, paths[0]);
      if r.None? then None else Unsets(r.value, paths[1..])
  }

  function Incs(fs: seq<Field>, items: seq<(Target, Value)>, plus: FloatSum): Option<seq<Field>>
    decreases items
  {
    if items == [] then Some(fs)
    else
      var r := IncOne(fs, items[0], plus);
      if r.None? then None else Incs(r.value, items[1..], plus)
  }

  /** apply_update_operators: every $set, then every $unset, then every $inc. */
  function Applied(fs: seq<Field>, u: Update, plus: FloatSum): Option<seq<Field>> {
    var a := Sets(fs, u.sets, Get(fs, ID));
    if a.None? then None
    else
      var b := Unsets(a.value, u.unsets);
      if b.None? then None else Incs(b.value, u.incs, plus)
  }

  /** The same as the code's three loops over a copy of the document. */
  method ApplyOperators(fs: seq<Field>, u: Update, plus: FloatSum) returns (r: Option<seq<Field>>)
    ensures r == Applied(fs, u, plus)
  {
    hide SetOne, UnsetOne, IncOne;
    var copy, id, i := fs, Get(fs, ID), 0;
    while i < |u.sets|
      invariant 0 <= i <= |u.sets| && Sets(copy, u.sets[i..], id) == Sets(fs, u.sets, id)
    {
      assert u.sets[i..][1..] == u.sets[i + 1..];
      var next := SetOne(copy, u.sets[i], id);
      if next.None? {
        return None;
      }
      copy, i := next.value, i + 1;
    }
    ghost var afterSets := copy;
    i := 0;
    while i < |u.unsets|
      invariant 0 <= i <= |u.unsets| && Unsets(copy, u.unsets[i..]) == Unsets(afterSets, u.unsets)
    {
      assert u.unsets[i..][1..] == u.unsets[i + 1..];
      var next := UnsetOne(copy, u.unsets[i]);
      if next.None? {
        return None;
      }
      copy, i := next.value, i + 1;
    }
    ghost var afterUnsets := copy;
    i := 0;
    while i < |u.incs|
      invariant 0 <= i <= |u.incs| && Incs(copy, u.incs[i..], plus) == Incs(afterUnsets, u.incs, plus)
    {
      assert u.incs[i..][1..] == u.incs[i + 1..];
      var next := IncOne(copy, u.incs[i], plus);
      if next.None? {
        return None;
      }
      copy, i := next.value, i + 1;
    }
    r := Some(copy);
  }

  /** The update as a function of the document. */
  function Operators(u: Update, plus: FloatSum): seq<Field> -> Option<seq<Field>> {
    fs => Applied(fs, u, plus)
  }

  // ---------------------------------------------------------------- what an update leaves alone

  /** No path of the update is related to `q`. */
  ghost predicate LeavesAlone(u: Update, q: Path) {
    && (forall i | 0 <= i < |u.sets| :: !Related(u.sets[i].0, q))
    && (forall i | 0 <= i < |u.unsets| :: !Related(u.unsets[i], q))
    && (forall i | 0 <= i < |u.incs| :: !Related(u.incs[i].0, q))
  }

  lemma {:induction false} SetsElsewhere(fs: seq<Field>, items: seq<(Target, Value)>, id: Option<Value>, q: Target)
    requires Sets(fs, items, id).Some? && forall i | 0 <= i < |items| :: !Related(items[i].0, q)
    ensures DirectValue(Document(Sets(fs, items, id).value), q) == DirectValue(Document(fs), q)
    decreases items
  {
    hide DirectValue, SetPath, Related, ValuesEqual;
    if items == [] {
    } else {
      SetPathElsewhere(fs, items[0].0, items[0].1, q);
      SetsElsewhere(SetOne(fs, items[0], id).value, items[1..], id, q);
    }
  }

  lemma {:induction false} UnsetsElsewhere(fs: seq<Field>, paths: seq<Target>, q: Target)
    requires Unsets(fs, paths).Some? && forall i | 0 <= i < |paths| :: !Related(paths[i], q)
    ensures DirectValue(Document(Unsets(fs, paths).value), q) == DirectValue(Document(fs), q)
    decreases paths
  {
    hide DirectValue, UnsetPath, Related;
    if paths == [] {
    } else {
      UnsetPathElsewhere(fs, paths[0], q);
      UnsetsElsewhere(UnsetOne(fs, paths[0]).value, paths[1..], q);
    }
  }

  lemma {:induction false} IncsElsewhere(fs: seq<Field>, items: seq<(Target, Value)>, plus: FloatSum, q: Target)
    requires Incs(fs, items, plus).Some? && forall i | 0 <= i < |items| :: !Related(items[i].0, q)
    ensures DirectValue(Document(Incs(fs, items, plus).value), q) == DirectValue(Document(fs), q)
    decreases items
  {
    hide DirectValue, SetPath, Related, Sum;
    if items == [] {
    } else {
      var v := DirectValue(Document(fs), items[0].0);
      SetPathElsewhere(fs, items[0].0, Sum(if v.None? then Int(0) else v.value, items[0].1, plus).value, q);
      IncsElsewhere(IncOne(fs, items[0], plus).value, items[1..], plus, q);
    }
  }

  /** An update does not change what a path leads to that none of its own paths is related to. */
  lemma AppliedElsewhere(fs: seq<Field>, u: Update, plus: FloatSum, q: Target)
    requires Applied(fs, u, plus).Some? && LeavesAlone(u, q)
    ensures DirectValue(Document(Applied(fs, u, plus).value), q) == DirectValue(Document(fs), q)
  {
    hide DirectValue, Sets, Unsets, Incs, Related;
    var a := Sets(fs, u.sets, Get(fs, ID)).value;
    var b := Unsets(a, u.unsets).value;
    SetsElsewhere(fs, u.sets, Get(fs, ID), q);
    UnsetsElsewhere(a, u.unsets, q);
    IncsElsewhere(b, u.incs, plus, q);
  }

  // ---------------------------------------------------------------- `_id`

  /** The path leads into what `_id` holds. */
  predicate IntoId(p: Target) {
    p[0] == ID && |p| > 1
  }

  lemma NotId(p: Target)
    ensures p[0] == ID <==> p == [ID] || IntoId(p)
  {
    assert |p| == 1 ==> p == [p[0]];
  }

  ghost predicate StaysOutOfId(u: Update) {
    && (forall i | 0 <= i < |u.sets| :: !IntoId(u.sets[i].0))
    && (forall i | 0 <= i < |u.unsets| :: !IntoId(u.unsets[i]))
    && (forall i | 0 <= i < |u.incs| :: !IntoId(u.incs[i].0))
  }

  /** The document has the `_id`, or one that counts as equal to it. */
  predicate HasId(fs: seq<Field>, id: Value) {
    var v := Get(fs, ID);
    v.Some? && (v.value == id || ValuesEqual(v.value, id))
  }

  lemma IdElsewhere(fs: seq<Field>, p: Target, v: Value)
    requires p[0] != ID
    ensures Get(SetPath(fs, p, v), ID) == Get(fs, ID) == Get(UnsetPath(fs, p), ID)
  {
    IdValue(fs);
    IdValue(SetPath(fs, p, v));
    IdValue(UnsetPath(fs, p));
    SetPathElsewhere(fs, p, v, [ID]);
    UnsetPathElsewhere(fs, p, [ID]);
  }

  lemma IdValue(fs: seq<Field>)
    ensures DirectValue(Document(fs), [ID]) == Get(fs, ID)
  {
    assert [ID][1..] == [];
  }

  lemma SetId(fs: seq<Field>, v: Value)
    ensures Get(SetPath(fs, [ID], v), ID) == Some(v)
  {
    GetSet(fs, ID, v, ID);
  }

  lemma {:induction false} SetsKeepId(fs: seq<Field>, items: seq<(Target, Value)>, id: Value)
    requires Sets(fs, items, Some(id)).Some? && HasId(fs, id) && forall i | 0 <= i < |items| :: !IntoId(items[i].0)
    ensures HasId(Sets(fs, items, Some(id)).value, id)
    decreases items
  {
    hide Get, SetPath, ValuesEqual;
    if items == [] {
    } else {
      NotId(items[0].0);
      if items[0].0 == [ID] {
        SetId(fs, items[0].1);
      } else {
        IdElsewhere(fs, items[0].0, items[0].1);
      }
      SetsKeepId(SetOne(fs, items[0], Some(id)).value, items[1..], id);
    }
  }

  lemma {:induction false} UnsetsKeepId(fs: seq<Field>, paths: seq<Target>, id: Value)
    requires Unsets(fs, paths).Some? && HasId(fs, id) && forall i | 0 <= i < |paths| :: !IntoId(paths[i])
    ensures HasId(Unsets(fs, paths).value, id)
    decreases paths
  {
    hide Get, UnsetPath, ValuesEqual;
    if paths == [] {
    } else {
      NotId(paths[0]);
      IdElsewhere(fs, paths[0], Null);
      UnsetsKeepId(UnsetOne(fs, paths[0]).value, paths[1..], id);
    }
  }

  lemma {:induction false} IncsKeepId(fs: seq<Field>, items: seq<(Target, Value)>, plus: FloatSum, id: Value)
    requires Incs(fs, items, plus).Some? && HasId(fs, id) && forall i | 0 <= i < |items| :: !IntoId(items[i].0)
    ensures HasId(Incs(fs, items, plus).value, id)
    decreases items
  {
    hide Get, SetPath, ValuesEqual, Sum, DirectValue;
    if items == [] {
    } else {
      NotId(items[0].0);
      var v := DirectValue(Document(fs), items[0].0);
      IdElsewhere(fs, items[0].0, Sum(if v.None? then Int(0) else v.value, items[0].1, plus).value);
      IncsKeepId(IncOne(fs, items[0], plus).value, items[1..], plus, id);
    }
  }

  /** An update that does not raise keeps `_id`, if none of its paths leads into `_id`. */
  lemma IdKept(fs: seq<Field>, u: Update, plus: FloatSum)
    requires Get(fs, ID).Some? && Applied(fs, u, plus).Some? && StaysOutOfId(u)
    ensures HasId(Applied(fs, u, plus).value, Get(fs, ID).value)
  {
    hide Get, Sets, Unsets, Incs, ValuesEqual;
    var id := Get(fs, ID).value;
    var a := Sets(fs, u.sets, Some(id)).value;
    var b := Unsets(a, u.unsets).value;
    SetsKeepId(fs, u.sets, id);
    UnsetsKeepId(a, u.unsets, id);
    IncsKeepId(b, u.incs, plus, id);
  }

  /**
    * The description says that an update of `_id` raises.  {"$set": {"_id.rest": v}} never does,
    * and leaves `_id` as it was exactly when it is a dictionary with `v` at that place already;
    * any other `_id` is replaced by a dictionary.
    */
  lemma IdReplaced(fs: seq<Field>, rest: Target, v: Value, plus: FloatSum)
    requires Get(fs, ID).Some?
    ensures var u, id := Update([([ID] + rest, v)], [], []), Get(fs, ID).value; var r := Applied(fs, u, plus);
            && r.Some? && Get(r.value, ID) == Some(Document(SetPath(Under(fs, ID), rest, v)))
            && (Get(r.value, ID) == Some(id) <==> id.Document? && DirectValue(id, rest) == Some(v))
  {
    hide Get, DirectValue;
    var p: Target := [ID] + rest;
    var items := [(p, v)];
    assert p[1..] == rest && p[0] == ID && items[1..] == [];
    var r := SetPath(fs, p, v);
    assert SetOne(fs, items[0], Get(fs, ID)) == Some(r);
    assert Sets(r, [], Get(fs, ID)) == Some(r) && Sets(fs, items, Get(fs, ID)) == Some(r);
    GetSet(fs, ID, Document(SetPath(Under(fs, ID), rest, v)), ID);
    SetPathSame(Under(fs, ID), rest, v);
  }

  // ---------------------------------------------------------------- unique indexes

  /**
    * An update whose paths are related to no indexed path leaves the document's keys alone, so
    * no unique index ever refuses it.
    */
  lemma UnrelatedNeverRefused(st: State, i: nat, u: Update, plus: FloatSum)
    requires Inv(st) && ExactUnique(st) && i < |st.rows| && st.rows[i].live
    requires Applied(st.rows[i].doc, u, plus).Some?
    requires forall k | 0 <= k < |st.paths| :: st.paths[k] != [] && LeavesAlone(u, st.paths[k])
    ensures CanIndex(st.paths, st.rows[i].doc)
    ensures HowChanged(st, i, Applied(st.rows[i].doc, u, plus).value) == Entered
  {
    hide Inv, ExactUnique, Applied, IndexableAt, LeavesAlone;
    LiveCanDrop(st, i);
    var doc := Applied(st.rows[i].doc, u, plus).value;
    forall k | 0 <= k < |st.paths| ensures IndexValue(doc, st.paths[k]) == IndexValue(st.rows[i].doc, st.paths[k]) {
      AppliedElsewhere(st.rows[i].doc, u, plus, st.paths[k]);
    }
    SameValuesNotRefused(st, i, doc);
  }

  lemma SameValuesNotRefused(st: State, i: nat, doc: Doc)
    requires Inv(st) && ExactUnique(st) && i < |st.rows| && st.rows[i].live && CanIndex(st.paths, st.rows[i].doc)
    requires forall k | 0 <= k < |st.paths| :: IndexValue(doc, st.paths[k]) == IndexValue(st.rows[i].doc, st.paths[k])
    ensures HowChanged(st, i, doc) == Entered
  {
    hide Agrees, Increasing, ExactUnique, IndexValue, Drop, Indexable, EncodeKey, FirstHalt;
    var after := Drop(st, i);
    DropKeeps(st, i);
    FirstHaltIs(after, doc);
    assert CanIndex(after.paths, doc);
    RefusedIff(after, doc);
    if k :| 0 <= k < |after.paths| && after.indexes[k].unique && Taken(after, k, doc) {
      NotTaken(st, i, k, doc);
    }
  }

  /** Once the row is gone, no live row has its key in a unique index. */
  lemma NotTaken(st: State, i: nat, k: nat, doc: Doc)
    requires Inv(st) && i < |st.rows| && st.rows[i].live && CanIndex(st.paths, st.rows[i].doc) && k < |st.paths|
    requires Drop(st, i).indexes[k].unique && IndexValue(doc, st.paths[k]) == IndexValue(st.rows[i].doc, st.paths[k])
    ensures !Taken(Drop(st, i), k, doc)
  {
    hide Increasing, IndexValue, Indexable, EncodeKey, TreeRuns.Wf, Grounded, Covers, RunOrdered, DroppedFrom;
    DropKeepsOne(st, i, k);
    assert Agrees(st.rows, st.paths[k], st.indexes[k]);
    UniqueMeansDistinct(st.rows, st.end, st.paths[k], st.indexes[k]);
    var rows := Drop(st, i).rows;
    forall j | 0 <= j < |rows| && rows[j].live ensures !SameKeyAt(rows[j].doc, doc, st.paths[k]) {
      assert j != i && rows[j] == st.rows[j];
      if j < i {
        assert !SameKeyAt(st.rows[j].doc, st.rows[i].doc, st.paths[k]);
      } else {
        assert !SameKeyAt(st.rows[i].doc, st.rows[j].doc, st.paths[k]);
      }
    }
  }

  // ---------------------------------------------------------------- results are values

  ghost predicate KeysOk(p: Path) {
    forall i | 0 <= i < |p| :: Utf8.IsUtf8(p[i])
  }

  /** What Python's own types guarantee of an update. */
  ghost predicate ValidUpdate(u: Update) {
    && (forall i | 0 <= i < |u.sets| :: KeysOk(u.sets[i].0) && ValidValue(u.sets[i].1))
    && (forall i | 0 <= i < |u.incs| :: KeysOk(u.incs[i].0) && ValidValue(u.incs[i].1))
  }

  lemma {:induction false} SetFieldValid(fs: seq<Field>, key: seq<byte>, v: Value)
    requires ValidValue(Document(fs)) && Utf8.IsUtf8(key) && ValidValue(v)
    ensures ValidValue(Document(SetField(fs, key, v)))
    ensures forall i | 0 <= i < |SetField(fs, key, v)| ::
              SetField(fs, key, v)[i].key == key
              || exists j :: 0 <= j < |fs| && fs[j].key == SetField(fs, key, v)[i].key
  {
    hide Utf8.IsUtf8;
    if fs == [] {
    } else if fs[0].key != key {
      TailValid(fs);
      SetFieldValid(fs[1..], key, v);
      ConsValid(fs[0], SetField(fs[1..], key, v));
    }
  }

  lemma TailValid(fs: seq<Field>)
    requires ValidValue(Document(fs)) && fs != []
    ensures ValidValue(Document(fs[1..])) && ValidValue(fs[0].value) && Utf8.IsUtf8(fs[0].key)
    ensures forall i | 0 <= i < |fs[1..]| :: fs[1..][i].key != fs[0].key
  {
    hide Utf8.IsUtf8;
  }

  lemma ConsValid(f: Field, fs: seq<Field>)
    requires ValidValue(Document(fs)) && Utf8.IsUtf8(f.key) && ValidValue(f.value)
    requires forall i | 0 <= i < |fs| :: fs[i].key != f.key
    ensures ValidValue(Document([f] + fs))
  {
    hide Utf8.IsUtf8;
  }

  lemma {:induction false} RemoveFieldValid(fs: seq<Field>, key: seq<byte>)
    requires ValidValue(Document(fs))
    ensures ValidValue(Document(RemoveField(fs, key)))
    ensures forall i | 0 <= i < |RemoveField(fs, key)| ::
              exists j :: 0 <= j < |fs| && fs[j].key == RemoveField(fs, key)[i].key
  {
    hide Utf8.IsUtf8;
    if fs == [] {
    } else {
      TailValid(fs);
      RemoveFieldValid(fs[1..], key);
      assert forall j | 0 <= j < |fs[1..]| :: fs[1..][j] == fs[j + 1];
      if fs[0].key != key {
        ConsValid(fs[0], RemoveField(fs[1..], key));
      }
    }
  }

  lemma GetValid(fs: seq<Field>, key: seq<byte>)
    requires ValidValue(Document(fs))
    ensures Get(fs, key).Some? ==> ValidValue(Get(fs, key).value)
    ensures ValidValue(Document(Under(fs, key)))
  {
    hide Utf8.IsUtf8;
    var v := Get(fs, key);
    if v.Some? {
      var i :| 0 <= i < |fs| && fs[i] == Field(key, v.value);
    }
  }

  lemma {:induction false} SetPathValid(fs: seq<Field>, p: Target, v: Value)
    requires ValidValue(Document(fs)) && KeysOk(p) && ValidValue(v)
    ensures ValidValue(Document(SetPath(fs, p, v)))
    decreases p
  {
    hide ValidValue, Utf8.IsUtf8, Under;
    if |p| == 1 {
      SetFieldValid(fs, p[0], v);
    } else {
      GetValid(fs, p[0]);
      assert KeysOk(p[1..]);
      SetPathValid(Under(fs, p[0]), p[1..], v);
      SetFieldValid(fs, p[0], Document(SetPath(Under(fs, p[0]), p[1..], v)));
    }
  }

  lemma {:induction false} UnsetPathValid(fs: seq<Field>, p: Target)
    requires ValidValue(Document(fs))
    ensures ValidValue(Document(UnsetPath(fs, p)))
    decreases p
  {
    hide ValidValue, Utf8.IsUtf8;
    if |p| == 1 {
      RemoveFieldValid(fs, p[0]);
    } else {
      GetValid(fs, p[0]);
      var v := Get(fs, p[0]);
      if v.Some? && v.value.Document? {
        UnsetPathValid(v.value.fields, p[1..]);
        KeyThere(fs, p[0]);
        SetFieldValid(fs, p[0], Document(UnsetPath(v.value.fields, p[1..])));
      }
    }
  }

  lemma KeyThere(fs: seq<Field>, key: seq<byte>)
    requires ValidValue(Document(fs)) && Get(fs, key).Some?
    ensures Utf8.IsUtf8(key)
  {
    hide Utf8.IsUtf8;
  }

  lemma {:induction false} SetsValid(fs: seq<Field>, items: seq<(Target, Value)>, id: Option<Value>)
    requires ValidValue(Document(fs)) && Sets(fs, items, id).Some?
    requires forall i | 0 <= i < |items| :: KeysOk(items[i].0) && ValidValue(items[i].1)
    ensures ValidValue(Document(Sets(fs, items, id).value))
    decreases items
  {
    hide ValidValue, KeysOk, SetPath, ValuesEqual;
    if items == [] {
    } else {
      SetPathValid(fs, items[0].0, items[0].1);
      SetsValid(SetOne(fs, items[0], id).value, items[1..], id);
    }
  }

  lemma {:induction false} UnsetsValid(fs: seq<Field>, paths: seq<Target>)
    requires ValidValue(Document(fs)) && Unsets(fs, paths).Some?
    ensures ValidValue(Document(Unsets(fs, paths).value))
    decreases paths
  {
    hide ValidValue, UnsetPath;
    if paths == [] {
    } else {
      UnsetPathValid(fs, paths[0]);
      UnsetsValid(UnsetOne(fs, paths[0]).value, paths[1..]);
    }
  }

  lemma SumValid(a: Value, b: Value, plus: FloatSum)
    ensures Sum(a, b, plus).Some? ==> ValidValue(Sum(a, b, plus).value)
  {
  }

  lemma {:induction false} IncsValid(fs: seq<Field>, items: seq<(Target, Value)>, plus: FloatSum)
    requires ValidValue(Document(fs)) && Incs(fs, items, plus).Some?
    requires forall i | 0 <= i < |items| :: KeysOk(items[i].0)
    ensures ValidValue(Document(Incs(fs, items, plus).value))
    decreases items
  {
    hide ValidValue, KeysOk, SetPath, Sum, DirectValue;
    if items == [] {
    } else {
      var v := DirectValue(Document(fs), items[0].0);
      var current := if v.None? then Int(0) else v.value;
      SumValid(current, items[0].1, plus);
      SetPathValid(fs, items[0].0, Sum(current, items[0].1, plus).value);
      IncsValid(IncOne(fs, items[0], plus).value, items[1..], plus);
    }
  }

  /** What the operators make of a document of values is one. */
  lemma AppliedValid(fs: seq<Field>, u: Update, plus: FloatSum)
    requires ValidValue(Document(fs)) && ValidUpdate(u)
    ensures Applied(fs, u, plus).Some? ==> ValidValue(Document(Applied(fs, u, plus).value))
  {
    hide ValidValue, KeysOk, Sets, Unsets, Incs;
    if Applied(fs, u, plus).Some? {
      var a := Sets(fs, u.sets, Get(fs, ID)).value;
      SetsValid(fs, u.sets, Get(fs, ID));
      UnsetsValid(a, u.unsets);
      IncsValid(Unsets(a, u.unsets).value, u.incs, plus);
    }
  }
}
