/**
  * What the update operators do at their own paths: a $set path leads to its value, an $unset path
  * nowhere, and an $inc path to the sum; in which order they act; and exactly when an update raises.
  */
module OperatorEffects {
  import opened Bytes
  import opened Grammar
  import opened Codec
  import opened IndexKeys
  import opened Query
  import opened Updates

  predicate Number(v: Value) {
    v.Int? || v.Double?
  }

  /** The number to add to: a missing value counts as 0. */
  function Current(was: Option<Value>): Value {
    if was.None? then Int(0) else was.value
  }

  /** `now` is the sum: exact for two ints, and otherwise the float that Python's addition gives. */
  predicate IsSum(was: Option<Value>, delta: Value, plus: FloatSum, now: Option<Value>) {
    var current := Current(was);
    if current.Int? && delta.Int? then now == Some(Int(current.i + delta.i))
    else plus(current, delta).Some? && now == Some(Double(plus(current, delta).value))
  }

  /** An $inc of what is at the path raises: not two numbers, or no float for their sum. */
  predicate CannotAdd(was: Option<Value>, delta: Value, plus: FloatSum) {
    var current := Current(was);
    || !Number(delta) || !Number(current)
    || ((current.Double? || delta.Double?) && plus(current, delta).None?)
  }

  // ---------------------------------------------------------------- one operator's list

  /** The last $set of a path, if no later one is related to it, has its value there. */
  lemma {:induction false} SetsHold(fs: seq<Field>, items: seq<(Target, Value)>, id: Option<Value>, i: nat)
    requires Sets(fs, items, id).Some? && i < |items|
    requires forall j | i < j < |items| :: !Related(items[j].0, items[i].0)
    ensures DirectValue(Document(Sets(fs, items, id).value), items[i].0) == Some(items[i].1)
    decreases items
  {
    hide DirectValue, SetPath, Related, ValuesEqual;
    var next, rest := SetOne(fs, items[0], id).value, items[1..];
    assert forall j | 0 <= j < |rest| :: rest[j] == items[j + 1];
    if i == 0 {
      SetPathAt(fs, items[0].0, items[0].1);
      SetsElsewhere(next, rest, id, items[0].0);
    } else {
      SetsHold(next, rest, id, i - 1);
    }
  }

  /** Removing a path, related or not, never makes another one lead somewhere. */
  lemma {:induction false} UnsetNeverCreates(fs: seq<Field>, p: Target, q: Target)
    requires DirectValue(Document(fs), q) == None
    ensures DirectValue(Document(UnsetPath(fs, p)), q) == None
    decreases p
  {
    if |p| == 1 {
      GetRemove(fs, p[0], q[0]);
    } else {
      var v := Get(fs, p[0]);
      if v.Some? && v.value.Document? {
        GetSet(fs, p[0], Document(UnsetPath(v.value.fields, p[1..])), q[0]);
        if p[0] == q[0] {
          if |q| > 1 {
            UnsetNeverCreates(v.value.fields, p[1..], q[1..]);
          }
        }
      }
    }
  }

  lemma {:induction false} UnsetsStayGone(fs: seq<Field>, paths: seq<Target>, q: Target)
    requires Unsets(fs, paths).Some? && DirectValue(Document(fs), q) == None
    ensures DirectValue(Document(Unsets(fs, paths).value), q) == None
    decreases paths
  {
    hide DirectValue, UnsetPath;
    if paths == [] {
    } else {
      UnsetNeverCreates(fs, paths[0], q);
      UnsetsStayGone(UnsetOne(fs, paths[0]).value, paths[1..], q);
    }
  }

  /** Every $unset path leads nowhere. */
  lemma {:induction false} UnsetsHold(fs: seq<Field>, paths: seq<Target>, j: nat)
    requires Unsets(fs, paths).Some? && j < |paths|
    ensures DirectValue(Document(Unsets(fs, paths).value), paths[j]) == None
    decreases paths
  {
    hide DirectValue, UnsetPath;
    var next, rest := UnsetOne(fs, paths[0]).value, paths[1..];
    if j == 0 {
      UnsetPathAt(fs, paths[0]);
      UnsetsStayGone(next, rest, paths[0]);
    } else {
      UnsetsHold(next, rest, j - 1);
    }
  }

  /** No other $inc path is related to this one. */
  predicate IncAlone(items: seq<(Target, Value)>, k: nat)
    requires k < |items|
  {
    forall j | 0 <= j < |items| && j != k :: !Related(items[j].0, items[k].0)
  }

  lemma IncAloneRest(items: seq<(Target, Value)>, k: nat)
    requires 0 < k < |items| && IncAlone(items, k)
    ensures IncAlone(items[1..], k - 1) && items[1..][k - 1] == items[k] && !Related(items[0].0, items[k].0)
  {
    hide Related;
    var rest := items[1..];
    assert forall j | 0 <= j < |rest| :: rest[j] == items[j + 1];
  }

  /** One $inc that does not raise leaves the sum at its path. */
  lemma IncOneHolds(fs: seq<Field>, item: (Target, Value), plus: FloatSum)
    requires IncOne(fs, item, plus).Some?
    ensures var after := IncOne(fs, item, plus).value;
            IsSum(DirectValue(Document(fs), item.0), item.1, plus, DirectValue(Document(after), item.0))
  {
    hide DirectValue, SetPath;
    var sum := Sum(Current(DirectValue(Document(fs), item.0)), item.1, plus);
    SetPathAt(fs, item.0, sum.value);
  }

  lemma {:induction false} IncsHold(fs: seq<Field>, items: seq<(Target, Value)>, plus: FloatSum, k: nat)
    requires Incs(fs, items, plus).Some? && k < |items| && IncAlone(items, k)
    ensures IsSum(DirectValue(Document(fs), items[k].0), items[k].1, plus,
                  DirectValue(Document(Incs(fs, items, plus).value), items[k].0))
    decreases items
  {
    hide DirectValue, SetPath, Related, Sum, IncOne, IsSum;
    var next, rest := IncOne(fs, items[0], plus).value, items[1..];
    if k == 0 {
      assert forall j | 0 <= j < |rest| :: rest[j] == items[j + 1];
      forall j | 0 <= j < |rest| ensures !Related(rest[j].0, items[0].0) {
        assert !Related(items[j + 1].0, items[0].0);
      }
      IncOneHolds(fs, items[0], plus);
      IncsElsewhere(next, rest, plus, items[0].0);
    } else {
      IncAloneRest(items, k);
      IncOneElsewhere(fs, items[0], plus, items[k].0);
      IncsHold(next, rest, plus, k - 1);
    }
  }

  lemma IncOneElsewhere(fs: seq<Field>, item: (Target, Value), plus: FloatSum, q: Target)
    requires IncOne(fs, item, plus).Some? && !Related(item.0, q)
    ensures DirectValue(Document(IncOne(fs, item, plus).value), q) == DirectValue(Document(fs), q)
  {
    hide DirectValue, SetPath, Related, Sum;
    SetPathElsewhere(fs, item.0, Sum(Current(DirectValue(Document(fs), item.0)), item.1, plus).value, q);
  }

  // ---------------------------------------------------------------- the whole update

  ghost predicate SetsAlone(u: Update, q: Path) {
    forall i | 0 <= i < |u.sets| :: !Related(u.sets[i].0, q)
  }

  ghost predicate UnsetsAlone(u: Update, q: Path) {
    forall i | 0 <= i < |u.unsets| :: !Related(u.unsets[i], q)
  }

  ghost predicate IncsAlone(u: Update, q: Path) {
    forall i | 0 <= i < |u.incs| :: !Related(u.incs[i].0, q)
  }

  /** The $set of item `i` is the last operator that has to do with its path but $inc. */
  ghost predicate LastSet(u: Update, i: nat)
    requires i < |u.sets|
  {
    (forall j | i < j < |u.sets| :: !Related(u.sets[j].0, u.sets[i].0)) && UnsetsAlone(u, u.sets[i].0)
  }

  /** Where the $inc operators start: after every $set and every $unset. */
  ghost function BeforeIncs(fs: seq<Field>, u: Update): Option<seq<Field>> {
    var a := Sets(fs, u.sets, Get(fs, ID));
    if a.None? then None else Unsets(a.value, u.unsets)
  }

  /** What a path leads to then, by the operators that came before. */
  lemma BeforeIncsAt(fs: seq<Field>, u: Update, q: Target)
    requires BeforeIncs(fs, u).Some?
    ensures var now := DirectValue(Document(BeforeIncs(fs, u).value), q);
            && (SetsAlone(u, q) && UnsetsAlone(u, q) ==> now == DirectValue(Document(fs), q))
            && (forall i | 0 <= i < |u.sets| && u.sets[i].0 == q && LastSet(u, i) :: now == Some(u.sets[i].1))
            && (q in u.unsets ==> now == None)
  {
    hide DirectValue, Sets, Unsets, Related;
    var id := Get(fs, ID);
    var a := Sets(fs, u.sets, id).value;
    if SetsAlone(u, q) && UnsetsAlone(u, q) {
      SetsElsewhere(fs, u.sets, id, q);
      UnsetsElsewhere(a, u.unsets, q);
    }
    forall i | 0 <= i < |u.sets| && u.sets[i].0 == q && LastSet(u, i)
      ensures DirectValue(Document(Unsets(a, u.unsets).value), q) == Some(u.sets[i].1)
    {
      SetsHold(fs, u.sets, id, i);
      UnsetsElsewhere(a, u.unsets, q);
    }
    if j :| 0 <= j < |u.unsets| && u.unsets[j] == q {
      UnsetsHold(a, u.unsets, j);
    }
  }

  /** A $set path leads to its value, if no operator after it has to do with the path. */
  lemma SetTakesEffect(fs: seq<Field>, u: Update, plus: FloatSum, i: nat)
    requires Applied(fs, u, plus).Some? && i < |u.sets| && LastSet(u, i) && IncsAlone(u, u.sets[i].0)
    ensures DirectValue(Document(Applied(fs, u, plus).value), u.sets[i].0) == Some(u.sets[i].1)
  {
    hide DirectValue, Sets, Unsets, Incs, Related, LastSet;
    BeforeIncsAt(fs, u, u.sets[i].0);
    IncsElsewhere(BeforeIncs(fs, u).value, u.incs, plus, u.sets[i].0);
  }

  /** An $unset path leads nowhere, whatever was set there, if no $inc has to do with it. */
  lemma UnsetTakesEffect(fs: seq<Field>, u: Update, plus: FloatSum, j: nat)
    requires Applied(fs, u, plus).Some? && j < |u.unsets| && IncsAlone(u, u.unsets[j])
    ensures DirectValue(Document(Applied(fs, u, plus).value), u.unsets[j]) == None
  {
    hide DirectValue, Sets, Unsets, Incs, Related, LastSet;
    BeforeIncsAt(fs, u, u.unsets[j]);
    IncsElsewhere(BeforeIncs(fs, u).value, u.incs, plus, u.unsets[j]);
  }

  /**
    * An $inc path leads to the sum of its delta and what the document had there, or what was set
    * there, or 0 if it was removed.
    */
  lemma IncTakesEffect(fs: seq<Field>, u: Update, plus: FloatSum, k: nat)
    requires Applied(fs, u, plus).Some? && k < |u.incs| && IncAlone(u.incs, k)
    ensures var (q, delta) := u.incs[k]; var now := DirectValue(Document(Applied(fs, u, plus).value), q);
            && (SetsAlone(u, q) && UnsetsAlone(u, q) ==> IsSum(DirectValue(Document(fs), q), delta, plus, now))
            && (forall i | 0 <= i < |u.sets| && u.sets[i].0 == q && LastSet(u, i) ::
                  IsSum(Some(u.sets[i].1), delta, plus, now))
            && (q in u.unsets ==> IsSum(None, delta, plus, now))
  {
    hide DirectValue, Sets, Unsets, Incs, Related, LastSet, IsSum, SetsAlone, UnsetsAlone, IncAlone;
    BeforeIncsAt(fs, u, u.incs[k].0);
    IncsHold(BeforeIncs(fs, u).value, u.incs, plus, k);
  }

  // ---------------------------------------------------------------- when an update raises

  /** $set of `_id` to another value than the document's. */
  predicate ChangesId(item: (Target, Value), id: Option<Value>) {
    item.0 == [ID] && id.Some? && !ValuesEqual(item.1, id.value)
  }

  lemma {:induction false} SetsRaiseIff(fs: seq<Field>, items: seq<(Target, Value)>, id: Option<Value>)
    ensures Sets(fs, items, id).None? <==> exists i :: 0 <= i < |items| && ChangesId(items[i], id)
    decreases items
  {
    hide SetPath, ValuesEqual;
    if items == [] {
    } else {
      var rest := items[1..];
      assert forall j | 0 <= j < |rest| :: rest[j] == items[j + 1];
      if SetOne(fs, items[0], id).Some? {
        SetsRaiseIff(SetOne(fs, items[0], id).value, rest, id);
        if i :| 0 <= i < |items| && ChangesId(items[i], id) {
          assert i > 0 && ChangesId(rest[i - 1], id);
        }
      }
    }
  }

  lemma {:induction false} UnsetsRaiseIff(fs: seq<Field>, paths: seq<Target>)
    ensures Unsets(fs, paths).None? <==> [ID] in paths
    decreases paths
  {
    hide UnsetPath;
    if paths == [] {
    } else {
      assert paths == [paths[0]] + paths[1..];
      if UnsetOne(fs, paths[0]).Some? {
        UnsetsRaiseIff(UnsetOne(fs, paths[0]).value, paths[1..]);
      }
    }
  }

  predicate IncRaises(fs: seq<Field>, item: (Target, Value), plus: FloatSum) {
    item.0 == [ID] || CannotAdd(DirectValue(Document(fs), item.0), item.1, plus)
  }

  lemma IncOneRaisesIff(fs: seq<Field>, item: (Target, Value), plus: FloatSum)
    ensures IncOne(fs, item, plus).None? <==> IncRaises(fs, item, plus)
  {
    hide SetPath, DirectValue;
  }

  lemma {:induction false} IncsRaiseIff(fs: seq<Field>, items: seq<(Target, Value)>, plus: FloatSum)
    requires forall k | 0 <= k < |items| :: IncAlone(items, k)
    ensures Incs(fs, items, plus).None? <==> exists k :: 0 <= k < |items| && IncRaises(fs, items[k], plus)
    decreases items
  {
    hide IncOne, DirectValue, IncAlone, CannotAdd;
    if items == [] {
    } else {
      IncOneRaisesIff(fs, items[0], plus);
      if IncOne(fs, items[0], plus).Some? {
        var next, rest := IncOne(fs, items[0], plus).value, items[1..];
        forall k | 0 <= k < |rest|
          ensures IncAlone(rest, k) && rest[k] == items[k + 1]
          ensures IncRaises(next, rest[k], plus) <==> IncRaises(fs, items[k + 1], plus)
        {
          IncAloneRest(items, k + 1);
          IncOneElsewhere(fs, items[0], plus, items[k + 1].0);
        }
        IncsRaiseIff(next, rest, plus);
        if k :| 0 <= k < |items| && IncRaises(fs, items[k], plus) {
          assert k > 0 && IncRaises(next, rest[k - 1], plus);
        }
      }
    }
  }

  /**
    * An update whose $inc paths are related to no other path of it raises exactly when it sets `_id`
    * to another value, removes or increments `_id`, or increments what is no number or by what is none,
    * or Python raises on the float sum.
    */
  lemma RaisesIff(fs: seq<Field>, u: Update, plus: FloatSum)
    requires forall k | 0 <= k < |u.incs| ::
               IncAlone(u.incs, k) && SetsAlone(u, u.incs[k].0) && UnsetsAlone(u, u.incs[k].0)
    ensures Applied(fs, u, plus).None? <==>
              || (exists i :: 0 <= i < |u.sets| && ChangesId(u.sets[i], Get(fs, ID)))
              || [ID] in u.unsets
              || (exists k :: 0 <= k < |u.incs| && IncRaises(fs, u.incs[k], plus))
  {
    hide DirectValue, Sets, Unsets, Incs, Related, SetsAlone, UnsetsAlone, IncAlone, CannotAdd, ChangesId;
    var id := Get(fs, ID);
    SetsRaiseIff(fs, u.sets, id);
    if Sets(fs, u.sets, id).Some? {
      var a := Sets(fs, u.sets, id).value;
      UnsetsRaiseIff(a, u.unsets);
      if Unsets(a, u.unsets).Some? {
        var b := Unsets(a, u.unsets).value;
        IncsRaiseIff(b, u.incs, plus);
        forall k | 0 <= k < |u.incs| ensures IncRaises(b, u.incs[k], plus) <==> IncRaises(fs, u.incs[k], plus) {
          BeforeIncsAt(fs, u, u.incs[k].0);
        }
      }
    }
  }
}
