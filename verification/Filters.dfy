/**
  * What a filter asks of a document, clause by clause, and what a path through lists collects.
  *
  * The description of resolve_path says that a numeric segment indexes into a list.  The code follows
  * the rest of the path in every element as well, so the number makes no difference to any match.
  */
module Filters {
  import opened Bytes
  import opened Grammar
  import opened Codec
  import opened IndexKeys
  import opened Query
  import opened Equality

  // ---------------------------------------------------------------- clauses

  /** Resolving the clause's path raises. */
  predicate ClauseRaises(fs: seq<Field>, c: Clause) {
    ResolvePath(Document(fs), c.path).None?
  }

  /** The operand is null and the path leads nowhere, or it equals one of the values the path collects. */
  predicate ClauseHolds(fs: seq<Field>, c: Clause) {
    var found := ResolvePath(Document(fs), c.path);
    && found.Some?
    && ((c.cond.v.Null? && found.value == []) || exists v :: v in found.value && ValuesEqual(v, c.cond.v))
  }

  lemma HoldsIff(fs: seq<Field>, c: Clause)
    requires !ClauseRaises(fs, c)
    ensures MatchesEq(ResolvePath(Document(fs), c.path).value, c.cond.v) <==> ClauseHolds(fs, c)
  {
    hide ValuesEqual, ResolvePath;
  }

  /** Clause `i` decides: the ones before it hold and it does not. */
  ghost predicate Decides(fs: seq<Field>, filter: Filter, i: nat) {
    && i < |filter| && !ClauseHolds(fs, filter[i])
    && forall j | 0 <= j < i :: ClauseHolds(fs, filter[j])
  }

  /**
    * A filter matches exactly when every clause holds.  Otherwise the first clause that does not
    * hold decides: it raises, or the document does not match and no later clause is looked at.
    */
  lemma {:induction false} MatchesIff(fs: seq<Field>, filter: Filter)
    ensures Matches(fs, filter) == Some(true) <==> forall i | 0 <= i < |filter| :: ClauseHolds(fs, filter[i])
    ensures Matches(fs, filter) == Some(false) <==>
              exists i: nat :: Decides(fs, filter, i) && !ClauseRaises(fs, filter[i])
    ensures Matches(fs, filter) == None <==>
              exists i: nat :: Decides(fs, filter, i) && ClauseRaises(fs, filter[i])
  {
    hide ValuesEqual, ResolvePath, MatchesEq, ClauseHolds;
    if filter == [] {
    } else {
      var rest := filter[1..];
      assert forall j | 0 <= j < |rest| :: rest[j] == filter[j + 1];
      if ClauseRaises(fs, filter[0]) {
        RaisingDoesNotHold(fs, filter[0]);
        assert Decides(fs, filter, 0);
      } else {
        HoldsIff(fs, filter[0]);
        if ClauseHolds(fs, filter[0]) {
          MatchesIff(fs, rest);
          LaterDecides(fs, filter);
        } else {
          assert Decides(fs, filter, 0);
        }
      }
    }
  }

  lemma RaisingDoesNotHold(fs: seq<Field>, c: Clause)
    requires ClauseRaises(fs, c)
    ensures !ClauseHolds(fs, c)
  {
  }

  lemma LaterDecides(fs: seq<Field>, filter: Filter)
    requires filter != [] && ClauseHolds(fs, filter[0])
    ensures forall i: nat :: Decides(fs, filter, i) <==> i > 0 && Decides(fs, filter[1..], i - 1)
    ensures forall i: nat | Decides(fs, filter[1..], i) :: Decides(fs, filter, i + 1)
  {
    hide ClauseHolds;
    var rest := filter[1..];
    assert forall j | 0 <= j < |rest| :: rest[j] == filter[j + 1];
    forall i: nat ensures Decides(fs, filter, i) <==> i > 0 && Decides(fs, rest, i - 1) {
      if i > 0 && Decides(fs, filter, i) {
        assert forall j | 0 <= j < i - 1 :: ClauseHolds(fs, rest[j]);
      }
      if i > 0 && Decides(fs, rest, i - 1) {
        assert forall j | 0 < j < i :: filter[j] == rest[j - 1];
      }
    }
    forall i: nat | Decides(fs, rest, i) ensures Decides(fs, filter, i + 1) {
      assert Decides(fs, rest, i + 1 - 1);
    }
  }

  // ---------------------------------------------------------------- what a path collects

  /** At the end of a path a list counts as a whole and by its elements. */
  lemma PathEnd(v: Value)
    ensures ResolvePath(v, []).Some?
    ensures forall c :: c in ResolvePath(v, []).value <==> c == v || (v.Array? && c in v.items)
  {
  }

  /** In a dict a segment is a key; a missing key, and any segment in a scalar, leads nowhere. */
  lemma PathThroughDict(v: Value, segment: seq<byte>, rest: Path)
    requires !v.Array?
    ensures ResolvePath(v, [segment] + rest) ==
            if v.Document? && Get(v.fields, segment).Some? then ResolvePath(Get(v.fields, segment).value, rest)
            else Some([])
  {
    assert ([segment] + rest)[1..] == rest;
    if v.Document? {
      ResolveGet(v.fields, segment, rest);
    }
  }

  /** Element `j` gives the candidate. */
  predicate ItemGives(items: seq<Value>, j: nat, rest: Path, c: Value)
    requires j < |items|
  {
    var found := ResolvePath(items[j], rest);
    found.Some? && c in found.value
  }

  lemma {:induction false} BroadcastCollects(items: seq<Value>, rest: Path)
    ensures Broadcast(items, rest).None? <==> exists j :: 0 <= j < |items| && ResolvePath(items[j], rest).None?
    ensures Broadcast(items, rest).Some? ==>
              forall c :: c in Broadcast(items, rest).value <==>
                          exists j :: 0 <= j < |items| && ItemGives(items, j, rest, c)
  {
    hide ResolvePath;
    if items == [] {
    } else {
      var tail := items[1..];
      assert forall j | 0 <= j < |tail| :: tail[j] == items[j + 1];
      BroadcastCollects(tail, rest);
      forall c, j | 0 <= j < |tail| ensures ItemGives(tail, j, rest, c) <==> ItemGives(items, j + 1, rest, c) {
      }
      if Broadcast(items, rest).Some? {
        forall c
          ensures c in Broadcast(items, rest).value <==> exists j :: 0 <= j < |items| && ItemGives(items, j, rest, c)
        {
          FirstOrLater(items, rest, c);
        }
      }
    }
  }

  lemma {:induction false} FirstOrLater(items: seq<Value>, rest: Path, c: Value)
    requires items != [] && Broadcast(items, rest).Some? && Broadcast(items[1..], rest).Some?
    requires c in Broadcast(items[1..], rest).value <==>
             exists j :: 0 <= j < |items[1..]| && ItemGives(items[1..], j, rest, c)
    requires forall j | 0 <= j < |items[1..]| :: ItemGives(items[1..], j, rest, c) <==> ItemGives(items, j + 1, rest, c)
    ensures c in Broadcast(items, rest).value <==> exists j :: 0 <= j < |items| && ItemGives(items, j, rest, c)
  {
    hide ResolvePath, ItemGives;
    FirstGives(items, rest, c);
    if j :| 0 <= j < |items| && ItemGives(items, j, rest, c) {
      assert j > 0 ==> ItemGives(items[1..], j - 1, rest, c);
    }
    if j :| 0 <= j < |items[1..]| && ItemGives(items[1..], j, rest, c) {
      assert ItemGives(items, j + 1, rest, c);
    }
  }

  lemma {:induction false} FirstGives(items: seq<Value>, rest: Path, c: Value)
    requires items != [] && Broadcast(items, rest).Some? && Broadcast(items[1..], rest).Some?
    ensures c in Broadcast(items, rest).value <==>
              ItemGives(items, 0, rest, c) || c in Broadcast(items[1..], rest).value
  {
    hide ResolvePath;
  }

  /** A segment such as "--1" raises on any list. */
  lemma RaisingSegment(items: seq<Value>, segment: seq<byte>, rest: Path)
    requires ListIndex(segment).IndexRaises?
    ensures ResolvePath(Array(items), [segment] + rest) == None
  {
    hide ListIndex, Broadcast;
  }

  /**
    * Any other segment, number or not, collects from a list what the rest of the path collects from
    * each of its elements: the number only repeats candidates that are there anyway.
    */
  lemma PathThroughList(items: seq<Value>, segment: seq<byte>, rest: Path)
    requires !ListIndex(segment).IndexRaises?
    ensures var found := ResolvePath(Array(items), [segment] + rest);
            && (found.None? <==> exists j :: 0 <= j < |items| && ResolvePath(items[j], rest).None?)
            && (found.Some? ==>
                  forall c :: c in found.value <==> exists j :: 0 <= j < |items| && ItemGives(items, j, rest, c))
  {
    hide ListIndex, Broadcast;
    assert ([segment] + rest)[1..] == rest && ([segment] + rest)[0] == segment;
    BroadcastCollects(items, rest);
    var index := ListIndex(segment);
    if index.IndexAt? && -|items| <= index.i < |items| {
      var j := if index.i < 0 then |items| + index.i else index.i;
      var one, all := ResolvePath(items[j], rest), Broadcast(items, rest);
      assert ResolvePath(Array(items), [segment] + rest) == Both(one, all);
      if all.Some? {
        forall c | c in one.value ensures c in all.value {
          assert ItemGives(items, j, rest, c);
        }
      }
    }
  }

  // ---------------------------------------------------------------- numeric segments

  /** A decimal numeral is read as its number, with a minus sign as the negative; two signs raise. */
  lemma {:induction false} NumeralIsIndex(n: nat)
    ensures ListIndex(Decimal(n)) == IndexAt(n)
    ensures ListIndex([45] + Decimal(n)) == IndexAt(-(n as int))
    ensures ListIndex([45, 45] + Decimal(n)) == IndexRaises
  {
    DecimalDigits(n);
    DecimalValue(n);
    var s := Decimal(n);
    assert Stripped(s) == s;
    assert ([45] + s)[1..] == s && Stripped([45] + s) == s;
    assert ([45, 45] + s)[1..] == [45] + s;
  }

  lemma {:induction false} DecimalValue(n: nat)
    ensures Decimal(n) != [] && DigitsValue(Decimal(n)) == n
  {
    if n < 10 {
      assert Decimal(n)[..0] == [];
    } else {
      DecimalValue(n / 10);
      assert Decimal(n)[..|Decimal(n)| - 1] == Decimal(n / 10);
    }
  }

  /** `d` minus signs, then digits to the end, one at least. */
  predicate SignsThenDigits(s: seq<byte>, d: nat) {
    d < |s| && (forall i | 0 <= i < d :: s[i] == 45) && forall i | d <= i < |s| :: 48 <= s[i] <= 57
  }

  ghost predicate Numeral(s: seq<byte>) {
    exists d :: SignsThenDigits(s, d)
  }

  lemma {:induction false} IndexOnlyNumerals(s: seq<byte>)
    ensures ListIndex(s).NoIndex? <==> !Numeral(s)
  {
    if s != [] && s[0] == 45 {
      var t := s[1..];
      assert forall i | 0 <= i < |t| :: t[i] == s[i + 1];
      IndexOnlyNumerals(t);
      if d: nat :| SignsThenDigits(t, d) {
        assert forall i | 0 < i < |s| :: s[i] == t[i - 1];
        assert SignsThenDigits(s, d + 1);
      }
      if d: nat :| SignsThenDigits(s, d) {
        assert d > 0 && SignsThenDigits(t, d - 1);
      }
    } else {
      assert AllDigits(s) <==> SignsThenDigits(s, 0);
    }
  }

  // ---------------------------------------------------------------- "list.2"

  /** The value is the operand, or a list with it. */
  predicate Gives(v: Value, operand: Value) {
    ValuesEqual(v, operand) || (v.Array? && exists j :: 0 <= j < |v.items| && ValuesEqual(v.items[j], operand))
  }

  /**
    * {"field.n": operand} asks for element n of a list.  It matches whenever any element gives the
    * operand, so it decides as asked exactly when element n gives it or none does.
    */
  lemma IndexOverListIff(fs: seq<Field>, field: seq<byte>, items: seq<Value>, n: nat, cond: Condition)
    requires Get(fs, field) == Some(Array(items)) && n < |items| && !cond.v.Null?
    ensures var code := Matches(fs, [Clause([field, Decimal(n)], cond)]);
            && code.Some?
            && (code.value <==> exists j :: 0 <= j < |items| && Gives(items[j], cond.v))
            && ((code.value <==> Gives(items[n], cond.v))
                <==> Gives(items[n], cond.v) || !exists j :: 0 <= j < |items| && Gives(items[j], cond.v))
  {
    hide ValuesEqual, ResolvePath, MatchesEq, Gives, ItemGives, Decimal;
    var c := Clause([field, Decimal(n)], cond);
    NumeralIsIndex(n);
    assert [field, Decimal(n)] == [field] + [Decimal(n)] && [Decimal(n)] == [Decimal(n)] + [];
    PathThroughDict(Document(fs), field, [Decimal(n)]);
    PathThroughList(items, Decimal(n), []);
    forall j | 0 <= j < |items| ensures ResolvePath(items[j], []).Some? {
      PathEnd(items[j]);
    }
    forall j, v | 0 <= j < |items| ensures ItemGives(items, j, [], v) <==> EndGives(items[j], v) {
      EndOf(items, j, v);
    }
    MatchesIff(fs, [c]);
    AnyElement(fs, c, items);
  }

  /** The value at the end of a path gives the candidate. */
  predicate EndGives(v: Value, c: Value) {
    c == v || (v.Array? && c in v.items)
  }

  lemma EndOf(items: seq<Value>, j: nat, c: Value)
    requires j < |items|
    ensures ItemGives(items, j, [], c) <==> EndGives(items[j], c)
  {
    PathEnd(items[j]);
  }

  lemma GivesIff(v: Value, operand: Value)
    ensures Gives(v, operand) <==> exists c :: EndGives(v, c) && ValuesEqual(c, operand)
  {
    hide ValuesEqual;
    if Gives(v, operand) {
      if ValuesEqual(v, operand) {
        assert EndGives(v, v);
      } else {
        var j :| 0 <= j < |v.items| && ValuesEqual(v.items[j], operand);
        assert EndGives(v, v.items[j]);
      }
    }
  }

  lemma AnyElement(fs: seq<Field>, c: Clause, items: seq<Value>)
    requires !ClauseRaises(fs, c) && !c.cond.v.Null?
    requires forall v :: v in ResolvePath(Document(fs), c.path).value <==>
                         exists j :: 0 <= j < |items| && ItemGives(items, j, [], v)
    requires forall j, v | 0 <= j < |items| :: ItemGives(items, j, [], v) <==> EndGives(items[j], v)
    ensures ClauseHolds(fs, c) <==> exists j :: 0 <= j < |items| && Gives(items[j], c.cond.v)
  {
    hide ValuesEqual, ResolvePath, Gives, ItemGives, EndGives;
    if ClauseHolds(fs, c) {
      var v :| v in ResolvePath(Document(fs), c.path).value && ValuesEqual(v, c.cond.v);
      var j :| 0 <= j < |items| && ItemGives(items, j, [], v);
      GivesIff(items[j], c.cond.v);
    }
    if j :| 0 <= j < |items| && Gives(items[j], c.cond.v) {
      GivesIff(items[j], c.cond.v);
      var v :| EndGives(items[j], v) && ValuesEqual(v, c.cond.v);
      assert ItemGives(items, j, [], v);
    }
  }
}
