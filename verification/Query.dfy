/**
  * Filter evaluation (query.py), as the reference scan an index must agree with.
  *
  * A filter here is a list of clauses, each a field path with a literal or an `$eq`
  * operand; other operators are not part of this model.
  */
module Query {
  import opened Bytes
  import opened Grammar
  import opened Calendar
  import opened Codec
  import opened KeyOrder
  import opened Doubles
  import opened IndexKeys

  // ---------------------------------------------------------------- equality of values

  /** Python's exact comparison of a float with an int. */
  predicate DoubleIsInt(bits: nat, i: int) {
    IsFinite(bits) && SignedMagnitude(bits) == i * Pow2(1074)
  }

  predicate Numeric(v: Value) {
    v.Bool? || v.Int? || v.Double?
  }

  function AsInt(v: Value): int
    requires v.Bool? || v.Int?
  {
    if v.Int? then v.i else if v.b then 1 else 0
  }

  predicate NumbersEqual(a: Value, b: Value)
    requires Numeric(a) && Numeric(b)
  {
    if a.Double? && b.Double? then
      var x, y := FromLE(a.bits), FromLE(b.bits);
      !IsNaN(x) && !IsNaN(y) && DoubleValue(x) == DoubleValue(y)
    else if a.Double? then DoubleIsInt(FromLE(a.bits), AsInt(b))
    else if b.Double? then DoubleIsInt(FromLE(b.bits), AsInt(a))
    else AsInt(a) == AsInt(b)
  }

  /** Python's == on decoded values: dicts by content, lists element by element, True like 1. */
  predicate PyEqual(a: Value, b: Value)
    decreases a
  {
    if Numeric(a) && Numeric(b) then NumbersEqual(a, b)
    else
      match (a, b)
      case (Null, Null) => true
      case (Str(x), Str(y)) => x == y
      case (Bin(x), Bin(y)) => x == y
      case (ObjectId(x), ObjectId(y)) => x == y
      case (Time(x), Time(y)) => x == y
      case (Document(fs), Document(gs)) =>
        && |fs| == |gs|
        && forall i | 0 <= i < |fs| :: Get(gs, fs[i].key).Some? && PyEqual(fs[i].value, Get(gs, fs[i].key).value)
      case (Array(xs), Array(ys)) =>
        |xs| == |ys| && forall i | 0 <= i < |xs| :: PyEqual(xs[i], ys[i])
      case _ => false
  }

  /** _values_equal: at the top a bool equals only a bool. */
  predicate ValuesEqual(a: Value, b: Value) {
    a.Bool? == b.Bool? && PyEqual(a, b)
  }

  // ---------------------------------------------------------------- paths over lists

  /** A segment read as a list index: `lstrip("-").isdigit()`, then int(). */
  datatype Ordinal = NoIndex | IndexRaises | IndexAt(i: int)

  function Stripped(s: seq<byte>): seq<byte> {
    if s != [] && s[0] == 45 then Stripped(s[1..]) else s
  }

  predicate AllDigits(s: seq<byte>) {
    s != [] && forall i | 0 <= i < |s| :: 48 <= s[i] <= 57
  }

  function DigitsValue(s: seq<byte>): int {
    if s == [] then 0 else DigitsValue(s[..|s| - 1]) * 10 + (s[|s| - 1] as int - 48)
  }

  function ListIndex(segment: seq<byte>): Ordinal {
    var digits := Stripped(segment);
    if !AllDigits(digits) then NoIndex
    else if |segment| - |digits| > 1 then IndexRaises
    else IndexAt(if |segment| > |digits| then -DigitsValue(digits) else DigitsValue(digits))
  }

  /** resolve_path; None when int() raises on a segment such as "--1". */
  function ResolvePath(v: Value, segments: Path): Option<seq<Value>>
    decreases v, 1
  {
    if segments == [] then Some(if v.Array? then [v] + v.items else [v])
    else
      match v
      case Document(fs) => ResolveField(fs, segments[0], segments[1..])
      case Array(items) =>
        (match ListIndex(segments[0])
         case IndexRaises => None
         case NoIndex => Broadcast(items, segments[1..])
         case IndexAt(i) =>
           if -|items| <= i < |items| then
             Both(ResolvePath(items[if i < 0 then |items| + i else i], segments[1..]), Broadcast(items, segments[1..]))
           else Broadcast(items, segments[1..]))
      case _ => Some([])
  }

  function ResolveField(fs: seq<Field>, key: seq<byte>, rest: Path): Option<seq<Value>>
    decreases fs, 0
  {
    if fs == [] then Some([])
    else if fs[0].key == key then ResolvePath(fs[0].value, rest)
    else ResolveField(fs[1..], key, rest)
  }

  /** The loop over every element, with the segments after the current one. */
  function Broadcast(items: seq<Value>, rest: Path): Option<seq<Value>>
    decreases items, 0
  {
    if items == [] then Some([]) else Both(ResolvePath(items[0], rest), Broadcast(items[1..], rest))
  }

  function Both(a: Option<seq<Value>>, b: Option<seq<Value>>): Option<seq<Value>> {
    if a.None? || b.None? then None else Some(a.value + b.value)
  }

  // ---------------------------------------------------------------- filters

  predicate AnyEqual(candidates: seq<Value>, operand: Value) {
    exists i :: 0 <= i < |candidates| && ValuesEqual(candidates[i], operand)
  }

  /** _matches_eq. */
  predicate MatchesEq(candidates: seq<Value>, operand: Value) {
    (operand.Null? && candidates == []) || AnyEqual(candidates, operand)
  }

  /** `Literal` is any operand but a document of operators. */
  datatype Condition = Literal(v: Value) | EqOperator(v: Value)

  datatype Clause = Clause(path: Path, cond: Condition)

  type Filter = seq<Clause>

  /** matches: every clause, first to last; None when resolving a path raises. */
  function Matches(fs: seq<Field>, filter: Filter): Option<bool> {
    if filter == [] then Some(true)
    else
      var c := ResolvePath(Document(fs), filter[0].path);
      if c.None? then None
      else if !MatchesEq(c.value, filter[0].cond.v) then Some(false)
      else Matches(fs, filter[1..])
  }

  // ---------------------------------------------------------------- lists on the path

  /** Following the path meets no list, its last value included. */
  predicate ListFree(v: Value, segments: Path)
    decreases segments
  {
    && !v.Array?
    && (segments != [] && v.Document? && Get(v.fields, segments[0]).Some? ==>
          ListFree(Get(v.fields, segments[0]).value, segments[1..]))
  }

  lemma {:induction false} ResolveGet(fs: seq<Field>, key: seq<byte>, rest: Path)
    ensures ResolveField(fs, key, rest) ==
            if Get(fs, key).None? then Some([]) else ResolvePath(Get(fs, key).value, rest)
  {
    if fs == [] {
    } else {
      ResolveGet(fs[1..], key, rest);
    }
  }

  /** Without lists a path has the one candidate that the index stores, or none. */
  lemma {:induction false} ListFreeResolves(v: Value, segments: Path)
    requires ListFree(v, segments)
    ensures ResolvePath(v, segments) ==
            Some(if DirectValue(v, segments).None? then [] else [DirectValue(v, segments).value])
    decreases segments
  {
    if segments != [] && v.Document? {
      ResolveGet(v.fields, segments[0], segments[1..]);
      var next := Get(v.fields, segments[0]);
      if next.Some? {
        ListFreeResolves(next.value, segments[1..]);
      }
    }
  }

  /**
    * The description of resolve_path promises that "tags.name" finds the `name` of every
    * document in the list `tags`.  A segment that is no list index is dropped instead: any
    * other such segment gives the same candidates.
    */
  lemma {:induction false} NameOverListIsIgnored(items: seq<Value>, segment: seq<byte>, other: seq<byte>, rest: Path)
    requires ListIndex(segment).NoIndex? && ListIndex(other).NoIndex?
    ensures ResolvePath(Array(items), [segment] + rest) == ResolvePath(Array(items), [other] + rest)
  {
    assert ([segment] + rest)[1..] == rest && ([other] + rest)[1..] == rest;
  }

  predicate AllDocuments(items: seq<Value>) {
    forall i | 0 <= i < |items| :: items[i].Document?
  }

  /** The document's field is the operand, or a list with the operand in it. */
  predicate FieldGives(d: Value, segment: seq<byte>, operand: Value)
    requires d.Document?
  {
    var v := Get(d.fields, segment);
    && v.Some?
    && (ValuesEqual(v.value, operand)
        || (v.value.Array? && exists j :: 0 <= j < |v.value.items| && ValuesEqual(v.value.items[j], operand)))
  }

  predicate SomeGives(items: seq<Value>, segment: seq<byte>, operand: Value)
    requires AllDocuments(items)
  {
    exists i :: 0 <= i < |items| && FieldGives(items[i], segment, operand)
  }

  predicate NoneHas(items: seq<Value>, segment: seq<byte>)
    requires AllDocuments(items)
  {
    forall i | 0 <= i < |items| :: Get(items[i].fields, segment).None?
  }

  /** What the description says of "list.segment": a match in some document, or null and no such field. */
  predicate Described(items: seq<Value>, segment: seq<byte>, operand: Value)
    requires AllDocuments(items)
  {
    SomeGives(items, segment, operand) || (operand.Null? && NoneHas(items, segment))
  }

  lemma AnyEqualConcat(a: seq<Value>, b: seq<Value>, operand: Value)
    ensures AnyEqual(a + b, operand) <==> AnyEqual(a, operand) || AnyEqual(b, operand)
  {
    hide ValuesEqual;
    if i :| 0 <= i < |a| && ValuesEqual(a[i], operand) {
      assert (a + b)[i] == a[i];
    }
    if i :| 0 <= i < |b| && ValuesEqual(b[i], operand) {
      assert (a + b)[|a| + i] == b[i];
    }
  }

  /** One document's candidates for a last segment. */
  lemma FieldCandidates(d: Value, segment: seq<byte>, operand: Value)
    requires d.Document?
    ensures var c := ResolvePath(d, [segment]);
            && c.Some? && (c.value == [] <==> Get(d.fields, segment).None?)
            && (AnyEqual(c.value, operand) <==> FieldGives(d, segment, operand))
  {
    hide ValuesEqual;
    assert [segment][1..] == [];
    ResolveGet(d.fields, segment, []);
    var v := Get(d.fields, segment);
    if v.Some? {
      var items := if v.value.Array? then v.value.items else [];
      assert ResolvePath(v.value, []).value == [v.value] + items;
      AnyEqualConcat([v.value], items, operand);
      assert [v.value][0] == v.value;
    }
  }

  /** Following the segment in every document gives the candidates the description speaks of. */
  lemma {:induction false} DescribedCandidates(items: seq<Value>, segment: seq<byte>, operand: Value)
    requires AllDocuments(items)
    ensures var c := Broadcast(items, [segment]);
            && c.Some? && (c.value == [] <==> NoneHas(items, segment))
            && (AnyEqual(c.value, operand) <==> SomeGives(items, segment, operand))
  {
    hide ValuesEqual, FieldGives, ResolvePath, AnyEqual, SomeGives, NoneHas;
    if items == [] {
      NoneEqual(operand, segment);
    } else {
      var first, rest := items[0], items[1..];
      FirstOrRest(items, segment, operand);
      FieldCandidates(first, segment, operand);
      DescribedCandidates(rest, segment, operand);
      AnyEqualConcat(ResolvePath(first, [segment]).value, Broadcast(rest, [segment]).value, operand);
    }
  }

  lemma NoneEqual(operand: Value, segment: seq<byte>)
    ensures !AnyEqual([], operand) && !SomeGives([], segment, operand) && NoneHas([], segment)
  {
  }

  lemma FirstOrRest(items: seq<Value>, segment: seq<byte>, operand: Value)
    requires AllDocuments(items) && items != []
    ensures AllDocuments(items[1..])
    ensures SomeGives(items, segment, operand) <==>
              FieldGives(items[0], segment, operand) || SomeGives(items[1..], segment, operand)
    ensures NoneHas(items, segment) <==> Get(items[0].fields, segment).None? && NoneHas(items[1..], segment)
  {
    hide FieldGives;
    var rest := items[1..];
    assert forall i | 0 <= i < |rest| :: rest[i] == items[i + 1];
    assert forall i | 0 < i < |items| :: items[i] == rest[i - 1];
  }

  /** With no segments left a list of documents gives the documents themselves. */
  lemma {:induction false} DocumentsThemselves(items: seq<Value>)
    requires AllDocuments(items)
    ensures Broadcast(items, []) == Some(items)
  {
    if items == [] {
    } else {
      assert forall i | 0 <= i < |items[1..]| :: items[1..][i] == items[i + 1];
      DocumentsThemselves(items[1..]);
      assert ResolvePath(items[0], []) == Some([items[0]]) && [items[0]] + items[1..] == items;
    }
  }

  /**
    * Over any list of documents, a last segment that is no list index, and any operand but a
    * document: the code finds nothing, except null in an empty list.  It decides as the
    * description says exactly when the list is empty or the description finds nothing either.
    */
  lemma NameOverListIff(items: seq<Value>, segment: seq<byte>, operand: Value)
    requires AllDocuments(items) && ListIndex(segment).NoIndex? && !operand.Document?
    ensures var code, described := ResolvePath(Array(items), [segment]), Broadcast(items, [segment]);
            && code.Some? && described.Some?
            && (MatchesEq(described.value, operand) <==> Described(items, segment, operand))
            && (MatchesEq(code.value, operand) <==> items == [] && operand.Null?)
            && ((MatchesEq(code.value, operand) <==> MatchesEq(described.value, operand))
                <==> items == [] || !Described(items, segment, operand))
  {
    hide SomeGives, NoneHas, AnyEqual, ListIndex;
    assert [segment][1..] == [];
    DocumentsThemselves(items);
    DescribedCandidates(items, segment, operand);
    NoDocumentEquals(items, operand);
  }

  lemma NoDocumentEquals(items: seq<Value>, operand: Value)
    requires AllDocuments(items) && !operand.Document?
    ensures !AnyEqual(items, operand)
  {
    assert forall i | 0 <= i < |items| :: !ValuesEqual(items[i], operand);
  }

  /** As a filter sees it: {"field.segment": v} matches such a list only when it is empty and v is null. */
  lemma FilterOverList(fs: seq<Field>, field: seq<byte>, items: seq<Value>, segment: seq<byte>, cond: Condition)
    requires Get(fs, field) == Some(Array(items)) && AllDocuments(items)
    requires ListIndex(segment).NoIndex? && !cond.v.Document?
    ensures Matches(fs, [Clause([field, segment], cond)]) == Some(items == [] && cond.v.Null?)
  {
    hide ListIndex, MatchesEq, Described, Broadcast;
    NameOverListIff(items, segment, cond.v);
    ResolveGet(fs, field, [segment]);
    assert [field, segment][1..] == [segment];
    assert [Clause([field, segment], cond)][1..] == [];
  }

  /** So a list of one document {name: v} is never matched by its own name. */
  lemma NameInListNotFound(name: seq<byte>, v: Value)
    requires ListIndex(name).NoIndex? && ValuesEqual(v, v) && !v.Document?
    ensures var items := [Document([Field(name, v)])];
            && ResolvePath(Array(items), [name]) == Some(items)
            && !MatchesEq(items, v)
  {
    var d := Document([Field(name, v)]);
    assert [name][1..] == [] && [d][1..] == [];
    assert ResolvePath(d, []) == Some([d]);
    assert Broadcast([d], []) == Both(Some([d]), Broadcast([], []));
    assert [d] + [] == [d];
  }

  // ---------------------------------------------------------------- matching and keys

  /** A stored value equal to the operand under the other of int and float. */
  predicate CrossTyped(stored: Value, operand: Value) {
    ValuesEqual(stored, operand) && stored.Int? != operand.Int?
  }

  /** Equal indexable values have one key, unless one is an int and the other a float. */
  lemma EqualValuesShareKey(stored: Value, operand: Value)
    requires Indexable(stored) && Indexable(operand) && ValuesEqual(stored, operand)
    ensures Rank(EncodeKey(stored).key) == Rank(EncodeKey(operand).key) <==> !CrossTyped(stored, operand)
  {
    hide EncodeKey, Rank, ToEpochMs, FromLE, DoubleIsInt, SubRank;
    PayloadOfKey(stored);
    PayloadOfKey(operand);
    KeyEqualityIsValueEquality(stored, operand);
  }

  /**
    * On a document without lists on the path, an equality clause holds exactly when the
    * value the index stores equals the operand; then the keys agree, unless int meets float.
    */
  lemma {:induction false} MatchIsKeyMatch(fs: seq<Field>, path: Path, cond: Condition)
    requires ListFree(Document(fs), path) && IndexableAt(fs, path) && Indexable(cond.v)
    ensures Matches(fs, [Clause(path, cond)]) == Some(ValuesEqual(IndexValue(fs, path), cond.v))
    ensures Matches(fs, [Clause(path, cond)]) == Some(true) ==>
              (Rank(KeyAt(fs, path)) == Rank(EncodeKey(cond.v).key) <==> !CrossTyped(IndexValue(fs, path), cond.v))
  {
    hide Rank, EncodeKey, PyEqual;
    ListFreeResolves(Document(fs), path);
    NullEquals(cond.v);
    var filter := [Clause(path, cond)];
    assert filter[1..] == [];
    var c := DirectValue(Document(fs), path);
    if c.Some? {
      assert MatchesEq([c.value], cond.v) <==> ValuesEqual([c.value][0], cond.v);
    }
    if ValuesEqual(IndexValue(fs, path), cond.v) {
      EqualValuesShareKey(IndexValue(fs, path), cond.v);
    }
  }

  lemma NullEquals(v: Value)
    ensures ValuesEqual(Null, v) <==> v.Null?
  {
  }
}
