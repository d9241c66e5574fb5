/**
  * What it means that a filter's operand equals a stored value.
  *
  * Each value has a meaning: a number of any type is its exact value, a dict is a map and a list a
  * sequence of meanings.  Values compare equal exactly when they mean the same and hold no NaN.
  */
module Equality {
  import opened Bytes
  import opened Grammar
  import opened Calendar
  import opened Codec
  import opened KeyOrder
  import opened Doubles
  import opened IndexKeys
  import opened Query

  /** `units` counts 2^-1074, the unit every finite float is a multiple of. */
  datatype Meaning =
    | Nothing
    | Number(units: int)
    | Infinite(negative: bool)
    | NotNumber
    | Text(utf8: seq<byte>)
    | Blob(data: seq<byte>)
    | Id(id: seq<byte>)
    | Moment(t: DateTime)
    | Dict(entries: map<seq<byte>, Meaning>)
    | List(items: seq<Meaning>)

  function FloatMeaning(bits: nat): Meaning {
    if IsNaN(bits) then NotNumber
    else if IsFinite(bits) then Number(SignedMagnitude(bits))
    else Infinite(bits >= SIGN_BIT)
  }

  function MeaningOf(v: Value): Meaning
    decreases v, 1
  {
    match v
    case Null => Nothing
    case Bool(b) => Number(if b then Pow2(1074) else 0)
    case Int(i) => Number(i * Pow2(1074))
    case Double(bits) => FloatMeaning(FromLE(bits))
    case Str(s) => Text(s)
    case Bin(d) => Blob(d)
    case ObjectId(id) => Id(id)
    case Time(t) => Moment(t)
    case Document(fs) => Dict(Entries(fs))
    case Array(items) => List(Meanings(items))
  }

  function Entries(fs: seq<Field>): map<seq<byte>, Meaning>
    decreases fs, 0
  {
    if fs == [] then map[] else Entries(fs[1..])[fs[0].key := MeaningOf(fs[0].value)]
  }

  function Meanings(items: seq<Value>): (s: seq<Meaning>)
    ensures |s| == |items|
    decreases items, 0
  {
    if items == [] then [] else [MeaningOf(items[0])] + Meanings(items[1..])
  }

  /** A NaN anywhere in the value. */
  predicate NaNIn(v: Value)
    decreases v
  {
    match v
    case Double(bits) => IsNaN(FromLE(bits))
    case Document(fs) => exists i :: 0 <= i < |fs| && NaNIn(fs[i].value)
    case Array(items) => exists i :: 0 <= i < |items| && NaNIn(items[i])
    case _ => false
  }

  // ---------------------------------------------------------------- numbers

  lemma SameMultiple(i: int, j: int, p: nat)
    requires p > 0
    ensures i * p == j * p <==> i == j
  {
    if i * p == j * p {
      assert (i - j) * p == 0;
    }
  }

  lemma FloatsEqual(x: nat, y: nat)
    ensures !IsNaN(x) && !IsNaN(y) && DoubleValue(x) == DoubleValue(y)
            <==> FloatMeaning(x) == FloatMeaning(y) && !IsNaN(x)
  {
    hide SignedMagnitude;
    if !IsNaN(x) && !IsNaN(y) {
      ValueOrder(x, y);
    }
  }

  lemma NumberMeaning(v: Value)
    requires Numeric(v) && !v.Double?
    ensures MeaningOf(v) == Number(AsInt(v) * Pow2(1074))
  {
    hide Pow2;
  }

  /** Numbers are equal exactly when they have one value, whatever their types. */
  lemma NumbersMean(a: Value, b: Value)
    requires Numeric(a) && Numeric(b)
    ensures NumbersEqual(a, b) <==> MeaningOf(a) == MeaningOf(b) && !NaNIn(a)
  {
    hide Pow2, SignedMagnitude, FromLE, IsNaN;
    if a.Double? && b.Double? {
      FloatsEqual(FromLE(a.bits), FromLE(b.bits));
    } else {
      if !a.Double? {
        NumberMeaning(a);
      }
      if !b.Double? {
        NumberMeaning(b);
      }
      FloatOrInt(a);
      FloatOrInt(b);
      if !a.Double? && !b.Double? {
        SameMultiple(AsInt(a), AsInt(b), Pow2(1074));
      }
    }
  }

  lemma FloatOrInt(v: Value)
    ensures v.Double? ==>
              (MeaningOf(v).Number? <==> IsFinite(FromLE(v.bits)))
              && (MeaningOf(v).Number? ==>
                    !IsNaN(FromLE(v.bits)) && MeaningOf(v).units == SignedMagnitude(FromLE(v.bits)))
  {
    hide SignedMagnitude, FromLE;
  }

  // ---------------------------------------------------------------- dicts

  lemma {:induction false} EntriesAt(fs: seq<Field>, key: seq<byte>)
    ensures key in Entries(fs) <==> Get(fs, key).Some?
    ensures key in Entries(fs) ==> Entries(fs)[key] == MeaningOf(Get(fs, key).value)
  {
    hide MeaningOf;
    if fs == [] {
    } else {
      EntriesAt(fs[1..], key);
    }
  }

  lemma {:induction false} EntriesCount(fs: seq<Field>)
    requires DistinctKeys(fs)
    ensures |Entries(fs)| == |fs|
  {
    hide MeaningOf;
    if fs == [] {
    } else {
      var rest := fs[1..];
      assert forall i | 0 <= i < |rest| :: rest[i] == fs[i + 1];
      EntriesCount(rest);
      EntriesAt(rest, fs[0].key);
      assert Get(rest, fs[0].key).None?;
    }
  }

  lemma {:induction false} GetOwn(fs: seq<Field>, i: nat)
    requires DistinctKeys(fs) && i < |fs|
    ensures Get(fs, fs[i].key) == Some(fs[i].value)
  {
    var v := Get(fs, fs[i].key);
    assert v.Some?;
    var j :| 0 <= j < |fs| && fs[j] == Field(fs[i].key, v.value);
    assert i == j;
  }

  /** Field `i` has an equal one in the other dict. */
  predicate FieldIn(fs: seq<Field>, i: nat, gs: seq<Field>)
    requires i < |fs|
  {
    Get(gs, fs[i].key).Some? && MeaningOf(fs[i].value) == MeaningOf(Get(gs, fs[i].key).value)
  }

  lemma {:induction false} EntriesEqual(fs: seq<Field>, gs: seq<Field>)
    requires DistinctKeys(fs) && DistinctKeys(gs)
    ensures Entries(fs) == Entries(gs) <==> |fs| == |gs| && forall i | 0 <= i < |fs| :: FieldIn(fs, i, gs)
  {
    hide MeaningOf, Entries;
    EntriesCount(fs);
    EntriesCount(gs);
    var m, n := Entries(fs), Entries(gs);
    forall i | 0 <= i < |fs|
      ensures fs[i].key in m && m[fs[i].key] == MeaningOf(fs[i].value)
      ensures FieldIn(fs, i, gs) <==> fs[i].key in n && n[fs[i].key] == MeaningOf(fs[i].value)
    {
      GetOwn(fs, i);
      EntriesAt(fs, fs[i].key);
      EntriesAt(gs, fs[i].key);
    }
    if |fs| == |gs| && forall i | 0 <= i < |fs| :: FieldIn(fs, i, gs) {
      forall key | key in m ensures key in n && n[key] == m[key] {
        EntriesAt(fs, key);
        var i :| 0 <= i < |fs| && fs[i] == Field(key, Get(fs, key).value);
        assert FieldIn(fs, i, gs);
      }
      SameSize(m.Keys, n.Keys);
      assert m == n;
    }
  }

  lemma SameSize<T>(a: set<T>, b: set<T>)
    requires a <= b && |a| == |b|
    ensures a == b
  {
    assert |b - a| == 0;
  }

  // ---------------------------------------------------------------- the main result

  /** Python's == holds exactly when both mean the same and no NaN is in it. */
  lemma {:induction false} EqualIffSameMeaning(a: Value, b: Value)
    requires ValidValue(a) && ValidValue(b)
    ensures PyEqual(a, b) <==> MeaningOf(a) == MeaningOf(b) && !NaNIn(a)
    decreases a
  {
    hide Utf8.IsUtf8, ValidDateTime, NumbersEqual;
    if Numeric(a) && Numeric(b) {
      hide PyEqual;
      NumbersMean(a, b);
      ByNumbers(a, b);
    } else {
      match (a, b)
      case (Document(fs), Document(gs)) => DictsMean(fs, gs);
      case (Array(xs), Array(ys)) => ListsMean(xs, ys);
      case _ => OtherMeanings(a, b);
    }
  }

  lemma ByNumbers(a: Value, b: Value)
    requires Numeric(a) && Numeric(b)
    ensures PyEqual(a, b) <==> NumbersEqual(a, b)
  {
    hide NumbersEqual;
  }

  lemma OtherMeanings(a: Value, b: Value)
    requires !(Numeric(a) && Numeric(b)) && !(a.Document? && b.Document?) && !(a.Array? && b.Array?)
    ensures PyEqual(a, b) <==> MeaningOf(a) == MeaningOf(b) && !NaNIn(a)
  {
    hide NumbersEqual, Pow2, FromLE, SignedMagnitude, IsNaN, IsFinite;
  }

  lemma {:induction false} DictsMean(fs: seq<Field>, gs: seq<Field>)
    requires ValidValue(Document(fs)) && ValidValue(Document(gs))
    ensures PyEqual(Document(fs), Document(gs)) <==>
              MeaningOf(Document(fs)) == MeaningOf(Document(gs)) && !NaNIn(Document(fs))
    decreases fs, 0
  {
    hide Utf8.IsUtf8, MeaningOf, ValidValue, PyEqual, NaNIn;
    ValidParts(fs);
    ValidParts(gs);
    DictMeaning(fs);
    DictMeaning(gs);
    DictEqual(fs, gs);
    EntriesEqual(fs, gs);
    forall i | 0 <= i < |fs| ensures FieldEqual(fs, i, gs) <==> FieldIn(fs, i, gs) && !NaNIn(fs[i].value) {
      if Get(gs, fs[i].key).Some? {
        EqualIffSameMeaning(fs[i].value, Get(gs, fs[i].key).value);
      }
    }
  }

  /** Field `i` equals the other dict's under the same key. */
  predicate FieldEqual(fs: seq<Field>, i: nat, gs: seq<Field>)
    requires i < |fs|
  {
    Get(gs, fs[i].key).Some? && PyEqual(fs[i].value, Get(gs, fs[i].key).value)
  }

  lemma DictEqual(fs: seq<Field>, gs: seq<Field>)
    ensures PyEqual(Document(fs), Document(gs)) <==>
              |fs| == |gs| && forall i | 0 <= i < |fs| :: FieldEqual(fs, i, gs)
    ensures NaNIn(Document(fs)) <==> exists i :: 0 <= i < |fs| && NaNIn(fs[i].value)
  {
    if PyEqual(Document(fs), Document(gs)) {
      forall i | 0 <= i < |fs| ensures FieldEqual(fs, i, gs) {
        assert Get(gs, fs[i].key).Some? && PyEqual(fs[i].value, Get(gs, fs[i].key).value);
      }
    }
    if |fs| == |gs| && forall i | 0 <= i < |fs| :: FieldEqual(fs, i, gs) {
      forall i | 0 <= i < |fs|
        ensures Get(gs, fs[i].key).Some? && PyEqual(fs[i].value, Get(gs, fs[i].key).value)
      {
        assert FieldEqual(fs, i, gs);
      }
    }
  }

  lemma DictMeaning(fs: seq<Field>)
    ensures MeaningOf(Document(fs)) == Dict(Entries(fs))
  {
  }

  lemma ValidParts(fs: seq<Field>)
    requires ValidValue(Document(fs))
    ensures DistinctKeys(fs) && forall i | 0 <= i < |fs| :: ValidValue(fs[i].value)
    ensures forall key | Get(fs, key).Some? :: ValidValue(Get(fs, key).value)
  {
    hide Utf8.IsUtf8;
  }

  lemma {:induction false} MeaningsAt(items: seq<Value>)
    ensures forall i | 0 <= i < |items| :: Meanings(items)[i] == MeaningOf(items[i])
  {
    hide MeaningOf;
    if items == [] {
    } else {
      MeaningsAt(items[1..]);
    }
  }

  lemma {:induction false} ListsMean(xs: seq<Value>, ys: seq<Value>)
    requires ValidValue(Array(xs)) && ValidValue(Array(ys))
    ensures PyEqual(Array(xs), Array(ys)) <==>
              MeaningOf(Array(xs)) == MeaningOf(Array(ys)) && !NaNIn(Array(xs))
    decreases xs, 0
  {
    hide MeaningOf, Meanings;
    ListMeaning(xs);
    ListMeaning(ys);
    MeaningsAt(xs);
    MeaningsAt(ys);
    forall i | 0 <= i < |xs| && i < |ys|
      ensures PyEqual(xs[i], ys[i]) <==> MeaningOf(xs[i]) == MeaningOf(ys[i]) && !NaNIn(xs[i])
    {
      EqualIffSameMeaning(xs[i], ys[i]);
    }
    if |xs| == |ys| && forall i | 0 <= i < |xs| :: MeaningOf(xs[i]) == MeaningOf(ys[i]) {
      assert Meanings(xs) == Meanings(ys);
    }
  }

  lemma ListMeaning(xs: seq<Value>)
    ensures MeaningOf(Array(xs)) == List(Meanings(xs))
  {
  }

  // ---------------------------------------------------------------- what a filter's operand equals

  /** Of one meaning, and free of NaN. */
  predicate Same(a: Value, b: Value) {
    MeaningOf(a) == MeaningOf(b) && !NaNIn(a)
  }

  /** At the top a bool equals only a bool; otherwise values are equal that mean the same. */
  lemma ValuesEqualIff(a: Value, b: Value)
    requires ValidValue(a) && ValidValue(b)
    ensures ValuesEqual(a, b) <==> a.Bool? == b.Bool? && Same(a, b)
  {
    hide PyEqual, MeaningOf, NaNIn, ValidValue;
    EqualIffSameMeaning(a, b);
  }

  /** Neither a number nor a dict, nor a list with one in it. */
  predicate Plain(v: Value)
    decreases v
  {
    match v
    case Null | Str(_) | Bin(_) | ObjectId(_) | Time(_) => true
    case Array(items) => forall i | 0 <= i < |items| :: Plain(items[i])
    case _ => false
  }

  lemma {:induction false} PlainMeaning(a: Value, b: Value)
    requires Plain(a) && Plain(b)
    ensures MeaningOf(a) == MeaningOf(b) <==> a == b
    ensures !NaNIn(a)
    decreases a
  {
    hide Pow2, FromLE, SignedMagnitude;
    if a.Array? {
      forall i | 0 <= i < |a.items| ensures !NaNIn(a.items[i]) {
        PlainMeaning(a.items[i], a.items[i]);
      }
      if b.Array? {
        PlainLists(a.items, b.items);
      }
    }
  }

  lemma {:induction false} PlainLists(xs: seq<Value>, ys: seq<Value>)
    requires forall i | 0 <= i < |xs| :: Plain(xs[i])
    requires forall i | 0 <= i < |ys| :: Plain(ys[i])
    ensures Meanings(xs) == Meanings(ys) <==> xs == ys
    decreases xs, 0
  {
    hide MeaningOf, Meanings;
    MeaningsAt(xs);
    MeaningsAt(ys);
    if Meanings(xs) == Meanings(ys) {
      assert |xs| == |ys|;
      forall i | 0 <= i < |xs| ensures xs[i] == ys[i] {
        PlainMeaning(xs[i], ys[i]);
      }
    }
  }

  /** Strings, bytes, object ids, datetimes, null and lists of them are equal only to themselves. */
  lemma PlainEqual(a: Value, b: Value)
    requires ValidValue(a) && ValidValue(b) && Plain(a) && Plain(b)
    ensures ValuesEqual(a, b) <==> a == b
  {
    hide ValuesEqual, MeaningOf, NaNIn, ValidValue;
    ValuesEqualIff(a, b);
    PlainMeaning(a, b);
  }

  /** Dicts are equal exactly when they have the same keys, in any order, with equal values under them. */
  lemma DictsEqual(fs: seq<Field>, gs: seq<Field>)
    requires ValidValue(Document(fs)) && ValidValue(Document(gs))
    ensures ValuesEqual(Document(fs), Document(gs)) <==>
              forall key :: var v, w := Get(fs, key), Get(gs, key);
                v.Some? == w.Some? && (v.Some? ==> Same(v.value, w.value))
  {
    hide Utf8.IsUtf8, MeaningOf, ValidValue, PyEqual, NaNIn;
    ValidParts(fs);
    EqualIffSameMeaning(Document(fs), Document(gs));
    DictMeaning(fs);
    DictMeaning(gs);
    DictEqual(fs, gs);
    forall key
      ensures key in Entries(fs) <==> Get(fs, key).Some?
      ensures key in Entries(gs) <==> Get(gs, key).Some?
      ensures key in Entries(fs) ==> Entries(fs)[key] == MeaningOf(Get(fs, key).value)
      ensures key in Entries(gs) ==> Entries(gs)[key] == MeaningOf(Get(gs, key).value)
    {
      EntriesAt(fs, key);
      EntriesAt(gs, key);
    }
    forall i | 0 <= i < |fs| ensures Get(fs, fs[i].key) == Some(fs[i].value) {
      GetOwn(fs, i);
    }
    ByKeys(fs, gs);
    if !NaNIn(Document(fs)) {
      assert forall key | Get(fs, key).Some? :: !NaNIn(Get(fs, key).value);
    } else if forall key :: AgreeOn(fs, gs, key) {
      var i :| 0 <= i < |fs| && NaNIn(fs[i].value);
      assert !(Get(fs, fs[i].key).Some? ==> Same(Get(fs, fs[i].key).value, Get(gs, fs[i].key).value));
    }
  }

  /** Both dicts have the key, with values of one meaning, or neither has it. */
  predicate AgreeOn(fs: seq<Field>, gs: seq<Field>, key: seq<byte>) {
    var v, w := Get(fs, key), Get(gs, key);
    v.Some? == w.Some? && (v.Some? ==> MeaningOf(v.value) == MeaningOf(w.value))
  }

  lemma ByKeys(fs: seq<Field>, gs: seq<Field>)
    requires forall key :: key in Entries(fs) <==> Get(fs, key).Some?
    requires forall key :: key in Entries(gs) <==> Get(gs, key).Some?
    requires forall key | key in Entries(fs) :: Entries(fs)[key] == MeaningOf(Get(fs, key).value)
    requires forall key | key in Entries(gs) :: Entries(gs)[key] == MeaningOf(Get(gs, key).value)
    ensures Entries(fs) == Entries(gs) <==> forall key :: AgreeOn(fs, gs, key)
  {
    hide Entries, MeaningOf, Get;
    var m, n := Entries(fs), Entries(gs);
    if m != n {
      if key :| key in m && (key !in n || m[key] != n[key]) {
        assert !AgreeOn(fs, gs, key);
      } else {
        var key :| key in n && key !in m;
        assert !AgreeOn(fs, gs, key);
      }
    }
  }

  /** An int equals a float exactly when the float is finite and has its value; ints by value, floats too. */
  lemma NumbersEqualIff(i: int, j: int, x: seq<byte>, y: seq<byte>)
    requires |x| == 8 && |y| == 8
    ensures ValuesEqual(Int(i), Int(j)) <==> i == j
    ensures ValuesEqual(Int(i), Double(x)) <==> IsFinite(FromLE(x)) && SignedMagnitude(FromLE(x)) == i * Pow2(1074)
    ensures ValuesEqual(Double(x), Int(i)) <==> IsFinite(FromLE(x)) && SignedMagnitude(FromLE(x)) == i * Pow2(1074)
    ensures ValuesEqual(Double(x), Double(y)) <==>
              !IsNaN(FromLE(x)) && !IsNaN(FromLE(y)) && SignedMagnitude(FromLE(x)) == SignedMagnitude(FromLE(y))
    ensures !ValuesEqual(Bool(true), Int(i)) && !ValuesEqual(Double(x), Bool(true))
  {
    hide Pow2, SignedMagnitude, FromLE, IsNaN, DoubleValue;
    if !IsNaN(FromLE(x)) && !IsNaN(FromLE(y)) {
      ValueOrder(FromLE(x), FromLE(y));
    }
  }
}
