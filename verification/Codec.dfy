/**
  * Documents as Python holds them, the syntax trees they are written as, and back.
  *
  * `ToRaw` says what _bson_core.c's encoder writes and `FromFields` what its decoder
  * builds; the round trip is proved here, and modules Encoder and Decoder prove that
  * the step-by-step code computes these functions.
  */
module Codec {
  import opened Bytes
  import opened Grammar
  import opened Calendar
  import Utf8

  /** A str is its UTF-8 bytes, a float its eight bytes, a dict its items in insertion order. */
  datatype Value =
    | Null
    | Bool(b: bool)
    | Int(i: int)
    | Double(bits: seq<byte>)
    | Str(utf8: seq<byte>)
    | Bin(data: seq<byte>)
    | ObjectId(id: seq<byte>)
    | Time(t: DateTime)
    | Document(fields: seq<Field>)
    | Array(items: seq<Value>)

  datatype Field = Field(key: seq<byte>, value: Value)

  const INT32_MAX := 0x7FFF_FFFF
  const INT64_MAX := 0x7FFF_FFFF_FFFF_FFFF

  predicate IsInt32(i: int) {
    -INT32_MAX - 1 <= i <= INT32_MAX
  }

  predicate IsInt64(i: int) {
    -INT64_MAX - 1 <= i <= INT64_MAX
  }

  ghost predicate DistinctKeys(fs: seq<Field>) {
    forall i, j | 0 <= i < j < |fs| :: fs[i].key != fs[j].key
  }

  /** What Python's own types guarantee of a value. */
  ghost predicate ValidValue(v: Value)
    decreases v
  {
    match v
    case Str(s) => Utf8.IsUtf8(s)
    case Double(b) => |b| == 8
    case ObjectId(b) => |b| == 12
    case Time(t) => ValidDateTime(t)
    case Document(fs) =>
      DistinctKeys(fs) && forall i | 0 <= i < |fs| :: Utf8.IsUtf8(fs[i].key) && ValidValue(fs[i].value)
    case Array(items) => forall i | 0 <= i < |items| :: ValidValue(items[i])
    case _ => true
  }

  // ---------------------------------------------------------------- what cannot be encoded

  /**
    * The first error the encoder meets in a value at nesting depth `depth`, in the order
    * it walks; running out of document size is not among them.
    */
  function FirstError(v: Value, depth: nat): Option<Status>
    decreases v, 1
  {
    match v
    case Int(i) => if IsInt64(i) then None else Some(ValueOutOfRange)
    case Str(s) => if |s| > INT32_MAX - 1 then Some(ValueOutOfRange) else None
    case Bin(d) => if |d| > INT32_MAX then Some(ValueOutOfRange) else None
    case Document(fs) => if depth > MAX_DEPTH then Some(MaxDepthExceeded) else FieldsError(fs, depth)
    case Array(items) => if depth > MAX_DEPTH then Some(MaxDepthExceeded) else ItemsError(items, depth)
    case _ => None
  }

  function FieldsError(fs: seq<Field>, depth: nat): Option<Status>
    decreases fs, 0
  {
    if fs == [] then None
    else if 0 in fs[0].key then Some(InvalidKey)
    else
      var e := FirstError(fs[0].value, depth + 1);
      if e.Some? then e else FieldsError(fs[1..], depth)
  }

  function ItemsError(items: seq<Value>, depth: nat): Option<Status>
    decreases items, 0
  {
    if items == [] then None
    else
      var e := FirstError(items[0], depth + 1);
      if e.Some? then e else ItemsError(items[1..], depth)
  }

  // ---------------------------------------------------------------- encoding

  function TypeOf(v: Value): byte {
    match v
    case Null => TYPE_NULL
    case Bool(_) => TYPE_BOOL
    case Int(i) => if IsInt32(i) then TYPE_INT32 else TYPE_INT64
    case Double(_) => TYPE_DOUBLE
    case Str(_) => TYPE_STRING
    case Bin(_) => TYPE_BINARY
    case ObjectId(_) => TYPE_OBJECTID
    case Time(_) => TYPE_DATETIME
    case Document(_) => TYPE_DOCUMENT
    case Array(_) => TYPE_ARRAY
  }

  /** A two's complement field of `n` bytes; a value out of range is cut as a C store cuts it. */
  function IntBytes(i: int, n: nat): (s: seq<byte>)
    ensures |s| == n
  {
    ToLE(i % Pow256(n), n)
  }

  const BINARY_GENERIC: byte := 0

  function ToPayload(v: Value): Payload
    decreases v, 1
  {
    match v
    case Null => Flat([])
    case Bool(b) => Flat([if b then 1 else 0])
    case Int(i) => Flat(if IsInt32(i) then IntBytes(i, 4) else IntBytes(i, 8))
    case Double(bits) => Flat(bits)
    case Str(s) => Flat(IntBytes(|s| + 1, 4) + s + [0])
    case Bin(d) => Flat(IntBytes(|d|, 4) + [BINARY_GENERIC] + d)
    case ObjectId(id) => Flat(id)
    case Time(t) => Flat(IntBytes(ToEpochMs(t), 8))
    case Document(fs) => Sub(Raw(ToElems(fs)))
    case Array(items) => Sub(Raw(ItemElems(items, 0)))
  }

  function ToElems(fs: seq<Field>): seq<Elem>
    decreases fs, 0
  {
    if fs == [] then []
    else [Elem(TypeOf(fs[0].value), fs[0].key, ToPayload(fs[0].value))] + ToElems(fs[1..])
  }

  /** Array elements are keyed by their index in decimal. */
  function ItemElems(items: seq<Value>, from: nat): seq<Elem>
    decreases items, 0
  {
    if items == [] then []
    else [Elem(TypeOf(items[0]), Decimal(from), ToPayload(items[0]))] + ItemElems(items[1..], from + 1)
  }

  function Decimal(n: nat): seq<byte> {
    if n < 10 then [48 + n] else Decimal(n / 10) + [48 + n % 10]
  }

  /** The tree of a top-level document. */
  function ToRaw(fs: seq<Field>): Raw {
    Raw(ToElems(fs))
  }

  // ---------------------------------------------------------------- decoding

  /** PyDict_SetItem: a repeated key keeps its place and takes the new value. */
  function SetField(fs: seq<Field>, key: seq<byte>, v: Value): seq<Field> {
    if fs == [] then [Field(key, v)]
    else if fs[0].key == key then [Field(key, v)] + fs[1..]
    else [fs[0]] + SetField(fs[1..], key, v)
  }

  /** build_value on a validated value that is not a document. */
  ghost function FromFlat(typ: byte, b: seq<byte>): Result<Value>
    requires FlatOk(typ, b)
  {
    if typ == TYPE_NULL then Ok(Null)
    else if typ == TYPE_BOOL then Ok(Bool(b[0] != 0))
    else if typ == TYPE_INT32 || typ == TYPE_INT64 then Ok(Int(SignedLE(b)))
    else if typ == TYPE_DOUBLE then Ok(Double(b))
    else if typ == TYPE_OBJECTID then Ok(ObjectId(b))
    else if typ == TYPE_BINARY then Ok(Bin(b[5..]))
    else if typ == TYPE_DATETIME then
      match FromEpochMs(SignedLE(b))
      case OutOfRange => Err(ValueOutOfRange)
      case InRange(t) => Ok(Time(t))
    else
      var s := b[4..|b| - 1];
      if b[|b| - 1] != 0 then Err(UnterminatedString)
      else if !Utf8.IsUtf8(s) then Err(InvalidUtf8)
      else Ok(Str(s))
  }

  /** build_value. */
  ghost function FromElem(e: Elem, depth: nat): Result<Value>
    requires WfElem(e, depth)
    decreases e, 1
  {
    match e.payload
    case Flat(b) => FromFlat(e.typ, b)
    case Sub(d) =>
      assert WfDoc(d, depth + 1);
      if e.typ == TYPE_DOCUMENT then
        var fs := FromFields(d.elems, depth + 1, []);
        if fs.Err? then Err(fs.status) else Ok(Document(fs.value))
      else
        var items := FromItems(d.elems, depth + 1, []);
        if items.Err? then Err(items.status) else Ok(Array(items.value))
  }

  /** build_document's loop, from the dict built so far. */
  ghost function FromFields(es: seq<Elem>, depth: nat, done: seq<Field>): Result<seq<Field>>
    requires forall i | 0 <= i < |es| :: WfElem(es[i], depth)
    decreases es, 0
  {
    if es == [] then Ok(done)
    else
      var v := FromElem(es[0], depth);
      if v.Err? then Err(v.status) else FromFields(es[1..], depth, SetField(done, es[0].key, v.value))
  }

  /** build_array's loop. */
  ghost function FromItems(es: seq<Elem>, depth: nat, done: seq<Value>): Result<seq<Value>>
    requires forall i | 0 <= i < |es| :: WfElem(es[i], depth)
    decreases es, 0
  {
    if es == [] then Ok(done)
    else
      var v := FromElem(es[0], depth);
      if v.Err? then Err(v.status) else FromItems(es[1..], depth, done + [v.value])
  }

  /** py_decode: validate the whole buffer, then build. */
  ghost function DecodeSpec(b: seq<byte>): Result<seq<Field>> {
    ValidatorIsGrammar(b);
    var d := ValidateSpec(b);
    if d.Err? then Err(d.status) else FromFields(d.value.elems, 0, [])
  }

  /** The bytes encode produces. */
  function Encoding(fs: seq<Field>): seq<byte> {
    Ser(ToRaw(fs))
  }

  /** What BSON keeps of a value: datetimes to the millisecond, everything else as it is. */
  function Normal(v: Value): Value
    decreases v, 1
  {
    match v
    case Time(t) => Time(ToMillis(t))
    case Document(fs) => Document(NormalFields(fs))
    case Array(items) => Array(NormalItems(items))
    case _ => v
  }

  function NormalFields(fs: seq<Field>): seq<Field>
    decreases fs, 0
  {
    if fs == [] then [] else [Field(fs[0].key, Normal(fs[0].value))] + NormalFields(fs[1..])
  }

  function NormalItems(items: seq<Value>): seq<Value>
    decreases items, 0
  {
    if items == [] then [] else [Normal(items[0])] + NormalItems(items[1..])
  }

  // ---------------------------------------------------------------- printed values are well formed

  lemma {:induction false} IntBytesRoundTrip(i: int, n: nat)
    requires (n == 4 || n == 8) && -Pow256(n) <= 2 * i < Pow256(n)
    ensures SignedLE(IntBytes(i, n)) == i
  {
    hide ToLE, FromLE;
    Pow256Values();
    if n == 4 {
      assert i % 0x1_0000_0000 == if i >= 0 then i else i + 0x1_0000_0000;
    } else {
      assert i % 0x1_0000_0000_0000_0000 == if i >= 0 then i else i + 0x1_0000_0000_0000_0000;
    }
    FromToLE(i % Pow256(n), n);
  }

  lemma {:induction false} DecimalIsKey(n: nat)
    ensures 0 !in Decimal(n) && Utf8.IsUtf8(Decimal(n))
  {
    var s := Decimal(n);
    DecimalDigits(n);
    AsciiIsUtf8(s);
  }

  lemma {:induction false} DecimalDigits(n: nat)
    ensures forall i | 0 <= i < |Decimal(n)| :: 48 <= Decimal(n)[i] < 58
  {
    if n >= 10 {
      DecimalDigits(n / 10);
    }
  }

  lemma {:induction false} AsciiIsUtf8(s: seq<byte>)
    requires forall i | 0 <= i < |s| :: s[i] < 0x80
    ensures Utf8.IsUtf8(s)
  {
    hide Utf8.IsUtf8;
    if s == [] {
      Utf8.EmptyIsUtf8();
    } else {
      AsciiIsUtf8(s[1..]);
      Utf8.ConsIsUtf8(s[0], s[1..]);
      assert Utf8.Encode(s[0]) + s[1..] == s;
    }
  }

  lemma {:induction false} FlatPayloadOk(v: Value)
    requires ValidValue(v) && FirstError(v, 0).None? && !v.Document? && !v.Array?
    ensures FlatOk(TypeOf(v), ToPayload(v).bytes)
  {
    hide Utf8.IsUtf8, ToEpochMs, ValidDateTime;
    Pow256Values();
    match v {
      case Str(s) =>
        var b := ToPayload(v).bytes;
        assert b[..4] == IntBytes(|s| + 1, 4);
        IntBytesRoundTrip(|s| + 1, 4);
      case Bin(d) =>
        var b := ToPayload(v).bytes;
        assert b[..4] == IntBytes(|d|, 4);
        IntBytesRoundTrip(|d|, 4);
      case _ =>
    }
  }

  /** The tree of an encodable value is in the grammar, if it is not too large. */
  lemma {:induction false} PayloadWf(v: Value, depth: nat)
    requires ValidValue(v) && FirstError(v, depth).None?
    requires |PayloadBytes(Elem(TypeOf(v), [], ToPayload(v)))| <= MAX_DOCUMENT_SIZE
    ensures match ToPayload(v)
            case Flat(b) => FlatOk(TypeOf(v), b)
            case Sub(d) => IsNested(TypeOf(v)) && WfDoc(d, depth)
    decreases v, 1
  {
    hide Utf8.IsUtf8, ToEpochMs, ValidDateTime, FlatOk, IntBytes, Ser;
    match v {
      case Document(fs) => FieldsWf(fs, depth);
      case Array(items) => ItemsWf(items, 0, depth);
      case _ => FlatPayloadOk(v);
    }
  }

  lemma {:induction false} SerSize(d: Raw)
    ensures |Ser(d)| == |SerElems(d.elems)| + DOC_MIN_LEN
  {
  }

  lemma {:induction false} FieldsWf(fs: seq<Field>, depth: nat)
    requires forall i | 0 <= i < |fs| :: Utf8.IsUtf8(fs[i].key) && ValidValue(fs[i].value)
    requires FieldsError(fs, depth).None?
    requires |Ser(Raw(ToElems(fs)))| <= MAX_DOCUMENT_SIZE && depth <= MAX_DEPTH
    ensures WfDoc(Raw(ToElems(fs)), depth)
    decreases fs, 0
  {
    hide Utf8.IsUtf8, ValidValue, FlatOk, IntBytes, Ser, ToPayload, TypeOf;
    if fs == [] {
    } else {
      var es := ToElems(fs);
      var e := es[0];
      assert es[1..] == ToElems(fs[1..]);
      SerSize(Raw(es));
      SerSize(Raw(es[1..]));
      ElemSize(e);
      PayloadWf(fs[0].value, depth + 1);
      FieldsWf(fs[1..], depth);
      forall i | 0 <= i < |es| ensures WfElem(es[i], depth) {
        assert i > 0 ==> es[i] == Raw(es[1..]).elems[i - 1];
      }
    }
  }

  lemma {:induction false} ElemSize(e: Elem)
    ensures |SerElem(e)| == |e.key| + 2 + |PayloadBytes(e)|
  {
  }

  lemma {:induction false} ItemsWf(items: seq<Value>, from: nat, depth: nat)
    requires forall i | 0 <= i < |items| :: ValidValue(items[i])
    requires ItemsError(items, depth).None?
    requires |Ser(Raw(ItemElems(items, from)))| <= MAX_DOCUMENT_SIZE && depth <= MAX_DEPTH
    ensures WfDoc(Raw(ItemElems(items, from)), depth)
    decreases items, 0
  {
    hide Utf8.IsUtf8, ValidValue, FlatOk, IntBytes, Ser, ToPayload, TypeOf;
    if items == [] {
    } else {
      var es := ItemElems(items, from);
      var e := es[0];
      assert es[1..] == ItemElems(items[1..], from + 1);
      SerSize(Raw(es));
      SerSize(Raw(es[1..]));
      ElemSize(e);
      PayloadWf(items[0], depth + 1);
      DecimalIsKey(from);
      ItemsWf(items[1..], from + 1, depth);
      forall i | 0 <= i < |es| ensures WfElem(es[i], depth) {
        assert i > 0 ==> es[i] == Raw(es[1..]).elems[i - 1];
      }
    }
  }

  // ---------------------------------------------------------------- the round trip

  lemma {:induction false} FlatRoundTrip(v: Value)
    requires ValidValue(v) && FirstError(v, 0).None? && !v.Document? && !v.Array?
    requires FlatOk(TypeOf(v), ToPayload(v).bytes)
    ensures FromFlat(TypeOf(v), ToPayload(v).bytes) == Ok(Normal(v))
  {
    hide Utf8.IsUtf8, ToEpochMs, FromEpochMs;
    Pow256Values();
    match v {
      case Int(i) =>
        IntBytesRoundTrip(i, if IsInt32(i) then 4 else 8);
      case Str(s) =>
        var b := ToPayload(v).bytes;
        assert b[4..|b| - 1] == s;
      case Bin(d) =>
        assert ToPayload(v).bytes[5..] == d;
      case Time(t) =>
        DateTimeRoundTrip(t);
        EpochMsInt64(t);
        IntBytesRoundTrip(ToEpochMs(t), 8);
      case _ =>
    }
  }

  lemma EpochMsInt64(t: DateTime)
    requires ValidDateTime(t)
    ensures IsInt64(ToEpochMs(t))
  {
    hide DaysFromCivil;
    YearBounds(t.date);
  }

  lemma {:induction false} ElemRoundTrip(v: Value, key: seq<byte>, depth: nat)
    requires ValidValue(v) && FirstError(v, depth + 1).None?
    requires WfElem(Elem(TypeOf(v), key, ToPayload(v)), depth)
    ensures FromElem(Elem(TypeOf(v), key, ToPayload(v)), depth) == Ok(Normal(v))
    decreases v, 1
  {
    hide Utf8.IsUtf8, ToEpochMs, ValidDateTime, FlatOk, IntBytes, FromFlat;
    match v {
      case Document(fs) =>
        assert [] + fs == fs && [] + NormalFields(fs) == NormalFields(fs);
        FieldsRoundTrip(fs, depth + 1, []);
      case Array(items) =>
        assert [] + NormalItems(items) == NormalItems(items);
        ItemsRoundTrip(items, 0, depth + 1, []);
      case _ =>
        FlatRoundTrip(v);
    }
  }

  lemma {:induction false} SetFresh(fs: seq<Field>, key: seq<byte>, v: Value)
    requires forall i | 0 <= i < |fs| :: fs[i].key != key
    ensures SetField(fs, key, v) == fs + [Field(key, v)]
  {
    if fs == [] {
    } else {
      SetFresh(fs[1..], key, v);
    }
  }

  /** A key that is there keeps its place. */
  lemma {:induction false} SetInPlace(fs: seq<Field>, key: seq<byte>, v: Value, i: nat)
    requires i < |fs| && fs[i].key == key && forall j | 0 <= j < i :: fs[j].key != key
    ensures SetField(fs, key, v) == fs[i := Field(key, v)]
  {
    if i == 0 {
    } else {
      SetInPlace(fs[1..], key, v, i - 1);
    }
  }

  lemma {:induction false} FieldsRoundTrip(fs: seq<Field>, depth: nat, done: seq<Field>)
    requires forall i | 0 <= i < |fs| :: ValidValue(fs[i].value)
    requires DistinctKeys(done + fs)
    requires FieldsError(fs, depth).None?
    requires forall i | 0 <= i < |ToElems(fs)| :: WfElem(ToElems(fs)[i], depth)
    ensures FromFields(ToElems(fs), depth, done) == Ok(done + NormalFields(fs))
    decreases fs, 0
  {
    hide Utf8.IsUtf8, ValidValue, ToPayload, TypeOf, FromElem, Normal, FlatOk, WfElem, DistinctKeys, SetField;
    hide FirstError, FromFields, FieldsError, ToElems, NormalFields;
    if fs == [] {
      NothingNormal();
      NoFields(depth, done);
      assert done + [] == done;
    } else {
      var es := ToElems(fs);
      FieldsHead(fs, depth);
      FieldsTurn(es, depth, done);
      assert WfElem(es[0], depth);
      assert es[1..] == ToElems(fs[1..]);
      assert forall i | 0 <= i < |es[1..]| :: es[1..][i] == es[i + 1];
      ElemRoundTrip(fs[0].value, fs[0].key, depth);
      var f := Field(fs[0].key, Normal(fs[0].value));
      KeysStayDistinct(done, fs, f);
      SetFresh(done, f.key, f.value);
      FieldsRoundTrip(fs[1..], depth, done + [f]);
      assert done + NormalFields(fs) == (done + [f]) + NormalFields(fs[1..]);
    }
  }

  lemma {:induction false} FieldsHead(fs: seq<Field>, depth: nat)
    requires fs != []
    ensures var es := ToElems(fs);
            && es != [] && es[0] == Elem(TypeOf(fs[0].value), fs[0].key, ToPayload(fs[0].value))
            && es[1..] == ToElems(fs[1..])
    ensures NormalFields(fs) == [Field(fs[0].key, Normal(fs[0].value))] + NormalFields(fs[1..])
    ensures FieldsError(fs, depth).None? ==>
              FirstError(fs[0].value, depth + 1).None? && FieldsError(fs[1..], depth).None?
  {
    hide TypeOf, ToPayload, Normal, FirstError;
  }

  lemma NothingNormal()
    ensures NormalFields([]) == [] && ToElems([]) == []
  {
  }

  lemma {:induction false} NoFields(depth: nat, done: seq<Field>)
    ensures FromFields([], depth, done) == Ok(done)
  {
  }

  /** One turn of the loop over the elements of a dict. */
  lemma {:induction false} FieldsTurn(es: seq<Elem>, depth: nat, done: seq<Field>)
    requires es != [] && forall i | 0 <= i < |es| :: WfElem(es[i], depth)
    ensures FromElem(es[0], depth).Ok? ==>
              FromFields(es, depth, done) ==
              FromFields(es[1..], depth, SetField(done, es[0].key, FromElem(es[0], depth).value))
  {
    hide WfElem, FromElem, SetField;
  }

  lemma KeysStayDistinct(done: seq<Field>, fs: seq<Field>, f: Field)
    requires fs != [] && f.key == fs[0].key && DistinctKeys(done + fs)
    ensures DistinctKeys((done + [f]) + fs[1..])
    ensures forall i | 0 <= i < |done| :: done[i].key != f.key
  {
    assert forall i | 0 <= i < |done| :: (done + fs)[i] == done[i];
    assert (done + fs)[|done|] == fs[0];
    var a, b := done + fs, (done + [f]) + fs[1..];
    assert |a| == |b|;
    assert forall i | 0 <= i < |b| :: b[i].key == a[i].key;
  }

  lemma {:induction false} ItemsRoundTrip(items: seq<Value>, from: nat, depth: nat, done: seq<Value>)
    requires forall i | 0 <= i < |items| :: ValidValue(items[i])
    requires ItemsError(items, depth).None?
    requires forall i | 0 <= i < |ItemElems(items, from)| :: WfElem(ItemElems(items, from)[i], depth)
    ensures FromItems(ItemElems(items, from), depth, done) == Ok(done + NormalItems(items))
    decreases items, 0
  {
    hide Utf8.IsUtf8, ValidValue, ToPayload, TypeOf, FromElem, Normal, FlatOk, WfElem;
    if items == [] {
      assert done + NormalItems(items) == done;
    } else {
      var es := ItemElems(items, from);
      assert WfElem(es[0], depth);
      assert es[1..] == ItemElems(items[1..], from + 1);
      assert forall i | 0 <= i < |es[1..]| :: es[1..][i] == es[i + 1];
      ElemRoundTrip(items[0], Decimal(from), depth);
      var v := Normal(items[0]);
      ItemsRoundTrip(items[1..], from + 1, depth, done + [v]);
      assert done + NormalItems(items) == (done + [v]) + NormalItems(items[1..]);
    }
  }

  /**
    * Encoding a dict that has no error and fits gives bytes that validate, and decoding
    * them gives back the same values under the same keys in the same order.
    */
  lemma {:induction false} RoundTrip(fs: seq<Field>)
    requires ValidValue(Document(fs)) && FirstError(Document(fs), 0).None?
    requires |Encoding(fs)| <= MAX_DOCUMENT_SIZE
    ensures ValidateSpec(Encoding(fs)) == Ok(ToRaw(fs))
    ensures DecodeSpec(Encoding(fs)) == Ok(NormalFields(fs))
  {
    hide Ser, WfElem, FlatOk, ValidateSpec;
    PayloadWf(Document(fs), 0);
    ValidatorIsGrammar(Encoding(fs));
    assert [] + fs == fs && [] + NormalFields(fs) == NormalFields(fs);
    FieldsRoundTrip(fs, 0, []);
  }

  /** Whole-millisecond datetimes at every depth: nothing is lost. */
  predicate WholeMillis(v: Value)
    decreases v
  {
    match v
    case Time(t) => t.microsecond % 1000 == 0
    case Document(fs) => forall i | 0 <= i < |fs| :: WholeMillis(fs[i].value)
    case Array(items) => forall i | 0 <= i < |items| :: WholeMillis(items[i])
    case _ => true
  }

  lemma {:induction false} NormalIsIdentity(v: Value)
    ensures Normal(v) == v <==> WholeMillis(v)
    decreases v, 1
  {
    match v
    case Document(fs) => NormalFieldsIdentity(fs);
    case Array(items) => NormalItemsIdentity(items);
    case _ =>
  }

  lemma {:induction false} NormalFieldsIdentity(fs: seq<Field>)
    ensures NormalFields(fs) == fs <==> forall i | 0 <= i < |fs| :: WholeMillis(fs[i].value)
    decreases fs, 0
  {
    if fs == [] {
    } else {
      NormalIsIdentity(fs[0].value);
      NormalFieldsIdentity(fs[1..]);
      assert fs == [fs[0]] + fs[1..];
      assert NormalFields(fs)[0] == Field(fs[0].key, Normal(fs[0].value));
      assert NormalFields(fs)[1..] == NormalFields(fs[1..]);
      assert forall i | 0 < i < |fs| :: fs[i] == fs[1..][i - 1];
    }
  }

  lemma {:induction false} NormalItemsIdentity(items: seq<Value>)
    ensures NormalItems(items) == items <==> forall i | 0 <= i < |items| :: WholeMillis(items[i])
    decreases items, 0
  {
    if items == [] {
    } else {
      NormalIsIdentity(items[0]);
      NormalItemsIdentity(items[1..]);
      assert items == [items[0]] + items[1..];
      assert NormalItems(items)[0] == Normal(items[0]) && NormalItems(items)[1..] == NormalItems(items[1..]);
      assert forall i | 0 < i < |items| :: items[i] == items[1..][i - 1];
    }
  }

  // ---------------------------------------------------------------- validated means walkable

  /** The only errors decoding can still raise once the buffer has validated. */
  predicate PayloadError(s: Status) {
    s == UnterminatedString || s == InvalidUtf8 || s == ValueOutOfRange
  }

  lemma {:induction false} ElemErrors(e: Elem, depth: nat)
    requires WfElem(e, depth)
    ensures FromElem(e, depth).Err? ==> PayloadError(FromElem(e, depth).status)
    decreases e, 1
  {
    hide Utf8.IsUtf8, FromEpochMs, SignedLE;
    if e.payload.Sub? {
      var d := e.payload.doc;
      assert WfDoc(d, depth + 1);
      FieldsErrors(d.elems, depth + 1, []);
      ItemsErrors(d.elems, depth + 1, []);
    }
  }

  lemma {:induction false} FieldsErrors(es: seq<Elem>, depth: nat, done: seq<Field>)
    requires forall i | 0 <= i < |es| :: WfElem(es[i], depth)
    ensures FromFields(es, depth, done).Err? ==> PayloadError(FromFields(es, depth, done).status)
    decreases es, 0
  {
    hide WfElem, FromElem;
    if es == [] {
    } else {
      ElemErrors(es[0], depth);
      var v := FromElem(es[0], depth);
      if v.Ok? {
        FieldsErrors(es[1..], depth, SetField(done, es[0].key, v.value));
      }
    }
  }

  lemma {:induction false} ItemsErrors(es: seq<Elem>, depth: nat, done: seq<Value>)
    requires forall i | 0 <= i < |es| :: WfElem(es[i], depth)
    ensures FromItems(es, depth, done).Err? ==> PayloadError(FromItems(es, depth, done).status)
    decreases es, 0
  {
    hide WfElem, FromElem;
    if es == [] {
    } else {
      ElemErrors(es[0], depth);
      var v := FromElem(es[0], depth);
      if v.Ok? {
        ItemsErrors(es[1..], depth, done + [v.value]);
      }
    }
  }

  /** After validation the decoder meets no length, bounds, type, depth or terminator error. */
  lemma ValidatedIsWalkable(b: seq<byte>)
    requires ValidateSpec(b).Ok? && DecodeSpec(b).Err?
    ensures PayloadError(DecodeSpec(b).status)
  {
    hide WfElem;
    ValidatorIsGrammar(b);
    FieldsErrors(ValidateSpec(b).value.elems, 0, []);
  }
}
