/**
  * The encoding of a document, byte by byte, as sections "Basic Types" and "Non-terminals" of the
  * BSON specification, version 1.1, print it.
  */
module EncodedForm {
  import opened Bytes
  import opened Grammar
  import opened Codec
  import opened Calendar

  /** Four bytes, lowest first, in two's complement. */
  predicate IsWord(w: seq<byte>, i: int) {
    |w| == 4 && Word(w) == if i >= 0 then i else i + 0x1_0000_0000
  }

  /** Eight bytes, lowest first, in two's complement. */
  predicate IsLongWord(w: seq<byte>, i: int) {
    && |w| == 8
    && Word(w[..4]) + 0x1_0000_0000 * Word(w[4..]) == if i >= 0 then i else i + 0x1_0000_0000_0000_0000
  }

  lemma WordBytes(i: int)
    requires -0x8000_0000 <= i < 0x8000_0000
    ensures IsWord(IntBytes(i, 4), i)
  {
    hide FromLE, ToLE;
    Pow256Values();
    assert i % 0x1_0000_0000 == if i >= 0 then i else i + 0x1_0000_0000;
    FromToLE(i % Pow256(4), 4);
    FourBytes(IntBytes(i, 4));
  }

  lemma LongWordBytes(i: int)
    requires -0x8000_0000_0000_0000 <= i < 0x8000_0000_0000_0000
    ensures IsLongWord(IntBytes(i, 8), i)
  {
    hide FromLE, ToLE;
    Pow256Values();
    assert i % 0x1_0000_0000_0000_0000 == if i >= 0 then i else i + 0x1_0000_0000_0000_0000;
    FromToLE(i % Pow256(8), 8);
    EightBytes(IntBytes(i, 8));
  }

  /** What is between the length and the terminator of an encoded dict. */
  function Inner(fs: seq<Field>): seq<byte> {
    Encoding(fs)[4..|Encoding(fs)| - 1]
  }

  lemma {:induction false} InnerIs(fs: seq<Field>)
    ensures Inner(fs) == SerElems(ToElems(fs)) && |Encoding(fs)| == |Inner(fs)| + 5
  {
    hide ToLE;
    var body := SerElems(ToElems(fs));
    var prefix := ToLE(|body| + DOC_MIN_LEN, 4);
    assert Encoding(fs) == prefix + body + [0];
  }

  /** The length of the whole encoding, then the elements, then a zero byte. */
  lemma {:induction false} DictForm(fs: seq<Field>)
    requires |Encoding(fs)| < 0x8000_0000
    ensures IsWord(Encoding(fs)[..4], |Encoding(fs)|)
    ensures Encoding(fs) == Encoding(fs)[..4] + Inner(fs) + [0]
  {
    hide ToLE;
    InnerIs(fs);
    WordBytes(|Encoding(fs)|);
    Pow256Values();
    var prefix := ToLE(|Inner(fs)| + DOC_MIN_LEN, 4);
    assert Encoding(fs) == prefix + Inner(fs) + [0];
    assert Encoding(fs)[..4] == prefix;
  }

  /** The elements follow one another in the dict's order. */
  lemma {:induction false} FieldsInOrder(fs: seq<Field>)
    ensures Inner([]) == []
    ensures fs != [] ==> Inner(fs) == Inner([fs[0]]) + Inner(fs[1..])
  {
    hide Inner, Encoding, SerElem, TypeOf, ToPayload;
    InnerIs([]);
    if fs != [] {
      InnerIs(fs);
      InnerIs([fs[0]]);
      InnerIs(fs[1..]);
      assert [fs[0]][1..] == [];
      var e := Elem(TypeOf(fs[0].value), fs[0].key, ToPayload(fs[0].value));
      assert [e][1..] == [] && ([e] + ToElems(fs[1..]))[1..] == ToElems(fs[1..]);
      assert SerElems([e]) == SerElem(e) + [];
    }
  }

  /** A list as the dict it is written as: its items under "0", "1", and so on. */
  function Numbered(items: seq<Value>, from: nat): (fs: seq<Field>)
    ensures |fs| == |items|
    ensures forall i | 0 <= i < |items| :: fs[i] == Field(Decimal(from + i), items[i])
  {
    if items == [] then [] else [Field(Decimal(from), items[0])] + Numbered(items[1..], from + 1)
  }

  lemma {:induction false} ItemsAreNumbered(items: seq<Value>, from: nat)
    ensures ItemElems(items, from) == ToElems(Numbered(items, from))
  {
    hide TypeOf, ToPayload, Decimal;
    if items == [] {
    } else {
      ItemsAreNumbered(items[1..], from + 1);
      assert Numbered(items, from)[1..] == Numbered(items[1..], from + 1);
    }
  }

  /** The decimal digits of a number, highest first, and no zero in front. */
  lemma {:induction false} DecimalForm(n: nat, digit: nat)
    requires digit < 10
    ensures n == 0 ==> Decimal(10 * n + digit) == [48 + digit]
    ensures n > 0 ==> Decimal(10 * n + digit) == Decimal(n) + [48 + digit]
  {
    assert (10 * n + digit) / 10 == n && (10 * n + digit) % 10 == digit;
  }

  /** What follows the key of an element. */
  ghost predicate IsValueForm(v: Value, typ: byte, b: seq<byte>) {
    match v
    case Null => typ == 0x0A && b == []
    case Bool(x) => typ == 0x08 && b == [if x then 1 else 0]
    case Int(i) =>
      if -0x8000_0000 <= i < 0x8000_0000 then typ == 0x10 && IsWord(b, i)
      else typ == 0x12 && (-0x8000_0000_0000_0000 <= i < 0x8000_0000_0000_0000 ==> IsLongWord(b, i))
    case Double(bits) => typ == 0x01 && b == bits
    case Str(s) =>
      typ == 0x02 && |b| == |s| + 5 && b[4..] == s + [0] && (|s| + 1 < 0x8000_0000 ==> IsWord(b[..4], |s| + 1))
    case Bin(d) =>
      typ == 0x05 && |b| == |d| + 5 && b[4..] == [0] + d && (|d| < 0x8000_0000 ==> IsWord(b[..4], |d|))
    case ObjectId(id) => typ == 0x07 && b == id
    case Time(t) => typ == 0x09 && IsLongWord(b, ToEpochMs(t))
    case Document(fs) => typ == 0x03 && b == Encoding(fs)
    case Array(items) => typ == 0x04 && b == Encoding(Numbered(items, 0))
  }

  /** One element: its type byte, its key, a zero byte and its value. */
  lemma {:induction false} FieldForm(f: Field)
    requires ValidValue(f.value)
    ensures var head := |f.key| + 2;
            && |Inner([f])| >= head
            && Inner([f])[1..head] == f.key + [0]
            && IsValueForm(f.value, Inner([f])[0], Inner([f])[head..])
  {
    hide Inner, Encoding, TypeOf, ToPayload, IsValueForm, ValidValue;
    InnerIs([f]);
    assert [f][1..] == [];
    var e := Elem(TypeOf(f.value), f.key, ToPayload(f.value));
    assert ToElems([f]) == [e] && [e][1..] == [] && SerElems([e]) == SerElem(e) + [];
    assert SerElem(e) == [e.typ] + f.key + [0] + PayloadBytes(e);
    assert Inner([f])[|f.key| + 2..] == PayloadBytes(e);
    ValueForm(f.value, f.key);
  }

  lemma {:induction false} ValueForm(v: Value, key: seq<byte>)
    requires ValidValue(v)
    ensures IsValueForm(v, TypeOf(v), PayloadBytes(Elem(TypeOf(v), key, ToPayload(v))))
  {
    hide Utf8.IsUtf8, ToEpochMs, IntBytes, IsWord, IsLongWord, ToElems, ItemElems, Ser;
    match v {
      case Int(i) =>
        if IsInt32(i) {
          WordBytes(i);
        } else if IsInt64(i) {
          LongWordBytes(i);
        }
      case Str(s) =>
        var n := IntBytes(|s| + 1, 4);
        assert (n + s + [0])[..4] == n && (n + s + [0])[4..] == s + [0];
        if |s| + 1 < 0x8000_0000 {
          WordBytes(|s| + 1);
        }
      case Bin(d) =>
        var n := IntBytes(|d|, 4);
        assert (n + [BINARY_GENERIC] + d)[..4] == n && (n + [BINARY_GENERIC] + d)[4..] == [0] + d;
        if |d| < 0x8000_0000 {
          WordBytes(|d|);
        }
      case Time(t) =>
        EpochMsInt64(t);
        LongWordBytes(ToEpochMs(t));
      case Array(items) =>
        ItemsAreNumbered(items, 0);
      case _ =>
    }
  }
}
