/**
  * What an index key says about the value it was made from: its bytes, which values have none, and
  * that keys are in the order of the values.
  */
module KeyMeaning {
  import opened Bytes
  import opened Grammar
  import opened Codec
  import opened Calendar
  import opened Instants
  import opened KeyOrder
  import opened Doubles
  import opened IndexKeys
  import opened EncodedForm

  // ---------------------------------------------------------------- the bytes

  /** The bytes of the key of a value, the unused ones zero. */
  ghost predicate IsKeyForm(v: Value, k: seq<byte>) {
    && |k| == 13
    && match v
       case Null => k == [0] + Zeros(12)
       case Bool(b) => k == [1, if b then 1 else 0] + Zeros(11)
       case Int(i) => k[0] == 2 && IsLongWord(k[1..9], i) && k[9..] == Zeros(4)
       case Double(bits) => k[0] == 3 && k[1..9] == bits && k[9..] == Zeros(4)
       case Time(t) => k[0] == 4 && IsLongWord(k[1..9], ToEpochMs(t)) && k[9..] == Zeros(4)
       case ObjectId(id) => k == [5] + id
       case _ => false
  }

  /** Which values have a key, its bytes, and why the others have none. */
  lemma KeyForm(v: Value)
    requires ValidValue(v)
    ensures Indexable(v) <==>
              match v
              case Null | Bool(_) | Time(_) | ObjectId(_) => true
              case Int(i) => -0x8000_0000_0000_0000 <= i < 0x8000_0000_0000_0000
              case Double(bits) => !IsNaN(FromLE(bits))
              case _ => false
    ensures Indexable(v) ==> IsKeyForm(v, EncodeKey(v).key)
    ensures !Indexable(v) ==>
              EncodeKey(v) == if v.Int? then TooLarge else if v.Double? then NotANumber else NotSupported
  {
    hide Utf8.IsUtf8, ToEpochMs, FromLE, IntBytes, IsLongWord, IsNaN, ValidDateTime;
    match v {
      case Int(i) =>
        if IsInt64(i) {
          LongWordBytes(i);
          var k := [TAG_INT] + IntBytes(i, 8) + Zeros(4);
          assert k[1..9] == IntBytes(i, 8) && k[9..] == Zeros(4);
        }
      case Double(bits) =>
        var k := [TAG_DOUBLE] + bits + Zeros(4);
        assert k[1..9] == bits && k[9..] == Zeros(4);
      case Time(t) =>
        EpochMsInt64(t);
        LongWordBytes(ToEpochMs(t));
        var k := [TAG_DATETIME] + IntBytes(ToEpochMs(t), 8) + Zeros(4);
        assert k[1..9] == IntBytes(ToEpochMs(t), 8) && k[9..] == Zeros(4);
      case _ =>
    }
  }

  // ---------------------------------------------------------------- the order

  /** Null, then booleans, ints, floats, datetimes and object ids. */
  function Kind(v: Value): int {
    match v
    case Null => 0
    case Bool(_) => 1
    case Int(_) => 2
    case Double(_) => 3
    case Time(_) => 4
    case ObjectId(_) => 5
    case _ => -1
  }

  /** The bytes agree up to some place and `a` has the smaller byte there. */
  ghost predicate BytesBefore(a: seq<byte>, b: seq<byte>) {
    exists i :: 0 <= i < |a| == |b| && a[..i] == b[..i] && a[i] < b[i]
  }

  /** Within one kind: False before True, numbers by value, datetimes by time, object ids by their bytes. */
  ghost predicate SmallerOfKind(v: Value, w: Value) {
    match (v, w)
    case (Bool(x), Bool(y)) => !x && y
    case (Int(x), Int(y)) => x < y
    case (Double(x), Double(y)) => SignedMagnitude(FromLE(x)) < SignedMagnitude(FromLE(y))
    case (Time(x), Time(y)) => Earlier(x, y)
    case (ObjectId(x), ObjectId(y)) => BytesBefore(x, y)
    case _ => false
  }

  /** The order of values that an index follows. */
  ghost predicate Smaller(v: Value, w: Value) {
    Kind(v) < Kind(w) || (Kind(v) == Kind(w) && SmallerOfKind(v, w))
  }

  lemma {:induction false} BytesInOrder(a: seq<byte>, b: seq<byte>)
    requires |a| == |b|
    ensures FromBE(a) < FromBE(b) <==> BytesBefore(a, b)
  {
    hide FromBE;
    if a == [] {
      assert a == b;
    } else {
      BytesInOrder(a[1..], b[1..]);
      FirstByte(a, b);
      if BytesBefore(a, b) {
        var i :| 0 <= i < |a| && a[..i] == b[..i] && a[i] < b[i];
        if i > 0 {
          assert a[0] == a[..i][0] == b[..i][0] == b[0];
          assert a[1..][..i - 1] == a[..i][1..] && b[1..][..i - 1] == b[..i][1..];
          assert a[1..][i - 1] < b[1..][i - 1];
        }
      }
      if a[0] < b[0] {
        assert a[..0] == b[..0];
      }
      if a[0] == b[0] && BytesBefore(a[1..], b[1..]) {
        var i :| 0 <= i < |a[1..]| && a[1..][..i] == b[1..][..i] && a[1..][i] < b[1..][i];
        assert a[..i + 1] == [a[0]] + a[1..][..i] && b[..i + 1] == [b[0]] + b[1..][..i];
        assert a[i + 1] < b[i + 1];
      }
    }
  }

  lemma FirstByte(a: seq<byte>, b: seq<byte>)
    requires |a| == |b| > 0
    ensures FromBE(a) < FromBE(b) <==> a[0] < b[0] || (a[0] == b[0] && FromBE(a[1..]) < FromBE(b[1..]))
  {
    var p := Pow256(|a| - 1);
    Scale(a[0], b[0], p);
    Scale(b[0], a[0], p);
  }

  /** A key compares below another exactly when the value behind it is smaller. */
  lemma KeysInValueOrder(v: Value, w: Value)
    requires Indexable(v) && Indexable(w)
    ensures Cmp(EncodeKey(v).key, EncodeKey(w).key) < 0 <==> Smaller(v, w)
    ensures Cmp(EncodeKey(v).key, EncodeKey(w).key) > 0 <==> Smaller(w, v)
  {
    hide EncodeKey, SubRank, Cmp, Rank, ValidValue, SmallerOfKind;
    var a, b := EncodeKey(v).key, EncodeKey(w).key;
    TagOfKey(v);
    TagOfKey(w);
    CmpIsRankOrder(a, b);
    RankIs(a, b);
    KindIsTag(v);
    KindIsTag(w);
    if Kind(v) == Kind(w) {
      SubRanksInOrder(v, w);
      SubRanksInOrder(w, v);
    }
  }

  lemma KindIsTag(v: Value)
    requires Indexable(v)
    ensures Kind(v) == Tag(v)
  {
  }

  lemma RankIs(a: Key, b: Key)
    ensures Rank(a) < Rank(b) <==> a[0] < b[0] || (a[0] == b[0] && SubRank(a) < SubRank(b))
    ensures Rank(a) > Rank(b) <==> a[0] > b[0] || (a[0] == b[0] && SubRank(a) > SubRank(b))
  {
    hide SubRank;
  }

  lemma SubRanksInOrder(v: Value, w: Value)
    requires Indexable(v) && Indexable(w) && Kind(v) == Kind(w)
    ensures SubRank(EncodeKey(v).key) < SubRank(EncodeKey(w).key) <==> SmallerOfKind(v, w)
  {
    hide EncodeKey, SubRank, ToEpochMs, FromLE, FromBE, DoubleValue, SignedMagnitude, Earlier, BytesBefore, IsNaN;
    hide ValidDateTime;
    PayloadOfKey(v);
    PayloadOfKey(w);
    NullPayload(v, w);
    match v {
      case Double(x) =>
        NotNaN(v);
        NotNaN(w);
        ValueOrder(FromLE(x), FromLE(w.bits));
      case Time(x) => CountsInOrder(x, w.t);
      case ObjectId(x) => BytesInOrder(x, w.id);
      case _ =>
    }
  }
}
