/**
  * From documents to index keys (index.py): the value a field path names, and the 13 bytes
  * it is stored under.
  *
  * A field path is its dot-separated segments.  What makes the index useful is proved at the
  * end: two keys compare equal exactly when the values behind them are equal within one type,
  * and storing a document and reading it back does not change its keys.
  */
module IndexKeys {
  import opened Bytes
  import opened Grammar
  import opened Calendar
  import opened Codec
  import opened KeyOrder
  import opened Doubles

  type Path = seq<seq<byte>>

  // ---------------------------------------------------------------- the value at a path

  function Get(fs: seq<Field>, key: seq<byte>): (v: Option<Value>)
    ensures v.Some? ==> exists i :: 0 <= i < |fs| && fs[i] == Field(key, v.value)
    ensures v.None? ==> forall i | 0 <= i < |fs| :: fs[i].key != key
  {
    if fs == [] then None else if fs[0].key == key then Some(fs[0].value) else Get(fs[1..], key)
  }

  lemma {:induction false} GetSet(fs: seq<Field>, key: seq<byte>, v: Value, other: seq<byte>)
    ensures Get(SetField(fs, key, v), other) == if other == key then Some(v) else Get(fs, other)
  {
    if fs == [] {
      assert [Field(key, v)][1..] == [];
    } else if fs[0].key == key {
      assert ([Field(key, v)] + fs[1..])[1..] == fs[1..];
    } else {
      GetSet(fs[1..], key, v, other);
      assert ([fs[0]] + SetField(fs[1..], key, v))[1..] == SetField(fs[1..], key, v);
    }
  }

  /** Follow the segments through nested documents; None is index.py's _MISSING. */
  function DirectValue(v: Value, segments: Path): Option<Value> {
    if segments == [] then Some(v)
    else if v.Document? && Get(v.fields, segments[0]).Some? then
      DirectValue(Get(v.fields, segments[0]).value, segments[1..])
    else None
  }

  /** The value a document is indexed under: a missing field counts as null. */
  function IndexValue(fs: seq<Field>, path: Path): Value {
    var v := DirectValue(Document(fs), path);
    if v.None? then Null else v.value
  }

  /** _direct_value's loop, and resolve_index_value around it. */
  method ResolveIndexValue(fs: seq<Field>, path: Path) returns (v: Value)
    ensures v == IndexValue(fs, path)
  {
    var cursor, i := Document(fs), 0;
    while i < |path|
      invariant 0 <= i <= |path|
      invariant DirectValue(cursor, path[i..]) == DirectValue(Document(fs), path)
    {
      assert path[i..][1..] == path[i + 1..];
      if !cursor.Document? {
        return Null;
      }
      var next := Get(cursor.fields, path[i]);
      if next.None? {
        return Null;
      }
      cursor := next.value;
      i := i + 1;
    }
    v := cursor;
  }

  // ---------------------------------------------------------------- the key of a value

  /** What encode_btree_key returns or raises. */
  datatype Keyed = Keyed(key: Key) | TooLarge | NotANumber | NotSupported

  function Zeros(n: nat): (s: seq<byte>)
    ensures |s| == n
  {
    seq(n, _ => 0)
  }

  /** encode_btree_key. */
  function EncodeKey(v: Value): Keyed
    requires ValidValue(v)
  {
    match v
    case Null => Keyed([TAG_NULL] + Zeros(12))
    case Bool(b) => Keyed([TAG_BOOL, if b then 1 else 0] + Zeros(11))
    case Int(i) => if !IsInt64(i) then TooLarge else Keyed([TAG_INT] + IntBytes(i, 8) + Zeros(4))
    case Double(bits) =>
      var k := [TAG_DOUBLE] + bits + Zeros(4);
      assert k[1..9] == bits;
      if IsNaN(Raw64(k)) then NotANumber else Keyed(k)
    case Time(t) => Keyed([TAG_DATETIME] + IntBytes(ToEpochMs(t), 8) + Zeros(4))
    case ObjectId(id) => Keyed([TAG_OBJECTID] + id)
    case _ => NotSupported
  }

  ghost predicate Indexable(v: Value) {
    ValidValue(v) && EncodeKey(v).Keyed?
  }

  ghost predicate IndexableAt(fs: seq<Field>, path: Path) {
    Indexable(IndexValue(fs, path))
  }

  /** The key a document is indexed under. */
  function KeyAt(fs: seq<Field>, path: Path): Key
    requires IndexableAt(fs, path)
  {
    EncodeKey(IndexValue(fs, path)).key
  }

  // ---------------------------------------------------------------- what key equality means

  /** Equal values of one type, datetimes to the millisecond and the two zeros alike. */
  ghost predicate SameIndexed(v: Value, w: Value)
    requires ValidValue(v) && ValidValue(w)
  {
    match (v, w)
    case (Null, Null) => true
    case (Bool(a), Bool(b)) => a == b
    case (Int(a), Int(b)) => a == b
    case (Double(a), Double(b)) => SignedMagnitude(FromLE(a)) == SignedMagnitude(FromLE(b))
    case (Time(a), Time(b)) => ToEpochMs(a) == ToEpochMs(b)
    case (ObjectId(a), ObjectId(b)) => a == b
    case _ => false
  }

  /** The integer a key's payload stands for within its tag. */
  lemma PayloadOfKey(v: Value)
    requires Indexable(v)
    ensures var k := EncodeKey(v).key;
            match v
            case Null => k[0] == TAG_NULL
            case Bool(b) => k[0] == TAG_BOOL && SubRank(k) == if b then 1 else 0
            case Int(i) => k[0] == TAG_INT && SubRank(k) == i + SIGN_BIT
            case Double(bits) => k[0] == TAG_DOUBLE && SubRank(k) == DoubleValue(FromLE(bits)) + SIGN_BIT
            case Time(t) => k[0] == TAG_DATETIME && SubRank(k) == ToEpochMs(t) + SIGN_BIT
            case ObjectId(id) => k[0] == TAG_OBJECTID && SubRank(k) == FromBE(id)
            case _ => false
  {
    hide ToEpochMs, FromLE, FromBE;
    Pow256Values();
    var k := EncodeKey(v).key;
    match v {
      case Int(i) =>
        assert k[1..9] == IntBytes(i, 8);
        IntBytesRoundTrip(i, 8);
      case Double(bits) =>
        assert k[1..9] == bits;
      case Time(t) =>
        assert k[1..9] == IntBytes(ToEpochMs(t), 8);
        EpochMsInt64(t);
        IntBytesRoundTrip(ToEpochMs(t), 8);
      case ObjectId(id) =>
        assert k[1..] == id;
      case _ =>
    }
  }

  lemma RankEqual(a: Key, b: Key)
    ensures Rank(a) == Rank(b) <==> a[0] == b[0] && SubRank(a) == SubRank(b)
  {
    hide SubRank;
  }

  /** Keys compare equal exactly when the values are equal within one type. */
  lemma KeyEqualityIsValueEquality(v: Value, w: Value)
    requires Indexable(v) && Indexable(w)
    ensures Cmp(EncodeKey(v).key, EncodeKey(w).key) == 0 <==> SameIndexed(v, w)
    ensures Rank(EncodeKey(v).key) == Rank(EncodeKey(w).key) <==> SameIndexed(v, w)
  {
    hide EncodeKey, Rank, Cmp, SubRank, SameIndexed, ValidValue;
    CmpIsRankOrder(EncodeKey(v).key, EncodeKey(w).key);
    RankEqual(EncodeKey(v).key, EncodeKey(w).key);
    PayloadsEqual(v, w);
  }

  /** The tag of a value's key. */
  function Tag(v: Value): int {
    match v
    case Null => TAG_NULL
    case Bool(_) => TAG_BOOL
    case Int(_) => TAG_INT
    case Double(_) => TAG_DOUBLE
    case Time(_) => TAG_DATETIME
    case ObjectId(_) => TAG_OBJECTID
    case _ => -1
  }

  lemma TagOfKey(v: Value)
    requires Indexable(v)
    ensures EncodeKey(v).key[0] == Tag(v)
  {
    hide ValidValue, IsNaN, ToEpochMs;
  }

  lemma NotNaN(v: Value)
    requires v.Double? && Indexable(v)
    ensures !IsNaN(FromLE(v.bits))
  {
    var k := [TAG_DOUBLE] + v.bits + Zeros(4);
    assert k[1..9] == v.bits;
  }

  lemma PayloadsEqual(v: Value, w: Value)
    requires Indexable(v) && Indexable(w)
    ensures var a, b := EncodeKey(v).key, EncodeKey(w).key;
            a[0] == b[0] && SubRank(a) == SubRank(b) <==> SameIndexed(v, w)
  {
    hide EncodeKey, SubRank, ToEpochMs, FromLE, FromBE, DoubleValue, SignedMagnitude;
    TagOfKey(v);
    TagOfKey(w);
    if Tag(v) == Tag(w) {
      SubRanksEqual(v, w);
    }
  }

  lemma SubRanksEqual(v: Value, w: Value)
    requires Indexable(v) && Indexable(w) && Tag(v) == Tag(w)
    ensures SubRank(EncodeKey(v).key) == SubRank(EncodeKey(w).key) <==> SameIndexed(v, w)
  {
    hide EncodeKey, SubRank, ToEpochMs, FromLE, FromBE, DoubleValue, SignedMagnitude;
    PayloadOfKey(v);
    PayloadOfKey(w);
    NullPayload(v, w);
    if v.ObjectId? {
      MemCmpIsBigEndian(v.id, w.id);
    }
    if v.Double? {
      NotNaN(v);
      NotNaN(w);
      ValueOrder(FromLE(v.bits), FromLE(w.bits));
    }
  }

  lemma NullPayload(v: Value, w: Value)
    requires Indexable(v) && Indexable(w)
    ensures v.Null? && w.Null? ==> SubRank(EncodeKey(v).key) == SubRank(EncodeKey(w).key)
  {
  }

  // ---------------------------------------------------------------- storing keeps the keys

  lemma {:induction false} GetNormal(fs: seq<Field>, key: seq<byte>)
    ensures Get(NormalFields(fs), key) ==
            if Get(fs, key).None? then None else Some(Normal(Get(fs, key).value))
  {
    hide Normal;
    if fs == [] {
    } else {
      GetNormal(fs[1..], key);
      assert NormalFields(fs)[1..] == NormalFields(fs[1..]);
    }
  }

  lemma {:induction false} DirectNormal(v: Value, segments: Path)
    ensures DirectValue(Normal(v), segments) ==
            if DirectValue(v, segments).None? then None else Some(Normal(DirectValue(v, segments).value))
    decreases segments
  {
    if segments != [] && v.Document? {
      GetNormal(v.fields, segments[0]);
      var next := Get(v.fields, segments[0]);
      if next.Some? {
        DirectNormal(next.value, segments[1..]);
      }
    }
  }

  lemma {:induction false} NormalKeepsKey(v: Value)
    requires ValidValue(v) && ValidValue(Normal(v))
    ensures EncodeKey(Normal(v)) == EncodeKey(v)
  {
    hide DaysFromCivil;
    if v.Time? {
      assert ToMillis(v.t).microsecond / 1000 == v.t.microsecond / 1000;
    }
  }

  lemma {:induction false} NormalValid(v: Value)
    requires ValidValue(v)
    ensures ValidValue(Normal(v))
    decreases v, 1
  {
    hide Utf8.IsUtf8;
    match v
    case Document(fs) => NormalFieldsValid(fs);
    case Array(items) => NormalItemsValid(items);
    case Time(t) => assert ValidDateTime(ToMillis(t)) by { hide ValidDate; }
    case _ =>
  }

  lemma {:induction false} NormalFieldsValid(fs: seq<Field>)
    requires forall i | 0 <= i < |fs| :: ValidValue(fs[i].value)
    ensures |NormalFields(fs)| == |fs|
    ensures forall i | 0 <= i < |fs| :: NormalFields(fs)[i].key == fs[i].key && ValidValue(NormalFields(fs)[i].value)
    decreases fs, 0
  {
    hide ValidValue, Normal;
    if fs == [] {
    } else {
      NormalValid(fs[0].value);
      NormalFieldsValid(fs[1..]);
      assert NormalFields(fs)[1..] == NormalFields(fs[1..]);
      forall i | 0 <= i < |fs|
        ensures NormalFields(fs)[i].key == fs[i].key && ValidValue(NormalFields(fs)[i].value)
      {
        assert i > 0 ==> NormalFields(fs)[i] == NormalFields(fs[1..])[i - 1] && fs[i] == fs[1..][i - 1];
      }
    }
  }

  lemma {:induction false} NormalItemsValid(items: seq<Value>)
    requires forall i | 0 <= i < |items| :: ValidValue(items[i])
    ensures |NormalItems(items)| == |items|
    ensures forall i | 0 <= i < |items| :: ValidValue(NormalItems(items)[i])
    decreases items, 0
  {
    hide ValidValue, Normal;
    if items == [] {
    } else {
      NormalValid(items[0]);
      NormalItemsValid(items[1..]);
      forall i | 0 <= i < |items| ensures ValidValue(NormalItems(items)[i]) {
        assert i > 0 ==> NormalItems(items)[i] == NormalItems(items[1..])[i - 1] && items[i] == items[1..][i - 1];
      }
    }
  }

  lemma {:induction false} DirectValid(v: Value, segments: Path)
    requires ValidValue(v)
    ensures DirectValue(v, segments).Some? ==> ValidValue(DirectValue(v, segments).value)
    decreases segments
  {
    hide Utf8.IsUtf8;
    if segments != [] && v.Document? {
      var next := Get(v.fields, segments[0]);
      if next.Some? {
        var i :| 0 <= i < |v.fields| && v.fields[i] == Field(segments[0], next.value);
        assert ValidValue(v.fields[i].value);
        DirectValid(next.value, segments[1..]);
      }
    }
  }

  /** A stored document is indexed under the key computed before it was encoded. */
  lemma {:induction false} StoringKeepsKeys(fs: seq<Field>, path: Path)
    requires ValidValue(Document(fs)) && IndexableAt(fs, path)
    ensures ValidValue(Document(NormalFields(fs))) && IndexableAt(NormalFields(fs), path)
    ensures KeyAt(NormalFields(fs), path) == KeyAt(fs, path)
  {
    hide ValidValue, EncodeKey, Normal, DirectValue;
    var v := IndexValue(fs, path);
    NormalValid(Document(fs));
    NormalDocument(fs);
    DirectNormal(Document(fs), path);
    DirectValid(Document(fs), path);
    NormalNull();
    NormalValid(v);
    NormalKeepsKey(v);
  }

  /** A value that has no key before it is stored has none afterwards. */
  lemma {:induction false} StoringKeepsIndexable(fs: seq<Field>, path: Path)
    requires ValidValue(Document(fs))
    ensures IndexableAt(NormalFields(fs), path) <==> IndexableAt(fs, path)
  {
    hide ValidValue, EncodeKey, Normal, DirectValue;
    NormalValid(Document(fs));
    NormalDocument(fs);
    DirectNormal(Document(fs), path);
    DirectValid(Document(fs), path);
    NormalNull();
    NormalValid(IndexValue(fs, path));
    NormalKeepsKey(IndexValue(fs, path));
  }

  lemma {:induction false} NormalDocument(fs: seq<Field>)
    ensures Normal(Document(fs)) == Document(NormalFields(fs))
  {
  }

  lemma NormalNull()
    ensures Normal(Null) == Null && ValidValue(Null)
  {
  }
}
