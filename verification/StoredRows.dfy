/**
  * The rows a data file stands for: each record's bytes decoded.
  *
  * Every record was written by the encoder, so decoding it and encoding the result gives
  * its bytes again; that is what lets an update compare encodings to see a change.
  */
module StoredRows {
  import opened Bytes
  import opened Grammar
  import opened Calendar
  import opened Codec
  import opened Faults
  import opened IndexKeys
  import opened Agreement
  import RecordFile

  // ---------------------------------------------------------------- encoding what was decoded

  /** What encoding loses is lost once: a value and its normal form are written alike. */
  lemma {:induction false} NormalSame(v: Value, depth: nat)
    requires ValidValue(v)
    ensures ToPayload(Normal(v)) == ToPayload(v) && TypeOf(Normal(v)) == TypeOf(v)
    ensures FirstError(Normal(v), depth) == FirstError(v, depth)
    decreases v, 1
  {
    hide Utf8.IsUtf8, IntBytes, ToEpochMs;
    match v
    case Document(fs) => NormalFieldsSame(fs, depth);
    case Array(items) => NormalItemsSame(items, 0, depth);
    case Time(t) => SameMillis(t);
    case _ =>
  }

  lemma SameMillis(t: DateTime)
    requires ValidDateTime(t)
    ensures ToEpochMs(ToMillis(t)) == ToEpochMs(t)
  {
    hide DaysFromCivil, ValidDate;
    assert ToMillis(t).microsecond / 1000 == t.microsecond / 1000;
  }

  lemma {:induction false} NormalFieldsSame(fs: seq<Field>, depth: nat)
    requires forall i | 0 <= i < |fs| :: ValidValue(fs[i].value)
    ensures ToElems(NormalFields(fs)) == ToElems(fs) && FieldsError(NormalFields(fs), depth) == FieldsError(fs, depth)
    decreases fs, 0
  {
    hide ValidValue, Normal, ToPayload, TypeOf, FirstError;
    if fs == [] {
    } else {
      NormalSame(fs[0].value, depth + 1);
      NormalFieldsSame(fs[1..], depth);
      assert NormalFields(fs)[1..] == NormalFields(fs[1..]);
    }
  }

  lemma {:induction false} NormalItemsSame(items: seq<Value>, from: nat, depth: nat)
    requires forall i | 0 <= i < |items| :: ValidValue(items[i])
    ensures ItemElems(NormalItems(items), from) == ItemElems(items, from)
    ensures ItemsError(NormalItems(items), depth) == ItemsError(items, depth)
    decreases items, 0
  {
    hide ValidValue, Normal, ToPayload, TypeOf, FirstError, Decimal;
    if items == [] {
    } else {
      NormalSame(items[0], depth + 1);
      NormalItemsSame(items[1..], from + 1, depth);
      assert NormalItems(items)[1..] == NormalItems(items[1..]);
    }
  }

  /** The bytes are what the encoder wrote for the document they decode to. */
  ghost predicate IsStored(b: seq<byte>) {
    DecodeSpec(b).Ok? && Encodable(DecodeSpec(b).value) && Encoding(DecodeSpec(b).value) == b
  }

  lemma {:induction false} EncodingIsStored(fs: seq<Field>)
    requires Encodable(fs)
    ensures IsStored(Encoding(fs)) && DecodeSpec(Encoding(fs)) == Ok(NormalFields(fs))
    ensures ValidateSpec(Encoding(fs)).Ok? && RecordFile.TrueLength(Encoding(fs))
    ensures Encoding(NormalFields(fs)) == Encoding(fs)
  {
    hide ValidValue, ValidateSpec, DecodeSpec, Ser, FirstError, Faultless;
    EncodedIsReadBack(fs);
    ErrorIsFirstFault(Document(fs), 0);
    ErrorIsFirstFault(Document(NormalFields(fs)), 0);
    NormalDocument(fs);
    NormalValid(Document(fs));
    NormalSame(Document(fs), 0);
    SameEncoding(fs);
    LengthPrefix(ToRaw(fs));
  }

  lemma {:induction false} SameEncoding(fs: seq<Field>)
    requires ToPayload(Document(NormalFields(fs))) == ToPayload(Document(fs))
    ensures Encoding(NormalFields(fs)) == Encoding(fs)
  {
  }

  /** Two documents encode alike exactly when they are equal once stored. */
  lemma {:induction false} SameBytesIff(fs: seq<Field>, gs: seq<Field>)
    requires Encodable(fs) && Encodable(gs)
    ensures Encoding(fs) == Encoding(gs) <==> NormalFields(fs) == NormalFields(gs)
  {
    hide Encodable, Encoding, DecodeSpec, NormalFields, IsStored;
    EncodingIsStored(fs);
    EncodingIsStored(gs);
  }

  // ---------------------------------------------------------------- rows of a file

  ghost predicate AllStored(rs: seq<RecordFile.Rec>) {
    forall i | 0 <= i < |rs| :: IsStored(rs[i].doc)
  }

  ghost function RowOf(rs: seq<RecordFile.Rec>, i: nat): Row
    requires AllStored(rs) && i < |rs|
  {
    Row(RecordFile.EndOf(rs[..i]), rs[i].live, DecodeSpec(rs[i].doc).value)
  }

  ghost function Rows(rs: seq<RecordFile.Rec>): (rows: seq<Row>)
    requires AllStored(rs)
    ensures |rows| == |rs|
  {
    seq(|rs|, i requires 0 <= i < |rs| => RowOf(rs, i))
  }

  lemma RowsIncrease(rs: seq<RecordFile.Rec>)
    requires AllStored(rs)
    ensures Increasing(Rows(rs), RecordFile.EndOf(rs))
    ensures RecordFile.EndOf(rs) >= RecordFile.HEADER_LEN
  {
    hide IsStored, RecordFile.Layout;
    forall i | 0 <= i < |rs| ensures Rows(rs)[i].off < RecordFile.EndOf(rs) {
      RecordFile.EndOfGrows(rs, i, |rs|);
      assert rs[..|rs|] == rs;
    }
    forall i, j | 0 <= i < j < |rs| ensures Rows(rs)[i].off < Rows(rs)[j].off {
      RecordFile.EndOfGrows(rs, i, j);
    }
  }

  lemma StoredAppended(rs: seq<RecordFile.Rec>, r: RecordFile.Rec)
    requires AllStored(rs) && IsStored(r.doc)
    ensures AllStored(rs + [r]) && DecodeSpec(r.doc).Ok?
  {
    hide Encoding, DecodeSpec, Encodable;
  }

  lemma RowsAt(rs: seq<RecordFile.Rec>, i: nat)
    requires AllStored(rs) && i < |rs|
    ensures Rows(rs)[i] == RowOf(rs, i)
  {
    hide IsStored, DecodeSpec, RecordFile.EndOf;
  }

  lemma RowAppended(rs: seq<RecordFile.Rec>, r: RecordFile.Rec, i: nat)
    requires AllStored(rs) && AllStored(rs + [r]) && i <= |rs|
    ensures i < |rs| ==> RowOf(rs + [r], i) == RowOf(rs, i)
    ensures i == |rs| ==> RowOf(rs + [r], i) == Row(RecordFile.EndOf(rs), r.live, DecodeSpec(r.doc).value)
  {
    hide IsStored, DecodeSpec, RecordFile.EndOf;
    assert (rs + [r])[..i] == rs[..i];
    assert rs[..|rs|] == rs;
  }

  lemma RowsAppended(rs: seq<RecordFile.Rec>, r: RecordFile.Rec)
    requires AllStored(rs) && IsStored(r.doc)
    ensures AllStored(rs + [r])
    ensures Rows(rs + [r]) == Rows(rs) + [Row(RecordFile.EndOf(rs), r.live, DecodeSpec(r.doc).value)]
  {
    hide IsStored, DecodeSpec, RecordFile.EndOf, AllStored, RowOf, Rows;
    StoredAppended(rs, r);
    var row, all := Row(RecordFile.EndOf(rs), r.live, DecodeSpec(r.doc).value), rs + [r];
    forall i | 0 <= i < |all| ensures Rows(all)[i] == (Rows(rs) + [row])[i] {
      RowAppended(rs, r, i);
      RowsAt(all, i);
      if i < |rs| {
        RowsAt(rs, i);
      }
    }
  }

  lemma RowsBuried(rs: seq<RecordFile.Rec>, i: nat)
    requires AllStored(rs) && i < |rs|
    ensures AllStored(RecordFile.Tombstoned(rs, i))
    ensures Rows(RecordFile.Tombstoned(rs, i)) == Buried(Rows(rs), i)
    ensures RecordFile.EndOf(RecordFile.Tombstoned(rs, i)) == RecordFile.EndOf(rs)
  {
    hide IsStored, DecodeSpec, RecordFile.EndOf;
    var dead := RecordFile.Tombstoned(rs, i);
    forall j | 0 <= j < |dead| ensures IsStored(dead[j].doc) {
      assert dead[j].doc == rs[j].doc;
    }
    forall j | 0 <= j < |dead| ensures Rows(dead)[j] == Buried(Rows(rs), i)[j] {
      SameEnds(rs, i, j);
    }
    SameEnds(rs, i, |rs|);
    assert dead[..|rs|] == dead && rs[..|rs|] == rs;
  }

  /** A tombstone moves no record. */
  lemma SameEnds(rs: seq<RecordFile.Rec>, i: nat, j: nat)
    requires i < |rs| && j <= |rs|
    ensures RecordFile.EndOf(RecordFile.Tombstoned(rs, i)[..j]) == RecordFile.EndOf(rs[..j])
  {
    hide RecordFile.Layout;
    if j <= i {
      assert RecordFile.Tombstoned(rs, i)[..j] == rs[..j];
    } else {
      assert RecordFile.Tombstoned(rs, i)[..j] == RecordFile.Tombstoned(rs[..j], i);
      RecordFile.LayoutTombstoned(rs[..j], i);
    }
  }
}
