/**
  * The writer of bson_engine.c and the encoding walk of _bson_core.c.
  *
  * The writer grows a buffer and patches the length of a document in when it is
  * finished; the walk writes exactly the bytes that module Codec prints.
  */
module Encoder {
  import opened Sequences
  import opened Bytes
  import opened Grammar
  import opened Codec
  import opened Faults
  import opened Calendar

  /** Cutting the stretch before and after the length field out of the bytes with their terminator. */
  lemma PatchedEnd(s: seq<byte>, patch: nat)
    requires patch + 4 <= |s|
    ensures (s + [0])[..patch] == s[..patch] && (s + [0])[patch + 4..] == s[patch + 4..] + [0]
  {
  }

  /** bson_writer_t. */
  class Writer {
    var buf: array<byte>
    var len: nat

    ghost predicate Valid()
      reads this
    {
      len <= buf.Length && len <= MAX_DOCUMENT_SIZE
    }

    ghost function Contents(): (s: seq<byte>)
      requires Valid()
      reads this, buf
      ensures |s| == len
    {
      buf[..len]
    }

    /** bson_writer_init. */
    constructor (initial: nat)
      ensures Valid() && fresh(buf) && Contents() == []
    {
      var cap := if initial < 16 then 16 else initial;
      buf := new byte[cap](i => 0);
      len := 0;
    }

    /** writer_reserve: double the buffer until there is room, up to the size limit. */
    method Reserve(additional: nat) returns (r: Result<()>)
      requires Valid()
      modifies this`buf
      ensures Valid() && (buf == old(buf) || fresh(buf))
      ensures Contents() == old(Contents())
      ensures r.Ok? <==> len + additional <= MAX_DOCUMENT_SIZE
      ensures r.Ok? ==> len + additional <= buf.Length
      ensures r.Err? ==> r.status == DocumentTooLarge
    {
      var needed := len + additional;
      if needed > MAX_DOCUMENT_SIZE {
        return Err(DocumentTooLarge);
      }
      if needed <= buf.Length {
        return Ok(());
      }
      var cap := if buf.Length == 0 then 256 else buf.Length;
      while cap < needed
        invariant cap > 0 && cap >= buf.Length
      {
        cap := 2 * cap;
      }
      var grown := new byte[cap](i => 0);
      forall i | 0 <= i < len {
        grown[i] := buf[i];
      }
      assert grown[..len] == buf[..len];
      buf := grown;
      r := Ok(());
    }

    /** writer_put_bytes. */
    method Put(data: seq<byte>) returns (r: Result<()>)
      requires Valid()
      modifies this, buf
      ensures Valid() && (buf == old(buf) || fresh(buf))
      ensures r.Ok? <==> old(len) + |data| <= MAX_DOCUMENT_SIZE
      ensures r.Ok? ==> Contents() == old(Contents()) + data
      ensures r.Err? ==> r.status == DocumentTooLarge && Contents() == old(Contents())
    {
      r := Reserve(|data|);
      if r.Err? {
        return;
      }
      forall i | 0 <= i < |data| {
        buf[len + i] := data[i];
      }
      len := len + |data|;
      assert buf[..len] == old(Contents()) + data;
    }

    /** bson_writer_end_document: the terminator, and the length patched in at `patch`. */
    method EndDocument(patch: nat) returns (r: Result<()>)
      requires Valid() && patch + 4 <= len
      modifies this, buf
      ensures Valid() && (buf == old(buf) || fresh(buf))
      ensures r.Ok? <==> old(len) + 1 <= MAX_DOCUMENT_SIZE
      ensures r.Ok? ==> Contents() == old(Contents()[..patch]) + ToLE(old(len) + 1 - patch, 4)
                                      + old(Contents()[patch + 4..]) + [0]
      ensures r.Err? ==> r.status == DocumentTooLarge && Contents() == old(Contents())
    {
      hide ToLE;
      r := Put([0]);
      if r.Err? {
        return;
      }
      Backpatch(patch, ToLE(len - patch, 4));
      PatchedEnd(old(Contents()), patch);
    }

    method Backpatch(patch: nat, prefix: seq<byte>)
      requires Valid() && patch + |prefix| <= len
      modifies buf
      ensures Valid() && Contents() == old(Contents()[..patch]) + prefix + old(Contents()[patch + |prefix|..])
    {
      ghost var written := Contents();
      forall i | 0 <= i < |prefix| {
        buf[patch + i] := prefix[i];
      }
      assert Contents() == written[..patch] + prefix + written[patch + |prefix|..];
    }
  }

  /** The bytes of one value as an element. */
  function ElemOf(key: seq<byte>, v: Value): Elem {
    Elem(TypeOf(v), key, ToPayload(v))
  }

  /** How many bytes of an element are written before the walk meets its own error in it. */
  function ElemWritten(key: seq<byte>, v: Value, depth: nat): nat
    decreases v, 2
  {
    if v.Int? then 0 else |key| + 2 + ValueWritten(v, depth)
  }

  function ValueWritten(v: Value, depth: nat): nat
    decreases v, 1
  {
    match v
    case Document(fs) => if depth > MAX_DEPTH then 0 else 4 + FieldsWritten(fs, depth)
    case Array(items) => if depth > MAX_DEPTH then 0 else 4 + ItemsWritten(items, 0, depth)
    case _ => 0
  }

  function FieldsWritten(fs: seq<Field>, depth: nat): nat
    decreases fs, 0
  {
    if fs == [] || 0 in fs[0].key then 0
    else if FirstError(fs[0].value, depth + 1).Some? then ElemWritten(fs[0].key, fs[0].value, depth + 1)
    else |SerElem(ElemOf(fs[0].key, fs[0].value))| + FieldsWritten(fs[1..], depth)
  }

  function ItemsWritten(items: seq<Value>, from: nat, depth: nat): nat
    decreases items, 0
  {
    if items == [] then 0
    else if FirstError(items[0], depth + 1).Some? then ElemWritten(Decimal(from), items[0], depth + 1)
    else |SerElem(ElemOf(Decimal(from), items[0]))| + ItemsWritten(items[1..], from + 1, depth)
  }

  /**
    * Success exactly when the walk has no error of its own and the bytes fit.  Otherwise its
    * own error if the bytes written before it fit, and the size error if they do not.
    */
  ghost predicate Outcome(r: Result<()>, error: Option<Status>, written: nat, before: nat, size: nat) {
    && (r.Ok? <==> error.None? && before + size <= MAX_DOCUMENT_SIZE)
    && (r.Err? ==>
          r.status == if error.Some? && before + written <= MAX_DOCUMENT_SIZE then error.value else DocumentTooLarge)
  }

  /** bson_writer_append_element_header. */
  method PutHeader(w: Writer, typ: byte, key: seq<byte>) returns (r: Result<()>)
    requires w.Valid()
    modifies w, w.buf
    ensures w.Valid() && (w.buf == old(w.buf) || fresh(w.buf))
    ensures Outcome(r, None, 0, old(w.len), |key| + 2)
    ensures r.Ok? ==> w.Contents() == old(w.Contents()) + Header(typ, key)
  {
    r := w.Put([typ]);
    if r.Err? {
      return;
    }
    r := w.Put(key);
    if r.Err? {
      return;
    }
    r := w.Put([0]);
  }

  method PutString(w: Writer, s: seq<byte>) returns (r: Result<()>)
    requires w.Valid()
    modifies w, w.buf
    ensures w.Valid() && (w.buf == old(w.buf) || fresh(w.buf))
    ensures Outcome(r, if |s| > INT32_MAX - 1 then Some(ValueOutOfRange) else None, 0, old(w.len), |s| + 5)
    ensures r.Ok? ==> w.Contents() == old(w.Contents()) + (IntBytes(|s| + 1, 4) + s + [0])
  {
    hide IntBytes;
    if |s| > INT32_MAX - 1 {
      return Err(ValueOutOfRange);
    }
    r := w.Put(IntBytes(|s| + 1, 4));
    if r.Err? {
      return;
    }
    r := w.Put(s);
    if r.Err? {
      return;
    }
    r := w.Put([0]);
  }

  method PutBinary(w: Writer, d: seq<byte>) returns (r: Result<()>)
    requires w.Valid()
    modifies w, w.buf
    ensures w.Valid() && (w.buf == old(w.buf) || fresh(w.buf))
    ensures Outcome(r, if |d| > INT32_MAX then Some(ValueOutOfRange) else None, 0, old(w.len), |d| + 5)
    ensures r.Ok? ==> w.Contents() == old(w.Contents()) + (IntBytes(|d|, 4) + [BINARY_GENERIC] + d)
  {
    hide IntBytes;
    if |d| > INT32_MAX {
      return Err(ValueOutOfRange);
    }
    r := w.Put(IntBytes(|d|, 4));
    if r.Err? {
      return;
    }
    r := w.Put([BINARY_GENERIC]);
    if r.Err? {
      return;
    }
    r := w.Put(d);
  }

  /** The value bytes of an element that is not a document or array. */
  method PutFlat(w: Writer, v: Value, depth: nat) returns (r: Result<()>)
    requires w.Valid() && !v.Document? && !v.Array? && (v.Int? ==> IsInt64(v.i))
    modifies w, w.buf
    ensures w.Valid() && (w.buf == old(w.buf) || fresh(w.buf))
    ensures Outcome(r, FirstError(v, depth), 0, old(w.len), |ToPayload(v).bytes|)
    ensures r.Ok? ==> w.Contents() == old(w.Contents()) + ToPayload(v).bytes
  {
    match v {
      case Null =>
        r := Ok(());
      case Bool(b) =>
        r := w.Put([if b then 1 else 0]);
      case Int(i) =>
        r := w.Put(if IsInt32(i) then IntBytes(i, 4) else IntBytes(i, 8));
      case Double(bits) =>
        r := w.Put(bits);
      case Str(s) =>
        r := PutString(w, s);
      case Bin(d) =>
        r := PutBinary(w, d);
      case ObjectId(id) =>
        r := w.Put(id);
      case Time(t) =>
        r := w.Put(IntBytes(ToEpochMs(t), 8));
    }
  }

  /** The bytes of a value without its header. */
  function ValueBytes(v: Value): seq<byte> {
    match ToPayload(v) case Flat(b) => b case Sub(d) => Ser(d)
  }

  /** encode_element: the int64 test comes before the header, every other test after it. */
  method EncodeElement(w: Writer, key: seq<byte>, v: Value, depth: nat) returns (r: Result<()>)
    requires w.Valid()
    modifies w, w.buf
    ensures w.Valid() && (w.buf == old(w.buf) || fresh(w.buf))
    ensures Outcome(r, FirstError(v, depth), ElemWritten(key, v, depth), old(w.len), |SerElem(ElemOf(key, v))|)
    ensures r.Ok? ==> w.Contents() == old(w.Contents()) + SerElem(ElemOf(key, v))
    decreases v, 2
  {
    hide TypeOf, SerElem, Header, ElemOf, ValueBytes, ValueWritten;
    ElemIs(key, v);
    if v.Int? && !IsInt64(v.i) {
      return Err(ValueOutOfRange);
    }
    r := PutHeader(w, TypeOf(v), key);
    if r.Err? {
      return;
    }
    r := EncodeValue(w, v, depth);
  }

  /** The part of encode_element after the header. */
  method EncodeValue(w: Writer, v: Value, depth: nat) returns (r: Result<()>)
    requires w.Valid() && (v.Int? ==> IsInt64(v.i))
    modifies w, w.buf
    ensures w.Valid() && (w.buf == old(w.buf) || fresh(w.buf))
    ensures Outcome(r, FirstError(v, depth), ValueWritten(v, depth), old(w.len), |ValueBytes(v)|)
    ensures r.Ok? ==> w.Contents() == old(w.Contents()) + ValueBytes(v)
    decreases v, 1
  {
    hide ToPayload, Ser, FieldsError, ItemsError, FieldsWritten, ItemsWritten, Outcome;
    PayloadCases(v);
    match v {
      case Document(fs) => r := EncodeDocumentBody(w, fs, depth);
      case Array(items) => r := EncodeArrayBody(w, items, depth);
      case _ => r := PutFlat(w, v, depth);
    }
  }

  lemma ElemIs(key: seq<byte>, v: Value)
    ensures SerElem(ElemOf(key, v)) == Header(TypeOf(v), key) + ValueBytes(v)
    ensures |Header(TypeOf(v), key)| == |key| + 2
  {
    hide ToPayload, TypeOf, Ser;
  }

  lemma {:induction false} PayloadCases(v: Value)
    ensures match v
            case Document(fs) => ToPayload(v) == Sub(Raw(ToElems(fs)))
            case Array(items) => ToPayload(v) == Sub(Raw(ItemElems(items, 0)))
            case _ => ToPayload(v).Flat?
  {
  }

  /** The end of either body: the terminator and the length. */
  method Finish(w: Writer, patch: nat, ghost before: seq<byte>, ghost es: seq<Elem>) returns (r: Result<()>)
    requires w.Valid() && patch == |before| && w.Contents() == before + [0, 0, 0, 0] + SerElems(es)
    modifies w, w.buf
    ensures w.Valid() && (w.buf == old(w.buf) || fresh(w.buf))
    ensures r.Ok? <==> |before| + |Ser(Raw(es))| <= MAX_DOCUMENT_SIZE
    ensures r.Ok? ==> w.Contents() == before + Ser(Raw(es))
    ensures r.Err? ==> r.status == DocumentTooLarge
  {
    hide Ser, SerElems;
    SerSize(Raw(es));
    ghost var all := w.Contents();
    r := w.EndDocument(patch);
    if r.Ok? {
      Patched(before, es, all);
    }
  }

  /** encode_document_body. */
  method EncodeDocumentBody(w: Writer, fs: seq<Field>, depth: nat) returns (r: Result<()>)
    requires w.Valid()
    modifies w, w.buf
    ensures w.Valid() && (w.buf == old(w.buf) || fresh(w.buf))
    ensures Outcome(r, FirstError(Document(fs), depth), ValueWritten(Document(fs), depth), old(w.len),
                    |Ser(Raw(ToElems(fs)))|)
    ensures r.Ok? ==> w.Contents() == old(w.Contents()) + Ser(Raw(ToElems(fs)))
    decreases fs, 0
  {
    hide Ser, SerElem, SerElems, FirstError, ElemOf, ToPayload, ElemWritten, FieldsWritten, ValueWritten;
    hide FieldsError, ToElems;
    ghost var before, es := w.Contents(), ToElems(fs);
    DocumentError(fs, depth);
    SerSize(Raw(es));
    if depth > MAX_DEPTH {
      return Err(MaxDepthExceeded);
    }
    var patch := w.len;
    r := w.Put([0, 0, 0, 0]);
    if r.Err? {
      return;
    }
    var i := 0;
    while i < |fs|
      invariant i <= |fs| && w.Valid() && (w.buf == old(w.buf) || fresh(w.buf))
      invariant FieldsError(fs, depth) == FieldsError(fs[i..], depth)
      invariant 4 + FieldsWritten(fs, depth) == w.len - patch + FieldsWritten(fs[i..], depth)
      invariant w.Contents() + SerElems(ToElems(fs[i..])) == before + [0, 0, 0, 0] + SerElems(es)
      invariant w.len >= patch + 4
    {
      ghost var have := w.Contents();
      FieldsStep(fs, i, depth);
      if 0 in fs[i].key {
        return Err(InvalidKey);
      }
      r := EncodeElement(w, fs[i].key, fs[i].value, depth + 1);
      if r.Err? {
        return;
      }
      Assoc(have, SerElem(ElemOf(fs[i].key, fs[i].value)), SerElems(ToElems(fs[i + 1..])));
      i := i + 1;
    }
    NothingLeft(fs, depth);
    assert w.Contents() == before + [0, 0, 0, 0] + SerElems(es);
    r := Finish(w, patch, before, es);
  }

  /** encode_array_body. */
  method EncodeArrayBody(w: Writer, items: seq<Value>, depth: nat) returns (r: Result<()>)
    requires w.Valid()
    modifies w, w.buf
    ensures w.Valid() && (w.buf == old(w.buf) || fresh(w.buf))
    ensures Outcome(r, FirstError(Array(items), depth), ValueWritten(Array(items), depth), old(w.len),
                    |Ser(Raw(ItemElems(items, 0)))|)
    ensures r.Ok? ==> w.Contents() == old(w.Contents()) + Ser(Raw(ItemElems(items, 0)))
    decreases items, 0
  {
    hide Ser, SerElem, SerElems, FirstError, ElemOf, ToPayload, Decimal, ElemWritten, ItemsWritten;
    hide ValueWritten, ItemsError, ItemElems;
    ghost var before, es := w.Contents(), ItemElems(items, 0);
    ArrayError(items, depth);
    SerSize(Raw(es));
    if depth > MAX_DEPTH {
      return Err(MaxDepthExceeded);
    }
    var patch := w.len;
    r := w.Put([0, 0, 0, 0]);
    if r.Err? {
      return;
    }
    var i := 0;
    while i < |items|
      invariant i <= |items| && w.Valid() && (w.buf == old(w.buf) || fresh(w.buf))
      invariant ItemsError(items, depth) == ItemsError(items[i..], depth)
      invariant 4 + ItemsWritten(items, 0, depth) == w.len - patch + ItemsWritten(items[i..], i, depth)
      invariant w.Contents() + SerElems(ItemElems(items[i..], i)) == before + [0, 0, 0, 0] + SerElems(es)
      invariant w.len >= patch + 4
    {
      ghost var have := w.Contents();
      ItemsStep(items, i, depth);
      r := EncodeElement(w, Decimal(i), items[i], depth + 1);
      if r.Err? {
        return;
      }
      Assoc(have, SerElem(ElemOf(Decimal(i), items[i])), SerElems(ItemElems(items[i + 1..], i + 1)));
      i := i + 1;
    }
    NoItemsLeft(items, depth);
    assert w.Contents() == before + [0, 0, 0, 0] + SerElems(es);
    r := Finish(w, patch, before, es);
  }

  lemma {:induction false} DocumentError(fs: seq<Field>, depth: nat)
    ensures FirstError(Document(fs), depth)
            == if depth > MAX_DEPTH then Some(MaxDepthExceeded) else FieldsError(fs, depth)
    ensures ValueWritten(Document(fs), depth) == if depth > MAX_DEPTH then 0 else 4 + FieldsWritten(fs, depth)
    ensures fs[0..] == fs
  {
  }

  lemma {:induction false} ArrayError(items: seq<Value>, depth: nat)
    ensures FirstError(Array(items), depth)
            == if depth > MAX_DEPTH then Some(MaxDepthExceeded) else ItemsError(items, depth)
    ensures ValueWritten(Array(items), depth) == if depth > MAX_DEPTH then 0 else 4 + ItemsWritten(items, 0, depth)
    ensures items[0..] == items
  {
  }

  lemma {:induction false} FieldsStep(fs: seq<Field>, i: nat, depth: nat)
    requires i < |fs|
    ensures FieldsError(fs[i..], depth)
            == if 0 in fs[i].key then Some(InvalidKey)
               else if FirstError(fs[i].value, depth + 1).Some? then FirstError(fs[i].value, depth + 1)
               else FieldsError(fs[i + 1..], depth)
    ensures FieldsWritten(fs[i..], depth)
            == if 0 in fs[i].key then 0
               else if FirstError(fs[i].value, depth + 1).Some? then ElemWritten(fs[i].key, fs[i].value, depth + 1)
               else |SerElem(ElemOf(fs[i].key, fs[i].value))| + FieldsWritten(fs[i + 1..], depth)
    ensures SerElems(ToElems(fs[i..])) == SerElem(ElemOf(fs[i].key, fs[i].value)) + SerElems(ToElems(fs[i + 1..]))
  {
    hide SerElem, ToPayload, TypeOf, FirstError, ElemWritten;
    assert fs[i..][0] == fs[i] && fs[i..][1..] == fs[i + 1..];
  }

  lemma {:induction false} ItemsStep(items: seq<Value>, i: nat, depth: nat)
    requires i < |items|
    ensures ItemsError(items[i..], depth)
            == if FirstError(items[i], depth + 1).Some? then FirstError(items[i], depth + 1)
               else ItemsError(items[i + 1..], depth)
    ensures ItemsWritten(items[i..], i, depth)
            == if FirstError(items[i], depth + 1).Some? then ElemWritten(Decimal(i), items[i], depth + 1)
               else |SerElem(ElemOf(Decimal(i), items[i]))| + ItemsWritten(items[i + 1..], i + 1, depth)
    ensures SerElems(ItemElems(items[i..], i))
            == SerElem(ElemOf(Decimal(i), items[i])) + SerElems(ItemElems(items[i + 1..], i + 1))
  {
    hide SerElem, ToPayload, TypeOf, FirstError, Decimal, ElemWritten;
    assert items[i..][0] == items[i] && items[i..][1..] == items[i + 1..];
  }

  lemma {:induction false} NothingLeft(fs: seq<Field>, depth: nat)
    ensures FieldsError(fs[|fs|..], depth).None? && SerElems(ToElems(fs[|fs|..])) == []
  {
  }

  lemma {:induction false} NoItemsLeft(items: seq<Value>, depth: nat)
    ensures ItemsError(items[|items|..], depth).None? && SerElems(ItemElems(items[|items|..], |items|)) == []
  {
  }

  /** Patching the length in turns the placeholder form into the printed document. */
  lemma {:induction false} Patched(before: seq<byte>, es: seq<Elem>, all: seq<byte>)
    requires all == before + [0, 0, 0, 0] + SerElems(es)
    ensures all[..|before|] + ToLE(|all| + 1 - |before|, 4) + all[|before| + 4..] + [0] == before + Ser(Raw(es))
  {
    hide SerElems, ToLE;
    var body := SerElems(es);
    var prefix := ToLE(|body| + DOC_MIN_LEN, 4);
    assert all[..|before|] == before && all[|before| + 4..] == body;
    Assoc(before, prefix, body);
    Assoc(before, prefix + body, [0]);
  }

  /** The bytes before the walk's own error are among those of the whole value. */
  lemma {:induction false} WrittenFits(v: Value, depth: nat)
    ensures ValueWritten(v, depth) <= |ValueBytes(v)|
    decreases v, 1
  {
    hide Ser;
    match v
    case Document(fs) =>
      FieldsWrittenFit(fs, depth);
      SerSize(Raw(ToElems(fs)));
    case Array(items) =>
      ItemsWrittenFit(items, 0, depth);
      SerSize(Raw(ItemElems(items, 0)));
    case _ =>
  }

  lemma {:induction false} FieldsWrittenFit(fs: seq<Field>, depth: nat)
    ensures FieldsWritten(fs, depth) <= |SerElems(ToElems(fs))|
    decreases fs, 0
  {
    hide SerElem, ValueWritten, ValueBytes, Header, TypeOf, ToPayload, FirstError;
    if fs == [] {
    } else {
      WrittenFits(fs[0].value, depth + 1);
      FieldsWrittenFit(fs[1..], depth);
      ElemIs(fs[0].key, fs[0].value);
      assert ToElems(fs)[1..] == ToElems(fs[1..]);
    }
  }

  lemma {:induction false} ItemsWrittenFit(items: seq<Value>, from: nat, depth: nat)
    ensures ItemsWritten(items, from, depth) <= |SerElems(ItemElems(items, from))|
    decreases items, 0
  {
    hide SerElem, ValueWritten, ValueBytes, Header, TypeOf, ToPayload, FirstError, Decimal;
    if items == [] {
    } else {
      WrittenFits(items[0], depth + 1);
      ItemsWrittenFit(items[1..], from + 1, depth);
      ElemIs(Decimal(from), items[0]);
      assert ItemElems(items, from)[1..] == ItemElems(items[1..], from + 1);
    }
  }

  /**
    * py_encode: the bytes of a dict that has no fault and fits.  Otherwise the first fault, if the
    * bytes before it fit, as they do when all of them do; and the size error if not.
    */
  method Encode(fs: seq<Field>) returns (r: Result<seq<byte>>)
    ensures r.Ok? <==> Faultless(Document(fs), 0) && |Encoding(fs)| <= 16 * 1024 * 1024
    ensures r.Ok? ==> r.value == Encoding(fs)
    ensures r.Err? ==> RefusedWith(fs, r.status)
    ensures forall p: Place, s | FirstFault(Document(fs), 0, p, s) ::
              r == Err(if ValueWritten(Document(fs), 0) <= 16 * 1024 * 1024 then s else DocumentTooLarge)
    ensures ValueWritten(Document(fs), 0) <= |Encoding(fs)|
  {
    hide FirstError, Ser, ToElems, ValueWritten, Faultless, FirstFault;
    WrittenFits(Document(fs), 0);
    ErrorIsFirstFault(Document(fs), 0);
    forall p: Place, s | FirstFault(Document(fs), 0, p, s) ensures FirstError(Document(fs), 0) == Some(s) {
      FirstErrorIff(Document(fs), 0, s);
    }
    var w := new Writer(256 + |fs| * 32);
    var status := EncodeDocumentBody(w, fs, 0);
    if status.Err? {
      return Err(status.status);
    }
    r := Ok(w.buf[..w.len]);
  }
}
