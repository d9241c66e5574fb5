/**
  * The decoding walk of _bson_core.c.
  *
  * `BuildDoc` is the walk as the code makes it: every value is read again with its own
  * bounds checks, and a nested document is bounded by its own declared end instead of
  * its parent's.  On a validated buffer it visits the elements the validator saw, and
  * none of those checks can fail.
  */
module Decoder {
  import opened Sequences
  import opened Bytes
  import opened Grammar
  import opened Calendar
  import opened Codec
  import opened Validator
  import Utf8

  // ---------------------------------------------------------------- the walk

  function ReadI32At(b: seq<byte>, off: nat, limit: nat): Result<int>
    requires limit <= |b|
  {
    if limit < off + 4 then Err(TruncatedBuffer) else Ok(SignedLE(b[off..off + 4]))
  }

  function ReadBytesAt(b: seq<byte>, off: nat, count: nat, limit: nat): Result<seq<byte>>
    requires limit <= |b|
  {
    if limit < off + count then Err(TruncatedBuffer) else Ok(b[off..off + count])
  }

  /** bson_iter_value_utf8. */
  ghost function ReadUtf8(b: seq<byte>, off: nat, limit: nat): Result<Value>
    requires limit <= |b|
  {
    var n := ReadI32At(b, off, limit);
    if n.Err? then Err(n.status)
    else if n.value < 1 then Err(InvalidLength)
    else
      var s := ReadBytesAt(b, off + 4, n.value, limit);
      if s.Err? then Err(s.status)
      else if s.value[n.value - 1] != 0 then Err(UnterminatedString)
      else if !Utf8.IsUtf8(s.value[..n.value - 1]) then Err(InvalidUtf8)
      else Ok(Str(s.value[..n.value - 1]))
  }

  /** bson_iter_value_binary, without the subtype. */
  function ReadBinary(b: seq<byte>, off: nat, limit: nat): Result<Value>
    requires limit <= |b|
  {
    var n := ReadI32At(b, off, limit);
    if n.Err? then Err(n.status)
    else if n.value < 0 then Err(InvalidLength)
    else if limit < off + 5 then Err(TruncatedBuffer)
    else
      var d := ReadBytesAt(b, off + 5, n.value, limit);
      if d.Err? then Err(d.status) else Ok(Bin(d.value))
  }

  function TimeOf(ms: int): Result<Value> {
    match FromEpochMs(ms)
    case InRange(t) => Ok(Time(t))
    case OutOfRange => Err(ValueOutOfRange)
  }

  /** build_value on anything but documents and arrays. */
  ghost function BuildFlat(b: seq<byte>, typ: byte, off: nat, limit: nat): Result<Value>
    requires limit <= |b|
  {
    if typ == TYPE_STRING then ReadUtf8(b, off, limit)
    else if typ == TYPE_BINARY then ReadBinary(b, off, limit)
    else if FixedWidth(typ) < 0 then Err(UnsupportedType)
    else
      var raw := ReadBytesAt(b, off, FixedWidth(typ), limit);
      if raw.Err? then Err(raw.status)
      else if typ == TYPE_NULL then Ok(Null)
      else if typ == TYPE_BOOL then Ok(Bool(raw.value[0] != 0))
      else if typ == TYPE_DOUBLE then Ok(Double(raw.value))
      else if typ == TYPE_OBJECTID then Ok(ObjectId(raw.value))
      else if typ == TYPE_DATETIME then TimeOf(SignedLE(raw.value))
      else Ok(Int(SignedLE(raw.value)))
  }

  /** build_document, up to the loop's result. */
  ghost function BuildDoc(b: seq<byte>, offset: nat, parentEnd: nat, depth: nat): Result<seq<Field>>
    requires parentEnd <= |b| && depth <= MAX_DEPTH + 1
    decreases MAX_DEPTH + 1 - depth, 1, 0
  {
    if depth > MAX_DEPTH then Err(MaxDepthExceeded)
    else
      var docEnd := InitNested(b, offset, parentEnd);
      if docEnd.Err? then Err(docEnd.status)
      else BuildFields(b, offset + 4, docEnd.value, parentEnd, depth, [])
  }

  ghost function BuildFields(b: seq<byte>, pos: nat, docEnd: nat, limit: nat, depth: nat, done: seq<Field>)
      : Result<seq<Field>>
    requires pos <= docEnd < limit <= |b| && depth <= MAX_DEPTH
    decreases MAX_DEPTH + 1 - depth, 0, docEnd - pos
  {
    match Next(b, pos, docEnd, limit)
    case Done => Ok(done)
    case Fail(s) => Err(s)
    case Got(typ, key, value, next) =>
      NextSound(b, pos, docEnd, limit);
      var v := BuildValue(b, typ, value, next, limit, depth);
      if v.Err? then Err(v.status)
      else BuildFields(b, next, docEnd, limit, depth, SetField(done, key, v.value))
  }

  /** build_array. */
  ghost function BuildArr(b: seq<byte>, offset: nat, parentEnd: nat, depth: nat): Result<seq<Value>>
    requires parentEnd <= |b| && depth <= MAX_DEPTH + 1
    decreases MAX_DEPTH + 1 - depth, 1, 0
  {
    if depth > MAX_DEPTH then Err(MaxDepthExceeded)
    else
      var docEnd := InitNested(b, offset, parentEnd);
      if docEnd.Err? then Err(docEnd.status)
      else BuildItems(b, offset + 4, docEnd.value, parentEnd, depth, [])
  }

  ghost function BuildItems(b: seq<byte>, pos: nat, docEnd: nat, limit: nat, depth: nat, done: seq<Value>)
      : Result<seq<Value>>
    requires pos <= docEnd < limit <= |b| && depth <= MAX_DEPTH
    decreases MAX_DEPTH + 1 - depth, 0, docEnd - pos
  {
    match Next(b, pos, docEnd, limit)
    case Done => Ok(done)
    case Fail(s) => Err(s)
    case Got(typ, key, value, next) =>
      NextSound(b, pos, docEnd, limit);
      var v := BuildValue(b, typ, value, next, limit, depth);
      if v.Err? then Err(v.status)
      else BuildItems(b, next, docEnd, limit, depth, done + [v.value])
  }

  /** build_value: a nested document is walked up to its own declared end. */
  ghost function BuildValue(b: seq<byte>, typ: byte, off: nat, next: nat, limit: nat, depth: nat): Result<Value>
    requires off <= next <= limit <= |b| && depth <= MAX_DEPTH
    requires IsNested(typ) ==> off + 4 <= next && SignedLE(b[off..off + 4]) == next - off
    decreases MAX_DEPTH + 1 - depth, 0, 0
  {
    if !IsNested(typ) then BuildFlat(b, typ, off, limit)
    else if next - off < DOC_MIN_LEN then Err(InvalidLength)
    else if typ == TYPE_DOCUMENT then
      var fs := BuildDoc(b, off, next, depth + 1);
      if fs.Err? then Err(fs.status) else Ok(Document(fs.value))
    else
      var items := BuildArr(b, off, next, depth + 1);
      if items.Err? then Err(items.status) else Ok(Array(items.value))
  }

  // ---------------------------------------------------------------- validated means walkable

  lemma FlatWalk(b: seq<byte>, typ: byte, off: nat, next: nat, limit: nat)
    requires off <= next <= limit <= |b| && FlatOk(typ, b[off..next])
    ensures BuildFlat(b, typ, off, limit) == FromFlat(typ, b[off..next])
  {
    hide SignedLE, Utf8.IsUtf8, FromEpochMs;
    var v := b[off..next];
    if typ == TYPE_STRING {
      SliceOfSlice(b, off, next, 0, 4);
      SliceOfSlice(b, off, next, 4, |v|);
      SliceOfSlice(b, off, next, 4, |v| - 1);
      var s := b[off + 4..next];
      assert s[..|s| - 1] == b[off + 4..next - 1];
    } else if typ == TYPE_BINARY {
      SliceOfSlice(b, off, next, 0, 4);
      SliceOfSlice(b, off, next, 5, |v|);
    }
  }

  /** The decoder's walk over a document, bounded by its own end, builds what the validator's tree says. */
  ghost predicate Follows(b: seq<byte>, offset: nat, bound: nat, depth: nat)
    requires bound <= |b| && depth <= MAX_DEPTH + 1
  {
    var r := ParseDoc(b, offset, bound, depth);
    && r.Ok?
    && r.value.1 <= bound
    && WfDoc(r.value.0, depth)
    && BuildDoc(b, offset, r.value.1, depth) == FromFields(r.value.0.elems, depth, [])
    && BuildArr(b, offset, r.value.1, depth) == FromItems(r.value.0.elems, depth, [])
  }

  /** On bytes the validator accepts, wherever it met them, the decoder's walk follows it. */
  lemma {:induction false} WalkFollowsTree(b: seq<byte>, offset: nat, bound: nat, depth: nat)
    requires bound <= |b| && depth <= MAX_DEPTH + 1 && ParseDoc(b, offset, bound, depth).Ok?
    ensures Follows(b, offset, bound, depth)
    decreases MAX_DEPTH + 1 - depth, 1, 0
  {
    hide Next, FromElem, WfElem, Ser;
    ParseSound(b, offset, bound, depth);
    var d, end := ParseDoc(b, offset, bound, depth).value.0, ParseDoc(b, offset, bound, depth).value.1;
    BoundDoesNotMatter(b, offset, bound, end, depth);
    var docEnd := InitNested(b, offset, end).value;
    ElemsWalk(b, offset + 4, docEnd, end, depth, [], []);
  }

  lemma {:induction false} ElemsWalk(b: seq<byte>, pos: nat, docEnd: nat, limit: nat, depth: nat,
                                     fs: seq<Field>, items: seq<Value>)
    requires pos <= docEnd < limit <= |b| && depth <= MAX_DEPTH
    requires ParseElems(b, pos, docEnd, limit, depth).Ok?
    ensures forall i | 0 <= i < |ParseElems(b, pos, docEnd, limit, depth).value| ::
              WfElem(ParseElems(b, pos, docEnd, limit, depth).value[i], depth)
    ensures BuildFields(b, pos, docEnd, limit, depth, fs)
            == FromFields(ParseElems(b, pos, docEnd, limit, depth).value, depth, fs)
    ensures BuildItems(b, pos, docEnd, limit, depth, items)
            == FromItems(ParseElems(b, pos, docEnd, limit, depth).value, depth, items)
    decreases MAX_DEPTH + 1 - depth, 0, docEnd - pos
  {
    hide Next, FromElem, WfElem, ParseDoc, BuildValue, Follows, SignedLE, FlatOk, SerElems, Header, Utf8.IsUtf8;
    ElemsSound(b, pos, docEnd, limit, depth);
    var step := Next(b, pos, docEnd, limit);
    if step.Got? {
      NextSound(b, pos, docEnd, limit);
      var es := ParseElems(b, pos, docEnd, limit, depth).value;
      var rest := ParseElems(b, step.next, docEnd, limit, depth).value;
      assert es[1..] == rest;
      assert WfElem(es[0], depth);
      if IsNested(step.typ) {
        WalkFollowsTree(b, step.value, docEnd, depth + 1);
      }
      ValueWalk(b, step.value, step.next, docEnd, limit, depth, es[0]);
      var v := FromElem(es[0], depth);
      if v.Ok? {
        ElemsWalk(b, step.next, docEnd, limit, depth, SetField(fs, step.key, v.value), items + [v.value]);
      }
    }
  }

  lemma ValueWalk(b: seq<byte>, off: nat, next: nat, docEnd: nat, limit: nat, depth: nat, e: Elem)
    requires off <= next <= docEnd < limit <= |b| && depth <= MAX_DEPTH && WfElem(e, depth)
    requires !IsNested(e.typ) ==> e.payload == Flat(b[off..next]) && FlatOk(e.typ, b[off..next])
    requires IsNested(e.typ) ==> off + 4 <= next && SignedLE(b[off..off + 4]) == next - off
    requires IsNested(e.typ) ==> Follows(b, off, docEnd, depth + 1)
    requires IsNested(e.typ) ==> e.payload == Sub(ParseDoc(b, off, docEnd, depth + 1).value.0)
    ensures BuildValue(b, e.typ, off, next, limit, depth) == FromElem(e, depth)
  {
    hide SignedLE, BuildFlat, FromFlat, FlatOk, BuildDoc, BuildArr, FromFields, FromItems, WfElem, Follows, ParseDoc;
    if IsNested(e.typ) {
      NestedWalk(b, off, next, docEnd, limit, depth, e);
    } else {
      FlatElem(e, depth);
      FlatWalk(b, e.typ, off, next, limit);
    }
  }

  lemma FlatElem(e: Elem, depth: nat)
    requires WfElem(e, depth) && e.payload.Flat?
    ensures FlatOk(e.typ, e.payload.bytes)
  {
  }

  lemma NestedWalk(b: seq<byte>, off: nat, next: nat, docEnd: nat, limit: nat, depth: nat, e: Elem)
    requires off + 4 <= next <= docEnd < limit <= |b| && depth <= MAX_DEPTH && WfElem(e, depth) && IsNested(e.typ)
    requires SignedLE(b[off..off + 4]) == next - off && Follows(b, off, docEnd, depth + 1)
    requires e.payload == Sub(ParseDoc(b, off, docEnd, depth + 1).value.0)
    ensures BuildValue(b, e.typ, off, next, limit, depth) == FromElem(e, depth)
  {
    hide SignedLE, BuildFlat, FromFlat, FlatOk, BuildDoc, BuildArr, FromFields, FromItems, WfDoc, WfElem, ParseDoc;
    NestedEnd(b, off, docEnd, depth + 1, next);
    NestedMin(b, off, docEnd, depth + 1);
  }

  lemma {:induction false} NestedMin(b: seq<byte>, offset: nat, bound: nat, depth: nat)
    requires bound <= |b| && depth <= MAX_DEPTH + 1 && ParseDoc(b, offset, bound, depth).Ok?
    ensures ParseDoc(b, offset, bound, depth).value.1 >= offset + DOC_MIN_LEN
  {
    InitNestedLength(b, offset, bound);
  }

  /** py_decode as code: validate, then walk from offset 0 to the end of the buffer. */
  lemma {:induction false} WalkIsDecodeSpec(b: seq<byte>)
    requires ValidateSpec(b).Ok?
    ensures BuildDoc(b, 0, |b|, 0) == DecodeSpec(b)
  {
    hide ParseDoc, BuildDoc, WfDoc, FromFields;
    ValidatorIsGrammar(b);
    WalkFollowsTree(b, 0, |b|, 0);
  }

  // ---------------------------------------------------------------- the code

  method ReadFlat(buf: seq<byte>, typ: byte, off: nat, limit: nat) returns (r: Result<Value>)
    requires limit <= |buf|
    ensures r == BuildFlat(buf, typ, off, limit)
  {
    hide SignedLE, Utf8.IsUtf8, FromEpochMs;
    if typ == TYPE_STRING {
      var n := ReadI32At(buf, off, limit);
      if n.Err? {
        return Err(n.status);
      }
      if n.value < 1 {
        return Err(InvalidLength);
      }
      var s := ReadBytesAt(buf, off + 4, n.value, limit);
      if s.Err? {
        return Err(s.status);
      }
      if s.value[n.value - 1] != 0 {
        return Err(UnterminatedString);
      }
      var valid := Utf8.Validate(s.value[..n.value - 1]);
      if !valid {
        return Err(InvalidUtf8);
      }
      return Ok(Str(s.value[..n.value - 1]));
    }
    if typ == TYPE_BINARY {
      return ReadBinary(buf, off, limit);
    }
    if FixedWidth(typ) < 0 {
      return Err(UnsupportedType);
    }
    var raw := ReadBytesAt(buf, off, FixedWidth(typ), limit);
    if raw.Err? {
      return Err(raw.status);
    }
    if typ == TYPE_NULL {
      r := Ok(Null);
    } else if typ == TYPE_BOOL {
      r := Ok(Bool(raw.value[0] != 0));
    } else if typ == TYPE_DOUBLE {
      r := Ok(Double(raw.value));
    } else if typ == TYPE_OBJECTID {
      r := Ok(ObjectId(raw.value));
    } else if typ == TYPE_DATETIME {
      r := TimeOf(SignedLE(raw.value));
    } else {
      r := Ok(Int(SignedLE(raw.value)));
    }
  }

  method ReadValue(buf: seq<byte>, typ: byte, off: nat, next: nat, limit: nat, depth: nat) returns (r: Result<Value>)
    requires off <= next <= limit <= |buf| && depth <= MAX_DEPTH
    requires IsNested(typ) ==> off + 4 <= next && SignedLE(buf[off..off + 4]) == next - off
    ensures r == BuildValue(buf, typ, off, next, limit, depth)
    decreases MAX_DEPTH + 1 - depth, 0
  {
    hide SignedLE, BuildFlat, BuildDoc, BuildArr;
    if !IsNested(typ) {
      r := ReadFlat(buf, typ, off, limit);
      return;
    }
    var len := SignedLE(buf[off..off + 4]);
    if len < DOC_MIN_LEN {
      return Err(InvalidLength);
    }
    if typ == TYPE_DOCUMENT {
      var fs := ReadDocument(buf, off, off + len, depth + 1);
      r := if fs.Err? then Err(fs.status) else Ok(Document(fs.value));
    } else {
      var items := ReadArray(buf, off, off + len, depth + 1);
      r := if items.Err? then Err(items.status) else Ok(Array(items.value));
    }
  }

  /** build_document. */
  method ReadDocument(buf: seq<byte>, offset: nat, parentEnd: nat, depth: nat) returns (r: Result<seq<Field>>)
    requires parentEnd <= |buf| && depth <= MAX_DEPTH + 1
    ensures r == BuildDoc(buf, offset, parentEnd, depth)
    decreases MAX_DEPTH + 1 - depth, 1
  {
    hide Next, InitNested, SignedLE, BuildValue;
    if depth > MAX_DEPTH {
      return Err(MaxDepthExceeded);
    }
    var frame := ReadFrame(buf, offset, parentEnd);
    if frame.Err? {
      return Err(frame.status);
    }
    var iter := new Iter(buf, offset, frame.value, parentEnd);
    var dict: seq<Field> := [];
    while true
      invariant iter.Valid() && iter.buf == buf && iter.len == parentEnd && iter.docEnd == frame.value && fresh(iter)
      invariant BuildFields(buf, offset + 4, frame.value, parentEnd, depth, [])
                == BuildFields(buf, iter.pos, frame.value, parentEnd, depth, dict)
      decreases iter.docEnd - iter.pos
    {
      ghost var pos := iter.pos;
      var more, err := iter.Advance();
      if !more {
        if err.Failed? {
          return Err(err.status);
        }
        break;
      }
      NextSound(buf, pos, frame.value, parentEnd);
      var v := ReadValue(buf, iter.typ, iter.valueOff, iter.pos, parentEnd, depth);
      if v.Err? {
        return Err(v.status);
      }
      dict := SetField(dict, buf[iter.keyOff..iter.keyOff + iter.keyLen], v.value);
    }
    r := Ok(dict);
  }

  /** build_array. */
  method ReadArray(buf: seq<byte>, offset: nat, parentEnd: nat, depth: nat) returns (r: Result<seq<Value>>)
    requires parentEnd <= |buf| && depth <= MAX_DEPTH + 1
    ensures r == BuildArr(buf, offset, parentEnd, depth)
    decreases MAX_DEPTH + 1 - depth, 1
  {
    hide Next, InitNested, SignedLE, BuildValue;
    if depth > MAX_DEPTH {
      return Err(MaxDepthExceeded);
    }
    var frame := ReadFrame(buf, offset, parentEnd);
    if frame.Err? {
      return Err(frame.status);
    }
    var iter := new Iter(buf, offset, frame.value, parentEnd);
    var list: seq<Value> := [];
    while true
      invariant iter.Valid() && iter.buf == buf && iter.len == parentEnd && iter.docEnd == frame.value && fresh(iter)
      invariant BuildItems(buf, offset + 4, frame.value, parentEnd, depth, [])
                == BuildItems(buf, iter.pos, frame.value, parentEnd, depth, list)
      decreases iter.docEnd - iter.pos
    {
      ghost var pos := iter.pos;
      var more, err := iter.Advance();
      if !more {
        if err.Failed? {
          return Err(err.status);
        }
        break;
      }
      NextSound(buf, pos, frame.value, parentEnd);
      var v := ReadValue(buf, iter.typ, iter.valueOff, iter.pos, parentEnd, depth);
      if v.Err? {
        return Err(v.status);
      }
      list := list + [v.value];
    }
    r := Ok(list);
  }

  /** py_decode. */
  method Decode(buf: seq<byte>) returns (r: Result<seq<Field>>)
    ensures r == DecodeSpec(buf)
  {
    hide BuildDoc, ParseDoc, WfDoc, ValidateSpec, FromFields;
    ValidatorIsGrammar(buf);
    var valid := ValidateDocument(buf);
    if valid.Err? {
      return Err(valid.status);
    }
    WalkIsDecodeSpec(buf);
    r := ReadDocument(buf, 0, |buf|, 0);
  }
}
