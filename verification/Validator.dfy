/**
  * The bounds-checked iterator and the recursive validator of bson_engine.c, as the
  * step-by-step code they are, proved against the walk of module Grammar.
  */
module Validator {
  import opened Bytes
  import opened Grammar
  import Utf8

  /** The `err` of a call that may also just end: no error, or its code. */
  datatype Outcome = Clean | Failed(status: Status)

  /** bson_iter_t with its embedded bson_reader_t: a cursor over a borrowed buffer. */
  class Iter {
    var buf: seq<byte>
    var len: nat
    var pos: nat
    var docEnd: nat
    var typ: byte
    var keyOff: nat
    var keyLen: nat
    var valueOff: nat

    predicate Valid()
      reads this
    {
      pos <= docEnd < len <= |buf|
    }

    /** bson_iter_init_nested. */
    constructor (buf: seq<byte>, offset: nat, end: nat, parentEnd: nat)
      requires parentEnd <= |buf| && InitNested(buf, offset, parentEnd) == Ok(end)
      ensures Valid() && this.buf == buf && len == parentEnd && pos == offset + 4 && docEnd == end
    {
      this.buf, len, pos, docEnd := buf, parentEnd, offset + 4, end;
      typ, keyOff, keyLen, valueOff := 0, 0, 0, 0;
    }

    method Remaining() returns (n: nat)
      requires pos <= len
      ensures n == len - pos
    {
      n := len - pos;
    }

    method ReadU8() returns (r: Result<byte>)
      requires pos <= len <= |buf|
      modifies `pos
      ensures pos <= len
      ensures r == if old(pos) + 1 <= len then Ok(buf[old(pos)]) else Err(TruncatedBuffer)
      ensures pos == if r.Ok? then old(pos) + 1 else old(pos)
    {
      var left := Remaining();
      if left < 1 {
        return Err(TruncatedBuffer);
      }
      r := Ok(buf[pos]);
      pos := pos + 1;
    }

    method ReadI32() returns (r: Result<int>)
      requires pos <= len <= |buf|
      modifies `pos
      ensures pos <= len
      ensures r == if old(pos) + 4 <= len then Ok(SignedLE(buf[old(pos)..old(pos) + 4])) else Err(TruncatedBuffer)
      ensures pos == if r.Ok? then old(pos) + 4 else old(pos)
    {
      var left := Remaining();
      if left < 4 {
        return Err(TruncatedBuffer);
      }
      r := Ok(SignedLE(buf[pos..pos + 4]));
      pos := pos + 4;
    }

    method SkipBytes(count: nat) returns (r: Result<()>)
      requires pos <= len <= |buf|
      modifies `pos
      ensures pos <= len
      ensures r.Ok? <==> old(pos) + count <= len
      ensures r.Err? ==> r.status == TruncatedBuffer
      ensures pos == if r.Ok? then old(pos) + count else old(pos)
    {
      var left := Remaining();
      if left < count {
        return Err(TruncatedBuffer);
      }
      pos := pos + count;
      r := Ok(());
    }

    /** bson_reader_read_cstring_bounded with the document's end as bound. */
    method ReadCString() returns (r: Result<(nat, nat)>)
      requires pos <= docEnd < len <= |buf|
      modifies `pos
      ensures var nul := FindNul(buf, old(pos), docEnd);
              && r == (if nul < docEnd then Ok((old(pos), nul - old(pos))) else Err(UnterminatedString))
              && pos == (if nul < docEnd then nul + 1 else old(pos))
    {
      var i := pos;
      while i < docEnd && buf[i] != 0
        invariant pos <= i <= docEnd
        invariant FindNul(buf, i, docEnd) == FindNul(buf, pos, docEnd)
      {
        i := i + 1;
      }
      if i >= docEnd {
        return Err(UnterminatedString);
      }
      r := Ok((pos, i - pos));
      pos := i + 1;
    }

    /** The switch of bson_iter_next over the type byte: skip the value. */
    method SkipValue() returns (r: Result<()>)
      requires pos <= docEnd < len <= |buf|
      modifies `pos
      ensures pos <= len
      ensures var end := ValueEnd(buf, typ, old(pos), docEnd, len);
              if end.Ok? then r.Ok? && pos == end.value else r == Err(end.status)
    {
      hide SignedLE;
      if FixedWidth(typ) >= 0 {
        r := SkipBytes(FixedWidth(typ));
      } else if typ == TYPE_STRING {
        var n := ReadI32();
        if n.Err? {
          return Err(n.status);
        }
        if n.value < 1 {
          return Err(InvalidLength);
        }
        r := SkipBytes(n.value);
      } else if IsNested(typ) {
        var start := pos;
        var n := ReadI32();
        if n.Err? {
          return Err(n.status);
        }
        if n.value < DOC_MIN_LEN {
          return Err(InvalidLength);
        }
        var end := start + n.value;
        if end > docEnd {
          return Err(TruncatedBuffer);
        }
        pos := end;
        r := Ok(());
      } else if typ == TYPE_BINARY {
        var n := ReadI32();
        if n.Err? {
          return Err(n.status);
        }
        if n.value < 0 {
          return Err(InvalidLength);
        }
        r := SkipBytes(1);
        if r.Err? {
          return;
        }
        r := SkipBytes(n.value);
      } else if Deferred(typ) {
        r := Err(UnsupportedType);
      } else {
        r := Err(InvalidTypeByte);
      }
    }

    /** bson_iter_next.  The cursor never passes the end of the document, because each step checks it. */
    method Advance() returns (more: bool, err: Outcome)
      requires Valid()
      modifies this
      ensures buf == old(buf) && len == old(len) && docEnd == old(docEnd)
      ensures more ==> Valid()
      ensures match Next(buf, old(pos), docEnd, len)
              case Done => !more && err == Clean
              case Fail(s) => !more && err == Failed(s)
              case Got(t, key, value, next) =>
                && more && err == Clean && typ == t && valueOff == value && pos == next
                && keyOff + keyLen <= |buf| && buf[keyOff..keyOff + keyLen] == key
    {
      hide SignedLE, ValueEnd, Utf8.IsUtf8, FindNul;
      if pos >= docEnd {
        var eoo := ReadU8();
        if eoo.Err? || eoo.value != 0 {
          return false, Failed(MissingEoo);
        }
        return false, Clean;
      }
      var t := ReadU8();
      if t.Err? {
        return false, Failed(t.status);
      }
      var key := ReadCString();
      if key.Err? {
        return false, Failed(key.status);
      }
      var valid := Utf8.Validate(buf[key.value.0..key.value.0 + key.value.1]);
      if !valid {
        return false, Failed(InvalidUtf8);
      }
      typ, keyOff, keyLen, valueOff := t.value, key.value.0, key.value.1, pos;
      var status := SkipValue();
      if status.Err? {
        return false, Failed(status.status);
      }
      if pos > docEnd {
        return false, Failed(TruncatedBuffer);
      }
      return true, Clean;
    }
  }

  /** Two walks that fail alike or both succeed. */
  ghost predicate Alike<A, B>(a: Result<A>, b: Result<B>) {
    (a.Ok? <==> b.Ok?) && (a.Err? ==> a.status == b.status)
  }

  /** The status of bson_iter_init_nested and the offset of the end byte. */
  method ReadFrame(buf: seq<byte>, offset: nat, parentEnd: nat) returns (r: Result<nat>)
    requires parentEnd <= |buf|
    ensures r == InitNested(buf, offset, parentEnd)
  {
    if offset + DOC_MIN_LEN > parentEnd {
      return Err(TruncatedBuffer);
    }
    var docLen := SignedLE(buf[offset..offset + 4]);
    if docLen < DOC_MIN_LEN {
      return Err(InvalidLength);
    }
    if docLen > MAX_DOCUMENT_SIZE {
      return Err(DocumentTooLarge);
    }
    var end := offset + docLen;
    if end > parentEnd {
      return Err(TruncatedBuffer);
    }
    r := Ok(end - 1);
  }

  /** validate_recursive. */
  method ValidateRecursive(buf: seq<byte>, offset: nat, bound: nat, depth: nat) returns (r: Result<nat>)
    requires bound <= |buf| && depth <= MAX_DEPTH + 1
    ensures Alike(r, ParseDoc(buf, offset, bound, depth))
    ensures r.Ok? ==> r.value == ParseDoc(buf, offset, bound, depth).value.1
    decreases MAX_DEPTH + 1 - depth
  {
    hide Next, InitNested;
    if depth > MAX_DEPTH {
      return Err(MaxDepthExceeded);
    }
    var frame := ReadFrame(buf, offset, bound);
    if frame.Err? {
      return Err(frame.status);
    }
    var iter := new Iter(buf, offset, frame.value, bound);
    while true
      invariant iter.Valid() && iter.buf == buf && iter.len == bound && iter.docEnd == frame.value && fresh(iter)
      invariant Alike(ParseElems(buf, offset + 4, iter.docEnd, bound, depth),
                      ParseElems(buf, iter.pos, iter.docEnd, bound, depth))
      decreases iter.docEnd - iter.pos
    {
      var more, err := iter.Advance();
      if !more {
        if err.Failed? {
          return Err(err.status);
        }
        break;
      }
      if IsNested(iter.typ) {
        var child := ValidateRecursive(buf, iter.valueOff, iter.docEnd, depth + 1);
        if child.Err? {
          return Err(child.status);
        }
      }
    }
    r := Ok(iter.docEnd + 1);
  }

  /** bson_validate_document: its verdict, code included, is the grammar's. */
  method ValidateDocument(buf: seq<byte>) returns (r: Result<()>)
    ensures Alike(r, ValidateSpec(buf))
    ensures r.Ok? <==> exists d :: WfDoc(d, 0) && Ser(d) == buf
  {
    hide WfDoc, ParseDoc;
    ValidatorIsGrammar(buf);
    if |buf| < DOC_MIN_LEN {
      return Err(TruncatedBuffer);
    }
    var end := ValidateRecursive(buf, 0, |buf|, 0);
    if end.Err? {
      return Err(end.status);
    }
    if end.value != |buf| {
      return Err(TrailingBytes);
    }
    r := Ok(());
  }
}
