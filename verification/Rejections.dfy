/**
  * Why bytes are rejected: each status of the validator, the decoder and the record scanner, with
  * what it takes to get it.
  */
module Rejections {
  import opened Bytes
  import opened Utf8
  import opened Grammar
  import opened Calendar
  import opened Codec
  import opened IndexKeys
  import opened DataFile

  // ---------------------------------------------------------------- the frame of a document

  /** The length field of a document at `offset`, whose bytes may go up to `bound`. */
  lemma FrameRejected(b: seq<byte>, offset: nat, bound: nat)
    requires bound <= |b|
    ensures InitNested(b, offset, bound).Ok? <==>
              offset + 5 <= bound && 5 <= SignedLE(b[offset..offset + 4]) <= 16 * 1024 * 1024
              && offset + SignedLE(b[offset..offset + 4]) <= bound
    ensures InitNested(b, offset, bound) == Err(InvalidLength) <==>
              offset + 5 <= bound && SignedLE(b[offset..offset + 4]) < 5
    ensures InitNested(b, offset, bound) == Err(DocumentTooLarge) <==>
              offset + 5 <= bound && SignedLE(b[offset..offset + 4]) > 16 * 1024 * 1024
    ensures InitNested(b, offset, bound) == Err(TruncatedBuffer) <==>
              || offset + 5 > bound
              || (5 <= SignedLE(b[offset..offset + 4]) <= 16 * 1024 * 1024
                  && offset + SignedLE(b[offset..offset + 4]) > bound)
    ensures InitNested(b, offset, bound).Ok? ==>
              InitNested(b, offset, bound).value == offset + SignedLE(b[offset..offset + 4]) - 1
  {
    hide SignedLE;
  }

  // ---------------------------------------------------------------- one element

  /** Types that BSON has and the engine does not support. */
  predicate KnownUnsupported(typ: byte) {
    typ in {0x06, 0x0B, 0x0C, 0x0D, 0x0E, 0x0F, 0x11, 0x13, 0x7F, 0xFF}
  }

  predicate Supported(typ: byte) {
    typ in {0x01, 0x02, 0x03, 0x04, 0x05, 0x07, 0x08, 0x09, 0x0A, 0x10, 0x12}
  }

  /** The size of a value without a length field. */
  function PlainSize(typ: byte): int {
    if typ == 0x01 || typ == 0x09 || typ == 0x12 then 8
    else if typ == 0x10 then 4
    else if typ == 0x08 then 1
    else if typ == 0x07 then 12
    else if typ == 0x0A then 0
    else -1
  }

  /** The least length field a type may have, and how many bytes that length leaves uncounted. */
  function LeastLength(typ: byte): int {
    if typ == 0x02 then 1 else if typ == 0x05 then 0 else 5
  }

  function Uncounted(typ: byte): int {
    if typ == 0x02 then 4 else if typ == 0x05 then 5 else 0
  }

  /** A value is rejected for its type, for its length field, or because it does not fit. */
  lemma ValueRejected(b: seq<byte>, typ: byte, p: nat, docEnd: nat, limit: nat)
    requires p <= docEnd < limit <= |b|
    ensures ValueEnd(b, typ, p, docEnd, limit) == Err(UnsupportedType) <==> KnownUnsupported(typ)
    ensures ValueEnd(b, typ, p, docEnd, limit) == Err(InvalidTypeByte) <==> !Supported(typ) && !KnownUnsupported(typ)
    ensures ValueEnd(b, typ, p, docEnd, limit) == Err(InvalidLength) <==>
              typ in {0x02, 0x03, 0x04, 0x05} && p + 4 <= limit && SignedLE(b[p..p + 4]) < LeastLength(typ)
    ensures ValueEnd(b, typ, p, docEnd, limit).Err? ==>
              ValueEnd(b, typ, p, docEnd, limit).status
              in {UnsupportedType, InvalidTypeByte, InvalidLength, TruncatedBuffer}
    ensures ValueEnd(b, typ, p, docEnd, limit).Ok? ==>
              ValueEnd(b, typ, p, docEnd, limit).value ==
              if PlainSize(typ) >= 0 then p + PlainSize(typ) else p + Uncounted(typ) + SignedLE(b[p..p + 4])
  {
    hide SignedLE;
  }

  /** A value of a supported type with a good length is rejected exactly when its bytes are not all there. */
  lemma ValueTruncated(b: seq<byte>, typ: byte, p: nat, docEnd: nat, limit: nat)
    requires p <= docEnd < limit <= |b| && Supported(typ)
    ensures ValueEnd(b, typ, p, docEnd, limit) == Err(TruncatedBuffer) <==>
              if PlainSize(typ) >= 0 then p + PlainSize(typ) > limit
              else
                || p + 4 > limit
                || (SignedLE(b[p..p + 4]) >= LeastLength(typ)
                    && p + Uncounted(typ) + SignedLE(b[p..p + 4])
                       > if typ == 0x03 || typ == 0x04 then docEnd else limit)
  {
    hide SignedLE;
  }

  /** The first zero byte after `pos` is at `nul`, and what is between them is not UTF-8. */
  ghost predicate BadKey(b: seq<byte>, pos: nat, nul: nat) {
    && pos < nul < |b| && b[nul] == 0 && (forall i | pos < i < nul :: b[i] != 0)
    && !IsUtf8(b[pos + 1..nul])
  }

  /** What ends a list of elements, and what is wrong with an element's key. */
  lemma ElementRejected(b: seq<byte>, pos: nat, docEnd: nat, limit: nat)
    requires pos <= docEnd < limit <= |b|
    ensures Next(b, pos, docEnd, limit) == Done <==> pos == docEnd && b[pos] == 0
    ensures Next(b, pos, docEnd, limit) == Fail(MissingEoo) <==> pos == docEnd && b[pos] != 0
    ensures Next(b, pos, docEnd, limit) == Fail(UnterminatedString) <==>
              pos < docEnd && forall i | pos < i < docEnd :: b[i] != 0
    ensures Next(b, pos, docEnd, limit) == Fail(InvalidUtf8) <==>
              exists nul: nat :: nul < docEnd && BadKey(b, pos, nul)
  {
    hide SignedLE, IsUtf8;
    if pos < docEnd {
      var nul := FindNul(b, pos + 1, docEnd);
      assert nul < docEnd && !IsUtf8(b[pos + 1..nul]) ==> BadKey(b, pos, nul);
    }
  }

  /** A document more than 100 levels down is rejected whatever it holds, and none above that for its depth. */
  lemma DepthRejected(b: seq<byte>, offset: nat, bound: nat, depth: nat)
    requires bound <= |b| && depth <= 101
    ensures depth == 101 ==> ParseDoc(b, offset, bound, depth) == Err(MaxDepthExceeded)
    ensures depth <= 100 && InitNested(b, offset, bound).Err? ==>
              ParseDoc(b, offset, bound, depth) == Err(InitNested(b, offset, bound).status)
  {
    hide ParseElems, SignedLE;
  }

  /** A buffer that cannot be a document, or goes on after it. */
  lemma BufferRejected(b: seq<byte>)
    ensures |b| < 5 ==> ValidateSpec(b) == Err(TruncatedBuffer)
    ensures |b| >= 5 && ParseDoc(b, 0, |b|, 0).Ok? ==>
              (ValidateSpec(b) == Err(TrailingBytes) <==> SignedLE(b[..4]) != |b|)
              && (ValidateSpec(b).Ok? <==> SignedLE(b[..4]) == |b|)
    ensures |b| >= 5 && ParseDoc(b, 0, |b|, 0).Err? ==> ValidateSpec(b) == Err(ParseDoc(b, 0, |b|, 0).status)
  {
    hide ParseDoc, SignedLE;
    if |b| >= 5 && ParseDoc(b, 0, |b|, 0).Ok? {
      FrameRejected(b, 0, |b|);
    }
  }

  // ---------------------------------------------------------------- a validated value

  /** What the decoder still rejects in a value that has validated, and what it makes of the others. */
  lemma FlatRejected(typ: byte, b: seq<byte>)
    requires FlatOk(typ, b)
    ensures FromFlat(typ, b) == Err(UnterminatedString) <==> typ == 0x02 && b[|b| - 1] != 0
    ensures FromFlat(typ, b) == Err(InvalidUtf8) <==> typ == 0x02 && b[|b| - 1] == 0 && !IsUtf8(b[4..|b| - 1])
    ensures FromFlat(typ, b) == Err(ValueOutOfRange) <==>
              typ == 0x09 && !(-62135596800000 <= SignedLE(b) <= 253402300799999)
    ensures FromFlat(typ, b).Ok? ==>
              FromFlat(typ, b).value ==
              if typ == 0x0A then Null
              else if typ == 0x08 then Bool(b[0] != 0)
              else if typ == 0x10 || typ == 0x12 then Int(SignedLE(b))
              else if typ == 0x01 then Double(b)
              else if typ == 0x07 then ObjectId(b)
              else if typ == 0x05 then Bin(b[5..])
              else if typ == 0x02 then Str(b[4..|b| - 1])
              else Time(FromEpochMs(SignedLE(b)).value)
    ensures FromFlat(typ, b).Err? ==> FromFlat(typ, b).status in {UnterminatedString, InvalidUtf8, ValueOutOfRange}
  {
    hide SignedLE, IsUtf8, FromEpochMs;
    if typ == 0x09 {
      EpochMsRoundTrip(SignedLE(b));
    }
  }

  /** The first element that the decoder rejects is `i`. */
  ghost predicate FirstRejected(es: seq<Elem>, depth: nat, i: nat)
    requires forall j | 0 <= j < |es| :: WfElem(es[j], depth)
  {
    i < |es| && FromElem(es[i], depth).Err? && forall j | 0 <= j < i :: FromElem(es[j], depth).Ok?
  }

  /** A list decodes to its elements' values in order, whatever their keys, or fails with the first failure. */
  lemma {:induction false} ItemsDecoded(es: seq<Elem>, depth: nat, done: seq<Value>)
    requires forall j | 0 <= j < |es| :: WfElem(es[j], depth)
    ensures var r := FromItems(es, depth, done);
            && (forall i: nat | FirstRejected(es, depth, i) :: r == Err(FromElem(es[i], depth).status))
            && (r.Err? ==> exists i: nat :: FirstRejected(es, depth, i))
            && (r.Ok? ==>
                  && |r.value| == |done| + |es| && r.value[..|done|] == done
                  && forall j | 0 <= j < |es| :: FromElem(es[j], depth) == Ok(r.value[|done| + j]))
  {
    hide FromElem, WfElem;
    if es == [] {
    } else {
      var v, rest := FromElem(es[0], depth), es[1..];
      assert forall j | 0 <= j < |rest| :: rest[j] == es[j + 1];
      if v.Err? {
        assert FirstRejected(es, depth, 0);
        forall i: nat | FirstRejected(es, depth, i) ensures i == 0 {
        }
      } else {
        ItemsDecoded(rest, depth, done + [v.value]);
        LaterRejected(es, depth);
      }
    }
  }

  lemma LaterRejected(es: seq<Elem>, depth: nat)
    requires es != [] && (forall j | 0 <= j < |es| :: WfElem(es[j], depth)) && FromElem(es[0], depth).Ok?
    ensures forall j | 0 <= j < |es[1..]| :: WfElem(es[1..][j], depth)
    ensures forall i: nat | FirstRejected(es, depth, i) :: i > 0 && FirstRejected(es[1..], depth, i - 1)
    ensures forall i: nat | FirstRejected(es[1..], depth, i) :: FirstRejected(es, depth, i + 1)
  {
    hide FromElem, WfElem;
    var rest := es[1..];
    assert forall j | 0 <= j < |rest| :: rest[j] == es[j + 1];
    forall i: nat | FirstRejected(rest, depth, i) ensures FirstRejected(es, depth, i + 1) {
      assert forall j | 0 < j < i + 1 :: es[j] == rest[j - 1];
    }
  }

  /** Element `i` is the last with the key. */
  predicate LastWith(es: seq<Elem>, key: seq<byte>, i: nat) {
    i < |es| && es[i].key == key && forall j | i < j < |es| :: es[j].key != key
  }

  /** A dict holds under each key the value of the last element with that key, or fails with the first failure. */
  lemma {:induction false} FieldsDecoded(es: seq<Elem>, depth: nat, done: seq<Field>, key: seq<byte>)
    requires forall j | 0 <= j < |es| :: WfElem(es[j], depth)
    ensures var r := FromFields(es, depth, done);
            && (forall i: nat | FirstRejected(es, depth, i) :: r == Err(FromElem(es[i], depth).status))
            && (r.Err? ==> exists i: nat :: FirstRejected(es, depth, i))
            && (r.Ok? ==> forall i: nat | LastWith(es, key, i) ::
                  Get(r.value, key).Some? && FromElem(es[i], depth) == Ok(Get(r.value, key).value))
            && (r.Ok? && (forall j | 0 <= j < |es| :: es[j].key != key) ==> Get(r.value, key) == Get(done, key))
  {
    hide FromElem, WfElem, SetField, Get;
    if es == [] {
    } else {
      var v, rest := FromElem(es[0], depth), es[1..];
      assert forall j | 0 <= j < |rest| :: rest[j] == es[j + 1];
      if v.Err? {
        assert FirstRejected(es, depth, 0);
        forall i: nat | FirstRejected(es, depth, i) ensures i == 0 {
        }
      } else {
        FieldsDecoded(rest, depth, SetField(done, es[0].key, v.value), key);
        GetSet(done, es[0].key, v.value, key);
        LaterRejected(es, depth);
        forall i: nat | LastWith(es, key, i)
          ensures i > 0 ==> LastWith(rest, key, i - 1)
          ensures i == 0 ==> forall j | 0 <= j < |rest| :: rest[j].key != key
        {
        }
      }
    }
  }

  // ---------------------------------------------------------------- scanning records

  /** The record scanner at `pos`: the end, a bad length, a record cut short, or a record. */
  lemma ScanRejected(b: seq<byte>, end: nat, pos: nat)
    requires end <= |b|
    ensures pos >= end ==> ScanNext(b, end, pos) == EndOfData
    ensures pos < end < pos + 5 ==> ScanNext(b, end, pos) == Broken(InvalidLength)
    ensures pos + 5 <= end ==>
              var len := SignedLE(b[pos + 1..pos + 5]);
              && (len < 5 ==> ScanNext(b, end, pos) == Broken(InvalidLength))
              && (len >= 5 && pos + 1 + len > end ==> ScanNext(b, end, pos) == Broken(TruncatedBuffer))
              && (len >= 5 && pos + 1 + len <= end ==>
                    ScanNext(b, end, pos) == if b[pos] == 1 then LiveAt(pos, len) else ScanNext(b, end, pos + 1 + len))
  {
    hide SignedLE;
  }
}
