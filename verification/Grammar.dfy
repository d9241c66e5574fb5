/**
  * The document grammar of BSON (section "Non-terminals" of the BSON specification,
  * version 1.1), restricted to what the engine supports, and the engine's walk over it.
  *
  * `Raw` is a syntax tree and `Ser` prints it.  `ParseDoc` is the bounds-checked walk of
  * bson_iter_init_nested, bson_iter_next and validate_recursive, error codes included.
  * The walk succeeds exactly on printed well-formed trees.
  */
module Grammar {
  import opened Sequences
  import opened Bytes
  import opened Utf8

  const DOC_MIN_LEN := 5
  const MAX_DOCUMENT_SIZE := 16 * 1024 * 1024
  const MAX_DEPTH := 100

  const TYPE_DOUBLE := 0x01
  const TYPE_STRING := 0x02
  const TYPE_DOCUMENT := 0x03
  const TYPE_ARRAY := 0x04
  const TYPE_BINARY := 0x05
  const TYPE_OBJECTID := 0x07
  const TYPE_BOOL := 0x08
  const TYPE_DATETIME := 0x09
  const TYPE_NULL := 0x0A
  const TYPE_INT32 := 0x10
  const TYPE_INT64 := 0x12

  datatype Status =
    | TruncatedBuffer
    | InvalidLength
    | InvalidTypeByte
    | UnterminatedString
    | InvalidUtf8
    | TrailingBytes
    | MissingEoo
    | MaxDepthExceeded
    | UnsupportedType
    | InvalidKey
    | DocumentTooLarge
    | ValueOutOfRange

  datatype Result<+T> = Ok(value: T) | Err(status: Status)

  datatype Option<+T> = None | Some(value: T)

  // ---------------------------------------------------------------- syntax

  datatype Raw = Raw(elems: seq<Elem>)
  datatype Elem = Elem(typ: byte, key: seq<byte>, payload: Payload)
  datatype Payload = Flat(bytes: seq<byte>) | Sub(doc: Raw)

  /** document ::= int32 e_list "\x00" */
  function Ser(d: Raw): (s: seq<byte>)
    ensures |s| >= DOC_MIN_LEN
    decreases d, 1
  {
    var body := SerElems(d.elems);
    ToLE(|body| + DOC_MIN_LEN, 4) + body + [0]
  }

  function SerElems(es: seq<Elem>): seq<byte>
    decreases es, 0
  {
    if es == [] then [] else SerElem(es[0]) + SerElems(es[1..])
  }

  /** element ::= type e_name value */
  function SerElem(e: Elem): seq<byte>
    decreases e, 2
  {
    [e.typ] + e.key + [0] + (match e.payload case Flat(b) => b case Sub(d) => Ser(d))
  }

  predicate IsNested(typ: byte) {
    typ == TYPE_DOCUMENT || typ == TYPE_ARRAY
  }

  /** The bytes of a fixed-width value, or -1. */
  function FixedWidth(typ: byte): int {
    if typ == TYPE_DOUBLE || typ == TYPE_DATETIME || typ == TYPE_INT64 then 8
    else if typ == TYPE_INT32 then 4
    else if typ == TYPE_BOOL then 1
    else if typ == TYPE_OBJECTID then 12
    else if typ == TYPE_NULL then 0
    else -1
  }

  /** The values that are not documents; a string is a block of its declared length, 1 or more. */
  predicate FlatOk(typ: byte, b: seq<byte>) {
    if FixedWidth(typ) >= 0 then |b| == FixedWidth(typ)
    else if typ == TYPE_STRING then |b| >= 5 && SignedLE(b[..4]) == |b| - 4
    else typ == TYPE_BINARY && |b| >= 5 && SignedLE(b[..4]) == |b| - 5
  }

  ghost predicate WfDoc(d: Raw, depth: nat)
    decreases d, 1
  {
    && depth <= MAX_DEPTH
    && |Ser(d)| <= MAX_DOCUMENT_SIZE
    && forall i | 0 <= i < |d.elems| :: WfElem(d.elems[i], depth)
  }

  ghost predicate WfElem(e: Elem, depth: nat)
    decreases e, 0
  {
    && 0 !in e.key
    && IsUtf8(e.key)
    && match e.payload
       case Flat(b) => FlatOk(e.typ, b)
       case Sub(d) => IsNested(e.typ) && WfDoc(d, depth + 1)
  }

  // ---------------------------------------------------------------- the walk

  /** bson_iter_init_nested: the offset of the end-of-object byte. */
  function InitNested(b: seq<byte>, offset: nat, parentEnd: nat): (r: Result<nat>)
    requires parentEnd <= |b|
    ensures r.Ok? ==> offset + 4 <= r.value < parentEnd
  {
    if offset + DOC_MIN_LEN > parentEnd then Err(TruncatedBuffer)
    else
      var len := SignedLE(b[offset..offset + 4]);
      if len < DOC_MIN_LEN then Err(InvalidLength)
      else if len > MAX_DOCUMENT_SIZE then Err(DocumentTooLarge)
      else if offset + len > parentEnd then Err(TruncatedBuffer)
      else Ok(offset + len - 1)
  }

  /** The first NUL from `i` on, or `bound`. */
  function FindNul(b: seq<byte>, i: nat, bound: nat): (n: nat)
    requires i <= bound <= |b|
    ensures i <= n <= bound
    ensures forall k | i <= k < n :: b[k] != 0
    ensures n < bound ==> b[n] == 0
    decreases bound - i
  {
    if i == bound || b[i] == 0 then i else FindNul(b, i + 1, bound)
  }

  function Skip(pos: nat, count: nat, limit: nat): Result<nat> {
    if limit < pos + count then Err(TruncatedBuffer) else Ok(pos + count)
  }

  predicate Deferred(typ: byte) {
    typ == 0x06 || (0x0B <= typ <= 0x0F) || typ == 0x11 || typ == 0x13 || typ == 0xFF || typ == 0x7F
  }

  /** The switch of bson_iter_next: where the value that starts at `p` ends. */
  function ValueEnd(b: seq<byte>, typ: byte, p: nat, docEnd: nat, limit: nat): (r: Result<nat>)
    requires p <= docEnd < limit <= |b|
    ensures r.Ok? ==> p <= r.value <= limit
  {
    if FixedWidth(typ) >= 0 then Skip(p, FixedWidth(typ), limit)
    else if typ == TYPE_STRING then
      if limit < p + 4 then Err(TruncatedBuffer)
      else
        var len := SignedLE(b[p..p + 4]);
        if len < 1 then Err(InvalidLength) else Skip(p + 4, len, limit)
    else if IsNested(typ) then
      if limit < p + 4 then Err(TruncatedBuffer)
      else
        var len := SignedLE(b[p..p + 4]);
        if len < DOC_MIN_LEN then Err(InvalidLength)
        else if p + len > docEnd then Err(TruncatedBuffer)
        else Ok(p + len)
    else if typ == TYPE_BINARY then
      if limit < p + 4 then Err(TruncatedBuffer)
      else
        var len := SignedLE(b[p..p + 4]);
        if len < 0 then Err(InvalidLength)
        else if limit < p + 5 then Err(TruncatedBuffer)
        else Skip(p + 5, len, limit)
    else if Deferred(typ) then Err(UnsupportedType)
    else Err(InvalidTypeByte)
  }

  datatype Step = Done | Fail(status: Status) | Got(typ: byte, key: seq<byte>, value: nat, next: nat)

  /** bson_iter_next at `pos`. */
  ghost function Next(b: seq<byte>, pos: nat, docEnd: nat, limit: nat): (r: Step)
    requires pos <= docEnd < limit <= |b|
    ensures r.Got? ==> pos < r.value <= r.next <= docEnd
  {
    if pos == docEnd then (if b[pos] != 0 then Fail(MissingEoo) else Done)
    else
      var nul := FindNul(b, pos + 1, docEnd);
      if nul == docEnd then Fail(UnterminatedString)
      else if !IsUtf8(b[pos + 1..nul]) then Fail(InvalidUtf8)
      else
        var end := ValueEnd(b, b[pos], nul + 1, docEnd, limit);
        if end.Err? then Fail(end.status)
        else if end.value > docEnd then Fail(TruncatedBuffer)
        else Got(b[pos], b[pos + 1..nul], nul + 1, end.value)
  }

  /** validate_recursive, also returning the tree it has seen and where it ends. */
  ghost function ParseDoc(b: seq<byte>, offset: nat, bound: nat, depth: nat): (r: Result<(Raw, nat)>)
    requires bound <= |b| && depth <= MAX_DEPTH + 1
    ensures r.Ok? ==> InitNested(b, offset, bound).Ok? && r.value.1 == InitNested(b, offset, bound).value + 1
    decreases MAX_DEPTH + 1 - depth, 1, 0
  {
    if depth > MAX_DEPTH then Err(MaxDepthExceeded)
    else
      var docEnd := InitNested(b, offset, bound);
      if docEnd.Err? then Err(docEnd.status)
      else
        var es := ParseElems(b, offset + 4, docEnd.value, bound, depth);
        if es.Err? then Err(es.status) else Ok((Raw(es.value), docEnd.value + 1))
  }

  ghost function ParseElems(b: seq<byte>, pos: nat, docEnd: nat, limit: nat, depth: nat): Result<seq<Elem>>
    requires pos <= docEnd < limit <= |b| && depth <= MAX_DEPTH
    decreases MAX_DEPTH + 1 - depth, 0, docEnd - pos
  {
    match Next(b, pos, docEnd, limit)
    case Done => Ok([])
    case Fail(s) => Err(s)
    case Got(typ, key, value, next) =>
      var sub := if IsNested(typ) then ParseDoc(b, value, docEnd, depth + 1) else Ok((Raw([]), next));
      if sub.Err? then Err(sub.status)
      else
        var rest := ParseElems(b, next, docEnd, limit, depth);
        if rest.Err? then rest
        else
          var payload := if IsNested(typ) then Sub(sub.value.0) else Flat(b[value..next]);
          Ok([Elem(typ, key, payload)] + rest.value)
  }

  /** bson_validate_document. */
  ghost function ValidateSpec(b: seq<byte>): Result<Raw>
  {
    if |b| < DOC_MIN_LEN then Err(TruncatedBuffer)
    else
      var r := ParseDoc(b, 0, |b|, 0);
      if r.Err? then Err(r.status)
      else if r.value.1 != |b| then Err(TrailingBytes)
      else Ok(r.value.0)
  }

  // ---------------------------------------------------------------- one element

  /** The header of an element: type byte, key, NUL. */
  function Header(typ: byte, key: seq<byte>): seq<byte> {
    [typ] + key + [0]
  }

  lemma ValueEndSound(b: seq<byte>, typ: byte, p: nat, docEnd: nat, limit: nat, end: nat)
    requires p <= docEnd < limit <= |b| && ValueEnd(b, typ, p, docEnd, limit) == Ok(end)
    ensures !IsNested(typ) ==> FlatOk(typ, b[p..end])
    ensures IsNested(typ) ==> p + 4 <= end && SignedLE(b[p..p + 4]) == end - p
  {
    hide SignedLE;
    if end >= p + 4 {
      SliceOfSlice(b, p, end, 0, 4);
    }
  }

  lemma NextSound(b: seq<byte>, pos: nat, docEnd: nat, limit: nat)
    requires pos <= docEnd < limit <= |b| && Next(b, pos, docEnd, limit).Got?
    ensures var r := Next(b, pos, docEnd, limit);
            && b[pos..r.value] == Header(r.typ, r.key)
            && 0 !in r.key && IsUtf8(r.key)
            && (!IsNested(r.typ) ==> FlatOk(r.typ, b[r.value..r.next]))
            && (IsNested(r.typ) ==> r.value + 4 <= r.next && SignedLE(b[r.value..r.value + 4]) == r.next - r.value)
  {
    hide SignedLE, FlatOk, ValueEnd, IsUtf8;
    var r := Next(b, pos, docEnd, limit);
    var nul := FindNul(b, pos + 1, docEnd);
    assert b[pos..nul + 1] == [b[pos]] + b[pos + 1..nul] + [b[nul]];
    ValueEndSound(b, r.typ, r.value, docEnd, limit, r.next);
  }

  lemma {:induction false} NulAt(b: seq<byte>, i: nat, bound: nat, n: nat)
    requires i <= n < bound <= |b| && b[n] == 0
    requires forall k | i <= k < n :: b[k] != 0
    ensures FindNul(b, i, bound) == n
    decreases n - i
  {
  }

  lemma ValueEndComplete(b: seq<byte>, typ: byte, p: nat, docEnd: nat, limit: nat, v: seq<byte>)
    requires p + |v| <= docEnd < limit <= |b| && b[p..p + |v|] == v
    requires FlatOk(typ, v) || (IsNested(typ) && |v| >= DOC_MIN_LEN && SignedLE(v[..4]) == |v|)
    ensures ValueEnd(b, typ, p, docEnd, limit) == Ok(p + |v|)
  {
    hide SignedLE;
    if |v| >= 4 {
      SliceOfSlice(b, p, p + |v|, 0, 4);
    }
  }

  lemma HeaderAt(b: seq<byte>, pos: nat, docEnd: nat, typ: byte, key: seq<byte>)
    requires pos + |key| + 2 <= docEnd <= |b| && b[pos..pos + |key| + 2] == Header(typ, key) && 0 !in key
    ensures b[pos] == typ && FindNul(b, pos + 1, docEnd) == pos + 1 + |key|
    ensures b[pos + 1..pos + 1 + |key|] == key
  {
    var h, nul := Header(typ, key), pos + 1 + |key|;
    assert b[pos] == h[0] && b[nul] == h[|h| - 1];
    SliceOfSlice(b, pos, nul + 1, 1, 1 + |key|);
    assert h[1..1 + |key|] == key;
    assert forall k | pos + 1 <= k < nul :: b[k] == b[pos + 1..nul][k - pos - 1];
    NulAt(b, pos + 1, docEnd, nul);
  }

  /** A printed element is read back as it is. */
  lemma NextComplete(b: seq<byte>, pos: nat, docEnd: nat, limit: nat, typ: byte, key: seq<byte>, v: seq<byte>)
    requires pos + |key| + 2 + |v| <= docEnd < limit <= |b|
    requires b[pos..pos + |key| + 2] == Header(typ, key)
    requires b[pos + |key| + 2..pos + |key| + 2 + |v|] == v
    requires 0 !in key && IsUtf8(key)
    requires FlatOk(typ, v) || (IsNested(typ) && |v| >= DOC_MIN_LEN && SignedLE(v[..4]) == |v|)
    ensures Next(b, pos, docEnd, limit) == Got(typ, key, pos + |key| + 2, pos + |key| + 2 + |v|)
  {
    hide SignedLE, FlatOk, ValueEnd, IsUtf8, Header;
    HeaderAt(b, pos, docEnd, typ, key);
    ValueEndComplete(b, typ, pos + |key| + 2, docEnd, limit, v);
  }

  // ---------------------------------------------------------------- the walk reads the grammar

  lemma {:induction false} LengthPrefix(d: Raw)
    requires |Ser(d)| <= MAX_DOCUMENT_SIZE
    ensures |Ser(d)| == |SerElems(d.elems)| + DOC_MIN_LEN
    ensures SignedLE(Ser(d)[..4]) == |Ser(d)|
    ensures Ser(d)[4..|Ser(d)| - 1] == SerElems(d.elems) && Ser(d)[|Ser(d)| - 1] == 0
  {
    var n := |SerElems(d.elems)| + DOC_MIN_LEN;
    Pow256Values();
    FromToLE(n, 4);
    assert Ser(d)[..4] == ToLE(n, 4);
  }

  /** Bytes with a correct length prefix and terminator around a body are a printed document. */
  lemma {:induction false} Framed(b: seq<byte>, offset: nat, end: nat, es: seq<Elem>)
    requires offset + DOC_MIN_LEN <= end <= |b| && end - offset <= MAX_DOCUMENT_SIZE
    requires SignedLE(b[offset..offset + 4]) == end - offset
    requires b[offset + 4..end - 1] == SerElems(es) && b[end - 1] == 0
    ensures b[offset..end] == Ser(Raw(es))
  {
    Pow256Values();
    var n := end - offset;
    ToFromLE(b[offset..offset + 4]);
    assert b[offset..offset + 4] == ToLE(n, 4);
    Joined(b, offset, offset + 4, end);
    Joined(b, offset + 4, end - 1, end);
    assert b[end - 1..end] == [0];
  }

  /** Whatever the walk accepts is the printing of the well-formed tree it saw. */
  lemma {:induction false} ParseSound(b: seq<byte>, offset: nat, bound: nat, depth: nat)
    requires bound <= |b| && depth <= MAX_DEPTH + 1 && ParseDoc(b, offset, bound, depth).Ok?
    ensures var (d, end) := ParseDoc(b, offset, bound, depth).value;
            && WfDoc(d, depth) && offset <= end <= bound && b[offset..end] == Ser(d)
    decreases MAX_DEPTH + 1 - depth, 1, 0
  {
    hide IsUtf8, FromLE, ToLE, SignedLE, FlatOk, Next, WfElem;
    var docEnd := InitNested(b, offset, bound).value;
    var es := ParseElems(b, offset + 4, docEnd, bound, depth).value;
    ElemsSound(b, offset + 4, docEnd, bound, depth);
    InitNestedLength(b, offset, bound);
    Framed(b, offset, docEnd + 1, es);
    assert ParseDoc(b, offset, bound, depth).value == (Raw(es), docEnd + 1);
  }

  lemma InitNestedLength(b: seq<byte>, offset: nat, bound: nat)
    requires bound <= |b| && InitNested(b, offset, bound).Ok?
    ensures var end := InitNested(b, offset, bound).value + 1;
            SignedLE(b[offset..offset + 4]) == end - offset && DOC_MIN_LEN <= end - offset <= MAX_DOCUMENT_SIZE
  {
  }

  lemma {:induction false} ElemsSound(b: seq<byte>, pos: nat, docEnd: nat, limit: nat, depth: nat)
    requires pos <= docEnd < limit <= |b| && depth <= MAX_DEPTH
    requires ParseElems(b, pos, docEnd, limit, depth).Ok?
    ensures var es := ParseElems(b, pos, docEnd, limit, depth).value;
            && (forall i | 0 <= i < |es| :: WfElem(es[i], depth))
            && b[pos..docEnd] == SerElems(es) && b[docEnd] == 0
    decreases MAX_DEPTH + 1 - depth, 0, docEnd - pos
  {
    hide IsUtf8, FromLE, ToLE, SignedLE, FlatOk, Next, InitNested, WfDoc;
    var step := Next(b, pos, docEnd, limit);
    if step.Done? {
      DoneAtEnd(b, pos, docEnd, limit);
    } else {
      NextSound(b, pos, docEnd, limit);
      var es := ParseElems(b, pos, docEnd, limit, depth).value;
      ElemsSound(b, step.next, docEnd, limit, depth);
      if IsNested(step.typ) {
        ParseSound(b, step.value, docEnd, depth + 1);
        NestedEnd(b, step.value, docEnd, depth + 1, step.next);
      }
      assert es[1..] == ParseElems(b, step.next, docEnd, limit, depth).value;
      Joined(b, pos, step.value, step.next);
      Joined(b, pos, step.next, docEnd);
    }
  }

  lemma DoneAtEnd(b: seq<byte>, pos: nat, docEnd: nat, limit: nat)
    requires pos <= docEnd < limit <= |b| && Next(b, pos, docEnd, limit).Done?
    ensures pos == docEnd && b[docEnd] == 0
  {
  }

  /** A nested walk ends where the parent's own reading of the length says. */
  lemma {:induction false} NestedEnd(b: seq<byte>, offset: nat, bound: nat, depth: nat, end: nat)
    requires bound <= |b| && depth <= MAX_DEPTH + 1 && ParseDoc(b, offset, bound, depth).Ok?
    requires offset + 4 <= end && SignedLE(b[offset..offset + 4]) == end - offset
    ensures ParseDoc(b, offset, bound, depth).value.1 == end
  {
  }

  /** The walk accepts every printed well-formed tree, wherever it stands and whatever bound surrounds it. */
  lemma {:induction false} ParseComplete(b: seq<byte>, offset: nat, bound: nat, depth: nat, d: Raw)
    requires offset + |Ser(d)| <= bound <= |b| && WfDoc(d, depth)
    requires b[offset..offset + |Ser(d)|] == Ser(d)
    ensures ParseDoc(b, offset, bound, depth) == Ok((d, offset + |Ser(d)|))
    decreases d, 1
  {
    hide IsUtf8, FromLE, ToLE, SignedLE, FlatOk, Next, WfElem;
    var s, end := Ser(d), offset + |Ser(d)|;
    LengthPrefix(d);
    SliceOfSlice(b, offset, end, 0, 4);
    SliceOfSlice(b, offset, end, 4, |s| - 1);
    assert b[end - 1] == s[|s| - 1];
    ElemsComplete(b, offset + 4, end - 1, bound, depth, d.elems);
    assert Raw(d.elems) == d;
  }

  lemma {:induction false} ElemsComplete(b: seq<byte>, pos: nat, docEnd: nat, limit: nat, depth: nat, es: seq<Elem>)
    requires pos <= docEnd < limit <= |b| && depth <= MAX_DEPTH
    requires forall i | 0 <= i < |es| :: WfElem(es[i], depth)
    requires b[pos..docEnd] == SerElems(es) && b[docEnd] == 0
    ensures ParseElems(b, pos, docEnd, limit, depth) == Ok(es)
    decreases es, 0
  {
    hide IsUtf8, FromLE, ToLE, SignedLE, FlatOk, Next, InitNested, WfDoc;
    if es == [] {
      EndOfList(b, pos, docEnd, limit);
    } else {
      var e := es[0];
      var v := PayloadBytes(e);
      var value := pos + |e.key| + 2;
      var next := value + |v|;
      ElemAt(b, pos, docEnd, e, SerElems(es[1..]));
      PayloadOk(e, depth);
      NextComplete(b, pos, docEnd, limit, e.typ, e.key, v);
      if e.payload.Sub? {
        ParseComplete(b, value, docEnd, depth + 1, e.payload.doc);
      }
      ElemsComplete(b, next, docEnd, limit, depth, es[1..]);
      assert es == [e] + es[1..];
    }
  }

  function PayloadBytes(e: Elem): seq<byte> {
    match e.payload case Flat(b) => b case Sub(d) => Ser(d)
  }

  lemma EndOfList(b: seq<byte>, pos: nat, docEnd: nat, limit: nat)
    requires pos <= docEnd < limit <= |b| && b[pos..docEnd] == [] && b[docEnd] == 0
    ensures Next(b, pos, docEnd, limit) == Done
  {
    assert |b[pos..docEnd]| == docEnd - pos;
  }

  lemma {:induction false} PayloadOk(e: Elem, depth: nat)
    requires WfElem(e, depth)
    ensures FlatOk(e.typ, PayloadBytes(e))
            || (IsNested(e.typ) && |PayloadBytes(e)| >= DOC_MIN_LEN
                && SignedLE(PayloadBytes(e)[..4]) == |PayloadBytes(e)|)
    ensures e.payload.Sub? <==> IsNested(e.typ)
    ensures e.payload.Sub? ==> WfDoc(e.payload.doc, depth + 1)
    ensures 0 !in e.key && IsUtf8(e.key)
  {
    hide IsUtf8, FromLE, ToLE, SignedLE;
    if e.payload.Sub? {
      LengthPrefix(e.payload.doc);
    }
  }

  lemma {:induction false} ElemAt(b: seq<byte>, pos: nat, docEnd: nat, e: Elem, rest: seq<byte>)
    requires pos <= docEnd <= |b| && b[pos..docEnd] == SerElem(e) + rest
    ensures var value := pos + |e.key| + 2; var next := value + |PayloadBytes(e)|;
            && next <= docEnd
            && b[pos..value] == Header(e.typ, e.key)
            && b[value..next] == PayloadBytes(e)
            && b[next..docEnd] == rest
  {
    var h, v := Header(e.typ, e.key), PayloadBytes(e);
    var s := b[pos..docEnd];
    assert s == h + v + rest;
    assert |s| == docEnd - pos;
    SliceOfSlice(b, pos, docEnd, 0, |h|);
    SliceOfSlice(b, pos, docEnd, |h|, |h| + |v|);
    SliceOfSlice(b, pos, docEnd, |h| + |v|, |s|);
    assert s[..|h|] == h && s[|h|..|h| + |v|] == v && s[|h| + |v|..] == rest;
  }

  // ---------------------------------------------------------------- main results

  /** bson_validate_document accepts exactly the documents of the grammar. */
  lemma ValidatorIsGrammar(b: seq<byte>)
    ensures ValidateSpec(b).Ok? <==> exists d :: WfDoc(d, 0) && Ser(d) == b
    ensures ValidateSpec(b).Ok? ==> WfDoc(ValidateSpec(b).value, 0) && Ser(ValidateSpec(b).value) == b
    ensures forall d :: WfDoc(d, 0) && Ser(d) == b ==> ValidateSpec(b) == Ok(d)
  {
    hide WfDoc, Ser, ParseDoc;
    if ValidateSpec(b).Ok? {
      ParseSound(b, 0, |b|, 0);
      assert b[0..|b|] == b;
    }
    forall d | WfDoc(d, 0) && Ser(d) == b ensures ValidateSpec(b) == Ok(d) {
      assert b[0..|b|] == b;
      ParseComplete(b, 0, |b|, 0, d);
    }
  }

  /** The grammar is unambiguous. */
  lemma {:induction false} SerInjective(d: Raw, d': Raw)
    requires WfDoc(d, 0) && WfDoc(d', 0) && Ser(d) == Ser(d')
    ensures d == d'
  {
    ValidatorIsGrammar(Ser(d));
  }

  /** Validated means walkable: bounding the walk by the document's own end changes nothing. */
  lemma {:induction false} BoundDoesNotMatter(b: seq<byte>, offset: nat, bound: nat, bound': nat, depth: nat)
    requires bound <= |b| && bound' <= |b| && depth <= MAX_DEPTH + 1
    requires ParseDoc(b, offset, bound, depth).Ok? && bound' >= ParseDoc(b, offset, bound, depth).value.1
    ensures ParseDoc(b, offset, bound', depth) == ParseDoc(b, offset, bound, depth)
  {
    hide WfDoc, ParseDoc;
    ParseSound(b, offset, bound, depth);
    var d := ParseDoc(b, offset, bound, depth).value.0;
    ParseComplete(b, offset, bound', depth, d);
  }
}
