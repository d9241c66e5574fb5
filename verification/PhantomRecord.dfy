/**
  * What a torn append leaves behind can become a record nobody appended.
  *
  * A stopped append stores most of a document that carries the bytes of another record in a
  * binary field.  Recovery drops it, but does not clear its bytes.  The next append, of a
  * document of the right length, ends where the carried record begins, and the next recovery
  * reads it.
  */
module PhantomRecord {
  import opened Sequences
  import opened Bytes
  import opened Grammar
  import opened RecordFile
  import opened DataFile
  import opened CrashRuns
  import Utf8

  const KEY: seq<byte> := [97]

  /** {"": 0}, eleven bytes. */
  function Zero(): Raw {
    Raw([Elem(TYPE_INT32, [], Flat([0, 0, 0, 0]))])
  }

  /** {"": binary, "a": null}, the binary value being the bytes of a live record. */
  function Host(g: seq<byte>): Raw {
    Raw([Elem(TYPE_BINARY, [], Flat(Block(g))), Elem(TYPE_NULL, KEY, Flat([]))])
  }

  function Block(g: seq<byte>): seq<byte> {
    ToLE(1 + |g|, 4) + [0] + RecBytes(Rec(true, g))
  }

  /** The stores of the append up to the end of the binary value. */
  function StopAt(g: seq<byte>): nat {
    13 + |g|
  }

  lemma ZeroIs()
    ensures Ser(Zero()) == ToLE(11, 4) + [TYPE_INT32, 0, 0, 0, 0, 0, 0] && |Ser(Zero())| == 11
    ensures WfDoc(Zero(), 0)
  {
    hide ToLE, FromLE;
    var e := Zero().elems[0];
    assert SerElem(e) == [TYPE_INT32, 0, 0, 0, 0, 0];
    assert Zero().elems[1..] == [];
    assert SerElems([]) == [];
    assert SerElems(Zero().elems) == SerElem(e);
    assert Utf8.IsUtf8([]);
  }

  lemma HostIs(g: seq<byte>)
    requires 16 + |g| <= MAX_DOCUMENT_SIZE
    ensures Ser(Host(g)) == ToLE(16 + |g|, 4) + ([TYPE_BINARY, 0] + Block(g)) + [TYPE_NULL, 97, 0, 0]
    ensures |Ser(Host(g))| == 16 + |g| && WfDoc(Host(g), 0)
  {
    hide ToLE, FromLE, RecBytes, Block, WfElem, SerElem, FlatOk;
    var es := Host(g).elems;
    BlockOk(g);
    HostElems(g);
    assert es[1..] == [es[1]] && es[1..][1..] == [] && SerElems([]) == [];
    assert SerElems(es[1..]) == SerElem(es[1]) + [];
    assert SerElems(es) == SerElem(es[0]) + SerElem(es[1]);
    assert [TYPE_NULL, 97, 0] + [0] == [TYPE_NULL, 97, 0, 0];
  }

  lemma HostElems(g: seq<byte>)
    requires 16 + |g| <= MAX_DOCUMENT_SIZE
    ensures SerElem(Host(g).elems[0]) == [TYPE_BINARY, 0] + Block(g) && WfElem(Host(g).elems[0], 0)
    ensures SerElem(Host(g).elems[1]) == [TYPE_NULL, 97, 0] && WfElem(Host(g).elems[1], 0)
  {
    hide ToLE, FromLE, Block, FlatOk, SerElem, WfElem;
    BlockOk(g);
    NullOk();
    FlatElem(TYPE_BINARY, [], Block(g));
    FlatElem(TYPE_NULL, KEY, []);
    assert [TYPE_BINARY] + [] + [0] + Block(g) == [TYPE_BINARY, 0] + Block(g);
    assert [TYPE_NULL] + KEY + [0] + [] == [TYPE_NULL, 97, 0];
  }

  lemma FlatElem(typ: byte, key: seq<byte>, v: seq<byte>)
    requires FlatOk(typ, v) && (key == [] || key == KEY)
    ensures SerElem(Elem(typ, key, Flat(v))) == [typ] + key + [0] + v && WfElem(Elem(typ, key, Flat(v)), 0)
  {
    hide FlatOk;
    assert Utf8.IsUtf8([]) && Utf8.IsUtf8(KEY);
  }

  lemma NullOk()
    ensures FlatOk(TYPE_NULL, [])
  {
  }

  lemma BlockOk(g: seq<byte>)
    requires 16 + |g| <= MAX_DOCUMENT_SIZE
    ensures |Block(g)| == 6 + |g| && FlatOk(TYPE_BINARY, Block(g))
  {
    hide ToLE, FromLE;
    Pow256Values();
    FromToLE(1 + |g|, 4);
    assert Block(g)[..4] == ToLE(1 + |g|, 4);
  }

  /** The host as far as it was stored, zeros behind it: not a document. */
  lemma TornHostInvalid(g: seq<byte>, t: seq<byte>)
    requires 16 + |g| <= MAX_DOCUMENT_SIZE && |t| == 16 + |g|
    requires t[..12 + |g|] == ToLE(16 + |g|, 4) + ([TYPE_BINARY, 0] + Block(g))
    requires forall i | 12 + |g| <= i < |t| :: t[i] == 0
    ensures ValidateSpec(t).Err?
  {
    hide ToLE, SignedLE, RecBytes, Block, Next, FlatOk, ParseElems;
    BlockOk(g);
    SmallLength(16 + |g|);
    TornHostParts(g, t);
    assert InitNested(t, 0, |t|) == Ok(|t| - 1);
    assert Utf8.IsUtf8([]);
    NextComplete(t, 4, |t| - 1, |t|, TYPE_BINARY, [], Block(g));
    NextZero(t, 12 + |g|, |t| - 1, |t|);
    SecondFails(t, 4, |t| - 1, |t|);
  }

  /** The walk reports the failure of the element after a flat one. */
  lemma SecondFails(t: seq<byte>, pos: nat, docEnd: nat, limit: nat)
    requires pos <= docEnd < limit <= |t|
    requires Next(t, pos, docEnd, limit).Got? && !IsNested(Next(t, pos, docEnd, limit).typ)
    requires Next(t, Next(t, pos, docEnd, limit).next, docEnd, limit).Fail?
    ensures ParseElems(t, pos, docEnd, limit, 0).Err?
  {
    hide Next;
  }

  lemma NextZero(t: seq<byte>, pos: nat, docEnd: nat, limit: nat)
    requires pos + 1 < docEnd < limit <= |t| && t[pos] == 0 && t[pos + 1] == 0
    ensures Next(t, pos, docEnd, limit) == Fail(InvalidTypeByte)
  {
    assert FindNul(t, pos + 1, docEnd) == pos + 1;
    assert t[pos + 1..pos + 1] == [] && Utf8.IsUtf8([]);
  }

  lemma TornHostParts(g: seq<byte>, t: seq<byte>)
    requires 12 + |g| <= |t| && |Block(g)| == 6 + |g|
    requires t[..12 + |g|] == ToLE(16 + |g|, 4) + ([TYPE_BINARY, 0] + Block(g))
    ensures t[0..4] == ToLE(16 + |g|, 4) && t[4..6] == Header(TYPE_BINARY, []) && t[6..12 + |g|] == Block(g)
  {
    hide ToLE, Block;
    SliceOfSlice(t, 0, 12 + |g|, 0, 4);
    SliceOfSlice(t, 0, 12 + |g|, 4, 6);
    SliceOfSlice(t, 0, 12 + |g|, 6, 12 + |g|);
    var all := t[..12 + |g|];
    assert all[0..4] == ToLE(16 + |g|, 4) && all[4..6] == Header(TYPE_BINARY, []) && all[6..12 + |g|] == Block(g);
  }

  // ---------------------------------------------------------------- the three events

  /** The host stopped before its second element, {"": 0} appended, then a crash. */
  function Events(g: seq<byte>): seq<Event> {
    [StoppedAppend(Ser(Host(g)), StopAt(g)), Append(Ser(Zero())), Crash]
  }

  /** Nothing but the host's beginning lies behind the data. */
  ghost predicate TornHost(b: seq<byte>, at: nat, g: seq<byte>) {
    && |Ser(Host(g))| == 16 + |g| && at + 17 + |g| <= |b| && ZeroFrom(b, at + 13 + |g|)
    && b[at..at + 13 + |g|] == ([RECORD_LIVE] + Ser(Host(g)))[..13 + |g|]
  }

  lemma TornHostNotRead(b: seq<byte>, at: nat, g: seq<byte>)
    requires 16 + |g| <= MAX_DOCUMENT_SIZE && TornHost(b, at, g)
    ensures Recover(b, at) == [] && b[at + 12..at + 13 + |g|] == RecBytes(Rec(true, g))
  {
    hide ToLE, FromLE, RecBytes, Ser, ValidateSpec, Block;
    HostIs(g);
    BlockOk(g);
    var host := Ser(Host(g));
    var n := 12 + |g|;
    var t := b[at + 1..at + 17 + |g|];
    assert ([RECORD_LIVE] + host)[1..13 + |g|] == host[..n];
    SliceOfSlice(b, at, at + 13 + |g|, 1, 13 + |g|);
    SliceOfSlice(b, at + 1, at + 17 + |g|, 0, n);
    assert host[..n] == ToLE(16 + |g|, 4) + ([TYPE_BINARY, 0] + Block(g));
    TornHostInvalid(g, t);
    HostLength(b, at, g);
    CarriedRecord(g);
    SliceOfSlice(b, at + 1, at + 17 + |g|, 11, n);
    SliceOfSlice(t, 0, n, 11, n);
  }

  lemma HostLength(b: seq<byte>, at: nat, g: seq<byte>)
    requires 16 + |g| <= MAX_DOCUMENT_SIZE && at + 17 + |g| <= |b| && |Block(g)| == 6 + |g|
    requires b[at + 1..at + 13 + |g|] == ToLE(16 + |g|, 4) + ([TYPE_BINARY, 0] + Block(g))
    ensures SignedLE(b[at + 1..at + 5]) == 16 + |g|
  {
    hide ToLE, SignedLE, Block;
    var prefix, rest := ToLE(16 + |g|, 4), [TYPE_BINARY, 0] + Block(g);
    SliceOfSlice(b, at + 1, at + 13 + |g|, 0, 4);
    assert (prefix + rest)[0..4] == prefix;
    SmallLength(16 + |g|);
  }

  /** The length prefix of a document reads as written. */
  lemma SmallLength(n: nat)
    requires n <= MAX_DOCUMENT_SIZE
    ensures SignedLE(ToLE(n, 4)) == n
  {
    hide ToLE, FromLE;
    Pow256Values();
    FromToLE(n, 4);
  }

  lemma CarriedRecord(g: seq<byte>)
    requires |Block(g)| == 6 + |g|
    ensures (ToLE(16 + |g|, 4) + ([TYPE_BINARY, 0] + Block(g)))[11..12 + |g|] == RecBytes(Rec(true, g))
  {
    hide ToLE, RecBytes;
  }

  /** The stopped append and the recovery after it: no new record, the torn bytes still there. */
  lemma AfterStop(f: File, g: seq<byte>)
    requires Good(f) && ZeroFrom(f.bytes, EndOf(f.recs)) && 16 + |g| <= MAX_DOCUMENT_SIZE
    requires Size(f, Ser(Host(g))) <= MAX_MAPPING
    ensures var r := After(f, StoppedAppend(Ser(Host(g)), StopAt(g)));
            r.recs == f.recs && TornHost(r.bytes, EndOf(f.recs), g)
  {
    hide Holds, ValidRec, Ser, TornAppend, AppendWrites, Counted, Recover, Size, EndOf, TornHost, Patch;
    var host, at, k := Ser(Host(g)), EndOf(f.recs), StopAt(g);
    var b := Grown(f, host);
    HostIs(g);
    GrownGood(f, host);
    TornParts(b, f.recs, host, k);
    var c := TornAppend(b, host, k);
    TornIs(b, c, at, g);
    TornHostNotRead(c, at, g);
    var kept := Recover(c, HEADER_LEN);
    assert f.recs + [] == f.recs;
    RecoverLies(c, HEADER_LEN);
    CountedHolds(c, kept);
    EndPastHeader(f.recs);
    SameTorn(c, Counted(c, kept), at, g);
  }

  lemma EndPastHeader(rs: seq<Rec>)
    ensures EndOf(rs) >= HEADER_LEN
  {
  }

  lemma TornIs(b: seq<byte>, c: seq<byte>, at: nat, g: seq<byte>)
    requires |Ser(Host(g))| == 16 + |g| && ZeroFrom(b, at) && at + 17 + |g| <= |b| == |c|
    requires c[at..at + 13 + |g|] == TornRecord(Ser(Host(g)), StopAt(g)) && SameFrom(c, b, at + 13 + |g|)
    ensures TornHost(c, at, g)
  {
    hide Ser;
  }

  lemma SameTorn(b: seq<byte>, c: seq<byte>, at: nat, g: seq<byte>)
    requires TornHost(b, at, g) && |b| == |c| && forall i | at <= i < |b| :: c[i] == b[i]
    ensures TornHost(c, at, g)
  {
    hide Ser;
    assert c[at..at + 13 + |g|] == b[at..at + 13 + |g|];
  }

  /** The append of {"": 0} in front of the carried record. */
  lemma AfterAppend(f: File, g: seq<byte>)
    requires Good(f) && 16 + |g| <= MAX_DOCUMENT_SIZE && TornHost(f.bytes, EndOf(f.recs), g)
    ensures |Ser(Zero())| == 11 && Size(f, Ser(Zero())) == |f.bytes|
    ensures var r, at := After(f, Append(Ser(Zero()))), EndOf(f.recs) + 12;
            && r.recs == f.recs + [Rec(true, Ser(Zero()))] && EndOf(r.recs) == at
            && |r.bytes| == |f.bytes| && at + 1 + |g| <= |r.bytes|
            && r.bytes[at..at + 1 + |g|] == RecBytes(Rec(true, g)) && ZeroFrom(r.bytes, at + 1 + |g|)
  {
    hide Holds, ValidRec, Ser, AppendWrites, Apply, Counted, Recover, EndOf, RecBytes;
    var zero, at := Ser(Zero()), EndOf(f.recs);
    ZeroIs();
    TornHostNotRead(f.bytes, at, g);
    ResizedSame(f.bytes);
    EndPastHeader(f.recs);
    AppendedIsAllWrites(f.bytes, f.recs, zero);
    EndOfAppended(f.recs, Rec(true, zero));
    AppendedTail(f.bytes, f.recs, zero);
    var r := Appended(f.bytes, f.recs, zero);
    assert r[at + 12..at + 13 + |g|] == f.bytes[at + 12..at + 13 + |g|];
  }

  /** An append leaves the bytes behind its record alone. */
  lemma AppendedTail(b: seq<byte>, rs: seq<Rec>, doc: seq<byte>)
    requires HEADER_LEN <= |b| && EndOf(rs) + 1 + |doc| <= |b|
    ensures |Appended(b, rs, doc)| == |b|
    ensures forall i | EndOf(rs) + 1 + |doc| <= i < |b| :: Appended(b, rs, doc)[i] == b[i]
  {
    hide EndOf, LiveIn, ToLE;
    EndPastHeader(rs);
  }

  /** The last recovery reads the carried record. */
  lemma AfterCrash(f: File, g: seq<byte>)
    requires Good(f) && TrueLength(g) && ValidRec(Rec(true, g)) && EndOf(f.recs) + 1 + |g| <= |f.bytes|
    requires f.bytes[EndOf(f.recs)..EndOf(f.recs) + 1 + |g|] == RecBytes(Rec(true, g))
    requires ZeroFrom(f.bytes, EndOf(f.recs) + 1 + |g|)
    ensures Recovered(f.bytes).recs == f.recs + [Rec(true, g)]
  {
    hide SignedLE, ValidateSpec, Recover, Counted, Layout, Recoverable, RecoverAt, ZeroFrom;
    var at := EndOf(f.recs);
    RecoverReads(f.bytes, HEADER_LEN, f.recs);
    assert RecBytes(Rec(true, g)) + [] == RecBytes(Rec(true, g));
    FirstRec(f.bytes, at, Rec(true, g), []);
    RecoverFirst(f.bytes, at, Rec(true, g));
    RecoverUnfold(f.bytes, at);
    NothingBehind(f.bytes, at + 1 + |g|);
  }

  /**
    * On any well-formed file with a zero tail and room, and for any document: it is stopped
    * inside the append of one valid document, another valid document is appended, it crashes;
    * then the carried document is a live record although no call appended it.
    */
  lemma NobodyAppendedIt(f: File, g: seq<byte>)
    requires Good(f) && ZeroFrom(f.bytes, EndOf(f.recs)) && Storable(Append(g)) && 16 + |g| <= MAX_DOCUMENT_SIZE
    requires Size(f, Ser(Host(g))) <= MAX_MAPPING
    ensures Storable(Append(Ser(Host(g)))) && forall j | 0 <= j < 3 :: Storable(Events(g)[j])
    ensures Run(f, Events(g)).recs == f.recs + [Rec(true, Ser(Zero())), Rec(true, g)]
  {
    hide Good, ZeroFrom, ValidRec, TrueLength, Ser, Size, EndOf, After, RecBytes, TornHost;
    var es := Events(g);
    EventsStorable(g);
    AfterStop(f, g);
    EventKeeps(f, es[0]);
    var f1 := After(f, es[0]);
    AfterAppend(f1, g);
    EventKeeps(f1, es[1]);
    var f2 := After(f1, es[1]);
    AfterCrash(f2, g);
    LastStep(f, es, f1, f2);
  }

  lemma EventsStorable(g: seq<byte>)
    requires 16 + |g| <= MAX_DOCUMENT_SIZE
    ensures Storable(Append(Ser(Host(g)))) && forall j | 0 <= j < 3 :: Storable(Events(g)[j])
  {
    hide ValidRec, TrueLength, Ser, WfDoc;
    HostIs(g);
    PrintedStorable(Host(g));
    ZeroIs();
    PrintedStorable(Zero());
  }

  lemma LastStep(f: File, es: seq<Event>, f1: File, f2: File)
    requires Good(f) && |es| == 3 && es[2].Crash? && forall j | 0 <= j < 3 :: Storable(es[j])
    requires f1 == After(f, es[0]) && Good(f1) && f2 == After(f1, es[1]) && Good(f2)
    ensures Run(f, es) == Recovered(f2.bytes)
  {
    hide Holds, AllValid, Recovered, ValidRec, TrueLength, After;
    assert es[..2][..1] == [es[0]] && [es[0]][..0] == [];
    OneEvent(f, es[0]);
    assert Run(f, es[..1]) == f1 by {
      assert es[..1] == [es[0]];
    }
    assert Run(f, es[..2]) == f2;
    assert After(f2, es[2]) == Recovered(f2.bytes) by {
      CrashRecovers(f2);
    }
  }

  lemma OneEvent(f: File, e: Event)
    requires Good(f) && Storable(e)
    ensures Run(f, [e]) == After(f, e)
  {
    hide Good, After, ValidRec, TrueLength;
    assert [e][..0] == [];
    assert Run(f, []) == f;
  }

  lemma CrashRecovers(f: File)
    requires Good(f)
    ensures After(f, Crash) == Recovered(f.bytes)
  {
  }

  lemma PrintedStorable(d: Raw)
    requires WfDoc(d, 0)
    ensures Storable(Append(Ser(d)))
  {
    hide ValidateSpec, SerElems, ToLE, SignedLE;
    ValidatorIsGrammar(Ser(d));
    LengthPrefix(d);
  }
}
