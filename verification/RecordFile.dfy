/**
  * The bytes of a collection data file, and what a record list looks like in them.
  *
  * A 64-byte header with three counters, then records packed back to back, then zeros
  * up to the mapped size.  Appending and tombstoning are also given as ordered byte
  * writes, so that stopping after any of them and recovering can be reasoned about.
  */
module RecordFile {
  import opened Sequences
  import opened Bytes
  import opened Grammar

  const HEADER_LEN := 64
  const INITIAL_CAPACITY := 4096
  const FILE_PAGE := 4096
  const RECORD_LIVE: byte := 1
  const RECORD_TOMBSTONE: byte := 2

  /** "CBD1", and the one version there is. */
  const MAGIC: seq<byte> := [67, 66, 68, 49]
  const VERSION := 1

  const OFF_VERSION := 4
  const OFF_FLAGS := 6
  const OFF_DATA_END := 16
  const OFF_LIVE := 24
  const OFF_TOTAL := 32

  /** The largest mapping: resizing beyond it is the resize error of the platform layer. */
  const MAX_MAPPING := 0x4000_0000_0000_0000

  /** The errors a file operation can end with. */
  datatype Fault = RecordNotFound | InvalidFileHeader | ResizeFailed | Malformed(status: Status)

  datatype Reply<+T> = Success(value: T) | Failure(fault: Fault)

  datatype Rec = Rec(live: bool, doc: seq<byte>)

  /** A document whose length prefix is its length: what the callers of append hand over. */
  predicate TrueLength(doc: seq<byte>) {
    |doc| >= DOC_MIN_LEN && SignedLE(doc[..4]) == |doc|
  }

  function RecBytes(r: Rec): (s: seq<byte>)
    ensures |s| == 1 + |r.doc|
  {
    [if r.live then RECORD_LIVE else RECORD_TOMBSTONE] + r.doc
  }

  function Layout(rs: seq<Rec>): seq<byte> {
    if rs == [] then [] else RecBytes(rs[0]) + Layout(rs[1..])
  }

  /** The file offset after the records `rs`. */
  function EndOf(rs: seq<Rec>): nat {
    HEADER_LEN + |Layout(rs)|
  }

  function LiveIn(rs: seq<Rec>): nat {
    if rs == [] then 0 else (if rs[0].live then 1 else 0) + LiveIn(rs[1..])
  }

  /** A header field of eight bytes. */
  function Field64(b: seq<byte>, at: nat): nat
    requires at + 8 <= |b|
  {
    FromLE(b[at..at + 8])
  }

  function DataEnd(b: seq<byte>): nat requires |b| >= HEADER_LEN { Field64(b, OFF_DATA_END) }
  function LiveCount(b: seq<byte>): nat requires |b| >= HEADER_LEN { Field64(b, OFF_LIVE) }
  function TotalCount(b: seq<byte>): nat requires |b| >= HEADER_LEN { Field64(b, OFF_TOTAL) }

  /** The records lie in the file, whatever the header says. */
  ghost predicate Lies(b: seq<byte>, rs: seq<Rec>) {
    && EndOf(rs) <= |b|
    && b[HEADER_LEN..EndOf(rs)] == Layout(rs)
    && forall i | 0 <= i < |rs| :: TrueLength(rs[i].doc)
  }

  /** The header counts them: the file stands for the list `rs`. */
  ghost predicate Holds(b: seq<byte>, rs: seq<Rec>) {
    && Lies(b, rs)
    && DataEnd(b) == EndOf(rs)
    && LiveCount(b) == LiveIn(rs)
    && TotalCount(b) == |rs|
  }

  /** Nothing but zeros after the records. */
  predicate ZeroFrom(b: seq<byte>, end: nat) {
    forall i | end <= i < |b| :: b[i] == 0
  }

  // ---------------------------------------------------------------- record lists

  lemma {:induction false} LayoutConcat(a: seq<Rec>, b: seq<Rec>)
    ensures Layout(a + b) == Layout(a) + Layout(b)
    ensures LiveIn(a + b) == LiveIn(a) + LiveIn(b)
  {
    if a == [] {
      assert a + b == b;
    } else {
      assert (a + b)[1..] == a[1..] + b;
      LayoutConcat(a[1..], b);
    }
  }

  lemma LayoutOne(r: Rec)
    ensures Layout([r]) == RecBytes(r) && LiveIn([r]) == if r.live then 1 else 0
  {
    assert [r][1..] == [];
  }

  lemma {:induction false} LayoutSplit(rs: seq<Rec>, i: nat)
    requires i < |rs|
    ensures Layout(rs) == Layout(rs[..i]) + (RecBytes(rs[i]) + Layout(rs[i + 1..]))
    ensures Layout(rs[..i + 1]) == Layout(rs[..i]) + RecBytes(rs[i])
    ensures LiveIn(rs) == LiveIn(rs[..i]) + (if rs[i].live then 1 else 0) + LiveIn(rs[i + 1..])
  {
    hide RecBytes;
    assert rs == rs[..i] + rs[i..] && rs[i..][1..] == rs[i + 1..];
    LayoutConcat(rs[..i], rs[i..]);
    assert rs[..i + 1] == rs[..i] + [rs[i]];
    LayoutConcat(rs[..i], [rs[i]]);
    LayoutOne(rs[i]);
  }

  lemma {:induction false} CountsBounded(rs: seq<Rec>)
    ensures LiveIn(rs) <= |rs| <= |Layout(rs)|
  {
    if rs == [] {
    } else {
      CountsBounded(rs[1..]);
    }
  }

  /** Record `i` at its offset. */
  lemma RecAt(b: seq<byte>, rs: seq<Rec>, i: nat)
    requires Lies(b, rs) && i < |rs|
    ensures var off := EndOf(rs[..i]);
            && off + 1 + |rs[i].doc| == EndOf(rs[..i + 1]) <= EndOf(rs)
            && b[off] == (if rs[i].live then RECORD_LIVE else RECORD_TOMBSTONE)
            && b[off + 1..off + 1 + |rs[i].doc|] == rs[i].doc
            && SignedLE(b[off + 1..off + 5]) == |rs[i].doc|
  {
    hide SignedLE, Layout;
    LayoutSplit(rs, i);
    var off, r := EndOf(rs[..i]), RecBytes(rs[i]);
    var all := b[HEADER_LEN..EndOf(rs)];
    var at := |Layout(rs[..i])|;
    assert all[at..at + |r|] == r;
    SliceOfSlice(b, HEADER_LEN, EndOf(rs), at, at + |r|);
    assert b[off..off + |r|] == r;
    SliceOfSlice(b, off, off + |r|, 1, |r|);
    SliceOfSlice(b, off, off + |r|, 1, 5);
    assert r[1..] == rs[i].doc && r[1..5] == rs[i].doc[..4];
    assert b[off] == r[0];
  }

  lemma EndOfGrows(rs: seq<Rec>, i: nat, j: nat)
    requires i <= j <= |rs|
    ensures EndOf(rs[..i]) + (j - i) <= EndOf(rs[..j]) <= EndOf(rs)
  {
    assert rs[..j] == rs[..i] + rs[i..j];
    LayoutConcat(rs[..i], rs[i..j]);
    CountsBounded(rs[i..j]);
    assert rs == rs[..j] + rs[j..];
    LayoutConcat(rs[..j], rs[j..]);
  }

  /** The file offsets of the live records, in order. */
  function LiveOffsets(rs: seq<Rec>, from: nat): seq<nat> {
    if rs == [] then []
    else (if rs[0].live then [from] else []) + LiveOffsets(rs[1..], from + 1 + |rs[0].doc|)
  }

  // ---------------------------------------------------------------- ordered writes

  datatype Write = Write(at: nat, value: byte)

  function Apply(b: seq<byte>, ws: seq<Write>): (r: seq<byte>)
    ensures |r| == |b|
    decreases |ws|
  {
    if ws == [] then b
    else
      var b' := Apply(b, ws[..|ws| - 1]);
      var w := ws[|ws| - 1];
      if w.at < |b| then b'[w.at := w.value] else b'
  }

  /** A run of bytes stored from `at` on, lowest address first. */
  function Store(at: nat, bytes: seq<byte>): (ws: seq<Write>)
    ensures |ws| == |bytes|
  {
    seq(|bytes|, i requires 0 <= i < |bytes| => Write(at + i, bytes[i]))
  }

  /** The stores of bson_storage_append after the mapping has room. */
  function AppendWrites(b: seq<byte>, doc: seq<byte>): (ws: seq<Write>)
    requires |b| >= HEADER_LEN
    ensures |ws| == 1 + |doc| + 24
  {
    Store(DataEnd(b), [RECORD_LIVE] + doc)
    + Store(OFF_DATA_END, ToLE(DataEnd(b) + 1 + |doc|, 8))
    + Store(OFF_LIVE, ToLE(LiveCount(b) + 1, 8))
    + Store(OFF_TOTAL, ToLE(TotalCount(b) + 1, 8))
  }

  /** The stores of bson_storage_tombstone on a live record. */
  function TombstoneWrites(b: seq<byte>, off: nat): seq<Write>
    requires |b| >= HEADER_LEN
  {
    Store(off, [RECORD_TOMBSTONE])
    + (if LiveCount(b) > 0 then Store(OFF_LIVE, ToLE(LiveCount(b) - 1, 8)) else [])
  }

  /** Storing a run of bytes replaces that stretch. */
  function Patch(b: seq<byte>, at: nat, bytes: seq<byte>): (r: seq<byte>)
    requires at + |bytes| <= |b|
    ensures |r| == |b|
  {
    b[..at] + bytes + b[at + |bytes|..]
  }

  lemma {:induction false} ApplyConcat(b: seq<byte>, u: seq<Write>, w: seq<Write>)
    ensures Apply(b, u + w) == Apply(Apply(b, u), w)
    decreases |w|
  {
    if w == [] {
      assert u + w == u;
    } else {
      ApplyConcat(b, u, w[..|w| - 1]);
      assert (u + w)[..|u + w| - 1] == u + w[..|w| - 1];
    }
  }

  lemma {:induction false} ApplyStore(b: seq<byte>, at: nat, bytes: seq<byte>)
    requires at + |bytes| <= |b|
    ensures Apply(b, Store(at, bytes)) == Patch(b, at, bytes)
    decreases |bytes|
  {
    var n := |bytes|;
    if n == 0 {
      assert Patch(b, at, bytes) == b;
    } else {
      var ws := Store(at, bytes);
      assert ws[..n - 1] == Store(at, bytes[..n - 1]);
      ApplyStore(b, at, bytes[..n - 1]);
    }
  }

  lemma StorePrefix(at: nat, bytes: seq<byte>, k: nat)
    requires k <= |bytes|
    ensures Store(at, bytes)[..k] == Store(at, bytes[..k])
  {
  }

  // ---------------------------------------------------------------- recovery

  ghost predicate ValidRec(r: Rec) {
    ValidateSpec(r.doc).Ok? && |r.doc| <= MAX_DOCUMENT_SIZE
  }

  /** Every record written by a collection holds a validated document. */
  ghost predicate AllValid(rs: seq<Rec>) {
    forall i | 0 <= i < |rs| :: ValidRec(rs[i])
  }

  /** One step of the recovery walk: the validated record at `pos`, if there is one. */
  ghost predicate Recoverable(b: seq<byte>, pos: nat) {
    && pos + 1 + DOC_MIN_LEN <= |b|
    && (b[pos] == RECORD_LIVE || b[pos] == RECORD_TOMBSTONE)
    && var len := SignedLE(b[pos + 1..pos + 5]);
       && DOC_MIN_LEN <= len <= MAX_DOCUMENT_SIZE
       && pos + 1 + len <= |b|
       && ValidateSpec(b[pos + 1..pos + 1 + len]).Ok?
  }

  ghost function RecoverAt(b: seq<byte>, pos: nat): (r: Rec)
    requires Recoverable(b, pos)
  {
    var len := SignedLE(b[pos + 1..pos + 5]);
    Rec(b[pos] == RECORD_LIVE, b[pos + 1..pos + 1 + len])
  }

  lemma RecoverAtIs(b: seq<byte>, pos: nat)
    requires Recoverable(b, pos)
    ensures var r := RecoverAt(b, pos);
            && TrueLength(r.doc) && ValidateSpec(r.doc).Ok? && |r.doc| <= MAX_DOCUMENT_SIZE
            && pos + 1 + |r.doc| <= |b| && b[pos..pos + 1 + |r.doc|] == RecBytes(r)
  {
    hide SignedLE, ValidateSpec;
    var len := SignedLE(b[pos + 1..pos + 5]);
    var doc := b[pos + 1..pos + 1 + len];
    SliceOfSlice(b, pos + 1, pos + 1 + len, 0, 4);
    assert b[pos..pos + 1 + len] == [b[pos]] + doc;
  }

  lemma RecoverUnfold(b: seq<byte>, pos: nat)
    requires Recoverable(b, pos)
    ensures Recover(b, pos) == [RecoverAt(b, pos)] + Recover(b, pos + 1 + |RecoverAt(b, pos).doc|)
  {
    hide Recoverable, RecoverAt;
  }

  /** What bson_storage_recover keeps: everything up to the first thing that is not a valid record. */
  ghost function Recover(b: seq<byte>, pos: nat): seq<Rec>
    decreases |b| - pos
  {
    if Recoverable(b, pos) then [RecoverAt(b, pos)] + Recover(b, pos + 1 + |RecoverAt(b, pos).doc|) else []
  }

  /** The file with the three counters set for the records `rs`. */
  function Counted(b: seq<byte>, rs: seq<Rec>): (r: seq<byte>)
    requires |b| >= HEADER_LEN
    ensures |r| == |b|
  {
    Patch(Patch(Patch(b, OFF_DATA_END, ToLE(EndOf(rs), 8)), OFF_LIVE, ToLE(LiveIn(rs), 8)), OFF_TOTAL, ToLE(|rs|, 8))
  }

  lemma {:induction false} RecoverLies(b: seq<byte>, pos: nat)
    requires pos <= |b|
    ensures pos + |Layout(Recover(b, pos))| <= |b|
    ensures b[pos..pos + |Layout(Recover(b, pos))|] == Layout(Recover(b, pos))
    ensures forall i | 0 <= i < |Recover(b, pos)| ::
              TrueLength(Recover(b, pos)[i].doc) && ValidRec(Recover(b, pos)[i])
    decreases |b| - pos
  {
    hide SignedLE, ValidateSpec;
    if Recoverable(b, pos) {
      var r := RecoverAt(b, pos);
      var next := pos + 1 + |r.doc|;
      RecoverAtIs(b, pos);
      RecoverLies(b, next);
      var rs := Recover(b, pos);
      assert rs[1..] == Recover(b, next);
      Joined(b, pos, next, pos + |Layout(rs)|);
    }
  }

  lemma PatchKeeps(b: seq<byte>, at: nat, bytes: seq<byte>, i: nat, j: nat)
    requires at + |bytes| <= |b| && i <= j <= |b| && (j <= at || at + |bytes| <= i)
    ensures Patch(b, at, bytes)[i..j] == b[i..j]
  {
    var p := Patch(b, at, bytes);
    assert forall k | i <= k < j :: p[k] == b[k];
  }

  lemma {:induction false} PatchReads(b: seq<byte>, at: nat, v: nat)
    requires at + 8 <= |b| && v < Pow256(8)
    ensures Field64(Patch(b, at, ToLE(v, 8)), at) == v
  {
    FromToLE(v, 8);
    assert Patch(b, at, ToLE(v, 8))[at..at + 8] == ToLE(v, 8);
  }

  /** Setting the counters for records that lie in the file makes it hold them. */
  lemma CountedHolds(b: seq<byte>, rs: seq<Rec>)
    requires |b| >= HEADER_LEN && Lies(b, rs) && |b| <= MAX_MAPPING
    ensures Holds(Counted(b, rs), rs)
    ensures forall i | HEADER_LEN <= i < |b| :: Counted(b, rs)[i] == b[i]
  {
    hide ToLE, FromLE, SignedLE;
    Pow256Values();
    CountsBounded(rs);
    var b1 := Patch(b, OFF_DATA_END, ToLE(EndOf(rs), 8));
    var b2 := Patch(b1, OFF_LIVE, ToLE(LiveIn(rs), 8));
    var b3 := Patch(b2, OFF_TOTAL, ToLE(|rs|, 8));
    PatchReads(b, OFF_DATA_END, EndOf(rs));
    PatchReads(b1, OFF_LIVE, LiveIn(rs));
    PatchReads(b2, OFF_TOTAL, |rs|);
    PatchKeeps(b1, OFF_LIVE, ToLE(LiveIn(rs), 8), OFF_DATA_END, OFF_DATA_END + 8);
    PatchKeeps(b2, OFF_TOTAL, ToLE(|rs|, 8), OFF_DATA_END, OFF_DATA_END + 8);
    PatchKeeps(b2, OFF_TOTAL, ToLE(|rs|, 8), OFF_LIVE, OFF_LIVE + 8);
    assert forall i | HEADER_LEN <= i < |b| :: b3[i] == b[i];
    assert b3[HEADER_LEN..EndOf(rs)] == b[HEADER_LEN..EndOf(rs)];
  }

  /** A header that already holds the records is left byte for byte as it is. */
  lemma CountedIdempotent(b: seq<byte>, rs: seq<Rec>)
    requires |b| >= HEADER_LEN && Holds(b, rs)
    ensures Counted(b, rs) == b
  {
    hide SignedLE;
    ToFromLE(b[OFF_DATA_END..OFF_DATA_END + 8]);
    ToFromLE(b[OFF_LIVE..OFF_LIVE + 8]);
    ToFromLE(b[OFF_TOTAL..OFF_TOTAL + 8]);
    PatchSame(b, OFF_DATA_END);
    PatchSame(b, OFF_LIVE);
    PatchSame(b, OFF_TOTAL);
  }

  lemma PatchSame(b: seq<byte>, at: nat)
    requires at + 8 <= |b|
    ensures Patch(b, at, b[at..at + 8]) == b
  {
  }

  /** Recovery reads back the records that lie in the file, then whatever follows them. */
  lemma {:induction false} RecoverReads(b: seq<byte>, pos: nat, rs: seq<Rec>)
    requires pos + |Layout(rs)| <= |b| && b[pos..pos + |Layout(rs)|] == Layout(rs)
    requires AllValid(rs) && forall i | 0 <= i < |rs| :: TrueLength(rs[i].doc)
    ensures Recover(b, pos) == rs + Recover(b, pos + |Layout(rs)|)
    decreases rs
  {
    hide SignedLE, ValidateSpec, Recoverable, RecoverAt, RecBytes, TrueLength, Recover;
    if rs == [] {
      assert rs + Recover(b, pos) == Recover(b, pos);
    } else {
      var r := rs[0];
      var next := pos + 1 + |r.doc|;
      FirstRec(b, pos, r, Layout(rs[1..]));
      RecoverFirst(b, pos, r);
      RecoverUnfold(b, pos);
      RecoverReads(b, next, rs[1..]);
      assert rs == [r] + rs[1..];
      Assoc([r], rs[1..], Recover(b, next + |Layout(rs[1..])|));
    }
  }

  lemma RecoverFirst(b: seq<byte>, pos: nat, r: Rec)
    requires TrueLength(r.doc) && pos + 1 + |r.doc| <= |b|
    requires b[pos] == if r.live then RECORD_LIVE else RECORD_TOMBSTONE
    requires b[pos + 1..pos + 1 + |r.doc|] == r.doc && SignedLE(b[pos + 1..pos + 5]) == |r.doc|
    requires ValidateSpec(r.doc).Ok? && |r.doc| <= MAX_DOCUMENT_SIZE
    ensures Recoverable(b, pos) && RecoverAt(b, pos) == r
  {
    hide SignedLE, ValidateSpec;
  }

  lemma FirstRec(b: seq<byte>, pos: nat, r: Rec, rest: seq<byte>)
    requires TrueLength(r.doc) && pos + 1 + |r.doc| + |rest| <= |b|
    requires b[pos..pos + 1 + |r.doc| + |rest|] == RecBytes(r) + rest
    ensures b[pos] == (if r.live then RECORD_LIVE else RECORD_TOMBSTONE)
    ensures b[pos + 1..pos + 1 + |r.doc|] == r.doc && SignedLE(b[pos + 1..pos + 5]) == |r.doc|
    ensures b[pos + 1 + |r.doc|..pos + 1 + |r.doc| + |rest|] == rest
  {
    hide SignedLE;
    var n, end := 1 + |r.doc|, pos + 1 + |r.doc| + |rest|;
    var all := RecBytes(r) + rest;
    assert b[pos] == all[0];
    SliceOfSlice(b, pos, end, 1, n);
    SliceOfSlice(b, pos, end, 1, 5);
    SliceOfSlice(b, pos, end, n, n + |rest|);
    assert all[1..n] == r.doc && all[1..5] == r.doc[..4] && all[n..n + |rest|] == rest;
  }

  /** With no crash behind it, recovery keeps every record and does not change a byte. */
  lemma {:induction false} RecoverClean(b: seq<byte>, rs: seq<Rec>)
    requires |b| >= HEADER_LEN && Holds(b, rs) && AllValid(rs) && ZeroFrom(b, EndOf(rs))
    ensures Recover(b, HEADER_LEN) == rs
    ensures Counted(b, Recover(b, HEADER_LEN)) == b
  {
    hide SignedLE, ValidateSpec, Counted;
    RecoverReads(b, HEADER_LEN, rs);
    assert !Recoverable(b, EndOf(rs));
    assert rs + [] == rs;
    CountedIdempotent(b, rs);
  }

  lemma {:induction false} RecoversNothing(b: seq<byte>, at: nat)
    ensures Recover(b, at) == [] <==> !Recoverable(b, at)
  {
  }

  /**
    * Without a crash behind it, recovery changes no byte exactly when what follows the
    * records does not read as one more record.
    */
  lemma {:induction false} RecoverUnchangedIff(b: seq<byte>, rs: seq<Rec>)
    requires HEADER_LEN <= |b| <= MAX_MAPPING && Holds(b, rs) && AllValid(rs)
    ensures Counted(b, Recover(b, HEADER_LEN)) == b <==> !Recoverable(b, EndOf(rs))
  {
    hide SignedLE, ValidateSpec, Counted, Recover, Recoverable, Layout;
    RecoverReads(b, HEADER_LEN, rs);
    RecoversNothing(b, EndOf(rs));
    var kept := Recover(b, HEADER_LEN);
    if Recoverable(b, EndOf(rs)) {
      RecoverLies(b, HEADER_LEN);
      CountedHolds(b, kept);
      assert |kept| > |rs|;
    } else {
      assert rs + [] == rs;
      CountedIdempotent(b, rs);
    }
  }

  // ---------------------------------------------------------------- crashes

  /** The file after the first `k` stores of an append. */
  function TornAppend(b: seq<byte>, doc: seq<byte>, k: nat): (r: seq<byte>)
    requires |b| >= HEADER_LEN && k <= |AppendWrites(b, doc)|
    ensures |r| == |b|
  {
    Apply(b, AppendWrites(b, doc)[..k])
  }

  /** The part of the record that `k` stores have reached. */
  function TornRecord(doc: seq<byte>, k: nat): (s: seq<byte>)
    ensures |s| == if k < 1 + |doc| then k else 1 + |doc|
  {
    ([RECORD_LIVE] + doc)[..if k < 1 + |doc| then k else 1 + |doc|]
  }

  lemma TornBytes(b: seq<byte>, doc: seq<byte>, k: nat)
    requires |b| >= HEADER_LEN && HEADER_LEN <= DataEnd(b) && DataEnd(b) + 1 + |doc| <= |b|
    requires k <= |AppendWrites(b, doc)|
    ensures forall i | HEADER_LEN <= i < |b| ::
              TornAppend(b, doc, k)[i] == Patch(b, DataEnd(b), TornRecord(doc, k))[i]
  {
    hide ToLE, FromLE;
    var rec := [RECORD_LIVE] + doc;
    var body, head := Store(DataEnd(b), rec),
                      Store(OFF_DATA_END, ToLE(DataEnd(b) + 1 + |doc|, 8)) + Store(OFF_LIVE, ToLE(LiveCount(b) + 1, 8))
                      + Store(OFF_TOTAL, ToLE(TotalCount(b) + 1, 8));
    assert AppendWrites(b, doc) == body + head;
    if k < |rec| {
      assert (body + head)[..k] == body[..k];
      StorePrefix(DataEnd(b), rec, k);
      ApplyStore(b, DataEnd(b), rec[..k]);
    } else {
      assert (body + head)[..k] == body + head[..k - |rec|];
      assert rec[..|rec|] == rec;
      ApplyConcat(b, body, head[..k - |rec|]);
      ApplyStore(b, DataEnd(b), rec);
      HeaderOnly(Apply(b, body), head[..k - |rec|]);
    }
  }

  lemma {:induction false} HeaderOnly(b: seq<byte>, ws: seq<Write>)
    requires forall i | 0 <= i < |ws| :: ws[i].at < HEADER_LEN
    ensures forall i | HEADER_LEN <= i < |b| :: Apply(b, ws)[i] == b[i]
    decreases |ws|
  {
    if ws == [] {
    } else {
      HeaderOnly(b, ws[..|ws| - 1]);
    }
  }

  /** From `at` on the two files are the same. */
  ghost predicate SameFrom(b: seq<byte>, c: seq<byte>, at: nat) {
    |b| == |c| && forall i | at <= i < |b| :: b[i] == c[i]
  }

  lemma RecoverableSame(b: seq<byte>, c: seq<byte>, pos: nat)
    requires SameFrom(b, c, pos)
    ensures Recoverable(b, pos) <==> Recoverable(c, pos)
    ensures Recoverable(b, pos) ==> RecoverAt(b, pos) == RecoverAt(c, pos)
  {
    hide SignedLE, ValidateSpec;
    if pos + 1 + DOC_MIN_LEN <= |b| {
      assert b[pos + 1..pos + 5] == c[pos + 1..pos + 5];
      var len := SignedLE(b[pos + 1..pos + 5]);
      if DOC_MIN_LEN <= len && pos + 1 + len <= |b| {
        assert b[pos + 1..pos + 1 + len] == c[pos + 1..pos + 1 + len];
      }
    }
  }

  lemma SameFurther(b: seq<byte>, c: seq<byte>, at: nat, pos: nat)
    requires SameFrom(b, c, at) && at <= pos
    ensures SameFrom(b, c, pos)
  {
  }

  /** Recovery from a position on reads nothing before it. */
  lemma {:induction false} RecoverSame(b: seq<byte>, c: seq<byte>, pos: nat)
    requires SameFrom(b, c, pos)
    ensures Recover(b, pos) == Recover(c, pos)
    decreases |b| - pos
  {
    hide Recoverable, RecoverAt, Recover, TrueLength, RecBytes, SameFrom, ValidateSpec;
    RecoverableSame(b, c, pos);
    if Recoverable(b, pos) {
      RecoverAtIs(b, pos);
      SameFurther(b, c, pos, pos + 1 + |RecoverAt(b, pos).doc|);
      RecoverSame(b, c, pos + 1 + |RecoverAt(b, pos).doc|);
      RecoverUnfold(b, pos);
      RecoverUnfold(c, pos);
    } else {
      RecoversNothing(b, pos);
      RecoversNothing(c, pos);
    }
  }

  /** A torn append leaves the old records, the stored part of the new one, then what was there. */
  lemma {:induction false} TornParts(b: seq<byte>, rs: seq<Rec>, doc: seq<byte>, k: nat)
    requires |b| >= HEADER_LEN && Holds(b, rs) && AllValid(rs)
    requires EndOf(rs) + 1 + |doc| <= |b| && k <= |AppendWrites(b, doc)|
    ensures var c, n := TornAppend(b, doc, k), |TornRecord(doc, k)|;
            && c[HEADER_LEN..EndOf(rs)] == Layout(rs)
            && c[EndOf(rs)..EndOf(rs) + n] == TornRecord(doc, k)
            && SameFrom(c, Patch(b, EndOf(rs), TornRecord(doc, k)), EndOf(rs))
            && SameFrom(c, b, EndOf(rs) + n)
            && Recover(c, HEADER_LEN) == rs + Recover(c, EndOf(rs))
  {
    hide SignedLE, ValidRec, TornAppend, AppendWrites, ToLE, FromLE, Recover, Layout;
    var c, torn := TornAppend(b, doc, k), TornRecord(doc, k);
    var n := |torn|;
    TornBytes(b, doc, k);
    var p := Patch(b, EndOf(rs), torn);
    PatchKeeps(b, EndOf(rs), torn, HEADER_LEN, EndOf(rs));
    assert c[HEADER_LEN..EndOf(rs)] == p[HEADER_LEN..EndOf(rs)];
    assert c[EndOf(rs)..EndOf(rs) + n] == p[EndOf(rs)..EndOf(rs) + n] == torn;
    assert forall i | EndOf(rs) + n <= i < |c| :: p[i] == b[i];
    RecoverReads(c, HEADER_LEN, rs);
  }

  /**
    * Stopping an append after any number of its byte stores and recovering, whatever bytes lie
    * behind the data: every earlier record is kept at its offset, followed by what can be read
    * from the stored part of the record and the bytes behind it, all of it validated, and the
    * counters are the true counts.
    */
  lemma AppendCrashKeeps(b: seq<byte>, rs: seq<Rec>, doc: seq<byte>, k: nat)
    requires HEADER_LEN <= |b| <= MAX_MAPPING && Holds(b, rs) && AllValid(rs)
    requires EndOf(rs) + 1 + |doc| <= |b| && k <= |AppendWrites(b, doc)|
    ensures var c := TornAppend(b, doc, k); var kept := Recover(c, HEADER_LEN);
            && kept == rs + Recover(Patch(b, EndOf(rs), TornRecord(doc, k)), EndOf(rs))
            && AllValid(kept) && Holds(Counted(c, kept), kept)
  {
    hide SignedLE, ValidRec, Apply, AppendWrites, Counted, ToLE, FromLE, Patch, Recover, Layout;
    var c := TornAppend(b, doc, k);
    TornParts(b, rs, doc, k);
    RecoverSame(c, Patch(b, EndOf(rs), TornRecord(doc, k)), EndOf(rs));
    RecoverLies(c, HEADER_LEN);
    CountedHolds(c, Recover(c, HEADER_LEN));
  }

  /** Two records can be read at `at`, one after the other. */
  ghost predicate TwoRecords(b: seq<byte>, at: nat) {
    Recoverable(b, at) && Recoverable(b, at + 1 + |RecoverAt(b, at).doc|)
  }

  lemma {:induction false} AtMostOneIff(b: seq<byte>, at: nat)
    ensures |Recover(b, at)| <= 1 <==> !TwoRecords(b, at)
  {
    hide Recoverable, RecoverAt;
    if Recoverable(b, at) {
      RecoversNothing(b, at + 1 + |RecoverAt(b, at).doc|);
    }
  }

  /**
    * The records a stopped append adds: at most one exactly when no second record can be read
    * behind the first in the bytes then there.  Once the whole record is stored, it is that
    * record followed by whatever could be read behind its place before the call.
    */
  lemma AppendCrashAddsIff(b: seq<byte>, rs: seq<Rec>, doc: seq<byte>, k: nat)
    requires HEADER_LEN <= |b| <= MAX_MAPPING && Holds(b, rs) && AllValid(rs)
    requires EndOf(rs) + 1 + |doc| <= |b| && k <= |AppendWrites(b, doc)|
    ensures var kept := Recover(TornAppend(b, doc, k), HEADER_LEN);
            && (|kept| <= |rs| + 1 <==> !TwoRecords(Patch(b, EndOf(rs), TornRecord(doc, k)), EndOf(rs)))
            && (k == 0 ==> kept == rs + Recover(b, EndOf(rs)))
            && (k >= 1 + |doc| && TrueLength(doc) && ValidRec(Rec(true, doc)) ==>
                  && kept == rs + ([Rec(true, doc)] + Recover(b, EndOf(rs) + 1 + |doc|))
                  && (|kept| == |rs| + 1 <==> !Recoverable(b, EndOf(rs) + 1 + |doc|)))
  {
    hide SignedLE, ValidRec, Apply, AppendWrites, Counted, ToLE, FromLE, Recover, Recoverable, RecoverAt, Layout;
    var at, p := EndOf(rs), Patch(b, EndOf(rs), TornRecord(doc, k));
    AppendCrashKeeps(b, rs, doc, k);
    AtMostOneIff(p, at);
    if k == 0 {
      assert p == b;
    }
    if k >= 1 + |doc| && TrueLength(doc) && ValidRec(Rec(true, doc)) {
      assert TornRecord(doc, k) == [RECORD_LIVE] + doc;
      WholeRecord(b, at, doc);
      RecoversNothing(b, at + 1 + |doc|);
    }
  }

  lemma WholeRecord(b: seq<byte>, at: nat, doc: seq<byte>)
    requires at + 1 + |doc| <= |b| && TrueLength(doc) && ValidRec(Rec(true, doc))
    ensures Recover(Patch(b, at, [RECORD_LIVE] + doc), at) == [Rec(true, doc)] + Recover(b, at + 1 + |doc|)
  {
    hide SignedLE, ValidateSpec, Recover, Recoverable, RecoverAt;
    var p := Patch(b, at, [RECORD_LIVE] + doc);
    assert p[at + 1..at + 1 + |doc|] == doc && p[at + 1..at + 5] == doc[..4];
    RecoverFirst(p, at, Rec(true, doc));
    RecoverUnfold(p, at);
    RecoverSame(p, b, at + 1 + |doc|);
  }

  /** At most one record can be read from the stretch a torn append has begun. */
  lemma {:induction false} AtMostOne(c: seq<byte>, at: nat, doc: seq<byte>, n: nat)
    requires TrueLength(doc) && n <= 1 + |doc| && at + 1 + |doc| <= |c|
    requires c[at..at + n] == ([RECORD_LIVE] + doc)[..n] && ZeroFrom(c, at + n)
    ensures |Recover(c, at)| <= 1
    ensures n == 0 ==> Recover(c, at) == []
    ensures n == 1 + |doc| && ValidateSpec(doc).Ok? && |doc| <= MAX_DOCUMENT_SIZE ==> Recover(c, at) == [Rec(true, doc)]
    ensures Recover(c, at) != [] ==> Recover(c, at)[0].live && at + n <= at + 1 + |Recover(c, at)[0].doc|
  {
    hide SignedLE, ValidateSpec;
    var rec := [RECORD_LIVE] + doc;
    if n == 0 {
      assert c[at] == 0;
    } else {
      assert c[at] == c[at..at + n][0] == RECORD_LIVE;
      if n >= 5 {
        SliceOfSlice(c, at, at + n, 1, 5);
        assert rec[..n][1..5] == doc[..4];
      }
      if n == 1 + |doc| {
        SliceOfSlice(c, at, at + n, 1, n);
        assert rec[..n] == rec && rec[1..] == doc;
      }
      if Recoverable(c, at) {
        var r := RecoverAt(c, at);
        var next := at + 1 + |r.doc|;
        assert !Recoverable(c, next) by {
          assert next < |c| ==> c[next] == 0;
        }
        assert Recover(c, at) == [r] + Recover(c, next);
      }
    }
  }

  /** A torn append leaves the old records, the stored part of the new one, then zeros. */
  lemma {:induction false} TornShape(b: seq<byte>, rs: seq<Rec>, doc: seq<byte>, k: nat)
    requires |b| >= HEADER_LEN && Holds(b, rs) && AllValid(rs) && ZeroFrom(b, EndOf(rs))
    requires TrueLength(doc) && EndOf(rs) + 1 + |doc| <= |b| && k <= |AppendWrites(b, doc)|
    ensures var c := TornAppend(b, doc, k); var n := |TornRecord(doc, k)|;
            && c[HEADER_LEN..EndOf(rs)] == Layout(rs)
            && c[EndOf(rs)..EndOf(rs) + n] == TornRecord(doc, k)
            && ZeroFrom(c, EndOf(rs) + n)
            && Recover(c, HEADER_LEN) == rs + Recover(c, EndOf(rs))
  {
    hide SignedLE, ValidRec, TornAppend, AppendWrites, Recover, Layout;
    TornParts(b, rs, doc, k);
  }

  /**
    * Stopping an append after any number of its byte stores and recovering keeps every
    * earlier record at its offset, adds at most one validated live record, and leaves
    * counters that are the true counts.
    */
  lemma AppendCrashSafe(b: seq<byte>, rs: seq<Rec>, doc: seq<byte>, k: nat)
    requires HEADER_LEN <= |b| <= MAX_MAPPING && Holds(b, rs) && AllValid(rs) && ZeroFrom(b, EndOf(rs))
    requires TrueLength(doc) && EndOf(rs) + 1 + |doc| <= |b| && k <= |AppendWrites(b, doc)|
    ensures var c := TornAppend(b, doc, k); var kept := Recover(c, HEADER_LEN);
            && rs <= kept && |kept| <= |rs| + 1
            && (|kept| == |rs| + 1 ==> kept[|rs|].live && ValidateSpec(kept[|rs|].doc).Ok?)
            && Holds(Counted(c, kept), kept)
    ensures k >= 1 + |doc| && ValidateSpec(doc).Ok? && |doc| <= MAX_DOCUMENT_SIZE ==>
              Recover(TornAppend(b, doc, k), HEADER_LEN) == rs + [Rec(true, doc)]
  {
    hide SignedLE, ValidateSpec, Apply, AppendWrites, Counted, ToLE, FromLE, Patch, Recover, Layout;
    var c := TornAppend(b, doc, k);
    TornShape(b, rs, doc, k);
    AtMostOne(c, EndOf(rs), doc, |TornRecord(doc, k)|);
    var kept := Recover(c, HEADER_LEN);
    RecoverLies(c, HEADER_LEN);
    CountedHolds(c, kept);
  }

  /**
    * The zero tail that crash safety rests on survives recovery exactly when nothing of
    * the append was stored or what was stored reads as a record; otherwise the torn bytes
    * stay behind the recovered end of data.
    */
  lemma TailAfterCrash(b: seq<byte>, rs: seq<Rec>, doc: seq<byte>, k: nat)
    requires HEADER_LEN <= |b| <= MAX_MAPPING && Holds(b, rs) && AllValid(rs) && ZeroFrom(b, EndOf(rs))
    requires TrueLength(doc) && EndOf(rs) + 1 + |doc| <= |b| && k <= |AppendWrites(b, doc)|
    ensures var c := TornAppend(b, doc, k); var kept := Recover(c, HEADER_LEN);
            ZeroFrom(Counted(c, kept), EndOf(kept)) <==> k == 0 || Recoverable(c, EndOf(rs))
  {
    hide SignedLE, ValidateSpec, Apply, AppendWrites, Counted, ToLE, FromLE, Patch, Recover, Layout;
    var c := TornAppend(b, doc, k);
    TornShape(b, rs, doc, k);
    AtMostOne(c, EndOf(rs), doc, |TornRecord(doc, k)|);
    var kept := Recover(c, HEADER_LEN);
    RecoverLies(c, HEADER_LEN);
    CountedHolds(c, kept);
    assert ZeroFrom(Counted(c, kept), EndOf(kept)) <==> ZeroFrom(c, EndOf(kept)) by {
      assert EndOf(kept) >= HEADER_LEN;
    }
    if Recoverable(c, EndOf(rs)) {
      ReadsOne(c, EndOf(rs), rs);
    } else {
      RecoversNothing(c, EndOf(rs));
      assert rs + [] == rs;
      assert k > 0 ==> c[EndOf(rs)] == TornRecord(doc, k)[0] == RECORD_LIVE;
    }
  }

  lemma {:induction false} ReadsOne(c: seq<byte>, at: nat, rs: seq<Rec>)
    requires Recoverable(c, at) && |Recover(c, at)| <= 1 && EndOf(rs) == at
    ensures |Recover(c, at)| == 1 && EndOf(rs + Recover(c, at)) == at + 1 + |Recover(c, at)[0].doc|
  {
    hide Recoverable, RecoverAt;
    var one := Recover(c, at);
    assert one == [one[0]];
    LayoutConcat(rs, one);
    LayoutOne(one[0]);
  }

  /** Such a stop exists in every append: right after its first store. */
  lemma TornTailHappens(b: seq<byte>, rs: seq<Rec>, doc: seq<byte>)
    requires HEADER_LEN <= |b| <= MAX_MAPPING && Holds(b, rs) && AllValid(rs) && ZeroFrom(b, EndOf(rs))
    requires TrueLength(doc) && EndOf(rs) + 1 + |doc| <= |b|
    ensures var c := TornAppend(b, doc, 1); var kept := Recover(c, HEADER_LEN);
            kept == rs && !ZeroFrom(Counted(c, kept), EndOf(kept))
  {
    hide ValidateSpec, SignedLE, TornAppend, AppendWrites, Counted, Recover, Layout, Field64;
    var c := TornAppend(b, doc, 1);
    TornShape(b, rs, doc, 1);
    AfterFirstStore(c, EndOf(rs));
    RecoversNothing(c, EndOf(rs));
    assert rs + [] == rs;
    TailAfterCrash(b, rs, doc, 1);
  }

  lemma AfterFirstStore(c: seq<byte>, at: nat)
    requires ZeroFrom(c, at + 1)
    ensures !Recoverable(c, at)
  {
    hide ValidateSpec;
    if at + 5 <= |c| {
      ZeroLength(c[at + 1..at + 5]);
    }
  }

  lemma ZeroLength(len: seq<byte>)
    requires |len| == 4 && forall i | 0 <= i < 4 :: len[i] == 0
    ensures SignedLE(len) == 0
  {
    Pow256Values();
    assert len == [0, 0, 0, 0] && ToLE(0, 4) == [0, 0, 0, 0] by {
      assert ToLE(0, 0) == [] && ToLE(0, 1) == [0] && ToLE(0, 2) == [0, 0] && ToLE(0, 3) == [0, 0, 0];
    }
    FromToLE(0, 4);
  }

  /** The file after the first `k` stores of a tombstone. */
  function TornTombstone(b: seq<byte>, off: nat, k: nat): (r: seq<byte>)
    requires |b| >= HEADER_LEN && k <= |TombstoneWrites(b, off)|
    ensures |r| == |b|
  {
    Apply(b, TombstoneWrites(b, off)[..k])
  }

  function Tombstoned(rs: seq<Rec>, i: nat): seq<Rec>
    requires i < |rs|
  {
    rs[i := rs[i].(live := false)]
  }

  lemma UpdateMiddle<T>(a: seq<T>, m: seq<T>, b: seq<T>, x: T)
    requires m != []
    ensures (a + (m + b))[|a| := x] == a + (m[0 := x] + b)
  {
  }

  lemma UpdateSlice<T>(s: seq<T>, lo: nat, hi: nat, at: nat, x: T)
    requires lo <= at < hi <= |s|
    ensures s[at := x][lo..hi] == s[lo..hi][at - lo := x]
  {
  }

  lemma {:induction false} LayoutTombstoned(rs: seq<Rec>, i: nat)
    requires i < |rs|
    ensures |Layout(rs[..i])| < |Layout(rs)|
    ensures Layout(Tombstoned(rs, i)) == Layout(rs)[|Layout(rs[..i])| := RECORD_TOMBSTONE]
    ensures LiveIn(Tombstoned(rs, i)) == LiveIn(rs) - (if rs[i].live then 1 else 0)
  {
    hide RecBytes, Layout, LiveIn;
    var rs' := Tombstoned(rs, i);
    LayoutSplit(rs, i);
    LayoutSplit(rs', i);
    assert rs'[..i] == rs[..i] && rs'[i + 1..] == rs[i + 1..];
    StatusFirst(rs[i]);
    UpdateMiddle(Layout(rs[..i]), RecBytes(rs[i]), Layout(rs[i + 1..]), RECORD_TOMBSTONE);
  }

  lemma StatusFirst(r: Rec)
    ensures RecBytes(r) != [] && RecBytes(r.(live := false)) == RecBytes(r)[0 := RECORD_TOMBSTONE]
  {
  }

  /** Writing the status byte of record `i` turns the list into the one with it tombstoned. */
  lemma {:induction false} StatusByte(b: seq<byte>, rs: seq<Rec>, i: nat)
    requires |b| >= HEADER_LEN && Lies(b, rs) && i < |rs|
    ensures EndOf(rs[..i]) < |b| && Lies(b[EndOf(rs[..i]) := RECORD_TOMBSTONE], Tombstoned(rs, i))
    ensures EndOf(Tombstoned(rs, i)) == EndOf(rs)
    ensures LiveIn(Tombstoned(rs, i)) == LiveIn(rs) - (if rs[i].live then 1 else 0)
  {
    hide SignedLE, Layout, LiveIn;
    LayoutTombstoned(rs, i);
    UpdateSlice(b, HEADER_LEN, EndOf(rs), EndOf(rs[..i]), RECORD_TOMBSTONE);
  }

  /**
    * Stopping a tombstone after any store and recovering, whatever bytes lie behind the data:
    * the list with or without it, followed by what can be read behind it; nothing more exactly
    * when no record can be read there.
    */
  lemma TombstoneCrashKeeps(b: seq<byte>, rs: seq<Rec>, i: nat, k: nat)
    requires HEADER_LEN <= |b| <= MAX_MAPPING && Holds(b, rs) && AllValid(rs)
    requires i < |rs| && rs[i].live && k <= |TombstoneWrites(b, EndOf(rs[..i]))|
    ensures var c := TornTombstone(b, EndOf(rs[..i]), k); var kept := Recover(c, HEADER_LEN);
            var now := if k == 0 then rs else Tombstoned(rs, i);
            && kept == now + Recover(b, EndOf(rs)) && AllValid(kept) && Holds(Counted(c, kept), kept)
            && (kept == now <==> !Recoverable(b, EndOf(rs)))
  {
    hide SignedLE, ValidateSpec, Counted, Layout, LiveIn, TornTombstone, TombstoneWrites, Field64, Recover, Recoverable;
    var off := EndOf(rs[..i]);
    var c, now := TornTombstone(b, off, k), if k == 0 then rs else Tombstoned(rs, i);
    StatusByte(b, rs, i);
    LayoutTombstoned(rs, i);
    var m := if k == 0 then b else b[off := RECORD_TOMBSTONE];
    TornStatus(b, off, k);
    assert c[HEADER_LEN..EndOf(now)] == m[HEADER_LEN..EndOf(now)];
    assert forall j | 0 <= j < |now| :: now[j].doc == rs[j].doc;
    RecoverReads(c, HEADER_LEN, now);
    RecoverSame(c, b, EndOf(rs));
    RecoversNothing(b, EndOf(rs));
    RecoverLies(c, HEADER_LEN);
    CountedHolds(c, Recover(c, HEADER_LEN));
  }

  /** On a file with a zero tail it gives the list with or without the tombstone, and no more. */
  lemma TombstoneCrashSafe(b: seq<byte>, rs: seq<Rec>, i: nat, k: nat)
    requires HEADER_LEN <= |b| <= MAX_MAPPING && Holds(b, rs) && AllValid(rs) && ZeroFrom(b, EndOf(rs))
    requires i < |rs| && rs[i].live && k <= |TombstoneWrites(b, EndOf(rs[..i]))|
    ensures var c := TornTombstone(b, EndOf(rs[..i]), k); var kept := if k == 0 then rs else Tombstoned(rs, i);
            Recover(c, HEADER_LEN) == kept && Holds(Counted(c, kept), kept)
  {
    hide Counted, Layout, LiveIn, TornTombstone, TombstoneWrites, Field64, AllValid, Recover, Lies;
    TombstoneCrashKeeps(b, rs, i, k);
    NothingBehind(b, EndOf(rs));
  }

  /** No record can be read from zeros. */
  lemma NothingBehind(b: seq<byte>, at: nat)
    requires ZeroFrom(b, at)
    ensures !Recoverable(b, at) && Recover(b, at) == []
  {
    hide SignedLE, ValidateSpec;
    assert at < |b| ==> b[at] == 0;
  }

  lemma TornStatus(b: seq<byte>, off: nat, k: nat)
    requires |b| >= HEADER_LEN && HEADER_LEN <= off < |b| && k <= |TombstoneWrites(b, off)|
    ensures forall j | HEADER_LEN <= j < |b| ::
              TornTombstone(b, off, k)[j] == (if k > 0 && j == off then RECORD_TOMBSTONE else b[j])
  {
    hide ToLE, FromLE;
    var ws := TombstoneWrites(b, off);
    if k > 0 {
      assert ws[..k] == ws[..1] + ws[1..k];
      ApplyConcat(b, ws[..1], ws[1..k]);
      assert ws[..1] == Store(off, [RECORD_TOMBSTONE]);
      ApplyStore(b, off, [RECORD_TOMBSTONE]);
      HeaderOnly(Apply(b, ws[..1]), ws[1..k]);
    }
  }
}
