/**
  * The data file of a collection (storage.c), its scanner (scanner.c) and the single-step
  * resume of _storage_core.c, as code over a mapping that is edited in place.
  *
  * The mapping stands for the ghost record list of module RecordFile.  The mapping itself and
  * its flushing are not part of this model.
  */
module DataFile {
  import opened Sequences
  import opened Bytes
  import opened Grammar
  import opened RecordFile
  import Validator

  // ---------------------------------------------------------------- growing

  /** The file after resizing its mapping: the platform layer fills with zeros. */
  function Resized(b: seq<byte>, size: nat): (r: seq<byte>)
    requires |b| <= size
    ensures |r| == size
  {
    b + seq(size - |b|, _ => 0)
  }

  function Doubled(cap: nat, needed: nat): (r: nat)
    requires cap > 0
    ensures needed <= r && cap <= r
    ensures r < 2 * needed || r == cap
    decreases needed - cap
  {
    if cap < needed then Doubled(2 * cap, needed) else cap
  }

  function PageRounded(n: nat): (r: nat)
    ensures n <= r < n + FILE_PAGE && r % FILE_PAGE == 0
  {
    (n + FILE_PAGE - 1) / FILE_PAGE * FILE_PAGE
  }

  /** The mapped size an append of `needed` bytes in all ends with. */
  function Capacity(cap: nat, needed: nat): (r: nat)
    requires cap > 0
    ensures needed <= r && cap <= r
  {
    if needed > cap then PageRounded(Doubled(cap, needed)) else cap
  }

  /** A mapping of `size` bytes that ends at `end` cannot take a document of `len` bytes more. */
  predicate NoRoomFor(size: nat, end: nat, len: nat) {
    size > 0 && Capacity(size, end + 1 + len) > 0x4000_0000_0000_0000
  }

  /** Only a file that needs close to 2^61 bytes has no room. */
  lemma RoomBelow(size: nat, end: nat, len: nat)
    requires size <= 0x4000_0000_0000_0000 && end + 1 + len <= 0x1000_0000_0000_0000
    ensures !NoRoomFor(size, end, len)
  {
  }

  lemma ResizedHolds(b: seq<byte>, rs: seq<Rec>, size: nat)
    requires HEADER_LEN <= |b| <= size && Holds(b, rs)
    ensures Holds(Resized(b, size), rs)
    ensures ZeroFrom(b, EndOf(rs)) ==> ZeroFrom(Resized(b, size), EndOf(rs))
  {
    hide FromLE, SignedLE, Layout;
    var r := Resized(b, size);
    assert r[HEADER_LEN..EndOf(rs)] == b[HEADER_LEN..EndOf(rs)];
    assert r[OFF_DATA_END..OFF_DATA_END + 8] == b[OFF_DATA_END..OFF_DATA_END + 8];
    assert r[OFF_LIVE..OFF_LIVE + 8] == b[OFF_LIVE..OFF_LIVE + 8];
    assert r[OFF_TOTAL..OFF_TOTAL + 8] == b[OFF_TOTAL..OFF_TOTAL + 8];
  }

  /** The bytes an append leaves: the record in place, then the three counters. */
  function Appended(b: seq<byte>, rs: seq<Rec>, doc: seq<byte>): seq<byte>
    requires |b| >= HEADER_LEN && EndOf(rs) + 1 + |doc| <= |b|
  {
    Counted(Patch(b, EndOf(rs), RecBytes(Rec(true, doc))), rs + [Rec(true, doc)])
  }

  lemma {:induction false} EndOfAppended(rs: seq<Rec>, r: Rec)
    ensures EndOf(rs + [r]) == EndOf(rs) + 1 + |r.doc|
    ensures LiveIn(rs + [r]) == LiveIn(rs) + (if r.live then 1 else 0)
    ensures Layout(rs + [r]) == Layout(rs) + RecBytes(r)
  {
    LayoutConcat(rs, [r]);
    LayoutOne(r);
  }

  lemma RecordLies(b: seq<byte>, rs: seq<Rec>, r: Rec)
    requires |b| >= HEADER_LEN && Lies(b, rs) && TrueLength(r.doc) && EndOf(rs) + 1 + |r.doc| <= |b|
    ensures Lies(Patch(b, EndOf(rs), RecBytes(r)), rs + [r])
  {
    hide SignedLE, Layout, RecBytes;
    EndOfAppended(rs, r);
    var p, end := Patch(b, EndOf(rs), RecBytes(r)), EndOf(rs + [r]);
    Joined(p, HEADER_LEN, EndOf(rs), end);
    PatchKeeps(b, EndOf(rs), RecBytes(r), HEADER_LEN, EndOf(rs));
    assert p[EndOf(rs)..end] == RecBytes(r);
  }

  /** An append turns the file of `rs` into the file of `rs` and the new record. */
  lemma AppendedHolds(b: seq<byte>, rs: seq<Rec>, doc: seq<byte>)
    requires HEADER_LEN <= |b| <= MAX_MAPPING && Holds(b, rs) && TrueLength(doc) && EndOf(rs) + 1 + |doc| <= |b|
    ensures Holds(Appended(b, rs, doc), rs + [Rec(true, doc)])
    ensures ZeroFrom(b, EndOf(rs)) ==> ZeroFrom(Appended(b, rs, doc), EndOf(rs + [Rec(true, doc)]))
  {
    hide SignedLE, Layout, Counted, TrueLength;
    var r := Rec(true, doc);
    RecordLies(b, rs, r);
    CountedHolds(Patch(b, EndOf(rs), RecBytes(r)), rs + [r]);
    EndOfAppended(rs, r);
  }

  /** It is the last state of the ordered writes that AppendCrashSafe stops at any point. */
  lemma {:induction false} AppendedIsAllWrites(b: seq<byte>, rs: seq<Rec>, doc: seq<byte>)
    requires |b| >= HEADER_LEN && Holds(b, rs) && EndOf(rs) + 1 + |doc| <= |b|
    ensures Apply(b, AppendWrites(b, doc)) == Appended(b, rs, doc)
  {
    hide ToLE, FromLE, SignedLE, Layout, Store, Patch, Apply;
    var r := Rec(true, doc);
    EndOfAppended(rs, r);
    var w0, w1 := Store(EndOf(rs), [RECORD_LIVE] + doc), Store(OFF_DATA_END, ToLE(EndOf(rs) + 1 + |doc|, 8));
    var w2, w3 := Store(OFF_LIVE, ToLE(LiveIn(rs) + 1, 8)), Store(OFF_TOTAL, ToLE(|rs| + 1, 8));
    assert AppendWrites(b, doc) == w0 + w1 + w2 + w3;
    ApplyConcat(b, w0 + w1 + w2, w3);
    ApplyConcat(b, w0 + w1, w2);
    ApplyConcat(b, w0, w1);
    var p0 := Patch(b, EndOf(rs), RecBytes(r));
    ApplyStore(b, EndOf(rs), [RECORD_LIVE] + doc);
    ApplyStore(p0, OFF_DATA_END, ToLE(EndOf(rs) + 1 + |doc|, 8));
    var p1 := Patch(p0, OFF_DATA_END, ToLE(EndOf(rs) + 1 + |doc|, 8));
    ApplyStore(p1, OFF_LIVE, ToLE(LiveIn(rs) + 1, 8));
    var p2 := Patch(p1, OFF_LIVE, ToLE(LiveIn(rs) + 1, 8));
    ApplyStore(p2, OFF_TOTAL, ToLE(|rs| + 1, 8));
  }

  lemma NotHeld(b: seq<byte>, rs: seq<Rec>, r: Rec)
    requires |b| >= HEADER_LEN && !TrueLength(r.doc)
    ensures !Holds(b, rs + [r])
  {
    hide TrueLength, Layout;
    assert (rs + [r])[|rs|] == r;
  }

  lemma EmptyEnds()
    ensures EndOf([]) == HEADER_LEN && LiveIn([]) == 0
  {
  }

  lemma EmptyLies(b: seq<byte>)
    requires |b| >= HEADER_LEN
    ensures Lies(b, [])
  {
  }

  lemma ResizedSame(b: seq<byte>)
    ensures Resized(b, |b|) == b
  {
  }

  lemma {:induction false} DoubledStep(cap: nat, needed: nat)
    requires cap > 0
    ensures cap < needed ==> Doubled(cap, needed) == Doubled(cap * 2, needed)
    ensures cap >= needed ==> Doubled(cap, needed) == cap
  {
  }

  /** The header fields an append updates are not touched by its record. */
  lemma RecordKeepsCounters(b: seq<byte>, at: nat, bytes: seq<byte>)
    requires HEADER_LEN <= at && at + |bytes| <= |b|
    ensures var p := Patch(b, at, bytes); LiveCount(p) == LiveCount(b) && TotalCount(p) == TotalCount(b)
  {
    PatchKeeps(b, at, bytes, OFF_LIVE, OFF_LIVE + 8);
    PatchKeeps(b, at, bytes, OFF_TOTAL, OFF_TOTAL + 8);
  }

  lemma FieldKeepsOthers(b: seq<byte>, at: nat, other: nat, bytes: seq<byte>)
    requires at + |bytes| <= |b| && other + 8 <= |b| && (other + 8 <= at || at + |bytes| <= other)
    ensures Field64(Patch(b, at, bytes), other) == Field64(b, other)
  {
    PatchKeeps(b, at, bytes, other, other + 8);
  }

  /** The flags are no part of what the file stands for. */
  lemma FlagKeepsHolds(b: seq<byte>, rs: seq<Rec>, flags: byte)
    requires |b| >= HEADER_LEN && Holds(b, rs)
    ensures Holds(Patch(b, OFF_FLAGS, [flags]), rs)
  {
    hide FromLE, SignedLE, Layout;
    FieldKeepsOthers(b, OFF_FLAGS, OFF_DATA_END, [flags]);
    FieldKeepsOthers(b, OFF_FLAGS, OFF_LIVE, [flags]);
    FieldKeepsOthers(b, OFF_FLAGS, OFF_TOTAL, [flags]);
    PatchKeeps(b, OFF_FLAGS, [flags], HEADER_LEN, EndOf(rs));
  }

  /** The header of a new file up to the counters: magic, version, flags, header length. */
  function Front(): (s: seq<byte>)
    ensures |s| == 12
  {
    MAGIC + [VERSION, 0] + [1, 0] + [HEADER_LEN, 0, 0, 0]
  }

  lemma FrontKeepsHolds(b: seq<byte>, rs: seq<Rec>)
    requires |b| >= HEADER_LEN && Holds(b, rs)
    ensures var c := Patch(b, 0, Front());
            && Holds(c, rs) && HasHeader(c) && Dirty(c) && forall i | HEADER_LEN <= i < |b| :: c[i] == b[i]
  {
    hide FromLE, SignedLE, Layout, TrueLength;
    FieldKeepsOthers(b, 0, OFF_DATA_END, Front());
    FieldKeepsOthers(b, 0, OFF_LIVE, Front());
    FieldKeepsOthers(b, 0, OFF_TOTAL, Front());
    PatchKeeps(b, 0, Front(), HEADER_LEN, EndOf(rs));
    assert Patch(b, 0, Front())[..4] == MAGIC;
  }

  /** One turn of the recovery loop. */
  lemma {:induction false} RecoverStep(b: seq<byte>, pos: nat, done: seq<Rec>)
    requires Recoverable(b, pos)
    ensures var r := RecoverAt(b, pos); var next := pos + 1 + |r.doc|;
            && (pos == EndOf(done) ==> next == EndOf(done + [r]))
            && LiveIn(done + [r]) == LiveIn(done) + (if b[pos] == RECORD_LIVE then 1 else 0)
            && done + Recover(b, pos) == (done + [r]) + Recover(b, next)
  {
    hide *;
    var r := RecoverAt(b, pos);
    EndOfAppended(done, r);
    RecoveredStatus(b, pos);
    RecoverUnfold(b, pos);
    Assoc(done, [r], Recover(b, pos + 1 + |r.doc|));
  }

  lemma RecoveredStatus(b: seq<byte>, pos: nat)
    requires Recoverable(b, pos)
    ensures RecoverAt(b, pos).live <==> b[pos] == RECORD_LIVE
  {
    hide SignedLE, ValidateSpec;
  }

  lemma {:induction false} PastTheEnd(b: seq<byte>, pos: nat)
    requires pos >= |b| || !Recoverable(b, pos)
    ensures Recover(b, pos) == []
  {
  }

  lemma {:induction false} RecoveredLies(b: seq<byte>)
    requires HEADER_LEN <= |b|
    ensures Lies(b, Recover(b, HEADER_LEN))
  {
    hide Recover, Layout, TrueLength, ValidateSpec;
    RecoverLies(b, HEADER_LEN);
  }

  /** What a tombstone leaves: the status byte, then the live counter as it reads after that store. */
  function BuriedBytes(b: seq<byte>, off: nat): (r: seq<byte>)
    requires off < |b| && HEADER_LEN <= |b|
    ensures |r| == |b|
  {
    var c := b[off := RECORD_TOMBSTONE];
    if LiveCount(c) > 0 then Patch(c, OFF_LIVE, ToLE(LiveCount(c) - 1, 8)) else c
  }

  /** The status byte alone changes no header field. */
  lemma StatusKeepsHeader(b: seq<byte>, off: nat)
    requires HEADER_LEN <= off < |b|
    ensures var c := b[off := RECORD_TOMBSTONE];
            DataEnd(c) == DataEnd(b) && LiveCount(c) == LiveCount(b) && TotalCount(c) == TotalCount(b)
  {
    var c := b[off := RECORD_TOMBSTONE];
    assert c[OFF_DATA_END..OFF_DATA_END + 8] == b[OFF_DATA_END..OFF_DATA_END + 8];
    assert c[OFF_LIVE..OFF_LIVE + 8] == b[OFF_LIVE..OFF_LIVE + 8];
    assert c[OFF_TOTAL..OFF_TOTAL + 8] == b[OFF_TOTAL..OFF_TOTAL + 8];
  }

  /** Tombstoning a live record gives the file of the list with that record dead. */
  lemma BuriedHolds(b: seq<byte>, rs: seq<Rec>, i: nat)
    requires HEADER_LEN <= |b| <= MAX_MAPPING && Holds(b, rs) && i < |rs| && rs[i].live
    ensures HEADER_LEN <= EndOf(rs[..i]) < |b| && LiveCount(b) > 0
    ensures Holds(BuriedBytes(b, EndOf(rs[..i])), Tombstoned(rs, i))
  {
    hide SignedLE, Layout, LiveIn, ToLE, FromLE, Patch, Field64, TrueLength;
    var off := EndOf(rs[..i]);
    StatusByte(b, rs, i);
    StatusKeepsHeader(b, off);
    var c := b[off := RECORD_TOMBSTONE];
    var live := ToLE(LiveIn(rs) - 1, 8);
    FieldInRange(b, OFF_LIVE);
    PatchReads(c, OFF_LIVE, LiveIn(rs) - 1);
    FieldKeepsOthers(c, OFF_LIVE, OFF_DATA_END, live);
    FieldKeepsOthers(c, OFF_LIVE, OFF_TOTAL, live);
    PatchKeeps(c, OFF_LIVE, live, HEADER_LEN, EndOf(rs));
  }

  lemma FieldInRange(b: seq<byte>, at: nat)
    requires at + 8 <= |b|
    ensures Field64(b, at) < Pow256(8)
  {
  }

  /** It is the last state of the ordered writes that TombstoneCrashSafe stops at any point. */
  lemma {:induction false} BuriedIsAllWrites(b: seq<byte>, off: nat)
    requires HEADER_LEN <= off < |b|
    ensures Apply(b, TombstoneWrites(b, off)) == BuriedBytes(b, off)
  {
    hide ToLE, Field64, Apply, Patch, Store;
    var c := b[off := RECORD_TOMBSTONE];
    StatusKeepsHeader(b, off);
    ApplyStore(b, off, [RECORD_TOMBSTONE]);
    PatchOne(b, off, RECORD_TOMBSTONE);
    if LiveCount(b) > 0 {
      var live := ToLE(LiveCount(b) - 1, 8);
      ApplyConcat(b, Store(off, [RECORD_TOMBSTONE]), Store(OFF_LIVE, live));
      ApplyStore(c, OFF_LIVE, live);
    } else {
      assert Store(off, [RECORD_TOMBSTONE]) + [] == Store(off, [RECORD_TOMBSTONE]);
    }
  }

  lemma PatchOne(b: seq<byte>, at: nat, x: byte)
    requires at < |b|
    ensures Patch(b, at, [x]) == b[at := x]
  {
  }

  lemma BuriedKeepsZeros(b: seq<byte>, off: nat, end: nat)
    requires HEADER_LEN <= off < |b| && off < end && ZeroFrom(b, end)
    ensures ZeroFrom(BuriedBytes(b, off), end)
  {
    hide ToLE, Field64;
  }

  lemma DataEndIsEnd(b: seq<byte>, rs: seq<Rec>)
    requires |b| >= HEADER_LEN && Holds(b, rs)
    ensures HEADER_LEN <= EndOf(rs) == DataEnd(b) <= |b| && Lies(b, rs)
  {
    hide FromLE, Layout;
  }

  lemma BuriedKeeps(b: seq<byte>, rs: seq<Rec>, i: nat)
    requires HEADER_LEN <= |b| <= MAX_MAPPING && Holds(b, rs) && i < |rs|
    ensures HEADER_LEN <= EndOf(rs[..i]) < EndOf(rs) == EndOf(Tombstoned(rs, i))
    ensures rs[i].live ==> Holds(BuriedBytes(b, EndOf(rs[..i])), Tombstoned(rs, i))
    ensures ZeroFrom(b, EndOf(rs)) ==> ZeroFrom(BuriedBytes(b, EndOf(rs[..i])), EndOf(rs))
  {
    hide FromLE, Layout, SignedLE, LiveIn, BuriedBytes, Holds, ZeroFrom, TrueLength;
    DataEndIsEnd(b, rs);
    EndOfGrows(rs, i, |rs|);
    StatusByte(b, rs, i);
    if rs[i].live {
      BuriedHolds(b, rs, i);
    }
    if ZeroFrom(b, EndOf(rs)) {
      BuriedKeepsZeros(b, EndOf(rs[..i]), EndOf(rs));
    }
  }

  /** A record that is dead already is not changed. */
  lemma AlreadyDead(rs: seq<Rec>, i: nat)
    requires i < |rs| && !rs[i].live
    ensures Tombstoned(rs, i) == rs
  {
  }

  // ---------------------------------------------------------------- scanning

  datatype Scan = LiveAt(off: nat, len: nat) | EndOfData | Broken(status: Status)

  /** bson_scanner_next on any bytes. */
  function ScanNext(b: seq<byte>, end: nat, pos: nat): (s: Scan)
    requires end <= |b|
    ensures s.LiveAt? ==> pos <= s.off && s.off + 1 + s.len <= end && s.len >= DOC_MIN_LEN
    decreases end - pos
  {
    if pos >= end then EndOfData
    else if end - (pos + 1) < 4 then Broken(InvalidLength)
    else
      var len := SignedLE(b[pos + 1..pos + 5]);
      if len < DOC_MIN_LEN then Broken(InvalidLength)
      else if pos + 1 + len > end then Broken(TruncatedBuffer)
      else if b[pos] == RECORD_LIVE then LiveAt(pos, len)
      else ScanNext(b, end, pos + 1 + len)
  }

  /** The first live record from `i` on, or the number of records. */
  function NextLive(rs: seq<Rec>, i: nat): (j: nat)
    requires i <= |rs|
    ensures i <= j <= |rs|
    ensures forall k | i <= k < j :: !rs[k].live
    ensures j < |rs| ==> rs[j].live
    decreases |rs| - i
  {
    if i == |rs| || rs[i].live then i else NextLive(rs, i + 1)
  }

  /** On a well-formed file the scanner steps from record to record and reports no error. */
  lemma {:induction false} ScanIsNextLive(b: seq<byte>, rs: seq<Rec>, i: nat)
    requires Lies(b, rs) && i <= |rs|
    ensures var j := NextLive(rs, i);
            ScanNext(b, EndOf(rs), EndOf(rs[..i])) ==
            if j < |rs| then LiveAt(EndOf(rs[..j]), |rs[j].doc|) else EndOfData
    decreases |rs| - i
  {
    hide SignedLE, Layout;
    if i == |rs| {
      assert rs[..i] == rs;
    } else {
      RecAt(b, rs, i);
      if !rs[i].live {
        ScanIsNextLive(b, rs, i + 1);
      }
    }
  }

  /** The offsets of the live records from `i` on are the next one's, then those after it. */
  lemma {:induction false} LiveOffsetsStep(rs: seq<Rec>, i: nat)
    requires i <= |rs|
    ensures var j := NextLive(rs, i);
            LiveOffsets(rs[i..], EndOf(rs[..i])) ==
            if j < |rs| then [EndOf(rs[..j])] + LiveOffsets(rs[j + 1..], EndOf(rs[..j + 1])) else []
    decreases |rs| - i
  {
    hide EndOf, LiveOffsets;
    if i == |rs| {
      assert rs[i..] == [];
      NoOffsets(EndOf(rs[..i]));
    } else {
      OffsetsFrom(rs, i);
      if !rs[i].live {
        LiveOffsetsStep(rs, i + 1);
      }
    }
  }

  lemma NoOffsets(from: nat)
    ensures LiveOffsets([], from) == []
  {
  }

  /** Record `i` contributes its offset if it is live. */
  lemma OffsetsFrom(rs: seq<Rec>, i: nat)
    requires i < |rs|
    ensures var rest := LiveOffsets(rs[i + 1..], EndOf(rs[..i + 1]));
            LiveOffsets(rs[i..], EndOf(rs[..i])) == if rs[i].live then [EndOf(rs[..i])] + rest else rest
  {
    hide Layout, RecBytes, EndOf, LiveOffsets;
    var s := rs[i..];
    assert s[0] == rs[i];
    assert s[1..] == rs[i + 1..];
    assert rs[..i + 1] == rs[..i] + [rs[i]];
    EndOfAppended(rs[..i], rs[i]);
    FirstOffset(s, EndOf(rs[..i]));
  }

  lemma FirstOffset(rs: seq<Rec>, from: nat)
    requires rs != []
    ensures var rest := LiveOffsets(rs[1..], from + 1 + |rs[0].doc|);
            LiveOffsets(rs, from) == if rs[0].live then [from] + rest else rest
  {
    assert [] + LiveOffsets(rs[1..], from + 1 + |rs[0].doc|) == LiveOffsets(rs[1..], from + 1 + |rs[0].doc|);
  }

  /** bson_scanner_t: a cursor over a mapping, up to a snapshot of its end of data. */
  class Scanner {
    const base: array<byte>
    const dataEnd: nat
    var pos: nat

    /** bson_scanner_open. */
    constructor (base: array<byte>, dataEnd: nat)
      ensures this.base == base && this.dataEnd == dataEnd && pos == HEADER_LEN
    {
      this.base, this.dataEnd, pos := base, dataEnd, HEADER_LEN;
    }

    /** bson_scanner_next.  (Its test for a status byte past the end can never hold.) */
    method Next() returns (s: Scan)
      requires dataEnd <= base.Length
      modifies this
      ensures s == ScanNext(base[..], dataEnd, old(pos))
      ensures s.LiveAt? ==> pos == s.off + 1 + s.len
      ensures s.EndOfData? ==> pos >= dataEnd
    {
      hide SignedLE;
      ghost var b := base[..];
      while pos < dataEnd
        invariant base[..] == b && ScanNext(b, dataEnd, pos) == ScanNext(b, dataEnd, old(pos))
      {
        var off := pos;
        if dataEnd - (off + 1) < 4 {
          return Broken(InvalidLength);
        }
        assert b[off + 1..off + 5] == base[off + 1..off + 5];
        var len := SignedLE(base[off + 1..off + 5]);
        if len < DOC_MIN_LEN {
          return Broken(InvalidLength);
        }
        if off + 1 + len > dataEnd {
          return Broken(TruncatedBuffer);
        }
        pos := off + 1 + len;
        if base[off] == RECORD_LIVE {
          return LiveAt(off, len);
        }
      }
      s := EndOfData;
    }
  }

  // ---------------------------------------------------------------- the file

  /** What a read returns: the status byte and where the document lies. */
  datatype Located = Located(status: byte, docOff: nat, docLen: nat)

  /** What opening an existing file insists on. */
  predicate HasHeader(b: seq<byte>) {
    && |b| >= HEADER_LEN && b[..4] == MAGIC
    && b[OFF_VERSION] as int + 256 * b[OFF_VERSION + 1] as int == VERSION
  }

  /** The flag that is set while the file is open for writing. */
  predicate Dirty(b: seq<byte>) {
    |b| >= HEADER_LEN && b[OFF_FLAGS] % 2 == 1
  }

  class DataFile {
    var mem: array<byte>
    ghost var recs: seq<Rec>

    ghost predicate Valid()
      reads this, mem
    {
      HEADER_LEN <= mem.Length <= MAX_MAPPING && Holds(mem[..], recs)
    }

    /** The record that starts at `off`. */
    ghost predicate IsRecord(off: nat, i: nat)
      reads this
    {
      i < |recs| && off == EndOf(recs[..i])
    }

    method ReadU64(at: nat) returns (v: nat)
      requires at + 8 <= mem.Length
      ensures v == Field64(mem[..], at)
    {
      v := FromLE(mem[at..at + 8]);
      assert mem[..][at..at + 8] == mem[at..at + 8];
    }

    /** memcpy into the mapping. */
    method Write(at: nat, bytes: seq<byte>)
      requires at + |bytes| <= mem.Length
      modifies mem
      ensures mem[..] == Patch(old(mem[..]), at, bytes)
    {
      var i := 0;
      while i < |bytes|
        invariant i <= |bytes|
        invariant forall k | 0 <= k < mem.Length :: mem[k] == if at <= k < at + i then bytes[k - at] else old(mem[k])
      {
        mem[at + i] := bytes[i];
        i := i + 1;
      }
    }

    method WriteU64(at: nat, v: nat)
      requires at + 8 <= mem.Length
      modifies mem
      ensures mem[..] == Patch(old(mem[..]), at, ToLE(v, 8))
    {
      Write(at, ToLE(v, 8));
    }

    /** bson_mmap_resize to a larger size: a new mapping, zero-filled at the end, or a failure. */
    method Resize(size: nat) returns (ok: bool)
      requires mem.Length <= size
      modifies `mem
      ensures ok <==> size <= MAX_MAPPING
      ensures if ok then fresh(mem) && mem[..] == Resized(old(mem[..]), size) else mem == old(mem)
    {
      if size > MAX_MAPPING {
        return false;
      }
      var was := mem;
      var next: array<byte> := new byte[size](_ => 0);
      var i := 0;
      while i < was.Length
        invariant i <= was.Length && mem == was && mem[..] == old(mem[..])
        invariant forall k | 0 <= k < size :: next[k] == if k < i then was[k] else 0
      {
        next[i] := was[i];
        i := i + 1;
      }
      mem := next;
      ok := true;
    }

    /** The empty-file branch of bson_storage_open_header. */
    constructor ()
      ensures Valid() && recs == [] && fresh(mem) && mem.Length == INITIAL_CAPACITY
      ensures HasHeader(mem[..]) && Dirty(mem[..])
      ensures ZeroFrom(mem[..], HEADER_LEN)
    {
      mem := new byte[INITIAL_CAPACITY](_ => 0);
      recs := [];
      new;
      hide Layout, ToLE, FromLE, SignedLE, Patch, Counted, LiveIn, Holds, EndOf, HasHeader, Dirty, Front;
      EmptyEnds();
      EmptyLies(mem[..]);
      ghost var b := mem[..];
      WriteCounters(HEADER_LEN, 0, 0, []);
      CountedHolds(b, []);
      Write(0, Front());
      FrontKeepsHolds(Counted(b, []), []);
    }

    /** The existing-file branch of bson_storage_open_header; recovery needs write access. */
    method OpenExisting(readWrite: bool) returns (r: Reply<()>)
      requires mem.Length <= MAX_MAPPING
      modifies this`recs, mem
      ensures r == if HasHeader(old(mem[..])) then Success(()) else Failure(InvalidFileHeader)
      ensures r.Failure? || !readWrite ==> mem[..] == old(mem[..]) && recs == old(recs)
      ensures r.Success? && readWrite && Dirty(old(mem[..])) ==> Valid() && recs == Recover(old(mem[..]), HEADER_LEN)
      ensures r.Success? && readWrite && !Dirty(old(mem[..])) && old(Valid()) ==> Valid() && recs == old(recs)
      ensures r.Success? && readWrite ==> Dirty(mem[..])
    {
      hide Holds, Recover, Counted;
      if mem.Length < HEADER_LEN {
        return Failure(InvalidFileHeader);
      }
      assert mem[..][..4] == mem[..4];
      if mem[..4] != MAGIC {
        return Failure(InvalidFileHeader);
      }
      if mem[OFF_VERSION] as int + 256 * mem[OFF_VERSION + 1] as int != VERSION {
        return Failure(InvalidFileHeader);
      }
      if !readWrite {
        return Success(());
      }
      var flags := mem[OFF_FLAGS];
      if flags % 2 == 1 {
        RecoverRecords();
      }
      ghost var b := mem[..];
      var now := mem[OFF_FLAGS];
      Write(OFF_FLAGS, [if now % 2 == 1 then now else now + 1]);
      if Holds(b, recs) {
        FlagKeepsHolds(b, recs, if now % 2 == 1 then now else now + 1);
      }
      r := Success(());
    }

    /** bson_storage_mark_clean. */
    method MarkClean()
      requires Valid()
      modifies mem
      ensures Valid() && !Dirty(mem[..])
      ensures forall i | 0 <= i < mem.Length && i != OFF_FLAGS :: mem[i] == old(mem[i])
    {
      hide Holds;
      var flags := mem[OFF_FLAGS];
      ghost var b := mem[..];
      Write(OFF_FLAGS, [if flags % 2 == 1 then flags - 1 else flags]);
      FlagKeepsHolds(b, recs, if flags % 2 == 1 then flags - 1 else flags);
      forall i | 0 <= i < mem.Length && i != OFF_FLAGS ensures mem[i] == old(mem[i]) {
        assert mem[..][i] == b[i];
      }
    }

    /** The tests of the recovery loop at `pos`: the length of the valid record there, if there is one. */
    method ProbeRecord(pos: nat) returns (found: bool, docLen: nat)
      requires pos < mem.Length
      ensures found <==> Recoverable(mem[..], pos)
      ensures found ==> docLen == |RecoverAt(mem[..], pos).doc|
    {
      hide SignedLE, ValidateSpec;
      ghost var b := mem[..];
      var status := mem[pos];
      if status != RECORD_LIVE && status != RECORD_TOMBSTONE {
        return false, 0;
      }
      if pos + 1 + DOC_MIN_LEN > mem.Length {
        return false, 0;
      }
      assert b[pos + 1..pos + 5] == mem[pos + 1..pos + 5];
      var len := SignedLE(mem[pos + 1..pos + 5]);
      if len < DOC_MIN_LEN || len > MAX_DOCUMENT_SIZE || pos + 1 + len > mem.Length {
        return false, 0;
      }
      assert b[pos + 1..pos + 1 + len] == mem[pos + 1..pos + 1 + len];
      var valid := Validator.ValidateDocument(mem[pos + 1..pos + 1 + len]);
      return valid.Ok?, len;
    }

    /** bson_storage_recover: keep the leading valid records and count them. */
    method RecoverRecords()
      requires HEADER_LEN <= mem.Length <= MAX_MAPPING
      modifies this`recs, mem
      ensures recs == Recover(old(mem[..]), HEADER_LEN) && mem[..] == Counted(old(mem[..]), recs)
      ensures Valid()
    {
      hide SignedLE, Layout, RecBytes, LiveIn, Recoverable, Lies, EndOf, RecoverAt, Holds, Recover, Counted;
      ghost var b := mem[..];
      var pos, live, total := HEADER_LEN, 0, 0;
      ghost var done := [];
      EmptyEnds();
      assert [] + Recover(b, HEADER_LEN) == Recover(b, HEADER_LEN);
      while pos < mem.Length
        invariant mem[..] == b && pos == EndOf(done) && live == LiveIn(done) && total == |done|
        invariant done + Recover(b, pos) == Recover(b, HEADER_LEN)
        decreases mem.Length - pos
      {
        var found, docLen := ProbeRecord(pos);
        if !found {
          break;
        }
        ghost var r := RecoverAt(b, pos);
        RecoverStep(b, pos, done);
        done := done + [r];
        total := total + 1;
        if mem[pos] == RECORD_LIVE {
          live := live + 1;
        }
        pos := pos + 1 + docLen;
      }
      PastTheEnd(b, pos);
      assert done + [] == done;
      RecoverLies(b, HEADER_LEN);
      RecoveredLies(b);
      CountedHolds(b, done);
      WriteCounters(pos, live, total, done);
      recs := done;
    }

    method WriteCounters(dataEnd: nat, live: nat, total: nat, ghost rs: seq<Rec>)
      requires HEADER_LEN <= mem.Length && dataEnd == EndOf(rs) && live == LiveIn(rs) && total == |rs|
      modifies mem
      ensures mem[..] == Counted(old(mem[..]), rs)
    {
      hide EndOf, LiveIn, ToLE, Patch;
      WriteU64(OFF_DATA_END, dataEnd);
      WriteU64(OFF_LIVE, live);
      WriteU64(OFF_TOTAL, total);
    }

    /** The growth step of bson_storage_append: double until it fits, then round up to a page. */
    method EnsureRoom(needed: nat) returns (ok: bool)
      requires 0 < mem.Length
      modifies `mem
      ensures ok <==> Capacity(old(mem.Length), needed) <= MAX_MAPPING || needed <= old(mem.Length)
      ensures if ok then mem[..] == Resized(old(mem[..]), Capacity(old(mem.Length), needed)) else mem == old(mem)
      ensures mem == old(mem) || fresh(mem)
    {
      hide Doubled, Resized;
      var cap := mem.Length;
      ResizedSame(mem[..]);
      if needed <= cap {
        return true;
      }
      var newCap := cap;
      while newCap < needed
        invariant 0 < newCap && Doubled(newCap, needed) == Doubled(cap, needed) && mem == old(mem)
        decreases needed - newCap
      {
        DoubledStep(newCap, needed);
        newCap := newCap * 2;
      }
      DoubledStep(newCap, needed);
      newCap := (newCap + FILE_PAGE - 1) / FILE_PAGE * FILE_PAGE;
      ok := Resize(newCap);
    }

    /** The stores of bson_storage_append once there is room. */
    method StoreRecord(doc: seq<byte>) returns (off: nat)
      requires Valid() && EndOf(recs) + 1 + |doc| <= mem.Length
      modifies mem
      ensures off == EndOf(recs) && mem[..] == Appended(old(mem[..]), recs, doc)
    {
      hide SignedLE, Layout, LiveIn, ToLE, FromLE, Patch, Lies, TrueLength;
      ghost var b := mem[..];
      EndOfAppended(recs, Rec(true, doc));
      var dataEnd := ReadU64(OFF_DATA_END);
      Write(dataEnd, [RECORD_LIVE] + doc);
      ghost var p := mem[..];
      RecordKeepsCounters(b, dataEnd, [RECORD_LIVE] + doc);
      WriteU64(OFF_DATA_END, dataEnd + 1 + |doc|);
      FieldKeepsOthers(p, OFF_DATA_END, OFF_LIVE, ToLE(dataEnd + 1 + |doc|, 8));
      FieldKeepsOthers(p, OFF_DATA_END, OFF_TOTAL, ToLE(dataEnd + 1 + |doc|, 8));
      var live := ReadU64(OFF_LIVE);
      p := mem[..];
      WriteU64(OFF_LIVE, live + 1);
      FieldKeepsOthers(p, OFF_LIVE, OFF_TOTAL, ToLE(live + 1, 8));
      var total := ReadU64(OFF_TOTAL);
      WriteU64(OFF_TOTAL, total + 1);
      off := dataEnd;
    }

    /** bson_storage_append; the record can be read back exactly when its length prefix is its length. */
    method Append(doc: seq<byte>) returns (r: Reply<nat>)
      requires Valid()
      modifies this, mem
      ensures mem == old(mem) || fresh(mem)
      ensures r.Failure? <==> NoRoomFor(old(mem.Length), EndOf(old(recs)), |doc|)
      ensures r.Failure? ==> mem.Length == old(mem.Length)
      ensures var size := Capacity(old(mem.Length), EndOf(old(recs)) + 1 + |doc|);
              if size > MAX_MAPPING then
                r == Failure(ResizeFailed) && recs == old(recs) && mem[..] == old(mem[..])
              else
                && r == Success(EndOf(old(recs))) && recs == old(recs) + [Rec(true, doc)]
                && mem[..] == Apply(Resized(old(mem[..]), size), AppendWrites(Resized(old(mem[..]), size), doc))
      ensures Valid() <==> r.Failure? || TrueLength(doc)
      ensures old(ZeroFrom(mem[..], EndOf(recs))) && Valid() ==> ZeroFrom(mem[..], EndOf(recs))
    {
      hide SignedLE, Layout, LiveIn, Apply, AppendWrites, TrueLength, Doubled, Resized, Appended, Lies, ZeroFrom;
      var dataEnd := ReadU64(OFF_DATA_END);
      var ok := EnsureRoom(dataEnd + 1 + |doc|);
      if !ok {
        return Failure(ResizeFailed);
      }
      ghost var b := mem[..];
      ResizedHolds(old(mem[..]), recs, |b|);
      AppendedIsAllWrites(b, recs, doc);
      var off := StoreRecord(doc);
      if TrueLength(doc) {
        AppendedHolds(b, recs, doc);
      } else {
        NotHeld(mem[..], recs, Rec(true, doc));
      }
      recs := recs + [Rec(true, doc)];
      r := Success(off);
    }

    /** bson_storage_tombstone: any offset whose byte is a record status will do. */
    method Tombstone(off: nat, ghost i: nat) returns (r: Reply<()>)
      requires Valid()
      modifies `recs, mem
      ensures r == if off < EndOf(old(recs)) && old(mem[off]) in {RECORD_LIVE, RECORD_TOMBSTONE} then Success(())
                   else Failure(RecordNotFound)
      ensures mem[..] ==
              if off < EndOf(old(recs)) && old(mem[off]) == RECORD_LIVE then BuriedBytes(old(mem[..]), off)
              else old(mem[..])
      ensures r.Failure? ==> mem[..] == old(mem[..]) && recs == old(recs)
      ensures old(IsRecord(off, i)) ==> r == Success(()) && Valid() && recs == Tombstoned(old(recs), i)
      ensures old(ZeroFrom(mem[..], EndOf(recs))) && old(IsRecord(off, i)) ==> ZeroFrom(mem[..], EndOf(recs))
    {
      hide SignedLE, Layout, LiveIn, ToLE, FromLE, Apply, TombstoneWrites, ZeroFrom, EndOf, Holds, Patch;
      ghost var b, rs := mem[..], recs;
      DataEndIsEnd(b, rs);
      if IsRecord(off, i) {
        RecAt(b, rs, i);
        BuriedKeeps(b, rs, i);
      }
      var dataEnd := ReadU64(OFF_DATA_END);
      if off >= dataEnd {
        return Failure(RecordNotFound);
      }
      var status := mem[off];
      if status == RECORD_TOMBSTONE {
        if IsRecord(off, i) {
          AlreadyDead(rs, i);
        }
        return Success(());
      }
      if status != RECORD_LIVE {
        return Failure(RecordNotFound);
      }
      mem[off] := RECORD_TOMBSTONE;
      assert mem[..] == b[off := RECORD_TOMBSTONE];
      var live := ReadU64(OFF_LIVE);
      if live > 0 {
        WriteU64(OFF_LIVE, live - 1);
      }
      recs := if IsRecord(off, i) then Tombstoned(recs, i) else recs;
      r := Success(());
    }

    /** bson_storage_read: what the bytes at the offset say; at a record offset, the record's status and document. */
    method Read(off: nat, ghost i: nat) returns (r: Reply<Located>)
      requires Valid()
      ensures r == if off + 5 <= EndOf(recs) <= mem.Length && SignedLE(mem[off + 1..off + 5]) >= DOC_MIN_LEN then
                     Success(Located(mem[off], off + 1, SignedLE(mem[off + 1..off + 5])))
                   else Failure(RecordNotFound)
      ensures IsRecord(off, i) ==>
                && r == Success(Located(if recs[i].live then RECORD_LIVE else RECORD_TOMBSTONE, off + 1, |recs[i].doc|))
                && off + 1 + |recs[i].doc| <= mem.Length && mem[off + 1..off + 1 + |recs[i].doc|] == recs[i].doc
    {
      hide SignedLE, Layout, LiveIn, FromLE;
      if IsRecord(off, i) {
        RecAt(mem[..], recs, i);
        assert mem[..][off + 1..off + 5] == mem[off + 1..off + 5];
        assert mem[..][off + 1..off + 1 + |recs[i].doc|] == mem[off + 1..off + 1 + |recs[i].doc|];
      }
      var dataEnd := ReadU64(OFF_DATA_END);
      if off >= dataEnd {
        return Failure(RecordNotFound);
      }
      if dataEnd - (off + 1) < 4 {
        return Failure(RecordNotFound);
      }
      var docLen := SignedLE(mem[off + 1..off + 5]);
      if docLen < DOC_MIN_LEN {
        return Failure(RecordNotFound);
      }
      r := Success(Located(mem[off], off + 1, docLen));
    }

    /** CollectionHandle.read_record: the document bytes of a live record. */
    method ReadRecord(off: nat, ghost i: nat) returns (r: Reply<Option<seq<byte>>>)
      requires Valid() && IsRecord(off, i)
      ensures r == Success(if recs[i].live then Some(recs[i].doc) else None)
    {
      var at := Read(off, i);
      if at.value.status != RECORD_LIVE {
        return Success(None);
      }
      r := Success(Some(mem[at.value.docOff..at.value.docOff + at.value.docLen]));
    }

    /**
      * CollectionHandle.next_live_offset: a fresh scanner, set just past `prev` unless `prev`
      * is -1, and one step of it.
      */
    method NextLiveOffset(prev: int, ghost i: nat) returns (r: Reply<Option<nat>>)
      requires Valid() && prev >= -1
      requires if prev == -1 then i == 0 else i > 0 && IsRecord(prev, i - 1)
      ensures var j := NextLive(recs, i); r == Success(if j < |recs| then Some(EndOf(recs[..j])) else None)
    {
      hide SignedLE, Layout, LiveIn, FromLE, Lies, Holds, EndOf;
      DataEndIsEnd(mem[..], recs);
      var dataEnd := ReadU64(OFF_DATA_END);
      var scanner := new Scanner(mem, dataEnd);
      EmptyEnds();
      if prev >= 0 {
        var at := Read(prev, i - 1);
        scanner.pos := at.value.docOff + at.value.docLen;
        RecAt(mem[..], recs, i - 1);
      }
      ScanIsNextLive(mem[..], recs, i);
      var next := scanner.Next();
      match next
      case LiveAt(off, _) => r := Success(Some(off));
      case EndOfData => r := Success(None);
      case Broken(status) => r := Failure(Malformed(status));
    }

    /** The loop every full scan runs: it meets exactly the live records, in offset order. */
    method LiveScan() returns (offs: seq<nat>)
      requires Valid()
      ensures offs == LiveOffsets(recs, HEADER_LEN)
    {
      hide Layout, LiveIn, Lies, Holds, EndOf, LiveOffsets;
      var prev: int := -1;
      ghost var i := 0;
      offs := [];
      EmptyEnds();
      assert recs[0..] == recs && EndOf(recs[..0]) == HEADER_LEN;
      while true
        invariant prev >= -1 && i <= |recs|
        invariant if prev == -1 then i == 0 else i > 0 && IsRecord(prev, i - 1)
        invariant offs + LiveOffsets(recs[i..], EndOf(recs[..i])) == LiveOffsets(recs, HEADER_LEN)
        decreases |recs| - i
      {
        var off := NextLiveOffset(prev, i);
        LiveOffsetsStep(recs, i);
        if off.value.None? {
          return;
        }
        ghost var j := NextLive(recs, i);
        Assoc(offs, [off.value.value], LiveOffsets(recs[j + 1..], EndOf(recs[..j + 1])));
        prev := off.value.value;
        offs := offs + [prev];
        i := j + 1;
      }
    }
  }
}
