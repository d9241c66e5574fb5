/**
  * The data file byte by byte: the header of storage.c, the counters in it, and the records.
  */
module FileForm {
  import opened Bytes
  import opened RecordFile
  import opened DataFile

  /** Eight bytes from `at` on, lowest first. */
  predicate Field64Is(b: seq<byte>, at: nat, v: nat)
    requires at + 8 <= |b|
  {
    v == Word(b[at..at + 4]) + 0x1_0000_0000 * Word(b[at + 4..at + 8])
  }

  lemma Field64Form(b: seq<byte>, at: nat)
    requires at + 8 <= |b|
    ensures Field64Is(b, at, Field64(b, at))
  {
    EightBytes(b[at..at + 8]);
    assert b[at..at + 8][..4] == b[at..at + 4] && b[at..at + 8][4..] == b[at + 4..at + 8];
  }

  /** The header counts to the end of the last record, the live records and all records. */
  lemma CountersForm(b: seq<byte>, rs: seq<Rec>)
    requires |b| >= 64 && Holds(b, rs)
    ensures Field64Is(b, 16, EndOf(rs)) && Field64Is(b, 24, LiveIn(rs)) && Field64Is(b, 32, |rs|)
  {
    hide Field64, Lies, Field64Is, EndOf, LiveIn;
    Field64Form(b, 16);
    Field64Form(b, 24);
    Field64Form(b, 32);
  }

  /** The records follow one another from byte 64 on: a status byte, 1 if live and 2 if not, and the document. */
  lemma RecordForm(b: seq<byte>, rs: seq<Rec>, i: nat)
    requires Lies(b, rs) && i < |rs|
    ensures EndOf([]) == 64 && EndOf(rs[..i + 1]) == EndOf(rs[..i]) + 1 + |rs[i].doc| <= |b|
    ensures b[EndOf(rs[..i])] == if rs[i].live then 1 else 2
    ensures b[EndOf(rs[..i]) + 1..EndOf(rs[..i + 1])] == rs[i].doc
    ensures LiveIn([]) == 0 && LiveIn(rs[..i + 1]) == LiveIn(rs[..i]) + if rs[i].live then 1 else 0
  {
    hide Layout, SignedLE, LiveIn;
    EmptyEnds();
    RecAt(b, rs, i);
    EndOfAppended(rs[..i], rs[i]);
    assert rs[..i + 1] == rs[..i] + [rs[i]];
  }

  /** "CBD1", version 1, the flag of a file that is open, and the length of the header. */
  lemma FrontForm()
    ensures Front() == [67, 66, 68, 49, 1, 0, 1, 0, 64, 0, 0, 0]
  {
  }

  lemma HeaderIff(b: seq<byte>)
    ensures HasHeader(b) <==> |b| >= 64 && b[..4] == [67, 66, 68, 49] && b[4] == 1 && b[5] == 0
  {
  }

  /** The size after `k` doublings. */
  function DoubledTimes(cap: nat, k: nat): nat {
    if k == 0 then cap else 2 * DoubledTimes(cap, k - 1)
  }

  /** The first doubling that fits. */
  ghost predicate FirstFit(cap: nat, needed: nat, k: nat) {
    k > 0 && DoubledTimes(cap, k - 1) < needed <= DoubledTimes(cap, k)
  }

  lemma {:induction false} DoublingFits(cap: nat, needed: nat) returns (k: nat)
    requires 0 < cap < needed
    ensures FirstFit(cap, needed, k) && Doubled(cap, needed) == DoubledTimes(cap, k)
    decreases needed - cap
  {
    assert DoubledTimes(cap, 0) == cap && DoubledTimes(cap, 1) == 2 * cap;
    if 2 * cap < needed {
      var j := DoublingFits(2 * cap, needed);
      k := j + 1;
      OneMoreDoubling(cap, j);
      OneMoreDoubling(cap, j - 1);
    } else {
      k := 1;
      assert Doubled(2 * cap, needed) == 2 * cap;
    }
  }

  lemma {:induction false} OneMoreDoubling(cap: nat, k: nat)
    ensures DoubledTimes(cap, k + 1) == DoubledTimes(2 * cap, k)
  {
    if k == 0 {
      assert DoubledTimes(cap, 1) == 2 * DoubledTimes(cap, 0);
    } else {
      OneMoreDoubling(cap, k - 1);
    }
  }

  /** A file grows by the first doubling that fits, rounded up to a multiple of 4096. */
  lemma CapacityForm(cap: nat, needed: nat)
    requires cap > 0
    ensures needed <= cap ==> Capacity(cap, needed) == cap
    ensures needed > cap ==>
              exists k: nat :: FirstFit(cap, needed, k) && Capacity(cap, needed) % 4096 == 0
                               && DoubledTimes(cap, k) <= Capacity(cap, needed) < DoubledTimes(cap, k) + 4096
  {
    if needed > cap {
      var k := DoublingFits(cap, needed);
    }
  }
}
