/**
  * Whole lives of a data file: appends, tombstones, crashes inside either, and recoveries, in
  * any order and any number.
  *
  * A crash stops a call after any of its byte stores; the next opening recovers.  A torn
  * append leaves bytes behind the recovered data, so nothing here supposes a zero tail.
  */
module CrashRuns {
  import opened Bytes
  import opened Grammar
  import opened RecordFile
  import opened DataFile

  /** The bytes of a file and the records they stand for. */
  datatype File = File(bytes: seq<byte>, recs: seq<Rec>)

  ghost predicate Good(f: File) {
    HEADER_LEN <= |f.bytes| <= MAX_MAPPING && Holds(f.bytes, f.recs) && AllValid(f.recs)
  }

  /** A call that ends, a call that is stopped after `k` of its stores, or a crash between calls. */
  datatype Event =
    | Append(doc: seq<byte>)
    | Bury(i: nat)
    | StoppedAppend(doc: seq<byte>, k: nat)
    | StoppedBury(i: nat, k: nat)
    | Crash

  /** Appends are handed the output of the encoder. */
  ghost predicate Storable(e: Event) {
    e.Append? ==> TrueLength(e.doc) && ValidRec(Rec(true, e.doc))
  }

  /** The size an append grows the file to, and whether the platform can map that much. */
  function Size(f: File, doc: seq<byte>): (size: nat)
    ensures size >= EndOf(f.recs) + 1 + |doc| && size >= |f.bytes|
  {
    Capacity(if |f.bytes| == 0 then INITIAL_CAPACITY else |f.bytes|, EndOf(f.recs) + 1 + |doc|)
  }

  function Grown(f: File, doc: seq<byte>): (b: seq<byte>)
    ensures |b| == Size(f, doc)
  {
    Resized(f.bytes, Size(f, doc))
  }

  /** bson_storage_recover. */
  ghost function Recovered(c: seq<byte>): File
    requires |c| >= HEADER_LEN
  {
    File(Counted(c, Recover(c, HEADER_LEN)), Recover(c, HEADER_LEN))
  }

  function Least(a: nat, b: nat): nat {
    if a < b then a else b
  }

  ghost function After(f: File, e: Event): File
    requires Good(f)
  {
    match e
    case Append(doc) =>
      if Size(f, doc) > MAX_MAPPING then f
      else File(Apply(Grown(f, doc), AppendWrites(Grown(f, doc), doc)), f.recs + [Rec(true, doc)])
    case StoppedAppend(doc, k) =>
      if Size(f, doc) > MAX_MAPPING then Recovered(f.bytes)
      else Recovered(TornAppend(Grown(f, doc), doc, Least(k, |AppendWrites(Grown(f, doc), doc)|)))
    case Bury(i) =>
      if i < |f.recs| && f.recs[i].live then
        File(Apply(f.bytes, TombstoneWrites(f.bytes, EndOf(f.recs[..i]))), Tombstoned(f.recs, i))
      else f
    case StoppedBury(i, k) =>
      if i < |f.recs| && f.recs[i].live then
        var off := EndOf(f.recs[..i]);
        Recovered(TornTombstone(f.bytes, off, Least(k, |TombstoneWrites(f.bytes, off)|)))
      else Recovered(f.bytes)
    case Crash => Recovered(f.bytes)
  }

  /** The event tombstones record `i`, or stops after having stored its status byte. */
  predicate Buries(e: Event, i: nat) {
    (e.Bury? && e.i == i) || (e.StoppedBury? && e.i == i && e.k > 0)
  }

  predicate BuriedIn(es: seq<Event>, i: nat) {
    exists j :: 0 <= j < |es| && Buries(es[j], i)
  }

  /** The record, dead if `buried`. */
  function Kept(r: Rec, buried: bool): Rec {
    if buried then r.(live := false) else r
  }

  lemma EventKeeps(f: File, e: Event)
    requires Good(f) && Storable(e)
    ensures Good(After(f, e)) && |f.recs| <= |After(f, e).recs|
    ensures forall i | 0 <= i < |f.recs| :: After(f, e).recs[i] == Kept(f.recs[i], Buries(e, i))
  {
    hide Holds, ValidateSpec, TrueLength, Apply, AppendWrites, TombstoneWrites, TornAppend, TornTombstone, Counted;
    hide Size, Grown, EndOf, BuriedBytes, Recover;
    match e
    case Append(doc) =>
      if Size(f, doc) <= MAX_MAPPING {
        GrownGood(f, doc);
        AppendedIsAllWrites(Grown(f, doc), f.recs, doc);
        AppendedHolds(Grown(f, doc), f.recs, doc);
      }
    case StoppedAppend(doc, k) =>
      if Size(f, doc) <= MAX_MAPPING {
        GrownGood(f, doc);
        AppendCrashKeeps(Grown(f, doc), f.recs, doc, Least(k, |AppendWrites(Grown(f, doc), doc)|));
      } else {
        CrashKeeps(f);
      }
    case Bury(i) =>
      if i < |f.recs| && f.recs[i].live {
        BuriedHolds(f.bytes, f.recs, i);
        BuriedIsAllWrites(f.bytes, EndOf(f.recs[..i]));
      }
    case StoppedBury(i, k) =>
      if i < |f.recs| && f.recs[i].live {
        var off := EndOf(f.recs[..i]);
        SomeStore(f.bytes, off);
        TombstoneCrashKeeps(f.bytes, f.recs, i, Least(k, |TombstoneWrites(f.bytes, off)|));
      } else {
        CrashKeeps(f);
      }
    case Crash => CrashKeeps(f);
  }

  lemma SomeStore(b: seq<byte>, off: nat)
    requires |b| >= HEADER_LEN
    ensures |TombstoneWrites(b, off)| > 0
  {
  }

  lemma GrownGood(f: File, doc: seq<byte>)
    requires Good(f)
    ensures Holds(Grown(f, doc), f.recs) && EndOf(f.recs) + 1 + |doc| <= |Grown(f, doc)| == Size(f, doc)
    ensures ZeroFrom(f.bytes, EndOf(f.recs)) ==> ZeroFrom(Grown(f, doc), EndOf(f.recs))
  {
    hide Holds, EndOf, AllValid;
    ResizedHolds(f.bytes, f.recs, Size(f, doc));
  }

  lemma CrashKeeps(f: File)
    requires Good(f)
    ensures Good(Recovered(f.bytes)) && f.recs <= Recovered(f.bytes).recs
  {
    hide ValidRec, Recover, Counted, Layout;
    RecoverReads(f.bytes, HEADER_LEN, f.recs);
    RecoverLies(f.bytes, HEADER_LEN);
    CountedHolds(f.bytes, Recover(f.bytes, HEADER_LEN));
  }

  /** The file after a run of events. */
  ghost function Run(f: File, es: seq<Event>): (r: File)
    requires Good(f) && forall j | 0 <= j < |es| :: Storable(es[j])
    ensures Good(r)
  {
    if es == [] then f
    else
      EventKeeps(Run(f, es[..|es| - 1]), es[|es| - 1]);
      After(Run(f, es[..|es| - 1]), es[|es| - 1])
  }

  /**
    * Whatever crashes happen and however often: the file stays a well-formed list of validated
    * records with true counters, and every record once in it stays at its offset with its
    * document, live exactly if it was and no tombstone on it was stored.
    */
  lemma {:induction false} CommittedSurvive(f: File, es: seq<Event>)
    requires Good(f) && forall j | 0 <= j < |es| :: Storable(es[j])
    ensures Good(Run(f, es)) && |f.recs| <= |Run(f, es).recs|
    ensures forall i | 0 <= i < |f.recs| ::
              && Run(f, es).recs[i] == Kept(f.recs[i], BuriedIn(es, i))
              && EndOf(Run(f, es).recs[..i]) == EndOf(f.recs[..i])
  {
    hide Good, EndOf, Buries, BuriedIn, After;
    if es == [] {
      forall i | 0 <= i < |f.recs| ensures !BuriedIn(es, i) {
        NothingBuried(i);
      }
    } else {
      var n := |es| - 1;
      CommittedSurvive(f, es[..n]);
      var before, after := Run(f, es[..n]), Run(f, es);
      EventKeeps(before, es[n]);
      forall i | 0 <= i < |f.recs|
        ensures after.recs[i] == Kept(f.recs[i], BuriedIn(es, i))
      {
        BuriedLater(es, i);
      }
    }
    SameOffsets(f.recs, Run(f, es).recs);
  }

  lemma NothingBuried(i: nat)
    ensures !BuriedIn([], i)
  {
  }

  lemma BuriedLater(es: seq<Event>, i: nat)
    requires es != []
    ensures BuriedIn(es, i) <==> BuriedIn(es[..|es| - 1], i) || Buries(es[|es| - 1], i)
  {
    hide Buries;
    var n := |es| - 1;
    if j :| 0 <= j < |es| && Buries(es[j], i) {
      assert j < n ==> es[..n][j] == es[j];
    }
    if j :| 0 <= j < n && Buries(es[..n][j], i) {
      assert es[j] == es[..n][j];
    }
  }

  /** Records of the same lengths lie at the same offsets. */
  lemma SameOffsets(was: seq<Rec>, now: seq<Rec>)
    requires |was| <= |now| && forall i | 0 <= i < |was| :: now[i].doc == was[i].doc
    ensures forall i | 0 <= i <= |was| :: EndOf(now[..i]) == EndOf(was[..i])
  {
    hide EndOf;
    forall i | 0 <= i <= |was| ensures EndOf(now[..i]) == EndOf(was[..i]) {
      SameEnd(was[..i], now[..i]);
    }
  }

  lemma {:induction false} SameEnd(a: seq<Rec>, b: seq<Rec>)
    requires |a| == |b| && forall i | 0 <= i < |a| :: a[i].doc == b[i].doc
    ensures EndOf(a) == EndOf(b)
  {
    if a == [] {
    } else {
      SameEnd(a[1..], b[1..]);
    }
  }

  /** An append that was acknowledged is found at the offset it returned after any further events. */
  lemma AcknowledgedSurvives(f: File, doc: seq<byte>, es: seq<Event>)
    requires Good(f) && Storable(Append(doc)) && Size(f, doc) <= MAX_MAPPING
    requires forall j | 0 <= j < |es| :: Storable(es[j])
    ensures Good(After(f, Append(doc)))
    ensures var now := Run(After(f, Append(doc)), es).recs; var n := |f.recs|;
            n < |now| && now[n] == Rec(!BuriedIn(es, n), doc) && EndOf(now[..n]) == EndOf(f.recs)
  {
    hide Good, EndOf, BuriedIn, Apply, AppendWrites, Grown, Size, Storable;
    EventKeeps(f, Append(doc));
    CommittedSurvive(After(f, Append(doc)), es);
    assert (f.recs + [Rec(true, doc)])[..|f.recs|] == f.recs;
  }

  // ---------------------------------------------------------------- without torn appends

  /** What an event should leave of the records; a stopped append, nothing. */
  function Intended(rs: seq<Rec>, e: Event, room: bool): seq<Rec> {
    match e
    case Append(doc) => if room then rs + [Rec(true, doc)] else rs
    case Bury(i) => if i < |rs| then Tombstoned(rs, i) else rs
    case StoppedBury(i, k) => if i < |rs| && k > 0 then Tombstoned(rs, i) else rs
    case _ => rs
  }

  function HasRoom(f: File, e: Event): bool {
    e.Append? ==> Size(f, e.doc) <= MAX_MAPPING
  }

  /** With zeros behind the data, any event but a stopped append does just that, and leaves zeros there. */
  lemma ZeroTailKept(f: File, e: Event)
    requires Good(f) && Storable(e) && ZeroFrom(f.bytes, EndOf(f.recs)) && !e.StoppedAppend?
    ensures After(f, e).recs == Intended(f.recs, e, HasRoom(f, e))
    ensures ZeroFrom(After(f, e).bytes, EndOf(After(f, e).recs))
  {
    hide Holds, ValidateSpec, TrueLength, Apply, AppendWrites, TombstoneWrites, TornAppend, TornTombstone, Counted;
    hide Size, Grown, EndOf, BuriedBytes, Recover, ZeroFrom;
    match e
    case Append(doc) =>
      if Size(f, doc) <= MAX_MAPPING {
        GrownGood(f, doc);
        AppendedIsAllWrites(Grown(f, doc), f.recs, doc);
        AppendedHolds(Grown(f, doc), f.recs, doc);
      }
    case Bury(i) =>
      if i < |f.recs| {
        if f.recs[i].live {
          BuriedHolds(f.bytes, f.recs, i);
          BuriedKeeps(f.bytes, f.recs, i);
          BuriedIsAllWrites(f.bytes, EndOf(f.recs[..i]));
        } else {
          AlreadyDead(f.recs, i);
        }
      }
    case StoppedBury(i, k) =>
      if i < |f.recs| && f.recs[i].live {
        StoppedBuryKeepsZeros(f, i, k);
      } else {
        RecoverClean(f.bytes, f.recs);
        if i < |f.recs| {
          AlreadyDead(f.recs, i);
        }
      }
    case Crash => RecoverClean(f.bytes, f.recs);
  }

  lemma StoppedBuryKeepsZeros(f: File, i: nat, k: nat)
    requires Good(f) && ZeroFrom(f.bytes, EndOf(f.recs)) && i < |f.recs| && f.recs[i].live
    ensures After(f, StoppedBury(i, k)).recs == if k == 0 then f.recs else Tombstoned(f.recs, i)
    ensures ZeroFrom(After(f, StoppedBury(i, k)).bytes, EndOf(f.recs))
    ensures EndOf(Tombstoned(f.recs, i)) == EndOf(f.recs)
  {
    hide ValidRec, TrueLength, TombstoneWrites, TornTombstone, Counted, EndOf, Recover, Field64;
    var off := EndOf(f.recs[..i]);
    SomeStore(f.bytes, off);
    var j := Least(k, |TombstoneWrites(f.bytes, off)|);
    var c := TornTombstone(f.bytes, off, j);
    TombstoneCrashSafe(f.bytes, f.recs, i, j);
    StatusByte(f.bytes, f.recs, i);
    BuriedHolds(f.bytes, f.recs, i);
    TornStatus(f.bytes, off, j);
    EndOfGrows(f.recs, i, |f.recs|);
    RecoveredLies(c);
    CountedHolds(c, Recover(c, HEADER_LEN));
    assert f.recs[..|f.recs|] == f.recs;
  }

  /**
    * Over a run from such a file in which no append is stopped, every event does what it is
    * meant to do to the records and no crash changes them.
    */
  lemma {:induction false} WithoutTornAppends(f: File, es: seq<Event>)
    requires Good(f) && ZeroFrom(f.bytes, EndOf(f.recs))
    requires forall j | 0 <= j < |es| :: Storable(es[j]) && !es[j].StoppedAppend?
    ensures ZeroFrom(Run(f, es).bytes, EndOf(Run(f, es).recs))
    ensures es != [] ==>
              var before, e := Run(f, es[..|es| - 1]), es[|es| - 1];
              Run(f, es).recs == Intended(before.recs, e, HasRoom(before, e))
  {
    hide Good, EndOf, After, ZeroFrom, Storable, Intended, HasRoom;
    if es == [] {
    } else {
      WithoutTornAppends(f, es[..|es| - 1]);
      ZeroTailKept(Run(f, es[..|es| - 1]), es[|es| - 1]);
    }
  }
}
