/**
  * What keeps a value from being encoded, said of places in the value rather than of the walk.
  *
  * A place is a list of numbers: which field or item to follow at each level.  A value encodes
  * exactly when no place has a fault, and otherwise the encoder reports the fault of the first
  * place in reading order, if the bytes before it fit.
  */
module Faults {
  import opened Bytes
  import opened Grammar
  import opened Codec

  type Place = seq<nat>

  /** The value at a place. */
  function At(v: Value, p: Place): Option<Value>
    decreases p
  {
    if p == [] then Some(v)
    else if v.Document? && p[0] < |v.fields| then At(v.fields[p[0]].value, p[1..])
    else if v.Array? && p[0] < |v.items| then At(v.items[p[0]], p[1..])
    else None
  }

  /** The key of the value at a place, if it is in a dictionary. */
  function KeyOf(v: Value, p: Place): Option<seq<byte>>
    decreases p
  {
    if p == [] then None
    else if v.Document? && p[0] < |v.fields| then
      if |p| == 1 then Some(v.fields[p[0]].key) else KeyOf(v.fields[p[0]].value, p[1..])
    else if v.Array? && p[0] < |v.items| then KeyOf(v.items[p[0]], p[1..])
    else None
  }

  /** What is wrong with a value itself, `depth` levels down. */
  function OwnFault(v: Value, depth: nat): Option<Status> {
    match v
    case Int(i) => if -0x8000_0000_0000_0000 <= i < 0x8000_0000_0000_0000 then None else Some(ValueOutOfRange)
    case Str(s) => if |s| + 1 < 0x8000_0000 then None else Some(ValueOutOfRange)
    case Bin(d) => if |d| < 0x8000_0000 then None else Some(ValueOutOfRange)
    case Document(_) => if depth <= 100 then None else Some(MaxDepthExceeded)
    case Array(_) => if depth <= 100 then None else Some(MaxDepthExceeded)
    case _ => None
  }

  /** What is wrong at a place of a value that is `depth` levels down: its key, or else the value there. */
  function FaultAt(v: Value, depth: nat, p: Place): Option<Status> {
    var key, at := KeyOf(v, p), At(v, p);
    if key.Some? && 0 in key.value then Some(InvalidKey)
    else if at.Some? then OwnFault(at.value, depth + |p|)
    else None
  }

  /** Reading order: a value before what is in it, and earlier fields and items before later ones. */
  predicate Before(p: Place, q: Place)
    decreases p
  {
    q != [] && (p == [] || p[0] < q[0] || (p[0] == q[0] && Before(p[1..], q[1..])))
  }

  ghost predicate Faultless(v: Value, depth: nat) {
    forall p: Place :: FaultAt(v, depth, p).None?
  }

  ghost predicate FirstFault(v: Value, depth: nat, p: Place, s: Status) {
    FaultAt(v, depth, p) == Some(s) && forall q: Place :: Before(q, p) ==> FaultAt(v, depth, q).None?
  }

  // ---------------------------------------------------------------- the walk's first error

  /** A place in the first field, or in the rest of the fields. */
  lemma {:induction false} FaultInFields(fs: seq<Field>, depth: nat, p: Place)
    requires fs != [] && p != []
    ensures FaultAt(Document(fs), depth, p) ==
            if p[0] == 0 then
              if |p| == 1 && 0 in fs[0].key then Some(InvalidKey) else FaultAt(fs[0].value, depth + 1, p[1..])
            else FaultAt(Document(fs[1..]), depth, [p[0] - 1] + p[1..])
  {
    hide OwnFault;
    if p[0] > 0 {
      var q := [p[0] - 1] + p[1..];
      assert q[1..] == p[1..] && |q| == |p|;
      assert p[0] < |fs| ==> fs[p[0]] == fs[1..][p[0] - 1];
    }
  }

  lemma {:induction false} FaultInItems(items: seq<Value>, depth: nat, p: Place)
    requires items != [] && p != []
    ensures FaultAt(Array(items), depth, p) ==
            if p[0] == 0 then FaultAt(items[0], depth + 1, p[1..])
            else FaultAt(Array(items[1..]), depth, [p[0] - 1] + p[1..])
  {
    hide OwnFault;
    if p[0] > 0 {
      var q := [p[0] - 1] + p[1..];
      assert q[1..] == p[1..] && |q| == |p|;
      assert p[0] < |items| ==> items[p[0]] == items[1..][p[0] - 1];
    }
  }

  /** The first of two places in one list of values, read with the first value or among the rest. */
  lemma BeforeCons(q: Place, p: Place)
    requires q != [] && p != []
    ensures Before(q, p) <==>
            if p[0] == 0 then q[0] == 0 && Before(q[1..], p[1..])
            else q[0] == 0 || Before([q[0] - 1] + q[1..], [p[0] - 1] + p[1..])
  {
    if q[0] > 0 && p[0] > 0 {
      var q', p' := [q[0] - 1] + q[1..], [p[0] - 1] + p[1..];
      assert q'[1..] == q[1..] && p'[1..] == p[1..];
    }
  }

  /** A dictionary of allowed depth has the faults of its first key, its first value and its other fields. */
  lemma {:induction false} FieldsFaultless(fs: seq<Field>, depth: nat)
    requires depth <= 100 && fs != []
    ensures Faultless(Document(fs), depth) <==>
              0 !in fs[0].key && Faultless(fs[0].value, depth + 1) && Faultless(Document(fs[1..]), depth)
  {
    hide FaultAt;
    Top(Document(fs), depth);
    Top(Document(fs[1..]), depth);
    Top(fs[0].value, depth + 1);
    FaultInFields(fs, depth, [0]);
    if Faultless(Document(fs), depth) {
      var first, below := fs[0].value, depth + 1;
      forall p: Place ensures FaultAt(first, below, p).None? {
        FaultInFields(fs, depth, [0] + p);
        assert ([0] + p)[1..] == p;
      }
      forall p: Place ensures FaultAt(Document(fs[1..]), depth, p).None? {
        if p != [] {
          var q: Place := [p[0] + 1] + p[1..];
          FaultInFields(fs, depth, q);
          assert [q[0] - 1] + q[1..] == p;
        }
      }
    } else {
      var p: Place :| FaultAt(Document(fs), depth, p).Some?;
      FaultInFields(fs, depth, p);
    }
  }

  lemma Top(v: Value, depth: nat)
    ensures FaultAt(v, depth, []) == OwnFault(v, depth)
  {
  }

  lemma {:induction false} ItemsFaultless(items: seq<Value>, depth: nat)
    requires depth <= 100 && items != []
    ensures Faultless(Array(items), depth) <==> Faultless(items[0], depth + 1) && Faultless(Array(items[1..]), depth)
  {
    hide FaultAt;
    Top(Array(items), depth);
    Top(Array(items[1..]), depth);
    if Faultless(Array(items), depth) {
      var first, below := items[0], depth + 1;
      forall p: Place ensures FaultAt(first, below, p).None? {
        FaultInItems(items, depth, [0] + p);
        assert ([0] + p)[1..] == p;
      }
      forall p: Place ensures FaultAt(Array(items[1..]), depth, p).None? {
        if p != [] {
          var q: Place := [p[0] + 1] + p[1..];
          FaultInItems(items, depth, q);
          assert [q[0] - 1] + q[1..] == p;
        }
      }
    } else {
      var p: Place :| FaultAt(Array(items), depth, p).Some?;
      FaultInItems(items, depth, p);
    }
  }

  /** A first fault of the first value, with a good key, is the first fault of the dictionary. */
  lemma FirstInField(fs: seq<Field>, depth: nat, p: Place, s: Status)
    requires depth <= 100 && fs != [] && 0 !in fs[0].key && FirstFault(fs[0].value, depth + 1, p, s)
    ensures FirstFault(Document(fs), depth, [0] + p, s)
  {
    hide FaultAt;
    var r: Place := [0] + p;
    assert r[1..] == p;
    FaultInFields(fs, depth, r);
    forall q: Place | Before(q, r) ensures FaultAt(Document(fs), depth, q).None? {
      Top(Document(fs), depth);
      if q != [] {
        BeforeCons(q, r);
        FaultInFields(fs, depth, q);
      }
    }
  }

  lemma FirstInLaterField(fs: seq<Field>, depth: nat, p: Place, s: Status)
    requires depth <= 100 && fs != [] && 0 !in fs[0].key && Faultless(fs[0].value, depth + 1)
    requires p != [] && FirstFault(Document(fs[1..]), depth, p, s)
    ensures FirstFault(Document(fs), depth, [p[0] + 1] + p[1..], s)
  {
    hide FaultAt;
    var r: Place := [p[0] + 1] + p[1..];
    assert [r[0] - 1] + r[1..] == p;
    FaultInFields(fs, depth, r);
    forall q: Place | Before(q, r) ensures FaultAt(Document(fs), depth, q).None? {
      Top(Document(fs), depth);
      if q != [] {
        BeforeCons(q, r);
        FaultInFields(fs, depth, q);
      }
    }
  }

  lemma FirstInItem(items: seq<Value>, depth: nat, p: Place, s: Status)
    requires depth <= 100 && items != [] && FirstFault(items[0], depth + 1, p, s)
    ensures FirstFault(Array(items), depth, [0] + p, s)
  {
    hide FaultAt;
    var r: Place := [0] + p;
    assert r[1..] == p;
    FaultInItems(items, depth, r);
    forall q: Place | Before(q, r) ensures FaultAt(Array(items), depth, q).None? {
      Top(Array(items), depth);
      if q != [] {
        BeforeCons(q, r);
        FaultInItems(items, depth, q);
      }
    }
  }

  lemma FirstInLaterItem(items: seq<Value>, depth: nat, p: Place, s: Status)
    requires depth <= 100 && items != [] && Faultless(items[0], depth + 1)
    requires p != [] && FirstFault(Array(items[1..]), depth, p, s)
    ensures FirstFault(Array(items), depth, [p[0] + 1] + p[1..], s)
  {
    hide FaultAt;
    var r: Place := [p[0] + 1] + p[1..];
    assert [r[0] - 1] + r[1..] == p;
    FaultInItems(items, depth, r);
    forall q: Place | Before(q, r) ensures FaultAt(Array(items), depth, q).None? {
      Top(Array(items), depth);
      if q != [] {
        BeforeCons(q, r);
        FaultInItems(items, depth, q);
      }
    }
  }

  /** The walk has no error exactly when no place has a fault, and otherwise it has the first fault. */
  lemma {:induction false} ErrorIsFirstFault(v: Value, depth: nat)
    ensures FirstError(v, depth).None? <==> Faultless(v, depth)
    ensures FirstError(v, depth).Some? ==> exists p: Place :: FirstFault(v, depth, p, FirstError(v, depth).value)
    decreases v, 1
  {
    hide FaultAt;
    Top(v, depth);
    if OwnFault(v, depth).Some? {
      assert FirstFault(v, depth, [], FirstError(v, depth).value);
    } else {
      match v
      case Document(fs) => FieldsFirstFault(fs, depth);
      case Array(items) => ItemsFirstFault(items, depth);
      case _ => NothingIn(v, depth);
    }
  }

  lemma NothingIn(v: Value, depth: nat)
    requires !v.Document? && !v.Array?
    ensures Faultless(v, depth) <==> OwnFault(v, depth).None?
  {
    Top(v, depth);
    if OwnFault(v, depth).None? {
      forall p: Place ensures FaultAt(v, depth, p).None? {
      }
    }
  }

  lemma NothingInEmpty(depth: nat)
    requires depth <= 100
    ensures Faultless(Document([]), depth) && Faultless(Array([]), depth)
  {
    forall p: Place ensures FaultAt(Document([]), depth, p).None? && FaultAt(Array([]), depth, p).None? {
    }
  }

  lemma {:induction false} FieldsFirstFault(fs: seq<Field>, depth: nat)
    requires depth <= 100
    ensures FieldsError(fs, depth).None? <==> Faultless(Document(fs), depth)
    ensures FieldsError(fs, depth).Some? ==>
              exists p: Place :: FirstFault(Document(fs), depth, p, FieldsError(fs, depth).value)
    decreases fs, 0
  {
    hide FaultAt, FirstError, Faultless, FirstFault;
    if fs == [] {
      NothingInEmpty(depth);
    } else {
      FieldsFaultless(fs, depth);
      if 0 in fs[0].key {
        BadKey(fs, depth);
      } else {
        ErrorIsFirstFault(fs[0].value, depth + 1);
        FieldsFirstFault(fs[1..], depth);
        if FirstError(fs[0].value, depth + 1).Some? {
          var p: Place :| FirstFault(fs[0].value, depth + 1, p, FirstError(fs[0].value, depth + 1).value);
          FirstInField(fs, depth, p, FirstError(fs[0].value, depth + 1).value);
        } else if FieldsError(fs[1..], depth).Some? {
          var p: Place :| FirstFault(Document(fs[1..]), depth, p, FieldsError(fs[1..], depth).value);
          NotTop(Document(fs[1..]), depth, p, FieldsError(fs[1..], depth).value);
          FirstInLaterField(fs, depth, p, FieldsError(fs[1..], depth).value);
        }
      }
    }
  }

  lemma NotTop(v: Value, depth: nat, p: Place, s: Status)
    requires FirstFault(v, depth, p, s) && OwnFault(v, depth).None?
    ensures p != []
  {
    Top(v, depth);
  }

  lemma BadKey(fs: seq<Field>, depth: nat)
    requires depth <= 100 && fs != [] && 0 in fs[0].key
    ensures FirstFault(Document(fs), depth, [0], InvalidKey)
  {
    hide FaultAt;
    FaultInFields(fs, depth, [0]);
    Top(Document(fs), depth);
    var p: Place := [0];
    assert p[1..] == [];
    forall q: Place | Before(q, p) ensures q == [] {
      if q != [] {
        BeforeCons(q, p);
      }
    }
  }

  lemma {:induction false} ItemsFirstFault(items: seq<Value>, depth: nat)
    requires depth <= 100
    ensures ItemsError(items, depth).None? <==> Faultless(Array(items), depth)
    ensures ItemsError(items, depth).Some? ==>
              exists p: Place :: FirstFault(Array(items), depth, p, ItemsError(items, depth).value)
    decreases items, 0
  {
    hide FaultAt, FirstError, Faultless, FirstFault;
    if items == [] {
      NothingInEmpty(depth);
    } else {
      ItemsFaultless(items, depth);
      ErrorIsFirstFault(items[0], depth + 1);
      ItemsFirstFault(items[1..], depth);
      if FirstError(items[0], depth + 1).Some? {
        var p: Place :| FirstFault(items[0], depth + 1, p, FirstError(items[0], depth + 1).value);
        FirstInItem(items, depth, p, FirstError(items[0], depth + 1).value);
      } else if ItemsError(items[1..], depth).Some? {
        var p: Place :| FirstFault(Array(items[1..]), depth, p, ItemsError(items[1..], depth).value);
        NotTop(Array(items[1..]), depth, p, ItemsError(items[1..], depth).value);
        FirstInLaterItem(items, depth, p, ItemsError(items[1..], depth).value);
      }
    }
  }

  /** Any two places are in order, so a value has at most one first fault. */
  lemma {:induction false} InOrder(p: Place, q: Place)
    ensures p == q || Before(p, q) || Before(q, p)
    decreases p
  {
    if p == [] || q == [] {
    } else {
      assert p == [p[0]] + p[1..] && q == [q[0]] + q[1..];
      if p[0] == q[0] {
        InOrder(p[1..], q[1..]);
      }
    }
  }

  /** So the walk's error is `s` exactly when some place has the fault `s` and no earlier place has any. */
  lemma FirstErrorIff(v: Value, depth: nat, s: Status)
    ensures FirstError(v, depth) == Some(s) <==> exists p: Place :: FirstFault(v, depth, p, s)
  {
    hide FirstError, FaultAt;
    ErrorIsFirstFault(v, depth);
    if p: Place :| FirstFault(v, depth, p, s) {
      var s' := FirstError(v, depth).value;
      var p': Place :| FirstFault(v, depth, p', s');
      InOrder(p, p');
    }
  }

  // ---------------------------------------------------------------- the documents that can be encoded

  lemma {:induction false} KeyHasValue(v: Value, p: Place)
    requires KeyOf(v, p).Some?
    ensures At(v, p).Some?
    decreases p
  {
    if |p| == 1 {
      assert p[1..] == [];
    } else if v.Document? {
      KeyHasValue(v.fields[p[0]].value, p[1..]);
    } else {
      KeyHasValue(v.items[p[0]], p[1..]);
    }
  }

  /** Said at once: what every place of a document that can be encoded is like. */
  lemma FaultlessIff(v: Value)
    ensures Faultless(v, 0) <==>
            forall p: Place | At(v, p).Some? ::
              var at, key := At(v, p).value, KeyOf(v, p);
              && (key.Some? ==> 0 !in key.value)
              && (at.Int? ==> -0x8000_0000_0000_0000 <= at.i < 0x8000_0000_0000_0000)
              && (at.Str? ==> |at.utf8| + 1 < 0x8000_0000)
              && (at.Bin? ==> |at.data| < 0x8000_0000)
              && (at.Document? || at.Array? ==> |p| <= 100)
  {
    hide At, KeyOf;
    if Faultless(v, 0) {
      assert forall p: Place | At(v, p).Some? :: FaultAt(v, 0, p).None?;
    } else {
      var p: Place :| FaultAt(v, 0, p).Some?;
      if KeyOf(v, p).Some? {
        KeyHasValue(v, p);
      }
      assert At(v, p).Some?;
    }
  }

  /** The status a dictionary is refused with: its first fault, or its size if it is too large. */
  ghost predicate RefusedWith(fs: seq<Field>, s: Status) {
    || (exists p: Place :: FirstFault(Document(fs), 0, p, s))
    || (s == DocumentTooLarge && |Encoding(fs)| > 16 * 1024 * 1024)
  }

  /** The encoder accepts the document. */
  ghost predicate Encodable(fs: seq<Field>) {
    ValidValue(Document(fs)) && Faultless(Document(fs), 0) && |Encoding(fs)| <= 16 * 1024 * 1024
  }

  /**
    * A dict without a fault that fits 16 MiB encodes to bytes that validate, and decoding them gives
    * back the same values under the same keys in the same order, datetimes to the millisecond.
    */
  lemma EncodedIsReadBack(fs: seq<Field>)
    requires Encodable(fs)
    ensures ValidateSpec(Encoding(fs)) == Ok(ToRaw(fs))
    ensures DecodeSpec(Encoding(fs)) == Ok(NormalFields(fs))
    ensures WholeMillis(Document(fs)) ==> DecodeSpec(Encoding(fs)) == Ok(fs)
  {
    hide ValidateSpec, DecodeSpec, FirstError, ValidValue, Encoding, Faultless;
    ErrorIsFirstFault(Document(fs), 0);
    RoundTrip(fs);
    NormalFieldsIdentity(fs);
  }
}
