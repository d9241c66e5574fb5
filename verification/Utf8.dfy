/**
  * bson_utf8_validate, against sections 3 and 4 of RFC 3629: it accepts exactly the
  * concatenations of encodings of Unicode scalar values.
  */
module Utf8 {
  import opened Bytes

  /** A Unicode scalar value: a code point that is not a surrogate. */
  predicate Scalar(cp: int) {
    0 <= cp < 0xD800 || 0xE000 <= cp <= 0x10FFFF
  }

  /** The table of section 3 of RFC 3629. */
  function Encode(cp: nat): (w: seq<byte>)
    requires Scalar(cp)
  {
    if cp < 0x80 then [cp]
    else if cp < 0x800 then [0xC0 + cp / 0x40, 0x80 + cp % 0x40]
    else if cp < 0x1_0000 then [0xE0 + cp / 0x1000, 0x80 + cp / 0x40 % 0x40, 0x80 + cp % 0x40]
    else [0xF0 + cp / 0x4_0000, 0x80 + cp / 0x1000 % 0x40, 0x80 + cp / 0x40 % 0x40, 0x80 + cp % 0x40]
  }

  function EncodeAll(cps: seq<nat>): seq<byte>
    requires forall i | 0 <= i < |cps| :: Scalar(cps[i])
  {
    if cps == [] then [] else Encode(cps[0]) + EncodeAll(cps[1..])
  }

  /** The byte strings of the standard. */
  ghost predicate IsUtf8(s: seq<byte>) {
    exists cps: seq<nat> :: (forall i | 0 <= i < |cps| :: Scalar(cps[i])) && EncodeAll(cps) == s
  }

  // The masks of the C code select high bits, so on a byte they are divisions.

  /** The number of continuation bytes a lead byte announces, or -1. */
  function Extra(lead: byte): int {
    if lead < 0x80 then 0
    else if lead / 0x20 == 0x6 then 1
    else if lead / 0x10 == 0xE then 2
    else if lead / 0x8 == 0x1E then 3
    else -1
  }

  function LeadBits(lead: byte): nat {
    if lead < 0x80 then lead
    else if lead / 0x20 == 0x6 then lead % 0x20
    else if lead / 0x10 == 0xE then lead % 0x10
    else lead % 0x8
  }

  function Low6(b: byte): nat {
    b % 0x40
  }

  function MinCodePoint(extra: int): nat {
    if extra <= 0 then 0 else if extra == 1 then 0x80 else if extra == 2 then 0x800 else 0x1_0000
  }

  predicate Continuation(b: byte) {
    b / 0x40 == 2
  }

  /** The code point the loop accumulates from a lead byte and its continuation bytes. */
  function Value(w: seq<byte>): nat
    requires w != []
  {
    if |w| == 1 then LeadBits(w[0]) else Value(w[..|w| - 1]) * 0x40 + Low6(w[|w| - 1])
  }

  predicate Shape(w: seq<byte>) {
    w != [] && Extra(w[0]) == |w| - 1 && forall k | 1 <= k < |w| :: Continuation(w[k])
  }

  predicate Accepted(w: seq<byte>) {
    Shape(w) && MinCodePoint(|w| - 1) <= Value(w) && Scalar(Value(w))
  }

  lemma {:induction false} Value2(w: seq<byte>)
    requires |w| == 2
    ensures Value(w) == LeadBits(w[0]) * 0x40 + Low6(w[1])
  {
    assert w[..1][0] == w[0];
  }

  lemma {:induction false} Value3(w: seq<byte>)
    requires |w| == 3
    ensures Value(w) == LeadBits(w[0]) * 0x1000 + Low6(w[1]) * 0x40 + Low6(w[2])
  {
    Value2(w[..2]);
  }

  lemma {:induction false} Value4(w: seq<byte>)
    requires |w| == 4
    ensures Value(w) == LeadBits(w[0]) * 0x4_0000 + Low6(w[1]) * 0x1000 + Low6(w[2]) * 0x40 + Low6(w[3])
  {
    Value3(w[..3]);
  }

  lemma Digits3(cp: nat)
    ensures cp == cp / 0x1000 * 0x1000 + cp / 0x40 % 0x40 * 0x40 + cp % 0x40
  {
    assert cp / 0x40 / 0x40 == cp / 0x1000;
  }

  lemma Digits4(cp: nat)
    ensures cp == cp / 0x4_0000 * 0x4_0000 + cp / 0x1000 % 0x40 * 0x1000 + cp / 0x40 % 0x40 * 0x40 + cp % 0x40
  {
    Digits3(cp);
    assert cp / 0x1000 / 0x40 == cp / 0x4_0000;
  }

  lemma Fields(b: byte)
    ensures 0xC0 <= b < 0xE0 ==> Extra(b) == 1 && LeadBits(b) == b - 0xC0
    ensures 0xE0 <= b < 0xF0 ==> Extra(b) == 2 && LeadBits(b) == b - 0xE0
    ensures 0xF0 <= b < 0xF8 ==> Extra(b) == 3 && LeadBits(b) == b - 0xF0
    ensures Extra(b) == 1 ==> 0xC0 <= b < 0xE0
    ensures Extra(b) == 2 ==> 0xE0 <= b < 0xF0
    ensures Extra(b) == 3 ==> 0xF0 <= b < 0xF8
    ensures Continuation(b) <==> 0x80 <= b < 0xC0
    ensures Continuation(b) ==> Low6(b) == b - 0x80
  {
  }

  /** Every encoding passes the tests and gives back its scalar value. */
  lemma EncodingAccepted(cp: nat)
    requires Scalar(cp)
    ensures Accepted(Encode(cp)) && Value(Encode(cp)) == cp
  {
    hide Extra, LeadBits, Low6, Continuation, Value;
    var w := Encode(cp);
    if cp < 0x80 {
      AsciiAccepted(cp);
    } else {
      forall k | 0 <= k < |w| ensures k > 0 ==> Continuation(w[k]) {
        Fields(w[k]);
      }
      Fields(w[0]);
      Fields(w[1]);
      if cp < 0x800 {
        Value2(w);
      } else if cp < 0x1_0000 {
        Fields(w[2]);
        Value3(w);
        Digits3(cp);
      } else {
        Fields(w[2]);
        Fields(w[3]);
        Value4(w);
        Digits4(cp);
      }
    }
  }

  lemma AsciiAccepted(cp: nat)
    requires cp < 0x80
    ensures Accepted(Encode(cp)) && Value(Encode(cp)) == cp
  {
  }

  lemma Undigits3(a: nat, b: nat, c: nat)
    requires b < 0x40 && c < 0x40
    ensures (a * 0x1000 + b * 0x40 + c) / 0x1000 == a
    ensures (a * 0x1000 + b * 0x40 + c) / 0x40 % 0x40 == b
    ensures (a * 0x1000 + b * 0x40 + c) % 0x40 == c
  {
    assert (a * 0x1000 + b * 0x40 + c) / 0x40 == a * 0x40 + b;
  }

  lemma Undigits4(a: nat, b: nat, c: nat, d: nat)
    requires b < 0x40 && c < 0x40 && d < 0x40
    ensures (a * 0x4_0000 + b * 0x1000 + c * 0x40 + d) / 0x4_0000 == a
    ensures (a * 0x4_0000 + b * 0x1000 + c * 0x40 + d) / 0x1000 % 0x40 == b
    ensures (a * 0x4_0000 + b * 0x1000 + c * 0x40 + d) / 0x40 % 0x40 == c
    ensures (a * 0x4_0000 + b * 0x1000 + c * 0x40 + d) % 0x40 == d
  {
    Undigits3(a * 0x40 + b, c, d);
  }

  /** Whatever passes the tests is the encoding of the value read. */
  lemma {:induction false} AcceptedIsEncoding(w: seq<byte>)
    requires Accepted(w)
    ensures Encode(Value(w)) == w
  {
    hide LeadBits, Low6, Continuation, Value, Encode;
    Fields(w[0]);
    if |w| <= 2 {
      ShortEncoding(w);
    } else if |w| == 3 {
      ThreeByteEncoding(w);
    } else {
      FourByteEncoding(w);
    }
  }

  lemma {:induction false} ShortEncoding(w: seq<byte>)
    requires Accepted(w) && |w| <= 2
    ensures Encode(Value(w)) == w
  {
    hide LeadBits, Low6, Continuation, Value;
    Fields(w[0]);
    if |w| == 1 {
      assert Value(w) == w[0] by { OneByte(w); }
    } else {
      Fields(w[1]);
      assert Continuation(w[1]);
      Value2(w);
    }
  }

  lemma {:induction false} ThreeByteEncoding(w: seq<byte>)
    requires Accepted(w) && |w| == 3
    ensures Encode(Value(w)) == w
  {
    hide LeadBits, Low6, Continuation, Value;
    Fields(w[0]);
    Fields(w[1]);
    Fields(w[2]);
    assert Continuation(w[1]) && Continuation(w[2]);
    Value3(w);
    Undigits3(LeadBits(w[0]), Low6(w[1]), Low6(w[2]));
  }

  lemma {:induction false} FourByteEncoding(w: seq<byte>)
    requires Accepted(w) && |w| == 4
    ensures Encode(Value(w)) == w
  {
    hide LeadBits, Low6, Continuation, Value;
    Fields(w[0]);
    Fields(w[1]);
    Fields(w[2]);
    Fields(w[3]);
    assert Continuation(w[1]) && Continuation(w[2]) && Continuation(w[3]);
    Value4(w);
    Undigits4(LeadBits(w[0]), Low6(w[1]), Low6(w[2]), Low6(w[3]));
  }

  lemma {:induction false} OneByte(w: seq<byte>)
    requires |w| == 1 && w[0] < 0x80
    ensures Value(w) == w[0]
  {
  }

  lemma ConsIsUtf8(cp: nat, s: seq<byte>)
    requires Scalar(cp) && IsUtf8(s)
    ensures IsUtf8(Encode(cp) + s)
  {
    var cps: seq<nat> :| (forall i | 0 <= i < |cps| :: Scalar(cps[i])) && EncodeAll(cps) == s;
    assert ([cp] + cps)[1..] == cps;
    assert EncodeAll([cp] + cps) == Encode(cp) + s;
  }

  /** A nonempty string of the standard starts with an encoding. */
  lemma UnconsUtf8(s: seq<byte>) returns (cp: nat)
    requires IsUtf8(s) && s != []
    ensures Scalar(cp) && |Encode(cp)| <= |s| && Encode(cp) == s[..|Encode(cp)|] && IsUtf8(s[|Encode(cp)|..])
  {
    var cps: seq<nat> :| (forall i | 0 <= i < |cps| :: Scalar(cps[i])) && EncodeAll(cps) == s;
    cp := cps[0];
    assert s == Encode(cp) + EncodeAll(cps[1..]);
    assert s[|Encode(cp)|..] == EncodeAll(cps[1..]);
  }

  /** If the next bytes pass the tests, only the rest matters. */
  lemma NextAccepted(s: seq<byte>, n: nat)
    requires 0 < n <= |s| && Accepted(s[..n])
    ensures IsUtf8(s) <==> IsUtf8(s[n..])
  {
    var w := s[..n];
    AcceptedIsEncoding(w);
    assert s == w + s[n..];
    if IsUtf8(s[n..]) {
      ConsIsUtf8(Value(w), s[n..]);
    }
    if IsUtf8(s) {
      var cp := UnconsUtf8(s);
      EncodingAccepted(cp);
      assert Encode(cp)[0] == w[0];
    }
  }

  /** If the string is of the standard, the bytes its lead announces are there and pass. */
  lemma NextOfUtf8(s: seq<byte>)
    requires IsUtf8(s) && s != []
    ensures Extra(s[0]) >= 0 && Extra(s[0]) + 1 <= |s| && Accepted(s[..Extra(s[0]) + 1])
  {
    var cp := UnconsUtf8(s);
    EncodingAccepted(cp);
    assert Encode(cp)[0] == s[0];
  }

  /** The continuation loop: the bytes after the lead, shifted into the code point. */
  method ReadContinuations(data: seq<byte>, i: nat, extra: nat) returns (ok: bool, codePoint: nat)
    requires i + extra < |data| && Extra(data[i]) == extra
    ensures ok <==> Shape(data[i..i + extra + 1])
    ensures ok ==> codePoint == Value(data[i..i + extra + 1])
  {
    ghost var s := data[i..];
    codePoint := LeadBits(data[i]);
    var k := 1;
    while k <= extra
      invariant 1 <= k <= extra + 1
      invariant codePoint == Value(s[..k])
      invariant forall j | 1 <= j < k :: Continuation(s[j])
    {
      var next := data[i + k];
      assert s[k] == next == data[i..i + extra + 1][k];
      if !Continuation(next) {
        return false, codePoint;
      }
      assert s[..k + 1][..k] == s[..k];
      codePoint := codePoint * 0x40 + Low6(next);
      k := k + 1;
    }
    assert s[..extra + 1] == data[i..i + extra + 1];
    ok := true;
  }

  /** bson_utf8_validate. */
  method Validate(data: seq<byte>) returns (ok: bool)
    ensures ok <==> IsUtf8(data)
  {
    hide IsUtf8, Extra, LeadBits, Value;
    var i := 0;
    while i < |data|
      invariant i <= |data|
      invariant IsUtf8(data) <==> IsUtf8(data[i..])
    {
      var lead := data[i];
      ghost var s := data[i..];
      if lead < 0x80 {
        Ascii(s);
        NextAccepted(s, 1);
        assert data[i + 1..] == s[1..];
        i := i + 1;
        continue;
      }
      var extra := Extra(lead);
      if IsUtf8(s) {
        NextOfUtf8(s);
      }
      if extra < 0 || i + extra + 1 > |data| {
        return false;
      }
      assert s[..extra + 1] == data[i..i + extra + 1];
      var shaped, codePoint := ReadContinuations(data, i, extra);
      if !shaped {
        return false;
      }
      if codePoint < MinCodePoint(extra) || codePoint > 0x10FFFF || 0xD800 <= codePoint <= 0xDFFF {
        return false;
      }
      NextAccepted(s, extra + 1);
      assert data[i + extra + 1..] == s[extra + 1..];
      i := i + extra + 1;
    }
    assert data[i..] == [];
    EmptyIsUtf8();
    return true;
  }

  lemma Ascii(s: seq<byte>)
    requires s != [] && s[0] < 0x80
    ensures Accepted(s[..1])
  {
  }

  lemma EmptyIsUtf8()
    ensures IsUtf8([])
  {
    assert EncodeAll([]) == [];
  }

  // ---------------------------------------------------------------- by byte ranges

  /** UTF8-tail. */
  predicate Tail(b: byte) {
    0x80 <= b <= 0xBF
  }

  /** UTF8-char, by the byte ranges of section 4 of RFC 3629. */
  predicate Char(w: seq<byte>) {
    if |w| == 1 then w[0] <= 0x7F
    else if |w| == 2 then 0xC2 <= w[0] <= 0xDF && Tail(w[1])
    else if |w| == 3 then
      && Tail(w[2])
      && ((w[0] == 0xE0 && 0xA0 <= w[1] <= 0xBF) || (0xE1 <= w[0] <= 0xEC && Tail(w[1]))
          || (w[0] == 0xED && 0x80 <= w[1] <= 0x9F) || (0xEE <= w[0] <= 0xEF && Tail(w[1])))
    else if |w| == 4 then
      && Tail(w[2]) && Tail(w[3])
      && ((w[0] == 0xF0 && 0x90 <= w[1] <= 0xBF) || (0xF1 <= w[0] <= 0xF3 && Tail(w[1]))
          || (w[0] == 0xF4 && 0x80 <= w[1] <= 0x8F))
    else false
  }

  /** The loop's checks on one character are the byte ranges of the standard. */
  lemma AcceptedIsChar(w: seq<byte>)
    ensures Accepted(w) <==> Char(w)
  {
    hide Value;
    if |w| == 1 {
      if w[0] < 0x80 {
        OneByte(w);
      }
    } else if |w| == 2 {
      Value2(w);
    } else if |w| == 3 {
      Value3(w);
      ThreeBytes(w);
    } else if |w| == 4 {
      Value4(w);
      FourBytesChar(w);
    }
  }

  lemma ThreeBytes(w: seq<byte>)
    requires |w| == 3 && Value(w) == LeadBits(w[0]) * 0x1000 + Low6(w[1]) * 0x40 + Low6(w[2])
    ensures Accepted(w) <==> Char(w)
  {
    hide Value;
    assert Shape(w) <==> 0xE0 <= w[0] <= 0xEF && Tail(w[1]) && Tail(w[2]);
    if Shape(w) {
      assert LeadBits(w[0]) == w[0] as int - 0xE0;
      assert Low6(w[1]) == w[1] as int - 0x80 && Low6(w[2]) == w[2] as int - 0x80;
    }
  }

  lemma FourBytesChar(w: seq<byte>)
    requires |w| == 4
    requires Value(w) == LeadBits(w[0]) * 0x4_0000 + Low6(w[1]) * 0x1000 + Low6(w[2]) * 0x40 + Low6(w[3])
    ensures Accepted(w) <==> Char(w)
  {
    hide Value;
    assert Shape(w) <==> 0xF0 <= w[0] <= 0xF7 && Tail(w[1]) && Tail(w[2]) && Tail(w[3]);
    if Shape(w) {
      assert LeadBits(w[0]) == w[0] as int - 0xF0;
      assert Low6(w[1]) == w[1] as int - 0x80 && Low6(w[2]) == w[2] as int - 0x80;
      assert Low6(w[3]) == w[3] as int - 0x80;
    }
  }
}
