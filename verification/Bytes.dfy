/** Bytes, and the fixed-width little-endian integers of the file formats. */
module Bytes {

  type byte = x: int | 0 <= x < 256

  /** The 2^(8n) for a width of n bytes. */
  function Pow256(n: nat): (r: int)
    ensures r >= 1
  {
    if n == 0 then 1 else 256 * Pow256(n - 1)
  }

  lemma Pow256Values()
    ensures Pow256(2) == 0x1_0000
    ensures Pow256(4) == 0x1_0000_0000
    ensures Pow256(8) == 0x1_0000_0000_0000_0000
    ensures Pow256(12) == 0x1_0000_0000_0000_0000_0000_0000
  {
    assert Pow256(2) == 256 * Pow256(1);
    assert Pow256(4) == 256 * Pow256(3) == 65536 * Pow256(2);
    assert Pow256(6) == 256 * Pow256(5) == 65536 * Pow256(4);
    assert Pow256(8) == 256 * Pow256(7) == 65536 * Pow256(6);
    assert Pow256(10) == 256 * Pow256(9) == 65536 * Pow256(8);
    assert Pow256(12) == 256 * Pow256(11) == 65536 * Pow256(10);
  }

  /** The unsigned value of little-endian bytes. */
  function FromLE(s: seq<byte>): (v: nat)
    ensures v < Pow256(|s|)
  {
    if s == [] then 0 else s[0] + 256 * FromLE(s[1..])
  }

  /** The `n` low bytes of `v`, little-endian; higher bits are dropped as a C store drops them. */
  function ToLE(v: nat, n: nat): (s: seq<byte>)
    ensures |s| == n
  {
    if n == 0 then [] else [v % 256] + ToLE(v / 256, n - 1)
  }

  lemma {:induction false} FromToLE(v: nat, n: nat)
    requires v < Pow256(n)
    ensures FromLE(ToLE(v, n)) == v
  {
    if n == 0 {
    } else {
      assert v / 256 < Pow256(n - 1);
      FromToLE(v / 256, n - 1);
      assert ToLE(v, n)[1..] == ToLE(v / 256, n - 1);
    }
  }

  lemma {:induction false} ToFromLE(s: seq<byte>)
    ensures ToLE(FromLE(s), |s|) == s
  {
    if s == [] {
    } else {
      ToFromLE(s[1..]);
      assert FromLE(s) % 256 == s[0] && FromLE(s) / 256 == FromLE(s[1..]);
    }
  }

  /** Two's complement reading of an unsigned value of `n` bytes. */
  function Signed(v: nat, n: nat): (i: int)
  {
    if 2 * v < Pow256(n) then v else v - Pow256(n)
  }

  function SignedLE(s: seq<byte>): (i: int)
    ensures -Pow256(|s|) <= 2 * i < Pow256(|s|)
  {
    Signed(FromLE(s), |s|)
  }

  /** Four bytes, the first counting ones and each further one 256 times as much as the one before it. */
  function Word(s: seq<byte>): int
    requires |s| == 4
  {
    s[0] as int + 0x100 * s[1] as int + 0x1_0000 * s[2] as int + 0x100_0000 * s[3] as int
  }

  lemma {:induction false} FourBytes(s: seq<byte>)
    requires |s| == 4
    ensures FromLE(s) == Word(s)
    ensures SignedLE(s) == Word(s) - if s[3] < 0x80 then 0 else 0x1_0000_0000
  {
    Pow256Values();
    assert FromLE(s[4..]) == 0;
    assert FromLE(s[3..]) == s[3] && s[3..][1..] == s[4..];
    assert FromLE(s[2..]) == s[2] + 256 * FromLE(s[3..]) && s[2..][1..] == s[3..];
    assert FromLE(s[1..]) == s[1] + 256 * FromLE(s[2..]) && s[1..][1..] == s[2..];
  }

  lemma {:induction false} EightBytes(s: seq<byte>)
    requires |s| == 8
    ensures FromLE(s) == Word(s[..4]) + 0x1_0000_0000 * Word(s[4..])
    ensures SignedLE(s) == FromLE(s) - if s[7] < 0x80 then 0 else 0x1_0000_0000_0000_0000
  {
    Pow256Values();
    FourBytes(s[4..]);
    assert FromLE(s[3..]) == s[3] + 256 * FromLE(s[4..]) && s[3..][1..] == s[4..];
    assert FromLE(s[2..]) == s[2] + 256 * FromLE(s[3..]) && s[2..][1..] == s[3..];
    assert FromLE(s[1..]) == s[1] + 256 * FromLE(s[2..]) && s[1..][1..] == s[2..];
  }

  lemma {:induction false} Scale(a: nat, b: nat, p: nat)
    ensures 0 <= a * p
    ensures a <= b ==> a * p <= b * p
    ensures a < b ==> a * p + p <= b * p
    decreases b
  {
    if 0 < a && 0 < b {
      Scale(a - 1, b - 1, p);
    } else if 0 < b {
      Scale(0, b - 1, p);
    }
    assert b > 0 ==> b * p == (b - 1) * p + p;
    assert a > 0 ==> a * p == (a - 1) * p + p;
  }

  /** The big-endian value of bytes: the integer whose order is memcmp's order. */
  function FromBE(s: seq<byte>): (v: nat)
    ensures v < Pow256(|s|)
  {
    if s == [] then 0
    else
      var p := Pow256(|s| - 1);
      Scale(s[0], 255, p);
      s[0] * p + FromBE(s[1..])
  }
}
