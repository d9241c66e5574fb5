/**
  * The number an eight-byte float stands for (IEEE 754-2008, section 3.4, binary64), as an integer
  * in units of 2^-1074, and the order of float keys in those terms.
  */
module Doubles {
  import opened Bytes
  import opened KeyOrder

  function Pow2(n: nat): (p: nat)
    ensures p > 0
  {
    if n == 0 then 1 else 2 * Pow2(n - 1)
  }

  /** Exponent and fraction fields together: the bits without the sign. */
  function Unsigned(bits: nat): nat {
    if bits >= SIGN_BIT then bits - SIGN_BIT else bits
  }

  /** The magnitude of a finite double, in units of 2^-1074. */
  function Magnitude(bits: nat): nat {
    var m := Unsigned(bits);
    var exponent, fraction := m / 0x10_0000_0000_0000, m % 0x10_0000_0000_0000;
    if exponent == 0 then fraction else (0x10_0000_0000_0000 + fraction) * Pow2(exponent - 1)
  }

  function SignedMagnitude(bits: nat): int {
    var m: int := Magnitude(bits);
    if bits >= SIGN_BIT then -m else m
  }

  predicate IsFinite(bits: nat) {
    Unsigned(bits) < INFINITY_BITS
  }

  // ---------------------------------------------------------------- what the fields mean

  lemma {:induction false} Pow2Sum(a: nat, b: nat)
    ensures Pow2(a + b) == Pow2(a) * Pow2(b)
  {
    if a == 0 {
    } else {
      Pow2Sum(a - 1, b);
      assert Pow2(a + b) == 2 * (Pow2(a - 1) * Pow2(b));
    }
  }

  lemma Pow2Four()
    ensures Pow2(4) == 16
  {
  }

  lemma Pow2Fifty()
    ensures Pow2(52) == 0x10_0000_0000_0000
  {
    hide Pow2;
    Pow2Four();
    Pow2Sum(4, 4);
    Pow2Sum(8, 8);
    Pow2Sum(16, 16);
    Pow2Sum(32, 16);
    Pow2Sum(48, 4);
  }

  /** The magnitudes of zero, of 1.0 and of infinity, which continues them as 2^1024. */
  lemma MagnitudesKnown()
    ensures Magnitude(0) == 0
    ensures Magnitude(0x3FF0_0000_0000_0000) == Pow2(1074)
    ensures Magnitude(0x7FF0_0000_0000_0000) == Pow2(1024 + 1074)
  {
    hide Pow2;
    Pow2Fifty();
    Pow2Sum(52, 1022);
    Pow2Sum(52, 2046);
  }

  /**
    * From one double to the next the magnitude grows by one unit in the last place: 1 below the
    * second binade and twice as much in each binade after it.
    */
  lemma MagnitudeSteps(m: nat)
    requires m < INFINITY_BITS
    ensures Magnitude(m + 1) == Magnitude(m) + if m < 0x20_0000_0000_0000 then 1 else Pow2(m / 0x10_0000_0000_0000 - 1)
  {
    var e, f := m / 0x10_0000_0000_0000, m % 0x10_0000_0000_0000;
    if e > 0 {
      hide Magnitude, Pow2;
      NextInBinade(e, f, m);
    } else {
      FirstBinade(m);
    }
  }

  lemma FirstBinade(m: nat)
    requires m < 0x10_0000_0000_0000
    ensures Magnitude(m) == m && Magnitude(m + 1) == m + 1
  {
    if m + 1 == 0x10_0000_0000_0000 {
      assert (m + 1) / 0x10_0000_0000_0000 == 1 && Pow2(0) == 1;
    }
  }

  lemma NextInBinade(e: nat, f: nat, m: nat)
    requires e > 0 && f < 0x10_0000_0000_0000 && m == 0x10_0000_0000_0000 * e + f && m < INFINITY_BITS
    ensures Magnitude(m + 1) == Magnitude(m) + Pow2(e - 1)
    ensures m < 0x20_0000_0000_0000 ==> e == 1 && Pow2(e - 1) == 1
  {
    var p := Pow2(e - 1);
    assert m / 0x10_0000_0000_0000 == e && m % 0x10_0000_0000_0000 == f;
    if f + 1 < 0x10_0000_0000_0000 {
      assert (m + 1) / 0x10_0000_0000_0000 == e && (m + 1) % 0x10_0000_0000_0000 == f + 1;
      assert (0x10_0000_0000_0000 + f + 1) * p == (0x10_0000_0000_0000 + f) * p + p;
    } else {
      assert (m + 1) / 0x10_0000_0000_0000 == e + 1 && (m + 1) % 0x10_0000_0000_0000 == 0;
      assert Pow2(e) == 2 * p;
      assert 0x20_0000_0000_0000 * p == (0x10_0000_0000_0000 + f) * p + p;
    }
  }

  /** A NaN has every exponent bit set and some fraction bit; an infinity has no fraction bit. */
  lemma NaNIff(bits: nat)
    requires bits < 0x1_0000_0000_0000_0000
    ensures var exponent, fraction := bits / 0x10_0000_0000_0000 % 0x800, bits % 0x10_0000_0000_0000;
            && (IsNaN(bits) <==> exponent == 0x7FF && fraction != 0)
            && (!IsNaN(bits) && !IsFinite(bits) <==> exponent == 0x7FF && fraction == 0)
  {
    var m := Unsigned(bits);
    assert bits / 0x10_0000_0000_0000 % 0x800 == m / 0x10_0000_0000_0000;
    assert bits % 0x10_0000_0000_0000 == m % 0x10_0000_0000_0000;
  }

  // ---------------------------------------------------------------- the order

  lemma {:induction false} MagnitudeGrows(m: nat, n: nat)
    requires m < n <= INFINITY_BITS
    ensures Magnitude(m) < Magnitude(n)
    decreases n
  {
    hide Magnitude, Pow2;
    MagnitudeSteps(n - 1);
    if m < n - 1 {
      MagnitudeGrows(m, n - 1);
    }
  }

  lemma SignDropped(bits: nat)
    requires !IsNaN(bits)
    ensures Magnitude(bits) == Magnitude(Unsigned(bits))
  {
    hide Pow2;
    assert Unsigned(Unsigned(bits)) == Unsigned(bits);
  }

  lemma Signless(bits: nat)
    requires !IsNaN(bits)
    ensures Magnitude(bits) == Magnitude(Unsigned(bits)) && Unsigned(bits) <= INFINITY_BITS
    ensures Unsigned(bits) == 0 ==> Magnitude(bits) == 0
    ensures Unsigned(bits) > 0 ==> Magnitude(bits) > 0
  {
    hide Magnitude, Pow2;
    SignDropped(bits);
    MagnitudesKnown();
    if Unsigned(bits) > 0 {
      MagnitudeGrows(0, Unsigned(bits));
    }
  }

  /** The integer that keys compare by is in the order of the numbers, infinities at the ends. */
  lemma ValueOrder(x: nat, y: nat)
    requires !IsNaN(x) && !IsNaN(y)
    ensures DoubleValue(x) < DoubleValue(y) <==> SignedMagnitude(x) < SignedMagnitude(y)
    ensures DoubleValue(x) == DoubleValue(y) <==> SignedMagnitude(x) == SignedMagnitude(y)
  {
    hide Magnitude, Pow2;
    var m, n := Unsigned(x), Unsigned(y);
    Signless(x);
    Signless(y);
    if m < n {
      MagnitudeGrows(m, n);
    } else if n < m {
      MagnitudeGrows(n, m);
    }
  }

  /** Float keys compare as the numbers do; the two zeros are equal and the infinities at the ends. */
  lemma DoublesInOrder(a: Key, b: Key)
    requires a[0] == b[0] == 3
    ensures var x, y := Raw64(a), Raw64(b);
            && (Cmp(a, b) < 0 <==> SignedMagnitude(x) < SignedMagnitude(y))
            && (Cmp(a, b) == 0 <==> SignedMagnitude(x) == SignedMagnitude(y))
            && (Cmp(a, b) > 0 <==> SignedMagnitude(x) > SignedMagnitude(y))
            && (x == 0x7FF0_0000_0000_0000 ==> Cmp(a, b) >= 0 && (Cmp(a, b) == 0 <==> y == x))
            && (x == 0xFFF0_0000_0000_0000 ==> Cmp(a, b) <= 0 && (Cmp(a, b) == 0 <==> y == x))
            && (x == 0 && y == 0x8000_0000_0000_0000 ==> Cmp(a, b) == 0)
  {
    hide SignedMagnitude, Raw64;
    ValueOrder(Raw64(a), Raw64(b));
    ValueOrder(Raw64(b), Raw64(a));
  }
}
