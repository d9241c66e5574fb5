/**
  * The 13-byte index key and its comparison (bson_btree_key_cmp).
  *
  * The comparison is a C-style three-way function with one case per tag.  It is
  * shown to be the order of one integer per key, `Rank`, and therefore a total
  * preorder; the tree modules reason about keys through `Rank` alone.
  */
module KeyOrder {
  import opened Bytes

  const KEY_SIZE := 13
  const TAG_NULL := 0
  const TAG_BOOL := 1
  const TAG_INT := 2
  const TAG_DOUBLE := 3
  const TAG_DATETIME := 4
  const TAG_OBJECTID := 5

  /** Magnitude above which the bits of a double are a NaN (the bits of infinity). */
  const INFINITY_BITS := 0x7FF0_0000_0000_0000

  const SIGN_BIT := 0x8000_0000_0000_0000

  /** The payload of a number key: bytes 1..9, little-endian. */
  function Raw64(k: seq<byte>): (v: nat)
    requires |k| == KEY_SIZE
    ensures v < 0x1_0000_0000_0000_0000
  {
    Pow256Values();
    FromLE(k[1..9])
  }

  predicate IsNaN(bits: nat) {
    (if bits >= SIGN_BIT then bits - SIGN_BIT else bits) > INFINITY_BITS
  }

  /** A key as index.py builds it: 13 bytes, and never a NaN (encode_btree_key refuses one). */
  type Key = k: seq<byte> | |k| == KEY_SIZE && (k[0] == TAG_DOUBLE ==> !IsNaN(Raw64(k)))
    witness seq(13, i => 0)

  /** `<` on non-NaN IEEE 754 doubles, on their bits: sign and magnitude, with the two zeros equal. */
  function DoubleValue(bits: nat): (v: int)
  {
    if bits >= SIGN_BIT then SIGN_BIT - bits else bits
  }

  function Int64(bits: nat): int {
    if bits < SIGN_BIT then bits else bits - 2 * SIGN_BIT
  }

  function ThreeWay(a: int, b: int): int {
    if a < b then -1 else if a > b then 1 else 0
  }

  /** memcmp of two equally long byte strings. */
  function MemCmp(a: seq<byte>, b: seq<byte>): int
    requires |a| == |b|
  {
    if a == [] then 0
    else if a[0] != b[0] then a[0] - b[0]
    else MemCmp(a[1..], b[1..])
  }

  /** bson_btree_key_cmp. */
  function Cmp(a: Key, b: Key): int {
    if a[0] != b[0] then a[0] - b[0]
    else if a[0] == TAG_NULL then 0
    else if a[0] == TAG_BOOL then a[1] - b[1]
    else if a[0] == TAG_INT || a[0] == TAG_DATETIME then ThreeWay(Int64(Raw64(a)), Int64(Raw64(b)))
    else if a[0] == TAG_DOUBLE then ThreeWay(DoubleValue(Raw64(a)), DoubleValue(Raw64(b)))
    else if a[0] == TAG_OBJECTID then MemCmp(a[1..13], b[1..13])
    else MemCmp(a, b)
  }

  const PAYLOADS := 0x1_0000_0000_0000_0000_0000_0000

  function SubRank(k: Key): (r: int)
    ensures 0 <= r < PAYLOADS
  {
    Pow256Values();
    if k[0] == TAG_NULL then 0
    else if k[0] == TAG_BOOL then k[1]
    else if k[0] == TAG_INT || k[0] == TAG_DATETIME then Int64(Raw64(k)) + SIGN_BIT
    else if k[0] == TAG_DOUBLE then DoubleValue(Raw64(k)) + SIGN_BIT
    else FromBE(k[1..])
  }

  /** One integer per key; keys compare as these integers do. */
  function Rank(k: Key): int {
    k[0] * PAYLOADS + SubRank(k)
  }

  lemma {:induction false} MemCmpIsBigEndian(a: seq<byte>, b: seq<byte>)
    requires |a| == |b|
    ensures MemCmp(a, b) < 0 <==> FromBE(a) < FromBE(b)
    ensures MemCmp(a, b) == 0 <==> FromBE(a) == FromBE(b)
    ensures FromBE(a) == FromBE(b) ==> a == b
  {
    if a == [] {
    } else {
      MemCmpIsBigEndian(a[1..], b[1..]);
      var p := Pow256(|a| - 1);
      Scale(a[0], b[0], p);
      Scale(b[0], a[0], p);
      if a[0] == b[0] {
        assert a == [a[0]] + a[1..] && b == [b[0]] + b[1..];
      }
    }
  }

  /** The comparison of the C code is the order of `Rank`. */
  lemma CmpIsRankOrder(a: Key, b: Key)
    ensures Cmp(a, b) < 0 <==> Rank(a) < Rank(b)
    ensures Cmp(a, b) == 0 <==> Rank(a) == Rank(b)
    ensures Cmp(a, b) > 0 <==> Rank(a) > Rank(b)
  {
    if a[0] == b[0] {
      MemCmpIsBigEndian(a[1..], b[1..]);
      assert a[1..13] == a[1..] && b[1..13] == b[1..];
    }
  }

  /** Hence it is a total preorder on index keys. */
  lemma CmpIsTotalPreorder(a: Key, b: Key, c: Key)
    ensures Cmp(a, a) == 0
    ensures Cmp(a, b) < 0 <==> Cmp(b, a) > 0
    ensures Cmp(a, b) <= 0 && Cmp(b, c) <= 0 ==> Cmp(a, c) <= 0
    ensures Cmp(a, b) == 0 && Cmp(b, c) == 0 ==> Cmp(a, c) == 0
  {
    CmpIsRankOrder(a, a);
    CmpIsRankOrder(a, b);
    CmpIsRankOrder(b, a);
    CmpIsRankOrder(b, c);
    CmpIsRankOrder(a, c);
  }
}
