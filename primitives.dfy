/**
  The primitive three-way comparators of compare.go: booleans, signed and
  unsigned 32/64-bit integers, and 16-byte blocks compared as two big-endian
  unsigned 64-bit halves.
 */
module Primitives {
  import opened Values
  import opened Orderings

  /** false sorts before true. */
  function CompareBool(v1: bool, v2: bool): (r: int)
    ensures -1 <= r <= 1
    ensures r < 0 <==> !v1 && v2
    ensures r > 0 <==> v1 && !v2
    ensures r == 0 <==> v1 == v2
  {
    if !v1 && v2 then -1
    else if v1 && !v2 then 1
    else 0
  }

  function CompareInt32(v1: int32, v2: int32): (r: int)
    ensures -1 <= r <= 1
    ensures r < 0 <==> v1 < v2
    ensures r == 0 <==> v1 == v2
  {
    if v1 < v2 then -1 else if v1 > v2 then 1 else 0
  }

  function CompareInt64(v1: int64, v2: int64): (r: int)
    ensures -1 <= r <= 1
    ensures r < 0 <==> v1 < v2
    ensures r == 0 <==> v1 == v2
  {
    if v1 < v2 then -1 else if v1 > v2 then 1 else 0
  }

  function CompareUint32(v1: uint32, v2: uint32): (r: int)
    ensures -1 <= r <= 1
    ensures r < 0 <==> v1 < v2
    ensures r == 0 <==> v1 == v2
  {
    if v1 < v2 then -1 else if v1 > v2 then 1 else 0
  }

  function CompareUint64(v1: uint64, v2: uint64): (r: int)
    ensures -1 <= r <= 1
    ensures r < 0 <==> v1 < v2
    ensures r == 0 <==> v1 == v2
  {
    if v1 < v2 then -1 else if v1 > v2 then 1 else 0
  }

  /** Each primitive comparator is an ordering on its domain. */
  lemma PrimitivesAreOrderings()
    ensures IsOrdering(CompareBool)
    ensures IsOrdering(CompareInt32) && IsOrdering(CompareInt64)
    ensures IsOrdering(CompareUint32) && IsOrdering(CompareUint64)
  {
  }

  // ---------------------------------------------------------------------
  // 16-byte blocks

  type Block16 = s: seq<uint8> | |s| == 16 witness seq(16, _ => 0 as uint8)

  function Pow256(n: nat): (p: nat)
    ensures p > 0
  {
    if n == 0 then 1 else 256 * Pow256(n - 1)
  }

  /** The unsigned integer a byte sequence denotes when read most
      significant byte first. */
  function BigEndian(s: seq<uint8>): nat {
    if s == [] then 0 else s[0] as nat * Pow256(|s| - 1) + BigEndian(s[1..])
  }

  lemma {:induction false} BigEndianBound(s: seq<uint8>)
    ensures BigEndian(s) < Pow256(|s|)
  {
    if s != [] {
      BigEndianBound(s[1..]);
      var p := Pow256(|s| - 1);
      MulMonotonic(s[0] as nat, 255, p);
      assert Pow256(|s|) == 255 * p + p;
    }
  }

  lemma MulMonotonic(x: nat, y: nat, p: nat)
    requires x <= y
    ensures x * p <= y * p
  {
    assert y * p == x * p + (y - x) * p;
  }

  /** binary.BigEndian.Uint64: eight bytes, most significant first. */
  function BigEndianUint64(b: seq<uint8>): (r: uint64)
    requires |b| == 8
    ensures r as int == BigEndian(b)
  {
    BigEndianBound(b);
    assert Pow256(8) == 0x1_0000_0000_0000_0000;
    BigEndian(b) as uint64
  }

  /** Natural order on bytes, the element order for unsigned
      lexicographic comparison. */
  function CompareByte(x: uint8, y: uint8): int {
    CompareInt(x as int, y as int)
  }

  function CompareBE128(v1: Block16, v2: Block16): (r: int)
    ensures -1 <= r <= 1
  {
    var x := BigEndianUint64(v1[..8]);
    var y := BigEndianUint64(v2[..8]);
    if x < y then -1
    else if x > y then 1
    else
      var x' := BigEndianUint64(v1[8..]);
      var y' := BigEndianUint64(v2[8..]);
      if x' < y' then -1
      else if x' > y' then 1
      else 0
  }

  function LessBE128(v1: Block16, v2: Block16): (r: bool)
    ensures r <==> CompareBE128(v1, v2) < 0
  {
    var x := BigEndianUint64(v1[..8]);
    var y := BigEndianUint64(v2[..8]);
    if x < y then true
    else if x > y then false
    else
      var x' := BigEndianUint64(v1[8..]);
      var y' := BigEndianUint64(v2[8..]);
      x' < y'
  }

  /** For sequences of one length, unsigned lexicographic byte order is the
      order of the big-endian integers they denote. */
  lemma {:induction false} LexBytesIsBigEndianOrder(a: seq<uint8>, b: seq<uint8>)
    requires |a| == |b|
    ensures LexCompare(CompareByte, a, b) == CompareInt(BigEndian(a), BigEndian(b))
    decreases |a|
  {
    if |a| > 0 {
      LexBytesIsBigEndianOrder(a[1..], b[1..]);
      var p := Pow256(|a| - 1);
      BigEndianBound(a[1..]);
      BigEndianBound(b[1..]);
      if a[0] < b[0] {
        HeadDecides(a, b);
      } else if a[0] > b[0] {
        HeadDecides(b, a);
      }
    }
  }

  /** A smaller leading byte gives a smaller big-endian value, whatever the
      rest holds. */
  lemma HeadDecides(a: seq<uint8>, b: seq<uint8>)
    requires |a| == |b| > 0 && a[0] < b[0]
    ensures BigEndian(a) < BigEndian(b)
  {
    var p := Pow256(|a| - 1);
    BigEndianBound(a[1..]);
    assert BigEndian(a) < a[0] as nat * p + p;
    MulMonotonic(a[0] as nat + 1, b[0] as nat, p);
    assert (a[0] as nat + 1) * p == a[0] as nat * p + p;
  }

  /** compareBE128 is unsigned lexicographic order on the 16 bytes. */
  lemma BE128IsLexicographic(v1: Block16, v2: Block16)
    ensures CompareBE128(v1, v2) == LexCompare(CompareByte, v1, v2)
  {
    assert v1 == v1[..8] + v1[8..] && v2 == v2[..8] + v2[8..];
    LexAppend(CompareByte, v1[..8], v1[8..], v2[..8], v2[8..]);
    LexBytesIsBigEndianOrder(v1[..8], v2[..8]);
    LexBytesIsBigEndianOrder(v1[8..], v2[8..]);
  }

  /** compareBE128 is the order of the blocks read as big-endian unsigned
      128-bit integers. */
  lemma BE128IsBigEndianOrder(v1: Block16, v2: Block16)
    ensures CompareBE128(v1, v2) == CompareInt(BigEndian(v1), BigEndian(v2))
  {
    BE128IsLexicographic(v1, v2);
    LexBytesIsBigEndianOrder(v1, v2);
  }

  /** Equal high halves leave the decision to the low halves, and differing
      high halves decide on their own. */
  lemma BE128Halves(v1: Block16, v2: Block16)
    ensures v1[..8] == v2[..8] ==>
      CompareBE128(v1, v2) == CompareInt(BigEndian(v1[8..]), BigEndian(v2[8..]))
    ensures BigEndian(v1[..8]) != BigEndian(v2[..8]) ==>
      CompareBE128(v1, v2) == CompareInt(BigEndian(v1[..8]), BigEndian(v2[..8]))
  {
  }

  lemma BE128IsOrdering()
    ensures IsOrdering(CompareBE128)
  {
    forall v1: Block16, v2: Block16 ensures CompareBE128(v1, v2) == -CompareBE128(v2, v1) {
      BE128IsBigEndianOrder(v1, v2);
      BE128IsBigEndianOrder(v2, v1);
    }
    forall v1: Block16, v2: Block16, v3: Block16 | CompareBE128(v1, v2) <= 0 && CompareBE128(v2, v3) <= 0
      ensures CompareBE128(v1, v3) <= 0
    {
      BE128IsBigEndianOrder(v1, v2);
      BE128IsBigEndianOrder(v2, v3);
      BE128IsBigEndianOrder(v1, v3);
    }
  }
}
