/** Machine words, their little-endian bytes and the range checks on displacements. */
module Words {

  const W32: int := 0x1_0000_0000
  const W64: int := 0x1_0000_0000_0000_0000
  const MAX32: int := 0xFFFF_FFFF

  type Byte = x: int | 0 <= x < 256
  type Uint32 = x: int | 0 <= x < W32
  type Uint64 = x: int | 0 <= x < W64

  // A byte displacement that is sign-extended to 32 bits, a word that is sign-extended to 64.
  predicate IsInDisp8(x: int) { 0xFFFF_FF80 <= x || x <= 0x7F }

  predicate IsInInt32(x: Uint64) { W64 - 0x8000_0000 <= x || x <= 0x7FFF_FFFF }

  function Sext8(x: int): int { if x < 0x80 then x else x - 0x100 }

  function Sext32(x: int): int { if x < 0x8000_0000 then x else x - W32 }

  // The n low bytes of v, lowest first.
  function LE(v: nat, n: nat): (r: seq<Byte>)
    ensures |r| == n
  {
    if n == 0 then [] else [v % 256] + LE(v / 256, n - 1)
  }

  function ReadLE(bytes: seq<Byte>): nat {
    if bytes == [] then 0 else bytes[0] as int + 256 * ReadLE(bytes[1..])
  }

  lemma LE1(v: nat)
    ensures LE(v, 1) == [v % 256]
  {}

  lemma ReadLE1(v: nat)
    ensures ReadLE(LE(v, 1)) == v % 256
  {}

  lemma ReadLEStep(v: nat, n: nat)
    requires n > 0
    ensures ReadLE(LE(v, n)) == v % 256 + 256 * ReadLE(LE(v / 256, n - 1))
  {}

  // A 32-bit word that was written is read back.
  lemma ReadLE4(v: nat)
    requires v < W32
    ensures ReadLE(LE(v, 4)) == v
  {
    var v1 := v / 256;
    var v2 := v1 / 256;
    ReadLEStep(v, 4);
    ReadLEStep(v1, 3);
    ReadLEStep(v2, 2);
    ReadLE1(v2 / 256);
  }

  lemma DropByte(v: nat)
    ensures v % 0x1_0000 / 256 == v / 256 % 0x100 && v % 0x1_0000 % 256 == v % 256
    ensures v % 0x100_0000 / 256 == v / 256 % 0x1_0000 && v % 0x100_0000 % 256 == v % 256
    ensures v % W32 / 256 == v / 256 % 0x100_0000 && v % W32 % 256 == v % 256
  {
    DropByteFrom(v, v / 0x1_0000, v % 0x1_0000, 0x100);
    DropByteFrom(v, v / 0x100_0000, v % 0x100_0000, 0x1_0000);
    DropByteFrom(v, v / W32, v % W32, 0x100_0000);
  }

  lemma DropByteFrom(v: nat, q: nat, r: nat, m: nat)
    requires m in {0x100, 0x1_0000, 0x100_0000} && v == q * (256 * m) + r && r < 256 * m
    ensures r / 256 == v / 256 % m && r % 256 == v % 256
  {
    var x, y := r / 256, r % 256;
    assert v == 256 * (q * m + x) + y;
    assert v / 256 == q * m + x;
    ModOfSum(q, x, m);
  }

  lemma ModOfSum(q: nat, x: nat, m: nat)
    requires x < m && m in {0x100, 0x1_0000, 0x100_0000}
    ensures (q * m + x) % m == x
  {}

  // Four bytes keep a number modulo 2^32.
  lemma LE4(v: nat)
    ensures LE(v, 4) == LE(v % W32, 4)
  {
    var v1 := v / 256;
    var v2 := v1 / 256;
    var v3 := v2 / 256;
    DropByte(v);
    DropByte(v1);
    DropByte(v2);
    LE1(v3);
    LE1(v3 % 256);
    assert LE(v2, 2) == LE(v2 % 0x1_0000, 2);
    assert LE(v1, 3) == LE(v1 % 0x100_0000, 3);
  }
}
