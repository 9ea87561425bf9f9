/** The portable 64x64-bit multiplication of wyhash, built from 32-bit halves. */
module Wyhash {
  import opened Words

  // Unsigned 64-bit arithmetic drops whatever does not fit.
  function Wrap(x: int): Uint64 { x % W64 }

  function Carry(sum: Uint64, part: Uint64): Uint64 {
    if sum < part then 1 else 0
  }

  // Comparing a wrapped sum with one of its parts recovers the lost bit.
  lemma CarryIsLostBit(x: Uint64, y: Uint64)
    ensures Wrap(x + y) + Carry(Wrap(x + y), x) * W64 == x + y
  {}

  lemma MulGrows(x: int, m: int, y: int)
    requires 0 <= x <= m && 0 <= y
    ensures 0 <= x * y <= m * y
  {}

  lemma HalfProduct(x: int, y: int)
    requires 0 <= x < W32 && 0 <= y < W32
    ensures 0 <= x * y <= (W32 - 1) * (W32 - 1)
  {
    MulGrows(x, W32 - 1, y);
  }

  lemma Expand(ha: int, la: int, hb: int, lb: int)
    ensures (ha * W32 + la) * (hb * W32 + lb) == ha * hb * W64 + (ha * lb + hb * la) * W32 + la * lb
  {}

  lemma ProductFits(a: Uint64, b: Uint64)
    ensures 0 <= a * b <= (W64 - 1) * (W64 - 1)
  {
    MulGrows(a, W64 - 1, b);
  }

  lemma Shifted(x: Uint64)
    ensures (x / W32) * W64 + Wrap(x * W32) == x * W32
  {}

  // The four partial products, shifted into place and added with their carries.
  lemma Gather(rh: Uint64, rm0: Uint64, rm1: Uint64, rl: Uint64, product: int)
    requires product == rh * W64 + (rm0 + rm1) * W32 + rl
    requires 0 <= product <= (W64 - 1) * (W64 - 1)
    ensures var s0, s1 := Wrap(rm0 * W32), Wrap(rm1 * W32);
            var t := Wrap(rl + s0);
            var lo := Wrap(t + s1);
            var hi := rh + rm0 / W32 + rm1 / W32 + Carry(t, rl) + Carry(lo, t);
            hi * W64 + lo == product && Wrap(hi) == hi
  {
    var s0, s1 := Wrap(rm0 * W32), Wrap(rm1 * W32);
    var t := Wrap(rl + s0);
    CarryIsLostBit(rl, s0);
    CarryIsLostBit(t, s1);
    Shifted(rm0);
    Shifted(rm1);
  }

  function Times(x: Uint64, y: Uint64): int { x * y }

  lemma Halves(a: Uint64, b: Uint64)
    ensures var ha, hb, la, lb := a / W32, b / W32, a % W32, b % W32;
            && 0 <= Times(ha, hb) < W64 && 0 <= Times(ha, lb) < W64
            && 0 <= Times(hb, la) < W64 && 0 <= Times(la, lb) < W64
            && Times(a, b) == Times(ha, hb) * W64 + (Times(ha, lb) + Times(hb, la)) * W32 + Times(la, lb)
    ensures 0 <= Times(a, b) <= (W64 - 1) * (W64 - 1)
  {
    var ha, hb, la, lb := a / W32, b / W32, a % W32, b % W32;
    HalfProduct(ha, hb);
    HalfProduct(ha, lb);
    HalfProduct(hb, la);
    HalfProduct(la, lb);
    Expand(ha, la, hb, lb);
    ProductFits(a, b);
  }

  // Low and high word of the exact 128-bit product, no bit lost.
  method Mum(a: Uint64, b: Uint64) returns (lo: Uint64, hi: Uint64)
    ensures hi * W64 + lo == Times(a, b)
  {
    hide Times, Wrap, Carry;
    var ha, hb, la, lb := a / W32, b / W32, a % W32, b % W32;
    Halves(a, b);
    var rh: Uint64, rm0: Uint64, rm1: Uint64, rl: Uint64 := Times(ha, hb), Times(ha, lb), Times(hb, la), Times(la, lb);
    Gather(rh, rm0, rm1, rl, Times(a, b));
    var t := Wrap(rl + Wrap(rm0 * W32));
    var c := Carry(t, rl);
    lo := Wrap(t + Wrap(rm1 * W32));
    c := c + Carry(lo, t);
    hi := Wrap(rh + rm0 / W32 + rm1 / W32 + c);
    assert rh + rm0 / W32 + rm1 / W32 + c == rh + rm0 / W32 + rm1 / W32 + Carry(t, rl) + Carry(lo, t);
  }
}
