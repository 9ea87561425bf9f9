/** The greatest common divisor, as a divisor and as a combination. */
module Gcds {

  function Gcd(a: nat, b: nat): (g: nat)
    ensures a > 0 || b > 0 ==> g > 0
    decreases b
  {
    if b == 0 then a else Gcd(b, a % b)
  }

  lemma {:induction false} GcdDivides(a: nat, b: nat) returns (k: nat, l: nat)
    ensures a == k * Gcd(a, b) && b == l * Gcd(a, b)
    decreases b
  {
    if b == 0 {
      k, l := 1, 0;
    } else {
      var g, q := Gcd(b, a % b), a / b;
      var k', l' := GcdDivides(b, a % b);
      k, l := q * k' + l', k';
      assert a == q * b + a % b;
      assert q * (k' * g) + l' * g == (q * k' + l') * g;
    }
  }

  lemma {:induction false} Bezout(a: nat, b: nat) returns (x: int, y: int)
    ensures a * x + b * y == Gcd(a, b)
    decreases b
  {
    if b == 0 {
      x, y := 1, 0;
    } else {
      var q := a / b;
      var x', y' := Bezout(b, a % b);
      x, y := y', x' - q * y';
      assert (a - q * b) * y' == a * y' - q * b * y' == a * y' - b * (q * y');
      assert b * (x' - q * y') == b * x' - b * (q * y');
      assert a % b == a - q * b;
    }
  }

  // Numbers that differ by a multiple of n have the same remainder.
  lemma SameRemainder(x: int, y: int, n: int, k: int)
    requires n > 0 && x == y + n * k
    ensures x % n == y % n
  {
    var p, q := x / n, y / n;
    assert x % n - y % n == n * (q + k - p) by {
      assert x == n * p + x % n && y == n * q + y % n;
      assert n * q + n * k - n * p == n * (q + k - p);
    }
    NoMultipleBetween(q + k - p, x % n - y % n, n);
  }

  lemma NoMultipleBetween(k: int, d: int, n: int)
    requires d == n * k && -n < d < n
    ensures d == 0
  {
    MultiplesGrow(n, k);
  }

  lemma MultiplesGrow(n: int, k: int)
    requires n > 0
    ensures (k > 0 ==> n * k >= n) && (k < 0 ==> n * k <= -n)
  {
    if k > 0 {
      assert n * (k - 1) >= 0;
    } else if k < 0 {
      assert n * (-k - 1) >= 0;
    }
  }

  lemma Divided(x: int, p: int) returns (q: int, t: int)
    requires p > 0
    ensures x == p * q + t && 0 <= t < p && t == x % p && q == x / p
  {
    q, t := x / p, x % p;
  }

  lemma BelowAlgebra(d: int, t: int, a: int, n: int, k: int, l: int, g: int, q: int, r: int)
    requires a == k * g && n == l * g && d - t * a == n * q + r
    ensures d == r + g * (l * q + t * k)
  {
    assert n * q == g * (l * q);
    assert t * a == g * (t * k);
    assert g * (l * q) + g * (t * k) == g * (l * q + t * k);
  }

  // Steps of a around a ring of n, back from d, never come below the remainder of d by the divisor.
  lemma StepsBelow(d: int, a: nat, n: nat, t: nat)
    requires n > 0
    ensures (d - t * a) % n >= d % Gcd(a, n)
  {
    hide Gcd;
    var g := Gcd(a, n);
    var k, l := GcdDivides(a, n);
    var q, r := (d - t * a) / n, (d - t * a) % n;
    BelowAlgebra(d, t, a, n, k, l, g, q, r);
    SameRemainder(d, r, g, l * q + t * k);
    RemainderIsLess(r, g);
  }

  lemma RemainderIsLess(r: nat, g: nat)
    requires g > 0
    ensures r % g <= r
  {
    var q := r / g;
    assert r == g * q + r % g && g * q >= 0;
  }

  lemma ReachAlgebra(d: int, e: int, m: int, a: int, n: int, x: int, y: int, k: int, p: int, g: int, q: int, t: int)
    requires d == g * m + e && a * x + n * y == g && a == k * g && n == p * g && x * m == p * q + t
    ensures d - t * a == e + n * (y * m + k * q)
  {
    assert (a * x) * m == g * m - (n * y) * m;
    assert a * p == n * k;
    assert t * a == a * (x * m) - (a * p) * q;
    assert a * (x * m) == (a * x) * m;
    assert (n * y) * m + (n * k) * q == n * (y * m + k * q);
  }

  // Some step within the length of the cycle comes down to that remainder.
  lemma StepsReach(d: int, a: nat, n: nat) returns (t: nat)
    requires n > 0
    ensures (d - t * a) % n == d % Gcd(a, n) && t < n / Gcd(a, n)
  {
    hide Gcd;
    var g := Gcd(a, n);
    var k, p := GcdDivides(a, n);
    var x, y := Bezout(a, n);
    var m, e := Divided(d, g);
    CycleLength(n, p, g);
    var q, t' := Divided(x * m, p);
    t := t';
    ReachAlgebra(d, e, m, a, n, x, y, k, p, g, q, t);
    Reached(d - t * a, e, n, y * m + k * q);
  }

  lemma Reached(v: int, e: int, n: int, k: int)
    requires n > 0 && v == e + n * k && 0 <= e < n
    ensures v % n == e
  {
    SameRemainder(v, e, n, k);
  }

  lemma CycleLength(n: nat, p: nat, g: nat)
    requires n > 0 && g > 0 && n == p * g
    ensures 0 < p && g <= n && n / g == p
  {
    assert (p - 1) * g >= 0;
    var q, r := n / g, n % g;
    assert r == g * (p - q) by {
      assert n == g * q + r;
      assert g * p - g * q == g * (p - q);
    }
    NoMultipleBetween(p - q, r, g);
    ZeroProduct(g, p - q);
  }

  lemma ZeroProduct(g: int, k: int)
    requires g > 0 && g * k == 0
    ensures k == 0
  {}
}
