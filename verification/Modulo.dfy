/** Positions on a ring of n slots. */
module Modulo {

  // Indices less than n apart live in different slots.
  lemma SlotsDiffer(i: nat, j: nat, n: nat)
    requires i < j < i + n
    ensures i % n != j % n
  {
    var a, b := i / n, j / n;
    MulOrder(n, b - a);
    assert j - i == n * (b - a) + (j % n - i % n) by {
      assert i == n * a + i % n && j == n * b + j % n;
    }
  }

  lemma MulOrder(n: nat, k: int)
    ensures k >= 1 ==> n * k >= n
    ensures k <= 0 ==> n * k <= 0
  {
    if k >= 1 {
      assert n * (k - 1) >= 0;
    }
  }

  // Stepping around a ring from anywhere is stepping from the slot one is in.
  lemma StepFromSlot(i: nat, k: nat, n: nat)
    requires n > 0
    ensures (i + k) % n == (i % n + k) % n
  {
    var q := i / n;
    assert i + k == n * q + (i % n + k);
    AddTurns(i % n + k, q, n);
  }

  lemma {:induction false} AddTurns(x: nat, q: nat, n: nat)
    requires n > 0
    ensures (n * q + x) % n == x % n
  {
    if q > 0 {
      AddTurns(x, q - 1, n);
      assert n * q + x == n * (q - 1) + x + n;
      OneTurn(n * (q - 1) + x, n);
    }
  }

  lemma OneTurn(x: nat, n: nat)
    requires n > 0
    ensures (x + n) % n == x % n
  {
    var q := x / n;
    assert x + n == n * (q + 1) + x % n;
    var r, p := (x + n) % n, (x + n) / n;
    assert x + n == n * p + r;
    MulOrder(n, p - (q + 1));
    assert n * (p - (q + 1)) == x % n - r;
  }

  lemma Under(x: nat, n: nat)
    requires x < n
    ensures x % n == x
  {}

  lemma Wrap(x: nat, n: nat)
    requires n > 0 && x < 2 * n
    ensures x % n == if x < n then x else x - n
  {
    if x < n {
      Under(x, n);
    } else {
      OneTurn(x - n, n);
      Under(x - n, n);
    }
  }

  // The slot reached by k < n steps from i.
  lemma Stepped(i: nat, k: nat, n: nat)
    requires k < n
    ensures i % n < n
    ensures (i + k) % n == if i % n + k < n then i % n + k else i % n + k - n
  {
    StepFromSlot(i, k, n);
    Wrap(i % n + k, n);
  }
}
