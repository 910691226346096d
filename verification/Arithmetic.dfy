/** The few facts about quotients, remainders and powers that the proofs lean on. */
module Arithmetic {

  lemma MulAtLeast(d: nat, n: nat)
    requires d >= 1
    ensures d * n >= n
  {
  }

  /** A quotient and a remainder below the divisor are the only ones. */
  lemma DivModUnique(q1: int, r1: int, q2: int, r2: int, n: nat)
    requires 0 <= r1 < n && 0 <= r2 < n
    requires q1 * n + r1 == q2 * n + r2
    ensures q1 == q2 && r1 == r2
  {
    assert (q2 - q1) * n == q2 * n - q1 * n && (q1 - q2) * n == q1 * n - q2 * n;
    if q1 < q2 {
      MulAtLeast(q2 - q1, n);
    } else if q2 < q1 {
      MulAtLeast(q1 - q2, n);
    }
  }

  lemma ModIs(x: int, q: int, r: int, n: nat)
    requires 0 <= r < n && x == q * n + r
    ensures x % n == r && x / n == q
  {
    assert x == (x / n) * n + x % n;
    DivModUnique(q, r, x / n, x % n, n);
  }

  lemma MulMonotone(x: nat, y: nat, n: nat)
    requires x <= y
    ensures n * x <= n * y
  {
  }

  function Min(a: nat, b: nat): nat {
    if a <= b then a else b
  }

  function Pow2(n: nat): (r: nat)
    ensures r >= 1
  {
    if n == 0 then 1 else 2 * Pow2(n - 1)
  }

  lemma {:induction false} Pow2Monotone(a: nat, b: nat)
    requires a <= b
    ensures Pow2(a) <= Pow2(b)
  {
    if a < b {
      Pow2Monotone(a, b - 1);
    }
  }

  lemma {:induction false} Pow2Add(a: nat, b: nat)
    ensures Pow2(a + b) == Pow2(a) * Pow2(b)
  {
    if a > 0 {
      Pow2Add(a - 1, b);
      Doubled(Pow2(a - 1), Pow2(b));
    }
  }

  lemma Doubled(x: nat, y: nat)
    ensures 2 * (x * y) == (2 * x) * y
  {
  }

  lemma Pow2OfEight()
    ensures Pow2(7) == 0x80 && Pow2(8) == 0x100
  {
    assert Pow2(4) == 16;
  }

  lemma Pow2Of(a: nat, x: nat, b: nat, y: nat)
    requires Pow2(a) == x && Pow2(b) == y
    ensures Pow2(a + b) == x * y
  {
    Pow2Add(a, b);
  }

  lemma Pow2Values()
    ensures Pow2(16) == 0x1_0000 && Pow2(31) == 0x8000_0000
    ensures Pow2(32) == 0x1_0000_0000 && Pow2(64) == 0x1_0000_0000_0000_0000
  {
    Pow2OfEight();
    hide Pow2;
    Pow2Of(8, 0x100, 8, 0x100);
    Pow2Of(8, 0x100, 7, 0x80);
    Pow2Of(16, 0x1_0000, 15, 0x8000);
    Pow2Of(16, 0x1_0000, 16, 0x1_0000);
    Pow2Of(32, 0x1_0000_0000, 32, 0x1_0000_0000);
  }
}
