/** Exclusive or on numbers, bit by bit, with the laws of it that proofs about words rest on. */
module Words {
  import opened Arithmetic

  type u64 = n: nat | n < 0x1_0000_0000_0000_0000

  function Bit(a: nat, b: nat): nat {
    if a % 2 == b % 2 then 0 else 1
  }

  function Xor(a: nat, b: nat): nat {
    if a == 0 && b == 0 then 0 else Bit(a, b) + 2 * Xor(a / 2, b / 2)
  }

  lemma {:induction false} XorCommutes(a: nat, b: nat)
    ensures Xor(a, b) == Xor(b, a)
  {
    if a != 0 || b != 0 {
      XorCommutes(a / 2, b / 2);
    }
  }

  lemma {:induction false} XorZero(a: nat)
    ensures Xor(a, 0) == a
  {
    if a != 0 {
      XorZero(a / 2);
    }
  }

  lemma {:induction false} XorSelf(a: nat)
    ensures Xor(a, a) == 0
  {
    if a != 0 {
      XorSelf(a / 2);
    }
  }

  lemma XorHalf(a: nat, b: nat)
    ensures Xor(a, b) / 2 == Xor(a / 2, b / 2) && Xor(a, b) % 2 == Bit(a, b)
  {
  }

  lemma {:induction false} XorAssociates(a: nat, b: nat, c: nat)
    ensures Xor(Xor(a, b), c) == Xor(a, Xor(b, c))
    decreases a + b + c
  {
    if a == 0 && b == 0 && c == 0 {
    } else {
      XorHalf(a, b);
      XorHalf(b, c);
      XorHalf(Xor(a, b), c);
      XorHalf(a, Xor(b, c));
      XorAssociates(a / 2, b / 2, c / 2);
    }
  }

  /** A word under another comes out again. */
  lemma XorCancels(a: nat, b: nat)
    ensures Xor(Xor(a, b), b) == a
  {
    XorAssociates(a, b, b);
    XorSelf(b);
    XorZero(a);
  }

  lemma {:induction false} XorFits(a: nat, b: nat, k: nat)
    requires a < Pow2(k) && b < Pow2(k)
    ensures Xor(a, b) < Pow2(k)
  {
    if a != 0 || b != 0 {
      XorFits(a / 2, b / 2, k - 1);
    }
  }

  /** Bits above both operands' own are left alone. */
  lemma {:induction false} XorBelow(high: nat, a: nat, b: nat, k: nat)
    requires a < Pow2(k) && b < Pow2(k)
    ensures Xor(Pow2(k) * high + a, b) == Pow2(k) * high + Xor(a, b)
  {
    if k == 0 {
      XorZero(high);
    } else {
      var p := Pow2(k - 1) * high;
      assert Pow2(k) * high == 2 * p;
      XorBelow(high, a / 2, b / 2, k - 1);
      assert (2 * p + a) / 2 == p + a / 2 && (2 * p + a) % 2 == a % 2;
    }
  }

  /** Four bits combined one by one. */
  function Nibble(x: nat, y: nat): nat {
    Bit(x, y) + 2 * (Bit(x / 2, y / 2) + 2 * (Bit(x / 2 / 2, y / 2 / 2) + 2 * Bit(x / 2 / 2 / 2, y / 2 / 2 / 2)))
  }

  lemma HalfStep(p: nat, x: nat, q: nat, y: nat)
    ensures Xor(2 * p + x, 2 * q + y) == 2 * Xor(p + x / 2, q + y / 2) + Bit(x, y)
  {
    XorHalf(2 * p + x, 2 * q + y);
    hide Xor;
    assert (2 * p + x) / 2 == p + x / 2 && (2 * q + y) / 2 == q + y / 2;
  }

  /** Words are combined four bits at a time. */
  lemma OneDigit(a: nat, x: nat, b: nat, y: nat)
    requires x < 16 && y < 16
    ensures Xor(16 * a + x, 16 * b + y) == 16 * Xor(a, b) + Nibble(x, y)
  {
    hide Xor, Bit;
    HalfStep(8 * a, x, 8 * b, y);
    HalfStep(4 * a, x / 2, 4 * b, y / 2);
    HalfStep(2 * a, x / 2 / 2, 2 * b, y / 2 / 2);
    HalfStep(a, x / 2 / 2 / 2, b, y / 2 / 2 / 2);
    assert x / 2 / 2 / 2 / 2 == 0 && y / 2 / 2 / 2 / 2 == 0;
  }

  lemma NextDigit(a: nat, x: nat, b: nat, y: nat, c: nat, z: nat)
    requires Xor(a, b) == c && x < 16 && y < 16 && Nibble(x, y) == z
    ensures Xor(16 * a + x, 16 * b + y) == 16 * c + z
  {
    OneDigit(a, x, b, y);
  }

  lemma TwiceOf(a: nat, k: nat)
    requires k > 0
    ensures Pow2(k) * a == 2 * (Pow2(k - 1) * a)
  {
  }

  /** Shifting right. */
  function Shift(a: nat, k: nat): nat {
    if k == 0 then a else Shift(a / 2, k - 1)
  }

  lemma {:induction false} ShiftIs(a: nat, k: nat, q: nat, r: nat)
    requires r < Pow2(k) && a == Pow2(k) * q + r
    ensures Shift(a, k) == q
    decreases k
  {
    if k > 0 {
      TwiceOf(q, k);
      ShiftIs(a / 2, k - 1, q, r / 2);
    }
  }

  lemma {:induction false} ShiftXor(a: nat, b: nat, k: nat)
    ensures Shift(Xor(a, b), k) == Xor(Shift(a, k), Shift(b, k))
    decreases k
  {
    if k > 0 {
      XorHalf(a, b);
      ShiftXor(a / 2, b / 2, k - 1);
    }
  }

  lemma {:induction false} ShiftAdds(a: nat, j: nat, k: nat)
    ensures Shift(Shift(a, j), k) == Shift(a, j + k)
    decreases j
  {
    if j > 0 {
      ShiftAdds(a / 2, j - 1, k);
    }
  }

  lemma {:induction false} ShiftEmpties(a: nat, k: nat)
    requires a < Pow2(k)
    ensures Shift(a, k) == 0
    decreases k
  {
    if k > 0 {
      ShiftEmpties(a / 2, k - 1);
    }
  }

  lemma {:induction false} ShiftFits(a: nat, j: nat, k: nat)
    requires a < Pow2(k)
    ensures Shift(a, j) < Pow2(k)
    decreases j
  {
    if j > 0 {
      ShiftFits(a / 2, j - 1, k);
    }
  }

  /** A word folded onto itself, and the fold undone, for a fold of a third of the word or more. */
  function Fold(x: nat, k: nat): nat {
    Xor(x, Shift(x, k))
  }

  function Unfold(x: nat, k: nat): nat {
    Xor(Xor(x, Shift(x, k)), Shift(x, 2 * k))
  }

  lemma FoldFits(x: nat, k: nat, n: nat)
    requires x < Pow2(n)
    ensures Fold(x, k) < Pow2(n) && Unfold(x, k) < Pow2(n)
  {
    hide Xor, Shift;
    ShiftFits(x, k, n);
    ShiftFits(x, 2 * k, n);
    XorFits(x, Shift(x, k), n);
    XorFits(Xor(x, Shift(x, k)), Shift(x, 2 * k), n);
  }

  lemma FoldUndone(x: nat, k: nat)
    requires x < Pow2(3 * k)
    ensures Unfold(Fold(x, k), k) == x && Fold(Unfold(x, k), k) == x
  {
    hide Xor, Shift;
    var y, z := Shift(x, k), Shift(x, 2 * k);
    ShiftAdds(x, k, k);
    ShiftAdds(x, 2 * k, k);
    ShiftAdds(x, k, 2 * k);
    ShiftEmpties(x, 3 * k);
    ShiftXor(x, y, k);
    ShiftXor(x, y, 2 * k);
    ShiftXor(Xor(x, y), z, k);
    XorZero(z);
    XorZero(Xor(y, z));
    Telescopes(x, y, z);
  }

  lemma Telescopes(x: nat, y: nat, z: nat)
    ensures Xor(Xor(Xor(x, y), Xor(y, z)), z) == x
    ensures Xor(Xor(Xor(x, y), z), Xor(y, z)) == x
  {
    hide Xor;
    XorAssociates(Xor(x, y), Xor(y, z), z);
    XorCancels(y, z);
    XorCancels(x, y);
    XorAssociates(Xor(x, y), z, Xor(y, z));
    XorCommutes(z, Xor(y, z));
  }

  // -- multiplication ------------------------------------------------------------------

  function Times(x: nat, c: nat): u64 {
    (x * c) % 0x1_0000_0000_0000_0000
  }

  /** Multiplying by a factor and then by its inverse leaves the word. */
  lemma TimesUndone(x: u64, c: nat, d: nat, q: nat)
    requires c * d == 0x1_0000_0000_0000_0000 * q + 1
    ensures Times(Times(x, c), d) == x
  {
    var u: nat := 0x1_0000_0000_0000_0000;
    var k := (x * c) / u;
    var r := (x * c) % u;
    assert x * c == k * u + r;
    Product(x, c, d, k, r, q, u);
    ModIs(r * d, x * q - k * d, x, u);
  }

  lemma Product(x: nat, c: nat, d: nat, k: nat, r: nat, q: nat, u: nat)
    requires x * c == k * u + r && c * d == u * q + 1
    ensures r * d == (x * q - k * d) * u + x
  {
    assert (k * u + r) * d == (k * d) * u + r * d;
    assert (x * c) * d == x * (c * d);
    assert x * (u * q + 1) == (x * q) * u + x;
    assert (x * q - k * d) * u == (x * q) * u - (k * d) * u;
  }
}
