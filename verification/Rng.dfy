/** PCG32: the seeded generator every simulated run draws from.

A 64-bit linear congruential state, put through a shift and a rotation. Two things are proved about
it. The state visits every one of its 2^64 values, so a draw that has to be rejected cannot be
rejected for ever; and the draws that are accepted fall on each outcome equally often, so a shuffle
built from them reaches every order by exactly one sequence of choices.
*/
module Rng {
  import opened Arithmetic
  import opened Shuffling

  const MULTIPLIER: nat := 6_364_136_223_846_793_005

  function U32(): nat { 0x1_0000_0000 }

  function U64(): nat { 0x1_0000_0000_0000_0000 }

  type u32 = n: nat | n < 0x1_0000_0000
  type u64 = n: nat | n < 0x1_0000_0000_0000_0000

  // -- the state and its output --------------------------------------------------------

  function Next(state: u64, increment: u64): u64 {
    (state * MULTIPLIER + increment) % U64()
  }

  /** The state `n` steps on. */
  function After(n: nat, state: u64, increment: u64): u64 {
    if n == 0 then state else After(n - 1, Next(state, increment), increment)
  }

  /** The high bits folded down, rotated by the top five. */
  function Folded(s: bv64): bv32 {
    var turn := (s >> 59) as bv5;
    (((((s >> 18) ^ s) >> 27) & 0xFFFF_FFFF) as bv32).RotateRight(turn as nat)
  }

  /** The draw a state gives. */
  function Output(state: u64): u32 {
    Value(Folded(ToBits(state)))
  }

  function ToBits(n: u64): bv64 { n as bv64 }

  function Value(v: bv32): u32 { v as nat }

  // -- the state visits everything -----------------------------------------------------

  lemma {:induction false} AfterAdd(m: nat, n: nat, state: u64, increment: u64)
    ensures After(m + n, state, increment) == After(n, After(m, state, increment), increment)
  {
    hide Next;
    if m > 0 {
      AfterAdd(m - 1, n, Next(state, increment), increment);
    }
  }

  /** `2^k` steps at once are again one multiplication and one addition. */
  function Scale(k: nat): nat {
    if k == 0 then MULTIPLIER else Scale(k - 1) * Scale(k - 1)
  }

  function Offset(k: nat, increment: nat): nat {
    if k == 0 then increment else (Scale(k - 1) + 1) * Offset(k - 1, increment)
  }

  lemma AffineMod(a: nat, c: nat, y: nat, u: nat)
    requires u > 0
    ensures (a * (y % u) + c) % u == (a * y + c) % u
  {
    var q, r := y / u, y % u;
    var t := a * r + c;
    assert a * y == a * (q * u + r) == (a * q) * u + a * r;
    assert a * y + c == (a * q) * u + t;
    assert t == (t / u) * u + t % u;
    assert a * y + c == (a * q + t / u) * u + t % u by {
      assert (a * q + t / u) * u == (a * q) * u + (t / u) * u;
    }
    ModIs(a * y + c, a * q + t / u, t % u, u);
  }

  lemma AffineTwice(a: nat, c: nat, x: nat)
    ensures a * (a * x + c) + c == (a * a) * x + (a + 1) * c
  {
    assert a * (a * x + c) == a * (a * x) + a * c;
    assert a * (a * x) == (a * a) * x;
    assert (a + 1) * c == a * c + c;
  }

  lemma {:induction false} Leap(k: nat, state: u64, increment: u64)
    ensures After(Pow2(k), state, increment) == (Scale(k) * state + Offset(k, increment)) % U64()
  {
    hide U64;
    if k == 0 {
      assert After(1, state, increment) == After(0, Next(state, increment), increment);
      assert Scale(0) == MULTIPLIER && Offset(0, increment) == increment;
    } else {
      var a, c := Scale(k - 1), Offset(k - 1, increment);
      var half := After(Pow2(k - 1), state, increment);
      Leap(k - 1, state, increment);
      Leap(k - 1, half, increment);
      AfterAdd(Pow2(k - 1), Pow2(k - 1), state, increment);
      Modulus();
      AffineMod(a, c, a * state + c, U64());
      AffineTwice(a, c, state);
    }
  }

  lemma Modulus()
    ensures U64() > 0
  {
  }

  lemma Square(p: nat, m: nat)
    ensures (1 + 4 * (p * m)) * (1 + 4 * (p * m)) == 1 + 4 * ((2 * p) * (m + 2 * (m * (p * m))))
  {
    var z := p * m;
    assert (1 + 4 * z) * (1 + 4 * z) == 1 + 8 * z + 16 * (z * z);
    assert (2 * p) * (m + 2 * (m * z)) == 2 * (p * m) + 4 * (p * (m * z));
    assert p * (m * z) == z * z;
  }

  /** The multiplier is one above a multiple of four, and squaring keeps it close to one. */
  lemma {:induction false} ScaleShape(k: nat) returns (m: nat)
    ensures Scale(k) == 1 + 4 * (Pow2(k) * m)
  {
    if k == 0 {
      m := 1_591_034_055_961_698_251;
    } else {
      var n := ScaleShape(k - 1);
      Square(Pow2(k - 1), n);
      m := n + 2 * (n * (Pow2(k - 1) * n));
    }
  }

  lemma Double(p: nat, m: nat, j: nat)
    ensures (2 + 4 * (p * m)) * (p * (2 * j + 1)) == (2 * p) * (2 * (j + (p * m) * (2 * j + 1)) + 1)
  {
    var z, o := p * m, 2 * j + 1;
    assert (2 + 4 * z) * (p * o) == 2 * (p * o) + 4 * (z * (p * o));
    assert (2 * p) * (2 * (j + z * o) + 1) == (2 * p) * (o + 2 * (z * o)) == (2 * p) * o + (2 * p) * (2 * (z * o));
    assert (2 * p) * o == 2 * (p * o);
    assert (2 * p) * (2 * (z * o)) == 4 * (p * (z * o));
    assert p * (z * o) == z * (p * o);
  }

  /** An odd increment adds an odd multiple of `2^k` over `2^k` steps. */
  lemma {:induction false} OffsetShape(k: nat, increment: nat) returns (j: nat)
    requires increment % 2 == 1
    ensures Offset(k, increment) == Pow2(k) * (2 * j + 1)
  {
    if k == 0 {
      j := increment / 2;
    } else {
      var i := OffsetShape(k - 1, increment);
      var m := ScaleShape(k - 1);
      Double(Pow2(k - 1), m, i);
      j := i + (Pow2(k - 1) * m) * (2 * i + 1);
    }
  }

  lemma ModMod(n: nat, a: nat, b: nat)
    requires a > 0 && b > 0 && a * b > 0
    ensures (n % (a * b)) % a == n % a
  {
    var q, r := n / (a * b), n % (a * b);
    assert n == q * (a * b) + r;
    assert q * (a * b) == (q * b) * a;
    var s, t := r / a, r % a;
    assert n == (q * b + s) * a + t by {
      assert (q * b + s) * a == (q * b) * a + s * a;
      assert r == s * a + t;
    }
    ModIs(n, q * b + s, t, a);
  }

  lemma AddMultiple(x: nat, q: nat, n: nat)
    requires n > 0
    ensures (x + n * q) % n == x % n
  {
    assert x + n * q == (x / n + q) * n + x % n by {
      assert (x / n + q) * n == (x / n) * n + q * n;
    }
    ModIs(x + n * q, x / n + q, x % n, n);
  }

  lemma LeapShape(x: nat, p: nat, m: nat, j: nat)
    ensures (1 + 4 * (p * m)) * x + p * (2 * j + 1) == (x + p) + (2 * p) * (2 * (m * x) + j)
  {
    assert (1 + 4 * (p * m)) * x == x + 4 * ((p * m) * x);
    assert (p * m) * x == p * (m * x);
    assert p * (2 * j + 1) == 2 * (p * j) + p;
    assert (2 * p) * (2 * (m * x) + j) == 4 * (p * (m * x)) + 2 * (p * j);
  }

  lemma LeapMod(x: nat, p: nat, m: nat, j: nat, b: nat)
    requires p > 0 && b > 0 && (2 * p) * b > 0
    ensures (((1 + 4 * (p * m)) * x + p * (2 * j + 1)) % ((2 * p) * b)) % (2 * p) == (x + p) % (2 * p)
  {
    LeapShape(x, p, m, j);
    Turn(x + p, 2 * p, b, 2 * (m * x) + j);
  }

  /** `2^k` steps flip bit `k` of the state and leave the lower bits alone. */
  lemma HalfTurn(k: nat, state: u64, increment: u64)
    requires k < 64 && increment % 2 == 1
    ensures After(Pow2(k), state, increment) % Pow2(k + 1) == (state + Pow2(k)) % Pow2(k + 1)
  {
    hide After, Scale, Offset, Pow2, U64;
    var p := Pow2(k);
    var m := ScaleShape(k);
    var j := OffsetShape(k, increment);
    Leap(k, state, increment);
    Splits(k);
    LeapMod(state, p, m, j, Pow2(63 - k));
  }

  lemma Splits(k: nat)
    requires k < 64
    ensures Pow2(k + 1) == 2 * Pow2(k) && U64() == (2 * Pow2(k)) * Pow2(63 - k)
  {
    Pow2Add(k + 1, 63 - k);
    Pow2Values();
  }

  lemma Turn(y: nat, w: nat, b: nat, q: nat)
    requires w > 0 && b > 0 && w * b > 0
    ensures ((y + w * q) % (w * b)) % w == y % w
  {
    ModMod(y + w * q, w, b);
    AddMultiple(y, q, w);
  }

  lemma TwoChoices(y: nat, z: nat, p: nat)
    requires p > 0 && y % p == z % p
    ensures z % (2 * p) == y % (2 * p) || (z + p) % (2 * p) == y % (2 * p)
  {
    var r := y % p;
    Halves(y, p);
    Halves(z, p);
    if z % (2 * p) == r {
      ShiftHalf(z, p);
    } else {
      ShiftHalf(z, p);
    }
  }

  lemma Halves(y: nat, p: nat)
    requires p > 0
    ensures y % (2 * p) == y % p || y % (2 * p) == y % p + p
  {
    var q, r := y / p, y % p;
    assert y == q * p + r;
    var h := q / 2;
    if q == 2 * h {
      assert (2 * h) * p == h * (2 * p);
      ModIs(y, h, r, 2 * p);
    } else {
      assert (2 * h + 1) * p == h * (2 * p) + p;
      ModIs(y, h, r + p, 2 * p);
    }
  }

  lemma ShiftHalf(z: nat, p: nat)
    requires p > 0
    ensures (z + p) % (2 * p) == if z % (2 * p) < p then z % (2 * p) + p else z % (2 * p) - p
  {
    var q, r := z / (2 * p), z % (2 * p);
    assert z == q * (2 * p) + r;
    if r < p {
      ModIs(z + p, q, r + p, 2 * p);
    } else {
      assert (q + 1) * (2 * p) == q * (2 * p) + 2 * p;
      ModIs(z + p, q + 1, r - p, 2 * p);
    }
  }

  /** The low `k` bits run through all their values in `2^k` steps. */
  lemma {:induction false} Reaches(k: nat, from: u64, to: u64, increment: u64) returns (n: nat)
    requires k <= 64 && increment % 2 == 1
    ensures n < Pow2(k) && After(n, from, increment) % Pow2(k) == to % Pow2(k)
  {
    hide After;
    if k == 0 {
      n := 0;
    } else {
      n := Reaches(k - 1, from, to, increment);
      var p, z := Pow2(k - 1), After(n, from, increment);
      TwoChoices(to, z, p);
      if z % (2 * p) != to % (2 * p) {
        HalfTurn(k - 1, z, increment);
        AfterAdd(n, p, from, increment);
        n := n + p;
      }
    }
  }

  lemma SmallMod(n: u64)
    ensures n % 0x1_0000_0000_0000_0000 == n
  {
    ModIs(n, 0, n, 0x1_0000_0000_0000_0000);
  }

  /** Full period: from any state every state is reached within `2^64` steps. */
  lemma FullPeriod(from: u64, to: u64, increment: u64) returns (n: nat)
    requires increment % 2 == 1
    ensures n < U64() && After(n, from, increment) == to
  {
    hide After;
    hide Pow2;
    n := Reaches(64, from, to, increment);
    Pow2Values();
    SmallMod(After(n, from, increment));
    SmallMod(to);
  }

  // -- a draw below a bound ------------------------------------------------------------

  /** A state whose draw is all ones, and so is never rejected. */
  const ALL_ONES: bv64 := 0x07FF_FE00_0000_0000

  lemma DrawOfAllOnes() returns (state: u64)
    ensures Output(state) == 0xFFFF_FFFF
  {
    hide Folded, ToBits, Value;
    FoldedAllOnes();
    ValueOfAllOnes();
    state := FromBits(ALL_ONES);
    RoundTrip(ALL_ONES);
  }

  function FromBits(v: bv64): u64 { v as nat }

  lemma RoundTrip(v: bv64)
    ensures ToBits(FromBits(v)) == v
  {
  }

  lemma FoldedAllOnes()
    ensures Folded(ALL_ONES) == 0xFFFF_FFFF
  {
  }

  lemma ValueOfAllOnes()
    ensures Value(0xFFFF_FFFF) == 0xFFFF_FFFF
  {
  }

  /** What is left of the 32-bit range once it has been cut into blocks of `bound`. */
  function Threshold(bound: u32): nat
    requires bound >= 1
  {
    (U32() - bound) % bound
  }

  /** The draw `n` steps on is the first not below the threshold. */
  ghost predicate Accepts(state: u64, increment: u64, threshold: nat, n: nat) {
    && Output(After(n, state, increment)) >= threshold
    && forall m :: 0 <= m < n ==> Output(After(m, state, increment)) < threshold
  }

  lemma {:induction false} FirstAccepted(state: u64, increment: u64, threshold: nat, n: nat) returns (m: nat)
    requires Output(After(n, state, increment)) >= threshold
    ensures m <= n && Accepts(state, increment, threshold, m)
  {
    hide After, Output;
    if k :| 0 <= k < n && Output(After(k, state, increment)) >= threshold {
      m := FirstAccepted(state, increment, threshold, k);
    } else {
      m := n;
    }
  }

  /** Some draw is always accepted, within one period. */
  lemma SomeDrawIsAccepted(state: u64, increment: u64, bound: u32) returns (n: nat)
    requires increment % 2 == 1 && bound >= 1
    ensures n < U64() && Accepts(state, increment, Threshold(bound), n)
  {
    hide After, Output;
    var best := DrawOfAllOnes();
    var m := FullPeriod(state, best, increment);
    n := FirstAccepted(state, increment, Threshold(bound), m);
  }

  ghost function Rejections(state: u64, increment: u64, bound: u32): (n: nat)
    requires increment % 2 == 1 && bound >= 1
    ensures Accepts(state, increment, Threshold(bound), n)
  {
    assert exists n: nat :: Accepts(state, increment, Threshold(bound), n) by {
      var n := SomeDrawIsAccepted(state, increment, bound);
    }
    var n: nat :| Accepts(state, increment, Threshold(bound), n);
    n
  }

  lemma AcceptedOnce(state: u64, increment: u64, threshold: nat, m: nat, n: nat)
    requires Accepts(state, increment, threshold, m) && Accepts(state, increment, threshold, n)
    ensures m == n
  {
    hide After, Output;
  }

  /** A draw below a bound, and the state it leaves. */
  ghost function BelowOf(state: u64, increment: u64, bound: u32): (r: (u32, u64))
    requires increment % 2 == 1
    ensures bound >= 1 ==> r.0 < bound
  {
    if bound <= 1 then (0, state)
    else
      var n := Rejections(state, increment, bound);
      (Output(After(n, state, increment)) % bound, After(n + 1, state, increment))
  }

  /** It is the remainder of the first draw that is not rejected, whichever that is, and the state after it. */
  lemma BelowIsFirstAccepted(state: u64, increment: u64, bound: u32, n: nat)
    requires increment % 2 == 1 && bound >= 2 && Accepts(state, increment, Threshold(bound), n)
    ensures BelowOf(state, increment, bound)
            == (Output(After(n, state, increment)) % bound, After(n + 1, state, increment))
  {
    hide After, Output;
    AcceptedOnce(state, increment, Threshold(bound), n, Rejections(state, increment, bound));
  }

  // -- every outcome equally often -----------------------------------------------------

  /** The numbers in a run of `length` from `lo` that leave remainder `v`. */
  ghost function Hits(lo: nat, length: nat, bound: nat, v: nat): set<nat>
    requires bound > 0
  {
    set d: nat | lo <= d < lo + length && d % bound == v
  }

  /** Among `bound` consecutive numbers exactly one leaves a given remainder. */
  lemma OneInABlock(base: nat, bound: nat, v: nat) returns (e: nat)
    requires v < bound
    ensures Hits(base, bound, bound, v) == {e}
  {
    var k := (v - base) / bound;
    e := base + (v - base) % bound;
    assert v - base == k * bound + (v - base) % bound;
    assert (-k) * bound == -(k * bound);
    ModIs(e, -k, v, bound);
    forall d: nat | base <= d < base + bound && d % bound == v
      ensures d == e
    {
      assert d == (d / bound) * bound + v;
      assert (d / bound + k) * bound == (d / bound) * bound + k * bound;
      DivModUnique(d / bound + k, e - base, 0, d - base, bound);
    }
  }

  lemma {:induction false} EachEquallyOften(lo: nat, q: nat, bound: nat, v: nat)
    requires v < bound
    ensures |Hits(lo, q * bound, bound, v)| == q
  {
    hide Hits;
    if q == 0 {
      NoHits(lo, bound, v);
    } else {
      var m := (q - 1) * bound;
      OneBlockMore(q, bound);
      EachEquallyOften(lo, q - 1, bound, v);
      var e := OneInABlock(lo + m, bound, v);
      HitsSplit(lo, m, bound, v);
      OneMoreHit(Hits(lo, m, bound, v), Hits(lo + m, bound, bound, v), e);
    }
  }

  lemma OneBlockMore(q: nat, bound: nat)
    requires q > 0
    ensures q * bound == (q - 1) * bound + bound
  {
  }

  lemma OneMoreHit(a: set<nat>, b: set<nat>, e: nat)
    requires b == {e} && a !! b
    ensures |a + b| == |a| + 1
  {
  }

  lemma NoHits(lo: nat, bound: nat, v: nat)
    requires bound > 0
    ensures Hits(lo, 0, bound, v) == {}
  {
  }

  lemma HitsSplit(lo: nat, m: nat, bound: nat, v: nat)
    requires bound > 0
    ensures Hits(lo, m + bound, bound, v) == Hits(lo, m, bound, v) + Hits(lo + m, bound, bound, v)
    ensures Hits(lo, m, bound, v) !! Hits(lo + m, bound, bound, v)
  {
  }

  /** Rejecting the short block leaves a whole number of blocks. */
  lemma WholeBlocks(bound: u32) returns (q: nat)
    requires bound >= 1
    ensures U32() == Threshold(bound) + q * bound && Threshold(bound) < bound
  {
    var n := U32() - bound;
    q := n / bound + 1;
    assert (n / bound + 1) * bound == (n / bound) * bound + bound;
  }

  /** Each value below the bound comes from the same number of accepted draws. */
  lemma BelowIsUnbiased(bound: u32, v: nat)
    requires v < bound
    ensures |(set d: nat | Threshold(bound) <= d < U32() && d % bound == v)| == (U32() - Threshold(bound)) / bound
  {
    var t := Threshold(bound);
    var q := WholeBlocks(bound);
    EachEquallyOften(t, q, bound, v);
    assert Hits(t, q * bound, bound, v) == set d: nat | t <= d < U32() && d % bound == v;
    ModIs(U32() - t, q, 0, bound);
  }

  /** Reducing a whole 64-bit draw favours no value by more than one draw in all. */
  lemma WideIsNearlyUnbiased(count: u64, v: nat)
    requires v < count
    ensures U64() / count
            <= |(set d: nat | 0 <= d < U64() && d % count == v)|
            <= U64() / count + 1
  {
    var q, r := U64() / count, U64() % count;
    var m := q * count;
    assert U64() == m + r;
    EachEquallyOften(0, q, count, v);
    var e := OneInABlock(m, count, v);
    var tail := Hits(m, r, count, v);
    assert tail <= Hits(m, count, count, v);
    assert |tail| <= 1 by { Subset(tail, {e}); }
    assert Hits(0, m, count, v) !! tail;
    assert Hits(0, m, count, v) + tail == set d: nat | 0 <= d < U64() && d % count == v;
  }

  lemma {:induction false} Subset(a: set<nat>, b: set<nat>)
    requires a <= b
    ensures |a| <= |b|
  {
    if x :| x in a {
      Subset(a - {x}, b - {x});
    }
  }

  // -- the generator -------------------------------------------------------------------

  /** The choices a generator makes for positions up to `i`, and the state it ends in. */
  ghost function Drawn(state: u64, increment: u64, n: nat): (r: (seq<nat>, u64))
    requires increment % 2 == 1 && n < U32()
    ensures |r.0| == n && Choices(r.0)
    decreases n
  {
    if n == 0 then ([], state)
    else if n == 1 then ([0], state)
    else
      var (j, next) := BelowOf(state, increment, n);
      var (rest, last) := Drawn(next, increment, n - 1);
      (rest + [j], last)
  }

  /** Two draws as one, the first the high half. */
  function Joined(high: u32, low: u32): u64 {
    var (h: nat, l: nat) := (high, low);
    0x1_0000_0000 * h + l
  }

  /** The first draw is the high half and the second the low one. */
  lemma JoinedHalves(high: u32, low: u32)
    ensures Joined(high, low) / 0x1_0000_0000 == high && Joined(high, low) % 0x1_0000_0000 == low
  {
    ModIs(Joined(high, low), high, low, 0x1_0000_0000);
  }

  /** The state from which the choice for position `i` of `n` is drawn: the highest position first. */
  ghost function StateAt(state: u64, increment: u64, n: nat, i: nat): u64
    requires increment % 2 == 1 && 1 <= i < n < U32()
    decreases n - i
  {
    if i == n - 1 then state else BelowOf(StateAt(state, increment, n, i + 1), increment, i + 2).1
  }

  /** Every position is given an unbiased draw of its own, out of itself and those below it. */
  lemma {:induction false} DrawnAt(state: u64, increment: u64, n: nat, i: nat)
    requires increment % 2 == 1 && 1 <= i < n < U32()
    ensures Drawn(state, increment, n).0[i] == BelowOf(StateAt(state, increment, n, i), increment, i + 1).0
    ensures Drawn(state, increment, n).1 == BelowOf(StateAt(state, increment, n, 1), increment, 2).1
    decreases n
  {
    hide BelowOf;
    if n > 2 {
      var next := BelowOf(state, increment, n).1;
      DrawnAt(next, increment, n - 1, if i < n - 1 then i else 1);
      OnePositionLess(state, increment, n, 1);
      if i < n - 1 {
        OnePositionLess(state, increment, n, i);
      }
    }
  }

  lemma {:induction false} OnePositionLess(state: u64, increment: u64, n: nat, i: nat)
    requires increment % 2 == 1 && 1 <= i < n - 1 < U32() - 1
    ensures StateAt(state, increment, n, i)
            == StateAt(BelowOf(state, increment, n).1, increment, n - 1, i)
    decreases n - i
  {
    hide BelowOf;
    if i < n - 2 {
      OnePositionLess(state, increment, n, i + 1);
    }
  }

  lemma OddIncrement(sequence: u64)
    ensures ((2 * sequence) % U64() + 1) % 2 == 1 && (2 * sequence) % U64() + 1 < U64()
  {
    if 2 * sequence < U64() {
      ModIs(2 * sequence, 0, 2 * sequence, U64());
    } else {
      ModIs(2 * sequence, 1, 2 * sequence - U64(), U64());
    }
  }

  class Pcg32 {
    var state: u64
    const increment: u64

    ghost predicate Valid() {
      increment % 2 == 1
    }

    constructor (seed: u64, sequence: u64)
      ensures Valid()
      ensures increment == (2 * sequence) % U64() + 1
      ensures state == Next((Next(0, increment) + seed) % U64(), increment)
    {
      hide Next;
      state := 0;
      OddIncrement(sequence);
      increment := (2 * sequence) % U64() + 1;
      new;
      var _ := Step();
      state := (state + seed) % U64();
      var _ := Step();
    }

    method Step() returns (previous: u64)
      modifies this
      ensures previous == old(state) && state == Next(old(state), increment)
    {
      previous := state;
      state := (previous * MULTIPLIER + increment) % U64();
    }

    method NextU32() returns (draw: u32)
      modifies this
      ensures draw == Output(old(state)) && state == Next(old(state), increment)
    {
      var previous := Step();
      draw := Output(previous);
    }

    method NextU64() returns (draw: u64)
      modifies this
      ensures draw == Joined(Output(old(state)), Output(Next(old(state), increment)))
      ensures state == Next(Next(old(state), increment), increment)
    {
      hide Output, Next;
      var high := NextU32();
      var low := NextU32();
      draw := Joined(high, low);
    }

    method Below(bound: u32) returns (r: u32)
      requires Valid()
      modifies this
      ensures (r, state) == BelowOf(old(state), increment, bound)
    {
      hide Output, After, Next;
      if bound <= 1 {
        return 0;
      }
      ghost var from := state;
      ghost var n := Rejections(state, increment, bound);
      ghost var i := 0;
      var threshold := (U32() - bound) % bound;
      Start(state, increment);
      while true
        invariant 0 <= i <= n && state == After(i, from, increment)
        decreases n - i
      {
        var draw := NextU32();
        Onward(i, from, increment);
        if draw >= threshold {
          return draw % bound;
        }
        i := i + 1;
      }
    }

    method RangeInclusive(low: u64, high: u64) returns (r: u64)
      requires Valid()
      modifies this
      ensures low <= high ==> low <= r <= high
      ensures high <= low ==> r == low && state == old(state)
      ensures high - low + 1 >= U32() ==> state == Next(Next(old(state), increment), increment)
      ensures low < high && high - low + 1 < U32() ==>
                (r, state) == (low + BelowOf(old(state), increment, high - low + 1).0,
                               BelowOf(old(state), increment, high - low + 1).1)
      ensures U32() <= high - low + 1 < U64() ==>
                r == low + Joined(Output(old(state)), Output(Next(old(state), increment))) % (high - low + 1)
      ensures high - low + 1 == U64() ==>
                r == Joined(Output(old(state)), Output(Next(old(state), increment)))
    {
      hide Output, Next;
      if high <= low {
        return low;
      }
      if high - low + 1 >= U64() {
        r := NextU64();
        return;
      }
      var count := high - low + 1;
      if count < U32() {
        var narrow := Below(count);
        return low + narrow;
      }
      var wide := NextU64();
      r := low + wide % count;
    }

    method Shuffle<T>(a: array<T>)
      requires Valid()
      modifies this, a
      ensures a.Length < U32() ==>
                && a[..] == Shuffled(old(a[..]), Drawn(old(state), increment, a.Length).0)
                && state == Drawn(old(state), increment, a.Length).1
      ensures a.Length >= U32() ==> a[..] == old(a[..]) && state == old(state)
    {
      hide BelowOf, Shuffled, Drawn;
      var i := a.Length;
      ghost var s, from := a[..], state;
      while i > 1
        invariant 0 <= i <= a.Length
        invariant a.Length >= U32() ==> i == a.Length && a[..] == s && state == from
        invariant a.Length < U32() ==>
                    && Drawn(from, increment, a.Length).1 == Drawn(state, increment, i).1
                    && Shuffled(s, Drawn(from, increment, a.Length).0)
                       == Shuffled(a[..], Drawn(state, increment, i).0)
      {
        if i >= U32() {
          return;
        }
        ghost var before, was := a[..], state;
        var j := Below(i);
        DrawnStep(was, increment, i);
        ShuffledStep(before, Drawn(state, increment, i - 1).0, j);
        i := i - 1;
        a[i], a[j] := a[j], a[i];
        assert a[..] == Swap(before, i, j);
      }
      if a.Length < U32() {
        DrawnLast(state, increment, i);
        ShuffledLast(a[..], Drawn(state, increment, i).0);
      }
    }
  }

  lemma DrawnStep(state: u64, increment: u64, n: nat)
    requires increment % 2 == 1 && 2 <= n < U32()
    ensures var b := BelowOf(state, increment, n);
            && b.0 < n
            && Drawn(state, increment, n).1 == Drawn(b.1, increment, n - 1).1
            && Drawn(state, increment, n).0 == Drawn(b.1, increment, n - 1).0 + [b.0]
  {
    hide BelowOf;
  }

  lemma DrawnLast(state: u64, increment: u64, n: nat)
    requires increment % 2 == 1 && n <= 1
    ensures Drawn(state, increment, n).1 == state
  {
  }

  lemma Start(state: u64, increment: u64)
    ensures After(0, state, increment) == state
  {
  }

  lemma Onward(n: nat, state: u64, increment: u64)
    ensures After(n + 1, state, increment) == Next(After(n, state, increment), increment)
  {
    hide Next;
    AfterAdd(n, 1, state, increment);
    var s := After(n, state, increment);
    assert After(1, s, increment) == After(0, Next(s, increment), increment);
  }

  // -- the published stream ------------------------------------------------------------

  lemma NextIs(state: u64, q: nat, next: u64)
    requires state * MULTIPLIER + 109 == q * 0x1_0000_0000_0000_0000 + next
    ensures Next(state, 109) == next
  {
    ModIs(state * MULTIPLIER + 109, q, next, 0x1_0000_0000_0000_0000);
  }

  lemma OutputIs(state: u64, bits: bv64, draw: bv32)
    requires state == FromBits(bits) && Folded(bits) == draw
    ensures Output(state) == Value(draw)
  {
    hide Folded, ToBits, FromBits;
    RoundTrip(bits);
  }

  lemma FirstDraw()
    ensures Output(0x1857_06B8_2C2E_03F8) == 0xA15C_02B7
  {
    OutputIs(0x1857_06B8_2C2E_03F8, 0x1857_06B8_2C2E_03F8, 0xA15C_02B7);
  }

  lemma FirstStep()
    ensures Next(0x1857_06B8_2C2E_03F8, 109) == 0x2B47_FED8_8766_BB05
  {
    hide Next;
    NextIs(0x1857_06B8_2C2E_03F8, 0x0865_B50F_B071_9125, 0x2B47_FED8_8766_BB05);
  }

  lemma SecondDraw()
    ensures Output(0x2B47_FED8_8766_BB05) == 0x7B47_F409
  {
    OutputIs(0x2B47_FED8_8766_BB05, 0x2B47_FED8_8766_BB05, 0x7B47_F409);
  }

  lemma SecondStep()
    ensures Next(0x2B47_FED8_8766_BB05, 109) == 0x8B33_296D_19BF_5B4E
  {
    hide Next;
    NextIs(0x2B47_FED8_8766_BB05, 0x0EEE_9AAA_588E_FAF8, 0x8B33_296D_19BF_5B4E);
  }

  lemma ThirdDraw()
    ensures Output(0x8B33_296D_19BF_5B4E) == 0xBA1D_3330
  {
    OutputIs(0x8B33_296D_19BF_5B4E, 0x8B33_296D_19BF_5B4E, 0xBA1D_3330);
  }

  lemma ThirdStep()
    ensures Next(0x8B33_296D_19BF_5B4E, 109) == 0xF707_9824_C154_BF23
  {
    hide Next;
    NextIs(0x8B33_296D_19BF_5B4E, 0x3006_2633_017D_ABE0, 0xF707_9824_C154_BF23);
  }

  lemma FourthDraw()
    ensures Output(0xF707_9824_C154_BF23) == 0x83D2_F293
  {
    OutputIs(0xF707_9824_C154_BF23, 0xF707_9824_C154_BF23, 0x83D2_F293);
  }

  lemma FourthStep()
    ensures Next(0xF707_9824_C154_BF23, 109) == 0xEBBF_9E97_AA16_F694
  {
    hide Next;
    NextIs(0xF707_9824_C154_BF23, 0x5539_B152_B955_978D, 0xEBBF_9E97_AA16_F694);
  }

  lemma FifthDraw()
    ensures Output(0xEBBF_9E97_AA16_F694) == 0xBFA4_784B
  {
    OutputIs(0xEBBF_9E97_AA16_F694, 0xEBBF_9E97_AA16_F694, 0xBFA4_784B);
  }

  lemma FifthStep()
    ensures Next(0xEBBF_9E97_AA16_F694, 109) == 0x8303_569F_BE80_C471
  {
    hide Next;
    NextIs(0xEBBF_9E97_AA16_F694, 0x5155_5701_AAD2_B387, 0x8303_569F_BE80_C471);
  }

  lemma SixthDraw()
    ensures Output(0x8303_569F_BE80_C471) == 0xCBED_606E
  {
    OutputIs(0x8303_569F_BE80_C471, 0x8303_569F_BE80_C471, 0xCBED_606E);
  }

  lemma Seeding()
    ensures Next((Next(0, 109) + 42) % U64(), 109) == 0x1857_06B8_2C2E_03F8
  {
    hide Next;
    NextIs(0, 0, 109);
    NextIs(151, 0x34, 0x1857_06B8_2C2E_03F8);
  }

  /** The published stream for seed 42 on sequence 54: all six draws that are published. */
  lemma ReferenceStream(state: u64)
    requires state == Next((Next(0, 109) + 42) % U64(), 109)
    ensures Output(state) == 0xA15C_02B7
    ensures Output(After(1, state, 109)) == 0x7B47_F409
    ensures Output(After(2, state, 109)) == 0xBA1D_3330
    ensures Output(After(3, state, 109)) == 0x83D2_F293
    ensures Output(After(4, state, 109)) == 0xBFA4_784B
    ensures Output(After(5, state, 109)) == 0xCBED_606E
  {
    hide After, Next, Output;
    Seeding();
    Start(state, 109);
    FirstDraw();
    FirstStep();
    Onward(0, state, 109);
    SecondDraw();
    SecondStep();
    Onward(1, state, 109);
    ThirdDraw();
    ThirdStep();
    Onward(2, state, 109);
    FourthDraw();
    FourthStep();
    Onward(3, state, 109);
    FifthDraw();
    FifthStep();
    Onward(4, state, 109);
    SixthDraw();
  }
}
