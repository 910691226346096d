/** When to try again, what to repair first, and how long to wait.

Durations are whole nanoseconds, as the clock counts them; the schedule is configured and jittered
in milliseconds.
*/
module Retry {
  import opened Proto
  import opened Arithmetic

  const U32_MAX: nat := 0xFFFF_FFFF
  const U64_MAX: nat := 0xFFFF_FFFF_FFFF_FFFF

  /** Milliseconds, in nanoseconds. */
  function Ms(n: nat): nat {
    n * 1_000_000
  }

  /** The longest representable span: `U64_MAX` seconds and all but a nanosecond of another. */
  const DURATION_MAX: nat := U64_MAX * 1_000_000_000 + 999_999_999

  type Duration = d: nat | d <= DURATION_MAX
  type u32 = n: nat | n <= U32_MAX

  const MAX_RETRIES: u32 := 8
  const BACKOFF_MAX_MS: nat := 2_000
  const CALL_TIMEOUT_MS: nat := 10_000

  // -- the schedule --------------------------------------------------------------------

  /** The free-standing schedule, in milliseconds. */
  function BackoffMs(attempt: u32): nat {
    if attempt >= 64 || 10 * Pow2(attempt) > U64_MAX then BACKOFF_MAX_MS
    else Min(10 * Pow2(attempt), BACKOFF_MAX_MS)
  }

  /** Doubling per attempt; a shift too wide to make saturates. */
  function Factor(attempt: u32): nat {
    if attempt < 32 then Pow2(attempt) else U32_MAX
  }

  /** A product that may not fit a duration, under a ceiling. */
  function Capped(product: nat, ceiling: Duration): (d: Duration)
    ensures d <= ceiling
  {
    if product > DURATION_MAX then ceiling else Min(product, ceiling)
  }

  datatype RetryPolicy = RetryPolicy(maxRetries: u32, backoffBase: Duration, backoffMax: Duration) {
    /** How long attempt number `attempt` is followed by, before any jitter. */
    function Backoff(attempt: u32): (d: Duration)
      ensures d <= backoffMax
    {
      Capped(backoffBase * Factor(attempt), backoffMax)
    }
  }

  const DEFAULT_POLICY := RetryPolicy(MAX_RETRIES, Ms(10), Ms(BACKOFF_MAX_MS))

  /** The two spellings of the schedule are one schedule, at every attempt number. */
  lemma PolicyAgreesWithSchedule(attempt: u32)
    ensures DEFAULT_POLICY.Backoff(attempt) == Ms(BackoffMs(attempt))
  {
    DefaultBackoffMs(attempt);
    DefaultBackoff(attempt);
  }

  /** Ten milliseconds doubled seven times, and two seconds from then on. */
  function DefaultDelay(attempt: u32): (ms: nat)
    ensures ms <= 2_000
  {
    FactorReaches(attempt);
    if attempt < 8 then 10 * Pow2(attempt) else 2_000
  }

  lemma DefaultBackoffMs(attempt: u32)
    ensures BackoffMs(attempt) == DefaultDelay(attempt)
  {
    Pow2OfEight();
    if attempt < 8 {
      Pow2Monotone(attempt, 7);
    } else {
      Pow2Monotone(8, attempt);
    }
  }

  lemma DefaultBackoff(attempt: u32)
    ensures DEFAULT_POLICY.Backoff(attempt) == Ms(DefaultDelay(attempt))
  {
    FactorReaches(attempt);
  }

  lemma FactorReaches(attempt: u32)
    ensures attempt < 8 ==> Factor(attempt) == Pow2(attempt) <= 0x80
    ensures attempt >= 8 ==> 0x100 <= Factor(attempt) <= U32_MAX
  {
    Pow2OfEight();
    if attempt < 8 {
      Pow2Monotone(attempt, 7);
    } else if attempt < 32 {
      Pow2Monotone(8, attempt);
      Pow2Monotone(attempt, 31);
      Pow2Values();
    }
  }

  /** A later attempt never waits less: the schedule grows, then flattens. */
  lemma BackoffIsMonotone(policy: RetryPolicy, a: u32, b: u32)
    requires a <= b
    ensures policy.Backoff(a) <= policy.Backoff(b)
  {
    if a < 32 {
      Pow2Monotone(a, if b < 32 then b else 31);
      Pow2Values();
    }
    MulMonotone(Factor(a), Factor(b), policy.backoffBase);
  }

  /** Each delay is twice the one before, up to the ceiling, as far as the shift goes; after that it stays. */
  lemma BackoffDoubles(policy: RetryPolicy, attempt: u32)
    ensures policy.Backoff(0) == Min(policy.backoffBase, policy.backoffMax)
    ensures attempt < 31 ==> policy.Backoff(attempt + 1) == Min(2 * policy.Backoff(attempt), policy.backoffMax)
    ensures attempt >= 32 ==> policy.Backoff(attempt) == Min(policy.backoffBase * U32_MAX, policy.backoffMax)
  {
    var base, ceiling := policy.backoffBase, policy.backoffMax;
    hide Capped;
    CappedIsMin(base * Factor(0), ceiling);
    CappedIsMin(base * Factor(attempt), ceiling);
    if attempt < 31 {
      CappedIsMin(base * Factor(attempt + 1), ceiling);
      DoubledFactor(base, attempt);
    }
  }

  lemma DoubledFactor(base: nat, attempt: u32)
    requires attempt < 31
    ensures base * Factor(attempt + 1) == 2 * (base * Factor(attempt))
  {
    assert base * (2 * Pow2(attempt)) == 2 * (base * Pow2(attempt));
  }

  lemma CappedIsMin(product: nat, ceiling: Duration)
    ensures Capped(product, ceiling) == Min(product, ceiling)
  {
  }

  // -- jitter --------------------------------------------------------------------------

  function Millis(base: Duration): nat {
    Min(base / 1_000_000, U64_MAX)
  }

  /** Draws allowed for a delay: the whole milliseconds above its half. */
  function JitterRoom(base: Duration): nat {
    Millis(base) - Millis(base) / 2
  }

  /** The delay a draw gives: the half plus the draw; a delay below a millisecond is left alone. */
  function Jittered(base: Duration, draw: nat): (d: nat)
    requires draw <= JitterRoom(base)
    ensures d <= base
    ensures d >= JitterFloor(base)
  {
    if Millis(base) == 0 then base else Ms(Millis(base) / 2 + draw)
  }

  /** The shortest delay a draw can give. */
  function JitterFloor(base: Duration): nat {
    if Millis(base) == 0 then base else Ms(Millis(base) / 2)
  }

  /** The delay slept, whatever the generator draws. */
  function Wait(base: Duration, draw: nat): (d: Duration)
    ensures JitterFloor(base) <= d <= base
  {
    Jittered(base, draw % (JitterRoom(base) + 1))
  }

  /** Every whole number of milliseconds from the half up to the delay is given, by one draw only. */
  lemma EachWaitOnce(base: Duration, ms: nat)
    requires base >= Ms(1)
    ensures var whole := Min(base / 1_000_000, U64_MAX);
      whole / 2 <= ms <= whole <==> exists draw :: 0 <= draw <= JitterRoom(base) && Jittered(base, draw) == Ms(ms)
    ensures forall a, b :: 0 <= a < b <= JitterRoom(base) ==> Jittered(base, a) != Jittered(base, b)
  {
    var half := Millis(base) / 2;
    if half <= ms <= Millis(base) {
      assert Jittered(base, ms - half) == Ms(ms);
    }
  }

  /** Jitter is documented never to give less than half the intended wait. It works in whole
  milliseconds, so that is true of every draw exactly when the wait is below a millisecond or an
  even number of them. */
  lemma HalfIsKeptExactly(base: Duration)
    ensures (forall draw :: 0 <= draw <= JitterRoom(base) ==> 2 * Jittered(base, draw) >= base)
      <==> base < Ms(1) || (base % 2_000_000 == 0 && base / 1_000_000 <= U64_MAX)
  {
    assert 2 * Jittered(base, 0) == if Millis(base) == 0 then 2 * base else 2 * Ms(Millis(base) / 2);
    if base >= Ms(1) && !(base % 2_000_000 == 0 && base / 1_000_000 <= U64_MAX) {
      assert 2 * Jittered(base, 0) < base;
    }
  }

  /** A wait of three milliseconds may be cut to one. */
  lemma HalfIsNotAlwaysKept()
    ensures Jittered(Ms(3), 0) == Ms(1)
  {
  }

  /** The least a client can have slept through its first `n` backoffs. */
  function MinSlept(policy: RetryPolicy, n: nat): nat
    requires n <= U32_MAX + 1
  {
    if n == 0 then 0 else MinSlept(policy, n - 1) + JitterFloor(policy.Backoff(n - 1))
  }

  lemma {:induction false} MinSleptMonotone(policy: RetryPolicy, a: nat, b: nat)
    requires a <= b <= U32_MAX + 1
    ensures MinSlept(policy, a) <= MinSlept(policy, b)
  {
    if a < b {
      MinSleptMonotone(policy, a, b - 1);
    }
  }

  /** The shortest sleep after the longest delay; from the thirty-second attempt on, every one is at least that. */
  function LastFloor(policy: RetryPolicy): nat {
    JitterFloor(policy.Backoff(32))
  }

  lemma {:induction false} MinSleptFlattens(policy: RetryPolicy, n: nat)
    requires 32 <= n <= U32_MAX + 1
    ensures MinSlept(policy, n) == MinSlept(policy, 32) + (n - 32) * LastFloor(policy)
  {
    hide JitterFloor, RetryPolicy.Backoff;
    if n > 32 {
      MinSleptFlattens(policy, n - 1);
      SameLateDelay(policy, n - 1);
      var f := LastFloor(policy);
      assert (n - 32) * f == (n - 1 - 32) * f + f;
    }
  }

  lemma SameLateDelay(policy: RetryPolicy, attempt: u32)
    requires attempt >= 32
    ensures policy.Backoff(attempt) == policy.Backoff(32)
  {
  }

  /** A sleep can be nothing at all exactly when the delay is nothing or between one and two milliseconds. */
  lemma FloorVanishesExactly(base: Duration)
    ensures JitterFloor(base) == 0 <==> base == 0 || Ms(1) <= base < Ms(2)
  {
  }

  /** Some number of backoffs, that the attempt counter can count, outlasts a timeout if and only if the
  first thirty-two and as many of the last as remain do. */
  lemma OutlastsExactly(policy: RetryPolicy, timeout: nat)
    ensures (exists n: nat :: n <= U32_MAX && timeout <= MinSlept(policy, n))
      <==> timeout <= MinSlept(policy, 32) + (U32_MAX - 32) * LastFloor(policy)
  {
    MinSleptFlattens(policy, U32_MAX);
    forall n: nat | n <= U32_MAX
      ensures MinSlept(policy, n) <= MinSlept(policy, U32_MAX)
    {
      MinSleptMonotone(policy, n, U32_MAX);
    }
  }

  lemma HalfOf(ms: nat)
    requires 1 <= ms <= 1_000
    ensures JitterFloor(Ms(2 * ms)) == Ms(ms)
  {
  }

  lemma DefaultFloor(attempt: u32)
    ensures JitterFloor(DEFAULT_POLICY.Backoff(attempt)) == Ms(if attempt < 8 then 5 * Pow2(attempt) else 1_000)
  {
    DefaultBackoff(attempt);
    FactorReaches(attempt);
    HalfOf(if attempt < 8 then 5 * Pow2(attempt) else 1_000);
  }

  lemma {:induction false} MinSleptByDefault(n: nat)
    requires n <= 20
    ensures MinSlept(DEFAULT_POLICY, n) == Ms(if n <= 8 then 5 * Pow2(n) - 5 else 1_000 * n - 6_725)
  {
    hide JitterFloor, RetryPolicy.Backoff, Pow2;
    EarlyPowers(n);
    if n > 0 {
      MinSleptByDefault(n - 1);
      DefaultFloor(n - 1);
      EarlyPowers(n - 1);
    }
  }

  /** Powers of two as far as the default schedule doubles. */
  lemma EarlyPowers(n: nat)
    ensures Pow2(0) == 1 && Pow2(8) == 0x100
    ensures 1 <= n <= 8 ==> Pow2(n) == 2 * Pow2(n - 1)
  {
    Pow2OfEight();
  }

  /** On the default schedule seventeen backoffs outlast the default call timeout, and sixteen need
  not. */
  lemma SeventeenBackoffs()
    ensures MinSlept(DEFAULT_POLICY, 17) >= Ms(CALL_TIMEOUT_MS)
    ensures MinSlept(DEFAULT_POLICY, 16) < Ms(CALL_TIMEOUT_MS)
  {
    MinSleptByDefault(16);
    MinSleptByDefault(17);
  }

  // -- what to repair ------------------------------------------------------------------

  datatype Redirect =
    | Leader(hint: Option<nat>)
    | Stale(replacements: seq<Region>)
    | Refresh
    | Busy

  datatype Verdict = Retry(redirect: Redirect) | Surface

  /** What to do about an error, whatever the method was. */
  function Classify(error: ProtoError): (v: Verdict)
    ensures v.Retry? <==> error.IsRetryable()
    ensures v.Retry? ==> error.Outcome() == NotApplied
    ensures v.Retry? && v.redirect.Leader? <==> error.NotLeader? || error.NotSent?
    ensures error.NotLeader? ==> v.redirect.hint == error.leaderHint
    ensures error.NotSent? ==> v.redirect.hint == None
    ensures v.Retry? && v.redirect.Stale? <==> error.EpochNotMatch?
    ensures error.EpochNotMatch? ==> v.redirect.replacements == error.currentRegions
    ensures v.Retry? && v.redirect.Refresh? <==> error.RegionNotFound?
  {
    if !error.IsRetryable() then Surface
    else match error
      case NotLeader(_, hint) => Retry(Leader(hint))
      case EpochNotMatch(regions) => Retry(Stale(regions))
      case RegionNotFound(_) => Retry(Refresh)
      case ServerIsBusy => Retry(Busy)
      case NotSent => Retry(Leader(None))
      case _ => Surface
  }

  /** Whether an error that surfaces is merely a lost answer to a question. */
  predicate MayAskAgain(verb: Method, error: ProtoError) {
    !verb.IsMutation() && error.Outcome() == Unknown
  }

  /** Drops a leader hint that names a peer which has already said it does not lead, or the store
  the call has just failed to reach. */
  function WorthBelieving(redirect: Redirect, unreachable: Option<nat>, peers: seq<Peer>, refused: seq<nat>):
    (r: Redirect)
    ensures r == redirect || (redirect.Leader? && redirect.hint.Some? && r == Leader(None))
  {
    if redirect.Leader? && redirect.hint.Some? && redirect.hint.value in refused then Leader(None)
    else if redirect.Leader? && redirect.hint.Some? && unreachable.Some?
         && exists p :: p in peers && p.peerId == redirect.hint.value && p.storeId == unreachable.value
      then Leader(None)
    else redirect
  }
}
