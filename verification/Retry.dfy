/** Retry policy and exponential back-off.  Durations are whole nanoseconds. */
module Retrying {
  import opened Errors

  const U32_MAX := 0xFFFF_FFFF
  const NANOS_PER_SECOND := 1_000_000_000
  /** The longest `Duration`: 2^64 - 1 seconds and 999999999 nanoseconds. */
  const MAX_DURATION := 0x1_0000_0000_0000_0000 * NANOS_PER_SECOND - 1

  datatype RetryPolicy = RetryPolicy(maxRetries: nat, initialBackoff: nat, maxBackoff: nat) {
    /** What every constructor establishes. */
    predicate Valid() {
      maxRetries <= U32_MAX && initialBackoff <= maxBackoff <= MAX_DURATION
    }

    /** Delay before retry number `retry`, counted from 1. */
    function Backoff(retry: nat): nat {
      var exponent := Min(if retry == 0 then 0 else retry - 1, 31);
      var delay := Scaled(initialBackoff, exponent);
      if delay > MAX_DURATION then maxBackoff else Min(delay, maxBackoff)
    }

    predicate ShouldRetry(retriesSoFar: nat, error: Error) {
      retriesSoFar < maxRetries && error.IsRetryable()
    }

    /** The delays in front of the first `n` retries. */
    function Backoffs(n: nat): (delays: seq<nat>)
      ensures |delays| == n && forall i :: 0 <= i < n ==> delays[i] == Backoff(i + 1)
    {
      if n == 0 then [] else Backoffs(n - 1) + [Backoff(n)]
    }

    function WithBackoff(initial: nat, max: nat): RetryPolicy {
      this.(initialBackoff := initial, maxBackoff := Max(max, initial))
    }

    static function New(maxRetries: nat): RetryPolicy {
      RetryPolicy(maxRetries, 200 * 1_000_000, 2 * NANOS_PER_SECOND)
    }

    static const NONE := RetryPolicy(0, 0, 0)
  }

  function Min(a: int, b: int): int { if a <= b then a else b }

  function Max(a: int, b: int): int { if a >= b then a else b }

  /** `delay * 2^exponent`. */
  function Scaled(delay: nat, exponent: nat): nat {
    if exponent == 0 then delay else 2 * Scaled(delay, exponent - 1)
  }

  lemma {:induction false} ScaledIsProduct(delay: nat, exponent: nat)
    ensures Scaled(delay, exponent) == delay * Pow2(exponent)
  {
    if exponent != 0 {
      ScaledIsProduct(delay, exponent - 1);
      assert delay * (2 * Pow2(exponent - 1)) == 2 * (delay * Pow2(exponent - 1));
    }
  }

  function Pow2(n: nat): (p: nat)
    ensures p >= 1
  {
    if n == 0 then 1 else 2 * Pow2(n - 1)
  }

  lemma PoliciesAreValid(maxRetries: nat, initial: nat, max: nat)
    requires maxRetries <= U32_MAX && initial <= MAX_DURATION && max <= MAX_DURATION
    ensures RetryPolicy.NONE.Valid() && RetryPolicy.New(maxRetries).Valid()
    ensures RetryPolicy.New(maxRetries).WithBackoff(initial, max).Valid()
    ensures RetryPolicy.New(maxRetries).WithBackoff(initial, max)
         == RetryPolicy(maxRetries, initial, if initial <= max then max else initial)
  {
  }

  /** The overflow branch is invisible: the delay is the exact product, capped. */
  lemma BackoffExact(p: RetryPolicy, n: nat)
    requires p.Valid() && n >= 1
    ensures var exact := p.initialBackoff * Pow2(if n <= 32 then n - 1 else 31);
            p.Backoff(n) == if exact <= p.maxBackoff then exact else p.maxBackoff
  {
    ScaledIsProduct(p.initialBackoff, Min(n - 1, 31));
  }

  /** The default policy waits 0.2, 0.4, 0.8, 1.6 and then always 2 seconds. */
  lemma DefaultDelays(maxRetries: nat, n: nat)
    requires maxRetries <= U32_MAX && n >= 1
    ensures RetryPolicy.New(maxRetries).Backoff(n)
         == if n == 1 then 200_000_000 else if n == 2 then 400_000_000 else if n == 3 then 800_000_000
            else if n == 4 then 1_600_000_000 else 2_000_000_000
  {
    var exponent := if n <= 32 then n - 1 else 31;
    PoliciesAreValid(maxRetries, 0, 0);
    BackoffExact(RetryPolicy.New(maxRetries), n);
    SmallPowers();
    if n >= 5 { Pow2AtLeast(exponent); }
    CappedDelay(n, Pow2(exponent));
  }

  lemma CappedDelay(n: nat, power: nat)
    requires n >= 1 && (n == 1 ==> power == 1) && (n == 2 ==> power == 2) && (n == 3 ==> power == 4)
    requires (n == 4 ==> power == 8) && (n >= 5 ==> power >= 16)
    ensures (if 200_000_000 * power <= 2_000_000_000 then 200_000_000 * power else 2_000_000_000)
         == if n == 1 then 200_000_000 else if n == 2 then 400_000_000 else if n == 3 then 800_000_000
            else if n == 4 then 1_600_000_000 else 2_000_000_000
  {
  }

  lemma SmallPowers()
    ensures Pow2(0) == 1 && Pow2(1) == 2 && Pow2(2) == 4 && Pow2(3) == 8
  {
    assert Pow2(1) == 2 * Pow2(0);
    assert Pow2(2) == 2 * Pow2(1);
    assert Pow2(3) == 2 * Pow2(2);
  }

  lemma {:induction false} Pow2AtLeast(n: nat)
    requires n >= 4
    ensures Pow2(n) >= 16
  {
    if n == 4 {
      SmallPowers();
      assert Pow2(4) == 2 * Pow2(3);
    } else {
      Pow2AtLeast(n - 1);
    }
  }

  lemma BackoffCapped(p: RetryPolicy, n: nat)
    requires p.Valid()
    ensures p.Backoff(n) <= p.maxBackoff
  {
  }

  /**
    The delay doubles from one retry to the next up to the cap exactly while the exponent grows: the
    code stops doubling at the 32nd retry, which shows unless the cap is reached by then.
   */
  lemma BackoffDoubles(p: RetryPolicy, n: nat)
    requires p.Valid() && n >= 1
    ensures p.Backoff(n + 1) == Min(2 * p.Backoff(n), p.maxBackoff) <==>
              n < 32 || p.initialBackoff * Pow2(31) >= p.maxBackoff || p.initialBackoff == 0
    ensures n >= 32 ==> p.Backoff(n + 1) == p.Backoff(n)
  {
    if n < 32 {
      assert Scaled(p.initialBackoff, n) == 2 * Scaled(p.initialBackoff, n - 1);
    } else {
      ScaledIsProduct(p.initialBackoff, 31);
      ScaledPositive(p.initialBackoff, 31);
    }
  }

  lemma Pow2Of31()
    ensures Pow2(31) == 0x8000_0000
  {
    assert Pow2(8) == 2 * Pow2(7) == 4 * Pow2(6) == 8 * Pow2(5) == 16 * Pow2(4) == 32 * Pow2(3) == 64 * Pow2(2)
        == 128 * Pow2(1) == 256;
    assert Pow2(16) == 2 * Pow2(15) == 4 * Pow2(14) == 8 * Pow2(13) == 16 * Pow2(12) == 32 * Pow2(11)
        == 64 * Pow2(10) == 128 * Pow2(9) == 256 * Pow2(8);
    assert Pow2(24) == 2 * Pow2(23) == 4 * Pow2(22) == 8 * Pow2(21) == 16 * Pow2(20) == 32 * Pow2(19)
        == 64 * Pow2(18) == 128 * Pow2(17) == 256 * Pow2(16);
    assert Pow2(31) == 2 * Pow2(30) == 4 * Pow2(29) == 8 * Pow2(28) == 16 * Pow2(27) == 32 * Pow2(26)
        == 64 * Pow2(25) == 128 * Pow2(24);
  }

  /** From one nanosecond up to ten seconds the 33rd delay is the 32nd: about two seconds, not ten. */
  lemma DoublingStops()
    ensures var p := RetryPolicy.New(40).WithBackoff(1, 10 * NANOS_PER_SECOND);
            p.Valid() && p.Backoff(33) == p.Backoff(32) == 0x8000_0000 < Min(2 * p.Backoff(32), p.maxBackoff)
  {
    var p := RetryPolicy.New(40).WithBackoff(1, 10 * NANOS_PER_SECOND);
    Pow2Of31();
    PoliciesAreValid(40, 1, 10 * NANOS_PER_SECOND);
    BackoffExact(p, 32);
    BackoffDoubles(p, 32);
  }

  lemma {:induction false} ScaledPositive(delay: nat, exponent: nat)
    ensures Scaled(delay, exponent) >= delay
    ensures delay == 0 ==> Scaled(delay, exponent) == 0
  {
    if exponent != 0 { ScaledPositive(delay, exponent - 1); }
  }

  lemma {:induction false} ScaledMonotone(delay: nat, m: nat, n: nat)
    requires m <= n
    ensures Scaled(delay, m) <= Scaled(delay, n)
  {
    if m < n { ScaledMonotone(delay, m, n - 1); }
  }

  /** Later retries never wait less. */
  lemma BackoffMonotone(p: RetryPolicy, m: nat, n: nat)
    requires p.Valid() && m <= n
    ensures p.Backoff(m) <= p.Backoff(n)
  {
    ScaledMonotone(p.initialBackoff, Min(if m == 0 then 0 else m - 1, 31), Min(if n == 0 then 0 else n - 1, 31));
  }

  lemma {:induction false} BackoffsCapped(p: RetryPolicy, n: nat)
    requires p.Valid()
    ensures |p.Backoffs(n)| == n
    ensures forall i :: 0 <= i < n ==> p.Backoffs(n)[i] == p.Backoff(i + 1) <= p.maxBackoff
  {
    if n != 0 {
      BackoffsCapped(p, n - 1);
      forall i | 0 <= i < n ensures p.Backoffs(n)[i] == p.Backoff(i + 1) <= p.maxBackoff {
        BackoffCapped(p, i + 1);
        if i < n - 1 { assert p.Backoffs(n)[i] == p.Backoffs(n - 1)[i]; }
      }
    }
  }

  function Sum(xs: seq<nat>): nat {
    if xs == [] then 0 else Sum(xs[..|xs| - 1]) + xs[|xs| - 1]
  }

  lemma {:induction false} SumBounded(xs: seq<nat>, bound: nat)
    requires forall i :: 0 <= i < |xs| ==> xs[i] <= bound
    ensures Sum(xs) <= |xs| * bound
  {
    if xs != [] {
      SumBounded(xs[..|xs| - 1], bound);
      assert |xs| * bound == (|xs| - 1) * bound + bound;
    }
  }

  /**
    A GET of `calls` attempts that each respect the timeout, with the policy's delays between them,
    takes at most `(retries + 1) * timeout + retries * max_backoff`.
   */
  lemma WorstCaseTime(p: RetryPolicy, attempts: seq<nat>, timeout: nat)
    requires p.Valid() && 1 <= |attempts| <= p.maxRetries + 1
    requires forall i :: 0 <= i < |attempts| ==> attempts[i] <= timeout
    ensures Sum(attempts) + Sum(p.Backoffs(|attempts| - 1))
         <= (p.maxRetries + 1) * timeout + p.maxRetries * p.maxBackoff
  {
    var delays := p.Backoffs(|attempts| - 1);
    SumBounded(attempts, timeout);
    BackoffsCapped(p, |attempts| - 1);
    SumBounded(delays, p.maxBackoff);
    MoreOf(|attempts|, p.maxRetries + 1, timeout);
    MoreOf(|delays|, p.maxRetries, p.maxBackoff);
  }

  lemma MoreOf(a: nat, b: nat, x: nat)
    requires a <= b
    ensures a * x <= b * x
  {
    assert (b - a) * x >= 0;
  }
}
