/** Capped exponential backoff (crates/abuse/src/lib.rs, `AbuseBackoffPolicy`). */
module Backoff {
  import opened Prelude

  datatype Policy = Policy(initialMs: u64, maxMs: u64, multiplier: u64, maxAttempts: u32)

  datatype Decision = Backoff(attempt: u32, delayMs: u64) | FailClosed(reason: string)

  datatype BackoffError = InvalidBackoffPolicy

  predicate Valid(p: Policy) {
    p.initialMs != 0 && p.initialMs <= p.maxMs && p.multiplier >= 1 && p.maxAttempts != 0
  }

  function Power(base: nat, exponent: nat): nat {
    if exponent == 0 then 1 else base * Power(base, exponent - 1)
  }

  function SaturatingMul(a: u64, b: u64): u64 {
    Min(a * b, U64 - 1)
  }

  /** The exponential law over unbounded integers, capped once. */
  function Delay(p: Policy, attempt: nat): int
    requires attempt >= 1
  {
    Min(p.initialMs * Power(p.multiplier, attempt - 1), p.maxMs)
  }

  lemma PowerPositive(base: nat, exponent: nat)
    requires base >= 1
    ensures Power(base, exponent) >= 1
  {
    if exponent == 0 {
    } else {
      PowerPositive(base, exponent - 1);
      assert base * Power(base, exponent - 1) >= Power(base, exponent - 1);
    }
  }

  /** Capping a product after a capped factor is capping the product. */
  lemma CapTwice(x: nat, y: nat, m: nat, cap: nat)
    requires m >= 1 && y == Min(x, cap)
    ensures Min(y * m, cap) == Min(x * m, cap)
  {
    if x > cap {
      assert cap * m >= cap && x * m >= cap * m;
    }
  }

  lemma Regroup(a: nat, b: nat, c: nat)
    ensures a * (b * c) == a * c * b
  {
  }

  lemma OneMoreFactor(p: Policy, n: nat)
    requires Valid(p)
    ensures Delay(p, n + 2) == Min(Delay(p, n + 1) * p.multiplier, p.maxMs)
  {
    var x := p.initialMs * Power(p.multiplier, n);
    PowerPositive(p.multiplier, n);
    CapTwice(x, Delay(p, n + 1), p.multiplier, p.maxMs);
    Regroup(p.initialMs, p.multiplier, Power(p.multiplier, n));
  }

  /**
   `decision_for_attempt`: the saturating, step-by-step capped loop computes the closed form
   min(initial * multiplier^(k - 1), max) of unbounded arithmetic.
   */
  method DecisionForAttempt(p: Policy, attempt: u32) returns (r: Result<Decision, BackoffError>)
    ensures r == if !Valid(p) then Failure(InvalidBackoffPolicy)
                 else if 1 <= attempt <= p.maxAttempts then Success(Backoff(attempt, Delay(p, attempt)))
                 else Success(FailClosed("retry_attempts_exhausted"))
  {
    if !Valid(p) {
      return Failure(InvalidBackoffPolicy);
    }
    if attempt == 0 || attempt > p.maxAttempts {
      return Success(FailClosed("retry_attempts_exhausted"));
    }
    var exponent := attempt - 1;
    var delay: u64 := p.initialMs;
    assert Power(p.multiplier, 0) == 1;
    for i := 0 to exponent
      invariant delay == Delay(p, i + 1)
    {
      OneMoreFactor(p, i);
      delay := Min(SaturatingMul(delay, p.multiplier), p.maxMs);
    }
    r := Success(Backoff(attempt, Min(delay, p.maxMs)));
  }

  lemma Grows(a: nat, b: nat)
    requires b >= 1
    ensures a * b >= a
  {
  }

  lemma DelayInRange(p: Policy, k: nat)
    requires Valid(p) && k >= 1
    ensures p.initialMs <= Delay(p, k) <= p.maxMs
  {
    PowerPositive(p.multiplier, k - 1);
    Grows(p.initialMs, Power(p.multiplier, k - 1));
  }

  /** Delays start at the initial one, never shrink, and never exceed the maximum. */
  lemma {:induction false} DelaysGrow(p: Policy, j: nat, k: nat)
    requires Valid(p) && 1 <= j <= k
    ensures p.initialMs <= Delay(p, j) <= Delay(p, k) <= p.maxMs
    decreases k
  {
    DelayInRange(p, j);
    DelayInRange(p, k);
    if j == k {
    } else {
      DelaysGrow(p, j, k - 1);
      OneMoreFactor(p, k - 2);
      Grows(Delay(p, k - 1), p.multiplier);
    }
  }

  /** The waiting time of the first `n` attempts together. */
  function Schedule(p: Policy, n: nat): int {
    if n == 0 then 0 else Schedule(p, n - 1) + Delay(p, n)
  }

  lemma OneMoreTerm(n: nat, c: nat)
    requires n > 0
    ensures n * c == (n - 1) * c + c
  {
  }

  lemma {:induction false} ScheduleBounded(p: Policy, n: nat)
    requires Valid(p)
    ensures n * p.initialMs <= Schedule(p, n) <= n * p.maxMs
  {
    if n == 0 {
    } else {
      ScheduleBounded(p, n - 1);
      DelayInRange(p, n);
      OneMoreTerm(n, p.initialMs);
      OneMoreTerm(n, p.maxMs);
    }
  }
}
