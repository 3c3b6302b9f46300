/**
 * `computeBackoffMs`, written out identically in lib/jobrunner/scheduler.ts,
 * lib/indexer/scheduler.ts and lib/indexer/workers.ts:
 * `Math.min(cap, base * Math.pow(2, attempts - 1)) + jitter` with a base of one second,
 * a cap of one hour and `jitter = Math.floor(Math.random() * 1000)`. The random draw is
 * a parameter of type `Jitter`.
 */
module Backoff {

  const BASE_MS: int := 1000
  const CAP_MS: int := 60 * 60 * 1000

  /** `Math.floor(Math.random() * 1000)` for a draw in [0, 1). */
  type Jitter = j: int | 0 <= j < 1000

  function Pow2(n: nat): (p: nat)
    ensures p >= 1
  {
    if n == 0 then 1 else 2 * Pow2(n - 1)
  }

  /**
   * `Math.min(cap, base * Math.pow(2, attempts - 1))`. Attempt counters are never
   * negative; for 0 the power is one half, so the product is exactly 500.
   */
  function CappedDelayMs(attempts: nat): int
  {
    if attempts == 0 then BASE_MS / 2
    else if BASE_MS * Pow2(attempts - 1) < CAP_MS then BASE_MS * Pow2(attempts - 1)
    else CAP_MS
  }

  /** The delay before the next attempt: the capped delay plus less than a second of jitter. */
  function ComputeBackoffMs(attempts: nat, jitter: Jitter): (d: int)
    ensures 500 <= d < CAP_MS + 1000
    ensures d - jitter <= CAP_MS
  {
    CappedDelayMs(attempts) + jitter
  }

  lemma {:induction false} Pow2Monotone(m: nat, n: nat)
    requires m <= n
    ensures Pow2(m) <= Pow2(n)
    decreases n
  {
    if m < n {
      Pow2Monotone(m, n - 1);
    }
  }

  /** Ignoring jitter the backoff never shrinks as the attempt count grows. */
  lemma BackoffMonotone(m: nat, n: nat)
    requires m <= n
    ensures CappedDelayMs(m) <= CappedDelayMs(n)
    ensures ComputeBackoffMs(m, 0) <= ComputeBackoffMs(n, 0)
  {
    if 1 <= m {
      Pow2Monotone(m - 1, n - 1);
    } else if 1 <= n {
      Pow2Monotone(0, n - 1);
    }
  }

  /** Below the cap each further attempt doubles the delay. */
  lemma BackoffDoubles(n: nat)
    requires 1 <= n && BASE_MS * Pow2(n) < CAP_MS
    ensures CappedDelayMs(n + 1) == 2 * CappedDelayMs(n)
  {
  }

  /** From the thirteenth attempt on, the delay is the one-hour cap. */
  lemma BackoffSaturates(n: nat)
    requires n >= 13
    ensures CappedDelayMs(n) == CAP_MS
  {
    assert Pow2(12) == 4096;
    Pow2Monotone(12, n - 1);
  }

  /** Up to the twelfth attempt the delay is exactly `1000 * 2^(attempts - 1)`. */
  lemma BackoffBelowCap(n: nat)
    requires 1 <= n <= 12
    ensures CappedDelayMs(n) == BASE_MS * Pow2(n - 1) < CAP_MS
  {
    assert Pow2(11) == 2048;
    Pow2Monotone(n - 1, 11);
  }
}
