/** The delay schedule of `pkg/retrier` and `pkg/httpretrier`: a base that is multiplied
    after every failed execution, and a random jitter on top, in 64-bit nanoseconds. */
module Backoff {

  const INT64_LIMIT: int := 0x8000_0000_0000_0000

  /** `nextDelay` after `k` multiplications, without rounding. */
  function Base(delay: int, factor: real, k: nat): real {
    if k == 0 then delay as real else Base(delay, factor, k - 1) * factor
  }

  function Power(factor: real, k: nat): real { if k == 0 then 1.0 else Power(factor, k - 1) * factor }

  lemma {:induction false} BaseIsPower(delay: int, factor: real, k: nat)
    ensures Base(delay, factor, k) == delay as real * Power(factor, k)
  {
    if k > 0 {
      BaseIsPower(delay, factor, k - 1);
      assert (delay as real * Power(factor, k - 1)) * factor == delay as real * (Power(factor, k - 1) * factor);
    }
  }

  function WrapInt64(x: int): int {
    if x >= INT64_LIMIT then x - 2 * INT64_LIMIT else x
  }

  /** A wait is the whole part of its base plus a jitter below `jitter`, as a 64-bit sum: in
      the band above the whole part, or, where the sum does not fit, negative, so that the
      timer fires at once. */
  predicate Scheduled(base: real, jitter: int, wait: int) {
    var sum := if wait < 0 then wait + 2 * INT64_LIMIT else wait;
    base.Floor <= sum < base.Floor + jitter && (wait < 0 <==> sum >= INT64_LIMIT)
  }

  /** The k-th wait is scheduled on the k-th base, as long as that base fits 64 bits. */
  predicate InBand(delay: int, factor: real, jitter: int, k: nat, wait: int) {
    Base(delay, factor, k).Floor < INT64_LIMIT ==> Scheduled(Base(delay, factor, k), jitter, wait)
  }

  predicate AllInBand(delay: int, factor: real, jitter: int, waits: seq<int>) {
    forall k :: 0 <= k < |waits| ==> InBand(delay, factor, jitter, k, waits[k])
  }

  lemma OneMoreInBand(delay: int, factor: real, jitter: int, waits: seq<int>, wait: int)
    requires AllInBand(delay, factor, jitter, waits) && InBand(delay, factor, jitter, |waits|, wait)
    ensures AllInBand(delay, factor, jitter, waits + [wait])
  {
  }

  /** `time.Duration(int64(nextDelay) + rand.Int63n(int64(jitter)))`; converting a float
      that does not fit gives whatever the platform gives. */
  method NextWait(nextDelay: real, jitter: int) returns (wait: int)
    requires 1 <= jitter < INT64_LIMIT && 0.0 <= nextDelay
    ensures nextDelay.Floor < INT64_LIMIT ==> Scheduled(nextDelay, jitter, wait)
  {
    var whole: int := *;
    if nextDelay.Floor < INT64_LIMIT {
      whole := nextDelay.Floor;
    }
    var random :| 0 <= random < jitter;
    wait := WrapInt64(whole + random);
  }

  /** The k-th wait, written out: at least the whole part of delay * factor^k and less than
      `jitter` above it, while that fits 64 bits; a sum that does not fit wraps to a negative
      wait, which makes the timer fire at once. */
  lemma WaitMeaning(delay: int, factor: real, jitter: int, waits: seq<int>, k: nat)
    requires AllInBand(delay, factor, jitter, waits) && k < |waits| && 1 <= jitter
    ensures var whole := (delay as real * Power(factor, k)).Floor;
      && (0 <= whole && whole + jitter <= 9223372036854775808 ==> whole <= waits[k] < whole + jitter)
      && (whole < 9223372036854775808 && waits[k] < 0 ==>
            whole <= waits[k] + 18446744073709551616 < whole + jitter)
  {
    BaseIsPower(delay, factor, k);
    assert InBand(delay, factor, jitter, k, waits[k]);
  }

  // ---------- the schedule as a whole ----------

  /** With a factor of at least one the bases never shrink. */
  lemma {:induction false} BasesNeverShrink(delay: int, factor: real, i: nat, j: nat)
    requires delay >= 1 && factor >= 1.0 && i <= j
    ensures 1.0 <= Base(delay, factor, i) <= Base(delay, factor, j)
  {
    if i < j {
      BasesNeverShrink(delay, factor, i, j - 1);
      Grows(Base(delay, factor, j - 1), factor);
    } else if i > 0 {
      BasesNeverShrink(delay, factor, i - 1, i - 1);
      Grows(Base(delay, factor, i - 1), factor);
    }
  }

  lemma Grows(b: real, factor: real)
    requires b >= 1.0 && factor >= 1.0
    ensures b * factor >= b
  {
    assert b * (factor - 1.0) >= 0.0;
    assert b * factor == b + b * (factor - 1.0);
  }

  function Sum(waits: seq<int>): int {
    if waits == [] then 0 else Sum(waits[..|waits| - 1]) + waits[|waits| - 1]
  }

  function Pow2(k: nat): nat { if k == 0 then 1 else 2 * Pow2(k - 1) }

  lemma {:induction false} DoublingBase(delay: int, k: nat)
    ensures Base(delay, 2.0, k) == (delay * Pow2(k)) as real
  {
    if k > 0 {
      DoublingBase(delay, k - 1);
      assert delay * Pow2(k) == 2 * (delay * Pow2(k - 1));
    }
  }

  lemma NextTerms(delay: int, jitter: int, n: nat)
    ensures delay * Pow2(n + 1) == 2 * (delay * Pow2(n))
    ensures (n + 1) * (jitter - 1) == n * (jitter - 1) + (jitter - 1)
  {
    assert Pow2(n + 1) == 2 * Pow2(n);
  }

  lemma {:induction false} DoublingGrows(delay: int, i: nat, j: nat)
    requires delay >= 1 && i <= j
    ensures delay <= delay * Pow2(i) <= delay * Pow2(j)
  {
    if i < j {
      DoublingGrows(delay, i, j - 1);
      NextTerms(delay, 1, j - 1);
    } else if i > 0 {
      DoublingGrows(delay, i - 1, i - 1);
      NextTerms(delay, 1, i - 1);
    }
  }

  /** With the default factor of two, the first n waits add up to at least
      delay * (2^n - 1), and to at most n * (jitter - 1) more. */
  lemma {:induction false} DoublingSum(delay: int, jitter: int, waits: seq<int>)
    requires delay >= 1 && jitter >= 1 && AllInBand(delay, 2.0, jitter, waits)
    requires waits == [] || delay * Pow2(|waits| - 1) + jitter <= INT64_LIMIT
    ensures 0 <= Sum(waits) - (delay * Pow2(|waits|) - delay) <= |waits| * (jitter - 1)
  {
    if waits != [] {
      var n := |waits| - 1;
      var before := waits[..n];
      assert AllInBand(delay, 2.0, jitter, before);
      if n > 0 {
        DoublingGrows(delay, n - 1, n);
      }
      DoublingSum(delay, jitter, before);
      NextTerms(delay, jitter, n);
      DoublingBase(delay, n);
      assert InBand(delay, 2.0, jitter, n, waits[n]);
    }
  }
}
