/**
 * The retry policy of the synthesis task: at most three retries
 * (`max_retries=3`), each scheduled `min(60, 2 ** retries * 5)` seconds
 * later, where `retries` counts the retries already made. The
 * post-processing task retries after a flat five seconds.
 */
module Retry {

  /** `max_retries` of the synthesis task (app.py line 365). */
  const MaxRetries: nat := 3
  const BaseDelay: nat := 5
  const DelayCap: nat := 60
  /** Countdown of the post-processing task's retry (app.py line 306). */
  const ProcessingDelay: nat := 5

  function Pow2(n: nat): (r: nat)
    ensures r >= 1
  {
    if n == 0 then 1 else 2 * Pow2(n - 1)
  }

  /** `min(60, 2 ** retries * 5)`: the countdown, in seconds, before the retry
      that follows `retries` earlier ones. */
  function Countdown(retries: nat): (seconds: nat)
    ensures BaseDelay <= seconds <= DelayCap
  {
    if DelayCap < Pow2(retries) * BaseDelay then DelayCap else Pow2(retries) * BaseDelay
  }

  lemma {:induction false} Pow2Monotone(i: nat, j: nat)
    requires i <= j
    ensures Pow2(i) <= Pow2(j)
    decreases j
  {
    if i < j { Pow2Monotone(i, j - 1); }
  }

  /** Each wait is at least as long as the one before. */
  lemma CountdownMonotone(i: nat, j: nat)
    requires i <= j
    ensures Countdown(i) <= Countdown(j)
  {
    Pow2Monotone(i, j);
  }

  /** The waits double from five seconds: 5, 10, 20, 40, and then stay at
      the 60-second cap. */
  lemma CountdownValues(retries: nat)
    ensures retries == 0 ==> Countdown(retries) == 5
    ensures retries == 1 ==> Countdown(retries) == 10
    ensures retries == 2 ==> Countdown(retries) == 20
    ensures retries == 3 ==> Countdown(retries) == 40
    ensures retries >= 4 ==> Countdown(retries) == DelayCap
  {
    if retries >= 4 {
      Pow2Monotone(4, retries);
    }
  }

  /** Under the configured ceiling the cap never bites: every retry the task
      can make waits exactly `5 * 2 ** retries` seconds, less than the cap. */
  lemma CapUnusedWithinMaxRetries(retries: nat)
    requires retries < MaxRetries
    ensures Countdown(retries) == BaseDelay * Pow2(retries) < DelayCap
  {
  }

  /** Sum of the countdowns before retries `0 .. n - 1`. */
  function TotalDelay(n: nat): nat {
    if n == 0 then 0 else TotalDelay(n - 1) + Countdown(n - 1)
  }

  /** Waits, summed over retries made, never exceed the cap per retry. */
  lemma {:induction false} TotalDelayBounded(n: nat)
    ensures BaseDelay * n <= TotalDelay(n) <= DelayCap * n
  {
    if n > 0 { TotalDelayBounded(n - 1); }
  }

  /** A task that uses up all its retries waits 5 + 10 + 20 = 35 seconds in all. */
  lemma TotalDelayAtMaxRetries()
    ensures TotalDelay(MaxRetries) == 35
  {
  }
}
