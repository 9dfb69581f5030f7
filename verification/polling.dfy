/** The wait for a certificate's validation (`wait_for_certificate_validation`):
    poll the status, sleep a fixed interval while it is still pending, give up
    once the accumulated sleep exceeds the timeout. */
module Polling {

  /** Certificate statuses the certificate authority reports. */
  datatype Status =
    | PendingValidation
    | Issued
    | Inactive
    | Expired
    | ValidationTimedOut
    | Revoked
    | Failed

  /** How the wait ends: with the first status that is no longer pending, or
      with the timeout failure; both record how often the loop slept and the
      elapsed-time counter at that point. */
  datatype WaitResult =
    | NoLongerPending(status: Status, sleeps: nat, elapsed: int)
    | TimedOut(sleeps: nat, elapsed: int)

  /** The loop from the state reached after `sleeps` sleeps, whose counter is
      `elapsed`; `observe(n)` is the status the n-th status query returns
      (query 0 is the one before the loop). */
  function WaitFrom(observe: nat -> Status, sleepTime: int, timeout: int, sleeps: nat, elapsed: int): (r: WaitResult)
    requires sleepTime > 0
    requires elapsed == sleeps * sleepTime
    requires sleeps == 0 || elapsed - sleepTime <= timeout
    ensures r.sleeps >= sleeps
    ensures r.elapsed == r.sleeps * sleepTime
    ensures forall i :: sleeps <= i < r.sleeps ==> observe(i) == PendingValidation
    ensures r.NoLongerPending? ==> r.status == observe(r.sleeps) && r.status != PendingValidation
    ensures r.TimedOut? ==> observe(r.sleeps) == PendingValidation && r.elapsed > timeout
    ensures r.sleeps == 0 || r.elapsed - sleepTime <= timeout
    decreases if elapsed <= timeout then timeout - elapsed + 1 else 0
  {
    var status := observe(sleeps);
    if status != PendingValidation then NoLongerPending(status, sleeps, elapsed)
    else if elapsed > timeout then TimedOut(sleeps, elapsed)
    else WaitFrom(observe, sleepTime, timeout, sleeps + 1, elapsed + sleepTime)
  }

  /** The whole wait, from the first status query with the counter at zero.
      Its contract determines the result: the loop sleeps until the first
      non-pending status, each sleep is taken only while the counter has not
      exceeded the timeout, and the counter grows by the interval per sleep. */
  function Wait(observe: nat -> Status, sleepTime: int, timeout: int): (r: WaitResult)
    requires sleepTime > 0
    ensures r.elapsed == r.sleeps * sleepTime
    ensures forall i :: 0 <= i < r.sleeps ==> observe(i) == PendingValidation
    ensures r.NoLongerPending? ==> r.status == observe(r.sleeps) && r.status != PendingValidation
    ensures r.TimedOut? ==> observe(r.sleeps) == PendingValidation && r.elapsed > timeout
    ensures r.sleeps == 0 || r.elapsed - sleepTime <= timeout
  {
    WaitFrom(observe, sleepTime, timeout, 0, 0)
  }

  /** Cancelling a positive factor keeps a strict inequality. */
  lemma CancelPositiveFactor(x: int, y: int, k: int)
    requires k > 0 && x * k < y * k
    ensures x < y
  {
    assert (y - x) * k == y * k - x * k;
  }

  /** A multiple of a positive step that stays within a bound is at most the
      bound's quotient by the step. */
  lemma MultipleWithinBound(a: nat, step: int, bound: int)
    requires step > 0 && bound >= 0 && a * step <= bound
    ensures a <= bound / step
  {
    var q := bound / step;
    var m := bound % step;
    assert bound == q * step + m && m < step;
    assert (q + 1) * step == q * step + step;
    CancelPositiveFactor(a, q + 1, step);
  }

  /** With a non-negative timeout the loop sleeps at most `timeout / sleepTime + 1`
      times, and a timeout failure comes only after at least one sleep. */
  lemma SleepBound(observe: nat -> Status, sleepTime: int, timeout: int)
    requires sleepTime > 0 && timeout >= 0
    ensures Wait(observe, sleepTime, timeout).sleeps <= timeout / sleepTime + 1
    ensures Wait(observe, sleepTime, timeout).TimedOut? ==> Wait(observe, sleepTime, timeout).sleeps >= 1
  {
    var r := Wait(observe, sleepTime, timeout);
    if r.sleeps >= 1 {
      assert (r.sleeps - 1) * sleepTime == r.elapsed - sleepTime;
      MultipleWithinBound(r.sleeps - 1, sleepTime, timeout);
    }
  }

  /** When the status never leaves `PENDING_VALIDATION`, the wait fails after
      exactly `timeout / sleepTime + 1` sleeps. */
  lemma AlwaysPendingTimesOut(observe: nat -> Status, sleepTime: int, timeout: int)
    requires sleepTime > 0 && timeout >= 0
    requires forall i :: observe(i) == PendingValidation
    ensures Wait(observe, sleepTime, timeout).TimedOut?
    ensures Wait(observe, sleepTime, timeout).sleeps == timeout / sleepTime + 1
  {
    var r := Wait(observe, sleepTime, timeout);
    var q := timeout / sleepTime;
    SleepBound(observe, sleepTime, timeout);
    if r.sleeps <= q {
      assert false;
    }
  }

  /** `wait_for_certificate_validation`'s loop, with the sleep replaced by the elapsed-time counter;
      it ends exactly as the functional model says. */
  method WaitForCertificateValidation(observe: nat -> Status, sleepTime: int, timeout: int) returns (r: WaitResult)
    requires sleepTime > 0
    ensures r == Wait(observe, sleepTime, timeout)
  {
    var queries: nat := 0;
    var status := observe(queries);
    var elapsed := 0;
    while status == PendingValidation
      invariant elapsed == queries * sleepTime
      invariant queries == 0 || elapsed - sleepTime <= timeout
      invariant status == observe(queries)
      invariant WaitFrom(observe, sleepTime, timeout, queries, elapsed) == Wait(observe, sleepTime, timeout)
      decreases if elapsed <= timeout then timeout - elapsed + 1 else 0
    {
      if elapsed > timeout {
        return TimedOut(queries, elapsed);
      }
      queries := queries + 1;
      status := observe(queries);
      elapsed := elapsed + sleepTime;
    }
    return NoLongerPending(status, queries, elapsed);
  }

  /** Two pending answers and then `ISSUED`, polling every 5 s with a 600 s
      timeout: the wait succeeds after two sleeps. */
  lemma IssuedAfterTwoSleeps()
    ensures var observe := (i: nat) => if i < 2 then PendingValidation else Issued;
      Wait(observe, 5, 600) == NoLongerPending(Issued, 2, 10)
  {
    var observe := (i: nat) => if i < 2 then PendingValidation else Issued;
    var r := Wait(observe, 5, 600);
    assert observe(2) == Issued;
  }

  /** Always pending, polling every 5 s with a 10 s timeout: the counter reaches
      15 s, so the failure comes after three sleeps (the fourth status query). */
  lemma PendingTimesOutAfterThreeSleeps()
    ensures Wait((i: nat) => PendingValidation, 5, 10) == TimedOut(3, 15)
  {
    AlwaysPendingTimesOut((i: nat) => PendingValidation, 5, 10);
  }
}
