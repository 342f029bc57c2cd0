/**
 * The vocabulary of the helpers' wait loops. A loop iteration reads the clock
 * once and fetches the resource once; the model replaces both by a trace of
 * ticks, one per iteration, saying whether the deadline had been reached
 * when the clock was read and what the fetch produced.
 */
module Polling {
  import opened Wrappers
  import opened Calls
  import opened Pow

  datatype Fetch = Absent | Present(record: Record) | Failed(error: Error)

  datatype Tick = Tick(late: bool, fetched: Fetch)

  /**
   * How a wait loop ends: it returns (`Success`), calls pytest.fail on the
   * deadline (`Timeout`) or on an unexpected status (`Fail`), or lets an
   * exception escape (`Escaped`).
   */
  datatype Outcome = Success | Timeout | Fail(status: string) | Escaped(error: Error)

  /**
   * A run of a wait loop over a trace: how it ended (None when the trace ran
   * out while the loop was still waiting), how many iterations it went
   * through, and the sleeps it took, in order.
   */
  datatype PollResult = PollResult(ended: Option<Outcome>, iterations: nat, sleeps: seq<int>)

  /** The record a `get` helper returns for a fetch that did not raise. */
  function Observed(f: Fetch): Option<Record>
    requires !f.Failed?
  {
    if f.Present? then Some(f.record) else None
  }

  /** A fetch as the loop sees the outcome of a retried `get` call. */
  function FetchOf(a: Attempt<Option<Record>>): (f: Fetch)
    ensures f.Failed? <==> a.Raised?
    ensures f.Failed? ==> f.error == a.error
    ensures !f.Failed? ==> a == Returned(Observed(f))
  {
    match a
    case Raised(e) => Failed(e)
    case Returned(None) => Absent
    case Returned(Some(r)) => Present(r)
  }

  /**
   * The sleep after the given (1-based) attempt in the capped backoff loops:
   * 2 to the power min(attempts, 6), but never more than the interval.
   * Intervals are natural numbers: a negative one would make `time.sleep`
   * raise ValueError outside the loops' try blocks.
   */
  function BackoffSleep(interval: nat, attempts: nat): (s: int)
    ensures s <= interval
    ensures s <= 64
    ensures s <= Pow2(if attempts < 6 then attempts else 6)
    ensures s >= 0
    ensures s == interval || s == Pow2(if attempts < 6 then attempts else 6)
  {
    Pow2AtMostSixtyFour(if attempts < 6 then attempts else 6);
    Min(interval, Pow2(if attempts < 6 then attempts else 6))
  }

  /** Later attempts never sleep less. */
  lemma BackoffSleepMonotone(interval: nat, m: nat, n: nat)
    requires m <= n
    ensures BackoffSleep(interval, m) <= BackoffSleep(interval, n)
  {
    Pow2Monotone(if m < 6 then m else 6, if n < 6 then n else 6);
  }

  /** The powers reached in the first six attempts, after which the sleep stays at 64. */
  lemma BackoffSleepSchedule(interval: nat, attempts: nat)
    requires interval >= 64
    ensures attempts >= 6 ==> BackoffSleep(interval, attempts) == 64
    ensures attempts == 1 ==> BackoffSleep(interval, attempts) == 2
    ensures attempts == 4 ==> BackoffSleep(interval, attempts) == 16
  {
  }

  /** The default interval of every wait loop, in seconds. */
  const DefaultWaitInterval: nat := 15

  /**
   * The schedule every wait with the default interval follows: 2, 4 and 8
   * seconds after the first three attempts, then the full interval.
   */
  lemma DefaultBackoffSleepSchedule(attempts: nat)
    ensures attempts == 1 ==> BackoffSleep(DefaultWaitInterval, attempts) == 2
    ensures attempts == 2 ==> BackoffSleep(DefaultWaitInterval, attempts) == 4
    ensures attempts == 3 ==> BackoffSleep(DefaultWaitInterval, attempts) == 8
    ensures attempts >= 4 ==> BackoffSleep(DefaultWaitInterval, attempts) == DefaultWaitInterval
  {
    if attempts >= 4 {
      Pow2Monotone(4, if attempts < 6 then attempts else 6);
    }
  }

  /**
   * A tick on which the parameter-group waits keep polling: the deadline
   * had not passed and the group was still there or the fetch raised.
   */
  predicate StillThere(t: Tick) {
    !t.late && !t.fetched.Absent?
  }

  /**
   * The wait-until-deleted loop shared by the DB parameter group and DB
   * cluster parameter group helpers, from the (0-based) iteration i: check
   * the deadline, fetch, stop when the group is gone, swallow fetch errors,
   * and sleep with the capped backoff.
   */
  function WaitUntilAbsent(interval: nat, trace: seq<Tick>, i: nat): (r: PollResult)
    requires i <= |trace|
    ensures i <= r.iterations <= |trace|
    // every iteration but a final one kept polling
    ensures forall j :: i <= j < r.iterations && (r.ended.None? || j < r.iterations - 1) ==>
              StillThere(trace[j])
    ensures r.ended.None? ==> r.iterations == |trace|
    // the loop succeeds exactly on an in-time fetch that finds nothing, and
    // otherwise ends only on the deadline; a group still there is never a failure
    ensures r.ended == Some(Success) <==>
              r.iterations > i && !trace[r.iterations - 1].late && trace[r.iterations - 1].fetched.Absent?
    ensures r.ended == Some(Timeout) <==> r.iterations > i && trace[r.iterations - 1].late
    ensures r.ended.None? || r.ended == Some(Success) || r.ended == Some(Timeout)
    // one capped sleep per iteration that kept polling
    ensures |r.sleeps| == r.iterations - i - (if r.ended.Some? then 1 else 0)
    ensures forall j :: 0 <= j < |r.sleeps| ==> r.sleeps[j] == BackoffSleep(interval, i + j + 1)
    decreases |trace| - i
  {
    if i == |trace| then PollResult(None, i, [])
    else if trace[i].late then PollResult(Some(Timeout), i + 1, [])
    else if trace[i].fetched.Absent? then PollResult(Some(Success), i + 1, [])
    else
      var rest := WaitUntilAbsent(interval, trace, i + 1);
      PollResult(rest.ended, rest.iterations, [BackoffSleep(interval, i + 1)] + rest.sleeps)
  }
}
