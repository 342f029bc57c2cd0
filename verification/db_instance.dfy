/** The DB instance helpers: status matching, the two wait loops and `get`. */
module DbInstance {
  import opened Wrappers
  import opened Calls
  import opened Retry
  import opened Polling

  const StatusKey := "DBInstanceStatus"
  const DeletingStatus := "deleting"
  /** The status a record without one is taken to have while waiting for deletion. */
  const UnknownStatus := "unknown"

  /** `StatusMatcher(status)` applied to what `get` returned. */
  predicate StatusMatcher(status: string, record: Option<Record>) {
    record.Some? && StatusKey in record.value && record.value[StatusKey] == status
  }

  /** `status_matches`: the matcher as the function value `wait_until` takes. */
  function StatusMatches(status: string): (m: Option<Record> -> bool)
    ensures forall r :: m(r) <==> StatusMatcher(status, r)
  {
    (r: Option<Record>) => StatusMatcher(status, r)
  }

  /** A tick on which `wait_until` returns: in time, a fetch that did not raise, and a match. */
  predicate Matched(matchFn: Option<Record> -> bool, t: Tick) {
    !t.late && !t.fetched.Failed? && matchFn(Observed(t.fetched))
  }

  /**
   * `wait_until` from the (0-based) iteration i: check the deadline, fetch,
   * return on a match, log and swallow a fetch error, and sleep with the
   * capped backoff.
   */
  function WaitUntil(matchFn: Option<Record> -> bool, interval: nat, trace: seq<Tick>, i: nat): (r: PollResult)
    requires i <= |trace|
    ensures i <= r.iterations <= |trace|
    ensures r.ended.None? ==> r.iterations == |trace|
    // every iteration but a final one was in time and did not match (or its fetch raised)
    ensures forall j :: i <= j < r.iterations && (r.ended.None? || j < r.iterations - 1) ==>
              !trace[j].late && !Matched(matchFn, trace[j])
    // it returns as soon as a fetched record matches, and fails only on the deadline
    ensures r.ended == Some(Success) <==> r.iterations > i && Matched(matchFn, trace[r.iterations - 1])
    ensures r.ended == Some(Timeout) <==> r.iterations > i && trace[r.iterations - 1].late
    ensures r.ended.None? || r.ended == Some(Success) || r.ended == Some(Timeout)
    ensures |r.sleeps| == r.iterations - i - (if r.ended.Some? then 1 else 0)
    ensures forall j :: 0 <= j < |r.sleeps| ==> r.sleeps[j] == BackoffSleep(interval, i + j + 1)
    decreases |trace| - i
  {
    if i == |trace| then PollResult(None, i, [])
    else if trace[i].late then PollResult(Some(Timeout), i + 1, [])
    else if Matched(matchFn, trace[i]) then PollResult(Some(Success), i + 1, [])
    else
      var rest := WaitUntil(matchFn, interval, trace, i + 1);
      PollResult(rest.ended, rest.iterations, [BackoffSleep(interval, i + 1)] + rest.sleeps)
  }

  /** The instance a tick shows, when it shows one with the given status. */
  predicate ShowsStatus(t: Tick, status: string) {
    t.fetched.Present? && StatusKey in t.fetched.record && t.fetched.record[StatusKey] == status
  }

  /**
   * What `wait_until(id, status_matches(s))` promises its caller: it returns
   * exactly when an in-time fetch shows the instance with status s, and no
   * earlier fetch showed it so.
   */
  lemma WaitForStatus(status: string, interval: nat, trace: seq<Tick>)
    ensures var r := WaitUntil(StatusMatches(status), interval, trace, 0);
            r.ended == Some(Success) <==>
              r.iterations > 0 && !trace[r.iterations - 1].late && ShowsStatus(trace[r.iterations - 1], status)
    ensures var r := WaitUntil(StatusMatches(status), interval, trace, 0);
            forall j :: 0 <= j < r.iterations - 1 ==> !ShowsStatus(trace[j], status)
  {
  }

  /** The status `wait_until_deleted` reads from a record, "unknown" when it has none. */
  function InstanceStatus(r: Record): (s: string)
    ensures StatusKey in r ==> s == r[StatusKey]
    ensures StatusKey !in r ==> s == UnknownStatus
    // a record without a status is never taken to be deleting
    ensures StatusKey !in r ==> s != DeletingStatus
  {
    if StatusKey in r then r[StatusKey] else UnknownStatus
  }

  /** A tick on which `wait_until_deleted` keeps waiting. */
  predicate StillDeleting(t: Tick) {
    && !t.late
    && (t.fetched.Failed? || (t.fetched.Present? && InstanceStatus(t.fetched.record) == DeletingStatus))
  }

  /**
   * `wait_until_deleted` from the (0-based) iteration i: check the deadline,
   * fetch, stop when the instance is gone, fail on a status other than
   * "deleting", swallow fetch errors, and sleep with the capped backoff.
   * The pytest.fail inside the try block is not swallowed: it raises an
   * exception outside the Exception hierarchy.
   */
  function WaitUntilDeleted(interval: nat, trace: seq<Tick>, i: nat): (r: PollResult)
    requires i <= |trace|
    ensures i <= r.iterations <= |trace|
    ensures r.ended.None? ==> r.iterations == |trace|
    ensures forall j :: i <= j < r.iterations && (r.ended.None? || j < r.iterations - 1) ==>
              StillDeleting(trace[j])
    // success exactly when an in-time fetch finds nothing
    ensures r.ended == Some(Success) <==>
              r.iterations > i && !trace[r.iterations - 1].late && trace[r.iterations - 1].fetched.Absent?
    // immediate failure on an in-time record whose status is not "deleting"
    ensures (r.ended.Some? && r.ended.value.Fail?) <==>
              && r.iterations > i
              && !trace[r.iterations - 1].late
              && trace[r.iterations - 1].fetched.Present?
              && InstanceStatus(trace[r.iterations - 1].fetched.record) != DeletingStatus
    ensures r.ended.Some? && r.ended.value.Fail? ==>
              r.ended.value.status == InstanceStatus(trace[r.iterations - 1].fetched.record)
    ensures r.ended == Some(Timeout) <==> r.iterations > i && trace[r.iterations - 1].late
    ensures r.ended.None? || !r.ended.value.Escaped?
    ensures |r.sleeps| == r.iterations - i - (if r.ended.Some? then 1 else 0)
    ensures forall j :: 0 <= j < |r.sleeps| ==> r.sleeps[j] == BackoffSleep(interval, i + j + 1)
    decreases |trace| - i
  {
    if i == |trace| then PollResult(None, i, [])
    else if trace[i].late then PollResult(Some(Timeout), i + 1, [])
    else
      match trace[i].fetched
      case Absent => PollResult(Some(Success), i + 1, [])
      case Present(record) =>
        if InstanceStatus(record) != DeletingStatus then
          PollResult(Some(Fail(InstanceStatus(record))), i + 1, [])
        else
          var rest := WaitUntilDeleted(interval, trace, i + 1);
          PollResult(rest.ended, rest.iterations, [BackoffSleep(interval, i + 1)] + rest.sleeps)
      case Failed(_) =>
        var rest := WaitUntilDeleted(interval, trace, i + 1);
        PollResult(rest.ended, rest.iterations, [BackoffSleep(interval, i + 1)] + rest.sleeps)
  }

  /**
   * A record without a status stops `wait_until_deleted` at once: the
   * "unknown" default is not "deleting", so the wait fails with it and
   * neither sleeps nor fetches again.
   */
  lemma MissingStatusFails(interval: nat, trace: seq<Tick>, i: nat)
    requires i < |trace| && !trace[i].late
    requires trace[i].fetched.Present? && StatusKey !in trace[i].fetched.record
    ensures WaitUntilDeleted(interval, trace, i) == PollResult(Some(Fail(UnknownStatus)), i + 1, [])
  {
  }

  /**
   * `get`: one describe call per attempt, retried by `retry_on_api_error`.
   * `describes(n)` is the response of the call made after n failures.
   */
  function Get(describes: nat -> Attempt<seq<Record>>): (r: Retried<Option<Record>>)
    ensures 1 <= r.calls <= DefaultMaxAttempts
    ensures r.last == DescribeOne(describes(r.calls - 1))
    // a not-found fault is reported as no record, never raised
    ensures r.last == Returned(None) <==> describes(r.calls - 1) == Attempt.Raised(NotFoundFault)
    ensures r.last != Attempt.Raised(NotFoundFault)
    ensures describes(0) == Attempt.Raised(NotFoundFault) ==> r == Retried(Returned(None), 1, [])
  {
    RetryOnApiError((n: nat) => DescribeOne(describes(n)))
  }

  /**
   * What a wait loop sees of one `get`: no instance exactly when the last
   * describe raised the not-found fault, the record exactly when it listed a
   * single one, and a failed fetch, never the not-found fault, otherwise.
   */
  lemma GetAsFetch(describes: nat -> Attempt<seq<Record>>)
    ensures var g := Get(describes);
            var last := describes(g.calls - 1);
            && (FetchOf(g.last).Absent? <==> last == Attempt.Raised(NotFoundFault))
            && (FetchOf(g.last).Present? <==> last.Returned? && |last.value| == 1)
            && (FetchOf(g.last).Present? ==> FetchOf(g.last).record == last.value[0])
            && (FetchOf(g.last).Failed? ==> FetchOf(g.last).error != NotFoundFault)
  {
  }
}
