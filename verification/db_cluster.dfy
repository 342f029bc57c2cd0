/** The DB cluster helpers: `retry_on_error`, attribute matching, the two wait loops and `get`. */
module DbCluster {
  import opened Wrappers
  import opened Calls
  import opened Pow
  import opened Retry
  import opened Polling
  import DbInstance

  const MaxRetries := 5
  const RetryDelaySeconds := 5
  const StatusKey := "Status"
  const DeletingStatus := "deleting"

  /** The sleep of `retry_on_error` after its (n+1)-th failure: 5 * 2^n seconds, uncapped. */
  function RetryDelay(n: nat): (s: nat)
    ensures s >= RetryDelaySeconds
  {
    RetryDelaySeconds * Pow2(n)
  }

  /**
   * `retry_on_error`: it re-raises once the retry count exceeds MAX_RETRIES,
   * that is when the failure count reaches MAX_RETRIES + 1, which is the
   * shared loop with that attempt limit.
   */
  function RetryOnError<T>(call: nat -> Attempt<T>): (r: Retried<T>)
    ensures call(0).Returned? ==> r == Retried(call(0), 1, [])
    ensures call(0).Raised? && !DefaultRetryable(call(0).error) ==> r == Retried(call(0), 1, [])
    // at most MAX_RETRIES + 1 calls
    ensures 1 <= r.calls <= MaxRetries + 1
    // the sleeps are a prefix of 5, 10, 20, 40, 80
    ensures |r.sleeps| <= MaxRetries
    ensures r.sleeps == [5, 10, 20, 40, 80][..|r.sleeps|]
    // after the sixth retryable failure the exception is re-raised
    ensures r.last.Raised? && DefaultRetryable(r.last.error) ==>
              r.calls == MaxRetries + 1 && r.sleeps == [5, 10, 20, 40, 80]
  {
    var r := RetryFrom(call, DefaultRetryable, MaxRetries + 1, (n: nat) => RetryDelay(n), 0);
    RetryDelays();
    assert forall j :: 0 <= j < |r.sleeps| ==> r.sleeps[j] == [5, 10, 20, 40, 80][j];
    r
  }

  lemma RetryDelays()
    ensures RetryDelay(0) == 5 && RetryDelay(1) == 10 && RetryDelay(2) == 20
    ensures RetryDelay(3) == 40 && RetryDelay(4) == 80
  {
  }

  /** `AttributeMatcher(key, expected)` applied to what `get` returned. */
  predicate AttributeMatcher(key: string, expected: string, record: Option<Record>) {
    record.Some? && key in record.value && record.value[key] == expected
  }

  /** `status_matches`: an attribute matcher on the "Status" key. */
  function StatusMatches(status: string): (m: Option<Record> -> bool)
    ensures forall r :: m(r) <==> AttributeMatcher(StatusKey, status, r)
    ensures forall r :: m(r) <==> r.Some? && StatusKey in r.value && r.value[StatusKey] == status
  {
    (r: Option<Record>) => AttributeMatcher(StatusKey, status, r)
  }

  /** A tick whose fetch did not raise and whose record matches. */
  predicate Matched(matchFn: Option<Record> -> bool, t: Tick) {
    !t.fetched.Failed? && matchFn(Observed(t.fetched))
  }

  /**
   * `wait_until` from the (0-based) iteration i: fetch and match first (a
   * raising `get` escapes the loop), then check the deadline, then sleep
   * for the constant interval.
   */
  function WaitUntil(matchFn: Option<Record> -> bool, interval: nat, trace: seq<Tick>, i: nat): (r: PollResult)
    requires i <= |trace|
    ensures i <= r.iterations <= |trace|
    ensures r.ended.None? ==> r.iterations == |trace|
    ensures forall j :: i <= j < r.iterations && (r.ended.None? || j < r.iterations - 1) ==>
              !trace[j].fetched.Failed? && !Matched(matchFn, trace[j]) && !trace[j].late
    // a match succeeds whatever the clock says, even on the first iteration
    ensures r.ended == Some(Success) <==> r.iterations > i && Matched(matchFn, trace[r.iterations - 1])
    ensures i < |trace| && Matched(matchFn, trace[i]) ==> r == PollResult(Some(Success), i + 1, [])
    // the deadline is only consulted after a fetch that did not match
    ensures r.ended == Some(Timeout) <==>
              r.iterations > i && trace[r.iterations - 1].late &&
              !trace[r.iterations - 1].fetched.Failed? && !Matched(matchFn, trace[r.iterations - 1])
    // an exception from `get` escapes
    ensures (r.ended.Some? && r.ended.value.Escaped?) <==> r.iterations > i && trace[r.iterations - 1].fetched.Failed?
    ensures r.ended.Some? && r.ended.value.Escaped? ==> r.ended.value.error == trace[r.iterations - 1].fetched.error
    ensures r.ended.None? || !r.ended.value.Fail?
    // the sleep interval is constant
    ensures |r.sleeps| == r.iterations - i - (if r.ended.Some? then 1 else 0)
    ensures forall j :: 0 <= j < |r.sleeps| ==> r.sleeps[j] == interval
    decreases |trace| - i
  {
    if i == |trace| then PollResult(None, i, [])
    else if trace[i].fetched.Failed? then PollResult(Some(Escaped(trace[i].fetched.error)), i + 1, [])
    else if Matched(matchFn, trace[i]) then PollResult(Some(Success), i + 1, [])
    else if trace[i].late then PollResult(Some(Timeout), i + 1, [])
    else
      var rest := WaitUntil(matchFn, interval, trace, i + 1);
      PollResult(rest.ended, rest.iterations, [interval] + rest.sleeps)
  }

  /** The cluster a tick shows, when it shows one with the given status. */
  predicate ShowsStatus(t: Tick, status: string) {
    t.fetched.Present? && StatusKey in t.fetched.record && t.fetched.record[StatusKey] == status
  }

  /**
   * What `wait_until(id, status_matches(s))` promises its caller: it returns
   * exactly when a fetch shows the cluster with status s, even past the
   * deadline, and no earlier fetch showed it so.
   */
  lemma WaitForStatus(status: string, interval: nat, trace: seq<Tick>)
    ensures var r := WaitUntil(StatusMatches(status), interval, trace, 0);
            r.ended == Some(Success) <==> r.iterations > 0 && ShowsStatus(trace[r.iterations - 1], status)
    ensures var r := WaitUntil(StatusMatches(status), interval, trace, 0);
            forall j :: 0 <= j < r.iterations - 1 ==> !ShowsStatus(trace[j], status)
  {
  }

  /**
   * The instance helpers' `StatusMatcher` is the attribute matcher on the
   * instance status key: both files match a status the same way.
   */
  lemma MatchersAgree(status: string, r: Option<Record>)
    ensures DbInstance.StatusMatcher(status, r) <==> AttributeMatcher(DbInstance.StatusKey, status, r)
    ensures DbInstance.StatusMatches(status)(r) <==> AttributeMatcher(DbInstance.StatusKey, status, r)
  {
  }

  /** A tick on which `wait_until_deleted` keeps waiting. */
  predicate StillDeleting(t: Tick) {
    !t.late && t.fetched.Present? && StatusKey in t.fetched.record && t.fetched.record[StatusKey] == DeletingStatus
  }

  /**
   * `wait_until_deleted` from the (0-based) iteration i: check the deadline,
   * sleep for the interval, then fetch; stop when the cluster is gone and
   * fail on any status but "deleting". Nothing is caught: a raising `get`
   * and a record without a "Status" key (a KeyError) escape.
   */
  function WaitUntilDeleted(interval: nat, trace: seq<Tick>, i: nat): (r: PollResult)
    requires i <= |trace|
    ensures i <= r.iterations <= |trace|
    ensures r.ended.None? ==> r.iterations == |trace|
    ensures forall j :: i <= j < r.iterations && (r.ended.None? || j < r.iterations - 1) ==>
              StillDeleting(trace[j])
    // the deadline is checked first, before the sleep and the fetch
    ensures r.ended == Some(Timeout) <==> r.iterations > i && trace[r.iterations - 1].late
    ensures r.ended == Some(Success) <==>
              r.iterations > i && !trace[r.iterations - 1].late && trace[r.iterations - 1].fetched.Absent?
    ensures (r.ended.Some? && r.ended.value.Fail?) <==>
              && r.iterations > i
              && !trace[r.iterations - 1].late
              && trace[r.iterations - 1].fetched.Present?
              && StatusKey in trace[r.iterations - 1].fetched.record
              && trace[r.iterations - 1].fetched.record[StatusKey] != DeletingStatus
    ensures r.ended.Some? && r.ended.value.Fail? ==>
              r.ended.value.status == trace[r.iterations - 1].fetched.record[StatusKey]
    // a record without a status raises KeyError
    ensures r.ended == Some(Escaped(KeyError(StatusKey))) <==>
              || (&& r.iterations > i
                  && !trace[r.iterations - 1].late
                  && trace[r.iterations - 1].fetched.Present?
                  && StatusKey !in trace[r.iterations - 1].fetched.record)
              || (&& r.iterations > i
                  && !trace[r.iterations - 1].late
                  && trace[r.iterations - 1].fetched == Failed(KeyError(StatusKey)))
    ensures (r.ended.Some? && r.ended.value.Escaped?) <==>
              && r.iterations > i
              && !trace[r.iterations - 1].late
              && (|| trace[r.iterations - 1].fetched.Failed?
                  || (trace[r.iterations - 1].fetched.Present? && StatusKey !in trace[r.iterations - 1].fetched.record))
    // every iteration that passed the deadline check slept once, before its fetch
    ensures |r.sleeps| == r.iterations - i - (if r.ended == Some(Timeout) then 1 else 0)
    ensures forall j :: 0 <= j < |r.sleeps| ==> r.sleeps[j] == interval
    decreases |trace| - i
  {
    if i == |trace| then PollResult(None, i, [])
    else if trace[i].late then PollResult(Some(Timeout), i + 1, [])
    else
      match trace[i].fetched
      case Failed(e) => PollResult(Some(Escaped(e)), i + 1, [interval])
      case Absent => PollResult(Some(Success), i + 1, [interval])
      case Present(record) =>
        if StatusKey !in record then PollResult(Some(Escaped(KeyError(StatusKey))), i + 1, [interval])
        else if record[StatusKey] != DeletingStatus then PollResult(Some(Fail(record[StatusKey])), i + 1, [interval])
        else
          var rest := WaitUntilDeleted(interval, trace, i + 1);
          PollResult(rest.ended, rest.iterations, [interval] + rest.sleeps)
  }

  /**
   * `get`: one describe call per attempt, retried by `retry_on_error`.
   * `describes(n)` is the response of the call made after n failures.
   */
  function Get(describes: nat -> Attempt<seq<Record>>): (r: Retried<Option<Record>>)
    ensures 1 <= r.calls <= MaxRetries + 1
    ensures r.last == DescribeOne(describes(r.calls - 1))
    ensures r.last == Returned(None) <==> describes(r.calls - 1) == Attempt.Raised(NotFoundFault)
    ensures r.last != Attempt.Raised(NotFoundFault)
    ensures describes(0) == Attempt.Raised(NotFoundFault) ==> r == Retried(Returned(None), 1, [])
  {
    RetryOnError((n: nat) => DescribeOne(describes(n)))
  }
}
