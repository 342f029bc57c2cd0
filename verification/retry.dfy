/**
 * The retry loops of the test helpers: call, and on a retryable exception
 * sleep and call again until an attempt limit is reached.
 */
module Retry {
  import opened Calls
  import opened Pow

  /**
   * The observable effect of a retried call: the outcome of the last call
   * (returned value or re-raised exception), how many calls were made and
   * the sleeps taken between them, in order.
   */
  datatype Retried<+T> = Retried(last: Attempt<T>, calls: nat, sleeps: seq<int>)

  /**
   * The loop shared by `with_retry` and `retry_on_error`, started after
   * `failures` retryable failures. `call(n)` is the outcome of the call made
   * after n failures and `backoff(n)` the sleep that follows the (n+1)-th
   * failure. The loop gives up when the failure count reaches `maxAttempts`.
   */
  function RetryFrom<T>(call: nat -> Attempt<T>, retryable: Error -> bool, maxAttempts: int,
                        backoff: nat -> int, failures: nat): (r: Retried<T>)
    // at least one call is made, and never more than the attempt limit allows
    ensures failures < r.calls
    ensures r.calls <= failures + 1 || r.calls <= maxAttempts
    // the result is that of the last call made
    ensures r.last == call(r.calls - 1)
    // every earlier call raised a retryable exception
    ensures forall n :: failures <= n < r.calls - 1 ==> call(n).Raised? && retryable(call(n).error)
    // a retryable exception is re-raised only once the limit is reached
    ensures r.last.Raised? && retryable(r.last.error) ==> r.calls >= maxAttempts
    // one sleep follows every failure that was retried, with the backoff of its position
    ensures |r.sleeps| == r.calls - 1 - failures
    ensures forall j :: 0 <= j < |r.sleeps| ==> r.sleeps[j] == backoff(failures + j)
    decreases if maxAttempts > failures then maxAttempts - failures else 0
  {
    match call(failures)
    case Returned(v) => Retried(Returned(v), failures + 1, [])
    case Raised(e) =>
      if !retryable(e) || failures + 1 >= maxAttempts then
        Retried(Raised(e), failures + 1, [])
      else
        var rest := RetryFrom(call, retryable, maxAttempts, backoff, failures + 1);
        Retried(rest.last, rest.calls, [backoff(failures)] + rest.sleeps)
  }

  /**
   * The settings of `with_retry`, in whole seconds; jitter is not modelled.
   * The cap is a natural number: a negative one would make `time.sleep`
   * raise ValueError, which the retry loop does not catch.
   */
  datatype RetryPolicy = RetryPolicy(maxAttempts: int, baseBackoff: nat, maxBackoff: nat)

  const DefaultMaxAttempts := 5
  const DefaultBaseBackoff := 2
  const DefaultMaxBackoff := 60
  const DefaultPolicy := RetryPolicy(DefaultMaxAttempts, DefaultBaseBackoff, DefaultMaxBackoff)

  /**
   * The backoff (before jitter) of `with_retry` after its (n+1)-th failure,
   * which the decorator numbers attempt n+1: base * 2^n, capped at the maximum.
   */
  function Backoff(p: RetryPolicy, n: nat): (s: int)
    ensures s <= p.maxBackoff
    ensures s <= p.baseBackoff * Pow2(n)
    ensures s == p.maxBackoff || s == p.baseBackoff * Pow2(n)
    ensures s >= 0
  {
    Min(p.maxBackoff, p.baseBackoff * Pow2(n))
  }

  /** Backoffs never shrink from one retry to the next. */
  lemma BackoffMonotone(p: RetryPolicy, m: nat, n: nat)
    requires m <= n
    ensures Backoff(p, m) <= Backoff(p, n)
  {
    Pow2Monotone(m, n);
    assert p.baseBackoff * Pow2(m) <= p.baseBackoff * Pow2(n) by {
      MulMonotone(p.baseBackoff, Pow2(m), Pow2(n));
    }
  }

  lemma MulMonotone(a: nat, x: nat, y: nat)
    requires x <= y
    ensures a * x <= a * y
  {
  }

  /** A call wrapped by the `with_retry` decorator with policy `p`. */
  function WithRetry<T>(p: RetryPolicy, call: nat -> Attempt<T>, retryable: Error -> bool): (r: Retried<T>)
    // the first call succeeding returns its value with no sleep
    ensures call(0).Returned? ==> r == Retried(call(0), 1, [])
    // a non-retryable exception propagates on its first occurrence
    ensures call(0).Raised? && !retryable(call(0).error) ==> r == Retried(call(0), 1, [])
    // the wrapped function is called at most max_attempts times (and at least once)
    ensures 1 <= r.calls && (r.calls <= p.maxAttempts || r.calls == 1)
    // a call that ultimately fails with a retryable exception was tried
    // max_attempts times and slept max_attempts - 1 times
    ensures r.last.Raised? && retryable(r.last.error) && p.maxAttempts >= 1 ==>
              r.calls == p.maxAttempts && |r.sleeps| == p.maxAttempts - 1
    ensures forall j :: 0 <= j < |r.sleeps| ==> r.sleeps[j] == Backoff(p, j)
  {
    RetryFrom(call, retryable, p.maxAttempts, (n: nat) => Backoff(p, n), 0)
  }

  /** `retry_on_api_error`: the decorator with its default settings. */
  function RetryOnApiError<T>(call: nat -> Attempt<T>): (r: Retried<T>)
    ensures 1 <= r.calls <= DefaultMaxAttempts
    // the sleeps are a prefix of 2, 4, 8, 16
    ensures |r.sleeps| < DefaultMaxAttempts
    ensures r.sleeps == [2, 4, 8, 16][..|r.sleeps|]
    ensures r.last.Raised? && DefaultRetryable(r.last.error) ==> r.sleeps == [2, 4, 8, 16]
  {
    var r := WithRetry(DefaultPolicy, call, DefaultRetryable);
    DefaultBackoffs();
    r
  }

  /** The first four backoffs of the default policy. */
  lemma DefaultBackoffs()
    ensures Backoff(DefaultPolicy, 0) == 2
    ensures Backoff(DefaultPolicy, 1) == 4
    ensures Backoff(DefaultPolicy, 2) == 8
    ensures Backoff(DefaultPolicy, 3) == 16
  {
  }
}
