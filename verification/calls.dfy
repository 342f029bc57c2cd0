/**
 * What the test helpers see of an AWS API call: either the value it returned
 * or the exception it raised. The client itself is outside the model; every
 * call is represented by its outcome.
 */
module Calls {
  import opened Wrappers

  /** A record returned by a describe call, such as one DBInstances entry. */
  type Record = map<string, string>

  /**
   * The exceptions the helpers distinguish. `NotFoundFault` stands for the
   * service's not-found faults (DBInstanceNotFoundFault and its siblings),
   * which botocore raises as ClientError subclasses; `ClientError` is any
   * other ClientError.
   */
  datatype Error =
    | NotFoundFault
    | ClientError
    | BotoCoreError
    | ConnectionError
    | AssertionFailed
    | KeyError(key: string)
    | OtherError

  datatype Attempt<+T> = Returned(value: T) | Raised(error: Error)

  /**
   * The exception classes retried by default: ClientError (and with it every
   * service fault), BotoCoreError and ConnectionError.
   */
  predicate DefaultRetryable(e: Error) {
    e.NotFoundFault? || e.ClientError? || e.BotoCoreError? || e.ConnectionError?
  }

  /**
   * One describe call of a `get` helper: the response must list exactly one
   * record, which is returned; a not-found fault becomes "no record"; every
   * other exception is raised again.
   */
  function DescribeOne(response: Attempt<seq<Record>>): (r: Attempt<Option<Record>>)
    // absence is reported exactly for the not-found fault
    ensures r == Returned(None) <==> response == Raised(NotFoundFault)
    // a record is returned exactly when the response held a single one, and it is that one
    ensures r.Returned? && r.value.Some? <==> response.Returned? && |response.value| == 1
    ensures r.Returned? && r.value.Some? ==> r.value.value == response.value[0]
    // a response of any other length fails the assertion
    ensures response.Returned? && |response.value| != 1 ==> r == Raised(AssertionFailed)
    // every other exception passes through unchanged
    ensures response.Raised? && response.error != NotFoundFault ==> r == Raised(response.error)
  {
    match response
    case Returned(records) =>
      if |records| == 1 then Returned(Some(records[0])) else Raised(AssertionFailed)
    case Raised(e) =>
      if e == NotFoundFault then Returned(None) else Raised(e)
  }
}
