/** The DB parameter group helpers: the deletion wait, `get` and reference resolution. */
module DbParameterGroup {
  import opened Wrappers
  import opened Calls
  import opened Retry
  import opened Polling
  import opened References

  const Plural := "dbparametergroups"

  /**
   * `wait_until_deleted`: the shared wait-until-absent loop, which succeeds
   * on the first in-time fetch finding no group, swallows fetch errors and
   * fails only on the deadline.
   */
  function WaitUntilDeleted(interval: nat, trace: seq<Tick>): (r: PollResult)
    ensures r.iterations <= |trace|
    ensures r.ended.None? ==> r.iterations == |trace|
    // every iteration but a final one was in time and still found the group (or its fetch raised)
    ensures forall j :: 0 <= j < r.iterations && (r.ended.None? || j < r.iterations - 1) ==>
              StillThere(trace[j])
    ensures r.ended == Some(Success) <==>
              r.iterations > 0 && !trace[r.iterations - 1].late && trace[r.iterations - 1].fetched.Absent?
    ensures r.ended == Some(Timeout) <==> r.iterations > 0 && trace[r.iterations - 1].late
    ensures r.ended.None? || r.ended == Some(Success) || r.ended == Some(Timeout)
    // one capped sleep per iteration that kept polling
    ensures |r.sleeps| == r.iterations - (if r.ended.Some? then 1 else 0)
    ensures forall j :: 0 <= j < |r.sleeps| ==> r.sleeps[j] == BackoffSleep(interval, j + 1)
  {
    WaitUntilAbsent(interval, trace, 0)
  }

  /** `get`: one describe call per attempt, retried by `retry_on_api_error`. */
  function Get(describes: nat -> Attempt<seq<Record>>): (r: Retried<Option<Record>>)
    ensures 1 <= r.calls <= DefaultMaxAttempts
    ensures r.last == DescribeOne(describes(r.calls - 1))
    ensures r.last == Returned(None) <==> describes(r.calls - 1) == Attempt.Raised(NotFoundFault)
  {
    RetryOnApiError((n: nat) => DescribeOne(describes(n)))
  }

  /** `ensure_resource_reference` for DB parameter groups. */
  function EnsureResourceReference(group: string, version: string, input: RefOrDict,
                                   resourceName: Option<string>): (r: RefOrDict)
    ensures input.Ref? ==> r == input
    ensures !input.Ref? && r.Ref? ==> r.ref == Reference(group, version, Plural, r.ref.name, DefaultNamespace)
    ensures !input.Ref? && Truthy(resourceName) ==> r.Ref? && r.ref.name == resourceName.value
    // without an explicit name, metadata.name is used, and without either the argument comes back
    ensures !input.Ref? && !Truthy(resourceName) && Truthy(MetadataName(input)) ==>
              r.Ref? && r.ref.name == MetadataName(input).value
    ensures !input.Ref? && !Truthy(resourceName) && !Truthy(MetadataName(input)) ==> r == input
  {
    EnsureReference(Plural, group, version, input, resourceName)
  }
}
