/**
 * The condition lookups of the DB cluster parameter group tests,
 * `custom_is_synced` and `custom_assert_synced`: find the first condition of
 * type ACK.ResourceSynced and read its status.
 */
module SyncedCondition {
  import opened Wrappers

  const SyncedType := "ACK.ResourceSynced"
  const TrueStatus := "True"

  /** An entry of status.conditions: a dict with optional type and status, or anything else. */
  datatype ConditionEntry = Condition(condType: Option<string>, status: Option<string>) | NotADict

  /**
   * A resource as the tests see it: a dict (with status.conditions when
   * `conditions` is Some) or any other value, None included.
   */
  datatype Resource = Dict(conditions: Option<seq<ConditionEntry>>) | NotAResource

  /**
   * The argument: a custom resource reference (it has a kind and a name),
   * which is fetched from the cluster, or a value taken as the resource.
   * `fetched` is what fetching the reference gives: the resource, or None
   * when fetching raised.
   */
  datatype Subject = Reference(fetched: Option<Resource>) | Direct(resource: Resource)

  /** Where the scan of a condition list stopped. */
  datatype Scan = FoundAt(index: nat) | NoneFound | CrashedAt(index: nat)

  /** An entry the scan reads without an exception and passes over. */
  predicate PassedOver(c: ConditionEntry) {
    c.Condition? && c.condType != Some(SyncedType)
  }

  /**
   * Going through the conditions from position i: stop at the first one of
   * the synced type, or at the first entry that is not a dict (reading its
   * type raises).
   */
  function ScanConditions(conds: seq<ConditionEntry>, i: nat): (s: Scan)
    requires i <= |conds|
    ensures s.FoundAt? ==> i <= s.index < |conds| && conds[s.index].Condition? && conds[s.index].condType == Some(SyncedType)
    ensures s.CrashedAt? ==> i <= s.index < |conds| && conds[s.index].NotADict?
    // everything before the stopping point was passed over
    ensures forall j :: i <= j < |conds| && (s.NoneFound? || j < s.index) ==> PassedOver(conds[j])
    decreases |conds| - i
  {
    if i == |conds| then NoneFound
    else if conds[i].NotADict? then CrashedAt(i)
    else if conds[i].condType == Some(SyncedType) then FoundAt(i)
    else ScanConditions(conds, i + 1)
  }

  /** The resource the subject stands for, None when fetching it raised. */
  function ResourceOf(subject: Subject): Option<Resource> {
    match subject
    case Reference(fetched) => fetched
    case Direct(resource) => Some(resource)
  }

  /**
   * `custom_is_synced`: true exactly when the first synced-type condition
   * has status "True"; false when there is none, and false on any exception.
   */
  function IsSynced(subject: Subject): (b: bool)
    ensures b <==>
              && ResourceOf(subject).Some?
              && ResourceOf(subject).value.Dict?
              && ResourceOf(subject).value.conditions.Some?
              && var conds := ResourceOf(subject).value.conditions.value;
                 exists k :: && 0 <= k < |conds|
                             && (forall j :: 0 <= j < k ==> PassedOver(conds[j]))
                             && conds[k] == Condition(Some(SyncedType), Some(TrueStatus))
  {
    match ResourceOf(subject)
    case None => false
    case Some(resource) =>
      if resource.NotAResource? || resource.conditions.None? then false
      else
        var conds := resource.conditions.value;
        match ScanConditions(conds, 0)
        case FoundAt(k) =>
          assert !PassedOver(conds[k]);
          conds[k].status == Some(TrueStatus)
        case NoneFound => NoStop(conds); false
        case CrashedAt(k) => assert !PassedOver(conds[k]); false
  }

  lemma NoStop(conds: seq<ConditionEntry>)
    requires forall j :: 0 <= j < |conds| ==> PassedOver(conds[j])
    ensures forall k :: 0 <= k < |conds| ==> conds[k] != Condition(Some(SyncedType), Some(TrueStatus))
  {
  }

  /** How `custom_assert_synced` ends. */
  datatype Verdict = Passed | NoSyncedCondition | NotTrue(status: Option<string>) | Raised

  /**
   * `custom_assert_synced`: fail when no synced-type condition is found,
   * fail when the first one's status is not "True"; exceptions (fetching the
   * reference, a condition entry that is not a dict) escape.
   */
  function AssertSynced(subject: Subject): (v: Verdict)
    ensures v == Raised <==>
              || ResourceOf(subject).None?
              || (&& ResourceOf(subject).value.Dict?
                  && ResourceOf(subject).value.conditions.Some?
                  && ScanConditions(ResourceOf(subject).value.conditions.value, 0).CrashedAt?)
    ensures v == NoSyncedCondition <==>
              && ResourceOf(subject).Some?
              && (|| ResourceOf(subject).value.NotAResource?
                  || ResourceOf(subject).value.conditions.None?
                  || ScanConditions(ResourceOf(subject).value.conditions.value, 0).NoneFound?)
    ensures v.NotTrue? ==> v.status != Some(TrueStatus)
  {
    match ResourceOf(subject)
    case None => Raised
    case Some(resource) =>
      if resource.NotAResource? || resource.conditions.None? then NoSyncedCondition
      else
        var conds := resource.conditions.value;
        match ScanConditions(conds, 0)
        case FoundAt(k) => if conds[k].status != Some(TrueStatus) then NotTrue(conds[k].status) else Passed
        case NoneFound => NoSyncedCondition
        case CrashedAt(_) => Raised
  }

  /** The assertion passes exactly when the predicate holds. */
  lemma AssertSyncedMatchesIsSynced(subject: Subject)
    ensures AssertSynced(subject) == Passed <==> IsSynced(subject)
  {
  }
}
