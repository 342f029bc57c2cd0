/**
 * The cleanup of leftover test resources: which listed resources are
 * selected, in which order the resource types are visited, and how the
 * deletion count is kept. Listing and deleting are AWS calls; the model
 * takes their outcomes as inputs.
 */
module ResourceCleanup {
  import opened Wrappers

  datatype ResourceType =
    | DbInstance
    | DbCluster
    | DbSnapshot
    | DbClusterSnapshot
    | GlobalCluster
    | DbParameterGroup
    | DbClusterParameterGroup

  /**
   * The name patterns, each an alternation of anchored literal prefixes,
   * written as the list of those prefixes.
   */
  function Prefixes(t: ResourceType): seq<string> {
    match t
    case DbInstance => ["ref-db-instance-", "pg14-t3-micro-"]
    case DbCluster => ["ref-db-cluster-"]
    case DbClusterParameterGroup => ["ref-clus-paramgrp-"]
    case DbParameterGroup => ["ref-paramgrp-"]
    case DbSnapshot => ["ref-snapshot-"]
    case DbClusterSnapshot => ["ref-cluster-snapshot-"]
    case GlobalCluster => ["ref-global-cluster-"]
  }

  /** The pattern of a type matches at the start of the identifier. */
  predicate NameMatches(t: ResourceType, id: string) {
    exists p :: p in Prefixes(t) && p <= id
  }

  /** The types whose selection also requires the resource to be old. */
  predicate AgeChecked(t: ResourceType) {
    t.DbInstance? || t.DbCluster? || t.DbSnapshot? || t.DbClusterSnapshot?
  }

  /** The types listed through a paginator; global clusters are listed with one call. */
  predicate Paginated(t: ResourceType) {
    !t.GlobalCluster?
  }

  /**
   * A listed resource: its identifier (None when the record lacks the key)
   * and its creation time in seconds (None when the record lacks it).
   */
  datatype Resource = Resource(identifier: Option<string>, createTime: Option<int>)

  /** The pages a describe call or paginator produced, or a failed listing. */
  datatype Listing = Listed(pages: seq<seq<Resource>>) | ListingFailed

  const MaxResourceAgeHours := 24

  /** The creation time before which a resource counts as old. */
  function Cutoff(now: int): (c: int)
    ensures c < now
  {
    now - MaxResourceAgeHours * 3600
  }

  /**
   * Created before the cutoff; a missing creation time is read as the
   * current time, so such a resource is never old.
   */
  predicate IsOld(r: Resource, now: int)
    ensures IsOld(r, now) ==> r.createTime.Some? && r.createTime.value < now - 24 * 3600
  {
    r.createTime.GetOr(now) < Cutoff(now)
  }

  /** The resource has an identifier that the type's pattern matches. */
  predicate NamedLike(t: ResourceType, r: Resource) {
    r.identifier.Some? && NameMatches(t, r.identifier.value)
  }

  /** The selection rule of `get_old_resources`. */
  predicate Selected(t: ResourceType, r: Resource, now: int) {
    NamedLike(t, r) && (AgeChecked(t) ==> IsOld(r, now))
  }

  function Flatten(pages: seq<seq<Resource>>): seq<Resource> {
    if pages == [] then [] else pages[0] + Flatten(pages[1..])
  }

  /** The first page, which is all a single unpaginated describe call returns. */
  function FirstPage(pages: seq<seq<Resource>>): seq<Resource> {
    if pages == [] then [] else pages[0]
  }

  /** The records `get_old_resources` goes through for a type. */
  function Scanned(t: ResourceType, pages: seq<seq<Resource>>): seq<Resource> {
    if Paginated(t) then Flatten(pages) else FirstPage(pages)
  }

  /**
   * The position of the first record without an identifier, where reading
   * the identifier raises KeyError; the length when there is none.
   */
  function FirstMissing(rs: seq<Resource>): (n: nat)
    ensures n <= |rs|
    ensures forall i :: 0 <= i < n ==> rs[i].identifier.Some?
    ensures n < |rs| ==> rs[n].identifier.None?
  {
    if rs == [] || rs[0].identifier.None? then 0 else 1 + FirstMissing(rs[1..])
  }

  /** The records that satisfy `keep`, in their order. */
  function Keep(rs: seq<Resource>, keep: Resource -> bool): (r: seq<Resource>)
    ensures |r| <= |rs|
    ensures forall x :: x in r <==> x in rs && keep(x)
    // each kept record appears as often as in the input, the others not at all
    ensures forall x :: multiset(r)[x] == if keep(x) then multiset(rs)[x] else 0
  {
    if rs == [] then []
    else
      assert rs == [rs[0]] + rs[1..];
      (if keep(rs[0]) then [rs[0]] else []) + Keep(rs[1..], keep)
  }

  /**
   * `get_old_resources`: the scanned records the selection rule accepts;
   * any exception (a failed listing, a record without an identifier)
   * gives an empty selection.
   */
  function GetOldResources(t: ResourceType, listing: Listing, now: int): (r: seq<Resource>)
    ensures listing.ListingFailed? ==> r == []
    ensures listing.Listed? && FirstMissing(Scanned(t, listing.pages)) < |Scanned(t, listing.pages)| ==> r == []
    // only scanned records that match the pattern (and are old, for the age-checked types)
    ensures forall x :: x in r ==> listing.Listed? && x in Scanned(t, listing.pages) && Selected(t, x, now)
    // and all of them, as often as they were listed
    ensures listing.Listed? && FirstMissing(Scanned(t, listing.pages)) == |Scanned(t, listing.pages)| ==>
              forall x :: multiset(r)[x] == if Selected(t, x, now) then multiset(Scanned(t, listing.pages))[x] else 0
  {
    match listing
    case ListingFailed => []
    case Listed(pages) =>
      var rs := Scanned(t, pages);
      if FirstMissing(rs) < |rs| then [] else Keep(rs, (x: Resource) => Selected(t, x, now))
  }

  /** A resource without a creation time is never selected for an age-checked type. */
  lemma UndatedNeverSelected(t: ResourceType, listing: Listing, now: int, x: Resource)
    requires AgeChecked(t) && x.createTime.None?
    ensures x !in GetOldResources(t, listing, now)
  {
  }

  /** A resource deletion the cleanup submits. */
  datatype Deletion = Deletion(kind: ResourceType, resource: Resource)

  /** The order in which both cleanups visit the resource types. */
  const CleanupOrder: seq<ResourceType> :=
    [DbInstance, DbCluster, DbSnapshot, DbClusterSnapshot, GlobalCluster, DbParameterGroup, DbClusterParameterGroup]

  /**
   * Dependency levels: instances live in clusters, and clusters, snapshots
   * and global clusters refer to parameter groups, so a resource must be
   * deleted before those of a higher level.
   */
  function Rank(t: ResourceType): nat {
    match t
    case DbInstance => 0
    case DbCluster => 1
    case DbSnapshot => 2
    case DbClusterSnapshot => 2
    case GlobalCluster => 2
    case DbParameterGroup => 3
    case DbClusterParameterGroup => 3
  }

  /** The types in an order that never visits a higher level before a lower one. */
  predicate ByRank(types: seq<ResourceType>) {
    forall i, j :: 0 <= i < j < |types| ==> Rank(types[i]) <= Rank(types[j])
  }

  function Deletions(t: ResourceType, rs: seq<Resource>): (d: seq<Deletion>)
    ensures |d| == |rs|
    ensures forall i :: 0 <= i < |d| ==> d[i] == Deletion(t, rs[i])
  {
    seq(|rs|, i requires 0 <= i < |rs| => Deletion(t, rs[i]))
  }

  /** The number of resources selected over the given types. */
  function Found(select: ResourceType -> seq<Resource>, types: seq<ResourceType>): nat {
    if types == [] then 0 else |select(types[0])| + Found(select, types[1..])
  }

  /**
   * The deletions both cleanups submit: for each type in turn, one per
   * selected resource.
   */
  function Plan(select: ResourceType -> seq<Resource>, types: seq<ResourceType>): (calls: seq<Deletion>)
    ensures |calls| == Found(select, types)
    ensures forall d :: d in calls ==> d.kind in types && d.resource in select(d.kind)
    ensures forall k, x :: 0 <= k < |types| && x in select(types[k]) ==> Deletion(types[k], x) in calls
    // visiting the types by rank deletes the resources by rank
    ensures ByRank(types) ==> forall i, j :: 0 <= i < j < |calls| ==> Rank(calls[i].kind) <= Rank(calls[j].kind)
  {
    if types == [] then []
    else
      var head := Deletions(types[0], select(types[0]));
      var rest := Plan(select, types[1..]);
      assert forall k :: 1 <= k < |types| ==> types[k] == types[1..][k - 1];
      assert forall x :: x in select(types[0]) ==> Deletion(types[0], x) in head by {
        forall x | x in select(types[0])
          ensures Deletion(types[0], x) in head
        {
          var i :| 0 <= i < |select(types[0])| && select(types[0])[i] == x;
          assert head[i] == Deletion(types[0], x);
        }
      }
      head + rest
  }

  /** The cleanup order respects the dependency levels. */
  lemma CleanupOrderByRank()
    ensures ByRank(CleanupOrder)
  {
  }

  /**
   * `deleted_count`: one increment per deletion call that reported success.
   * `accepted(j)` is the result of the (j+1)-th `delete_resource` call.
   */
  method CountAccepted(n: nat, accepted: nat -> bool) returns (deleted: nat)
    ensures deleted == |set j | 0 <= j < n && accepted(j)|
    ensures deleted <= n
  {
    deleted := 0;
    var i := 0;
    while i < n
      invariant 0 <= i <= n
      invariant deleted == |set j | 0 <= j < i && accepted(j)|
      invariant deleted <= i
    {
      ghost var before := set j | 0 <= j < i && accepted(j);
      if accepted(i) {
        assert (set j | 0 <= j < i + 1 && accepted(j)) == before + {i};
        deleted := deleted + 1;
      } else {
        assert (set j | 0 <= j < i + 1 && accepted(j)) == before;
      }
      i := i + 1;
    }
  }

  /** How many old resources the selection finds over all types. */
  function OldFound(listings: ResourceType -> Listing, now: int): nat {
    Found((t: ResourceType) => GetOldResources(t, listings(t), now), CleanupOrder)
  }

  /** How many resources the forced selection finds over all types. */
  function ForceFound(listings: ResourceType -> Listing): nat {
    Found((t: ResourceType) => ForceSelect(t, listings(t)), CleanupOrder)
  }

  /**
   * `cleanup_old_resources`: for each type in the cleanup order, select the
   * old resources and submit one deletion for each.
   */
  method CleanupOldResources(listings: ResourceType -> Listing, now: int, accepted: nat -> bool)
    returns (calls: seq<Deletion>, deleted: nat)
    // every deletion is of a selected resource, and every selected resource is deleted
    ensures forall d :: d in calls ==> d.resource in GetOldResources(d.kind, listings(d.kind), now)
    ensures forall d :: d in calls ==> Selected(d.kind, d.resource, now)
    ensures forall t, x :: x in GetOldResources(t, listings(t), now) ==> Deletion(t, x) in calls
    // instances before clusters before snapshots and global clusters before parameter groups
    ensures forall i, j :: 0 <= i < j < |calls| ==> Rank(calls[i].kind) <= Rank(calls[j].kind)
    // one call per resource found, and a count of the deletions reported successful, so never more than were found
    ensures |calls| == OldFound(listings, now)
    ensures deleted == |set j | 0 <= j < |calls| && accepted(j)|
    ensures deleted <= OldFound(listings, now)
  {
    var select := (t: ResourceType) => GetOldResources(t, listings(t), now);
    CleanupOrderByRank();
    calls := Plan(select, CleanupOrder);
    forall t, x | x in GetOldResources(t, listings(t), now)
      ensures Deletion(t, x) in calls
    {
      var k := CleanupIndex(t);
      assert x in select(CleanupOrder[k]);
    }
    deleted := CountAccepted(|calls|, accepted);
  }

  /** Every type has its place in the cleanup order. */
  function CleanupIndex(t: ResourceType): (k: nat)
    ensures k < |CleanupOrder| && CleanupOrder[k] == t
  {
    match t
    case DbInstance => 0
    case DbCluster => 1
    case DbSnapshot => 2
    case DbClusterSnapshot => 3
    case GlobalCluster => 4
    case DbParameterGroup => 5
    case DbClusterParameterGroup => 6
  }

  /** The types the forced cleanup has a listing branch for. */
  predicate ForceListed(t: ResourceType) {
    t.DbInstance? || t.DbCluster? || t.DbParameterGroup? || t.DbClusterParameterGroup?
  }

  /**
   * The forced cleanup's selection: one unpaginated describe call, every
   * record whose identifier matches, whatever its age. An exception while
   * going through the records keeps those found before it.
   */
  function ForceSelect(t: ResourceType, listing: Listing): (r: seq<Resource>)
    // no listing branch for snapshots and global clusters
    ensures !ForceListed(t) ==> r == []
    ensures listing.ListingFailed? ==> r == []
    // exactly the matching records before the first one without an identifier
    ensures ForceListed(t) && listing.Listed? ==>
              var rs := FirstPage(listing.pages)[..FirstMissing(FirstPage(listing.pages))];
              forall x :: multiset(r)[x] == if NamedLike(t, x) then multiset(rs)[x] else 0
    ensures forall x :: x in r ==> NamedLike(t, x)
  {
    if !ForceListed(t) || listing.ListingFailed? then []
    else
      var rs := FirstPage(listing.pages);
      Keep(rs[..FirstMissing(rs)], (x: Resource) => NamedLike(t, x))
  }

  /**
   * `force_cleanup_test_resources`: the same visiting order and count,
   * with the forced selection.
   */
  method ForceCleanup(listings: ResourceType -> Listing, accepted: nat -> bool)
    returns (calls: seq<Deletion>, deleted: nat)
    ensures forall d :: d in calls ==> d.resource in ForceSelect(d.kind, listings(d.kind))
    ensures forall t, x :: x in ForceSelect(t, listings(t)) ==> Deletion(t, x) in calls
    // no snapshot or global cluster is ever deleted
    ensures forall d :: d in calls ==> ForceListed(d.kind) && NamedLike(d.kind, d.resource)
    ensures forall i, j :: 0 <= i < j < |calls| ==> Rank(calls[i].kind) <= Rank(calls[j].kind)
    ensures |calls| == ForceFound(listings)
    ensures deleted == |set j | 0 <= j < |calls| && accepted(j)|
    ensures deleted <= ForceFound(listings)
  {
    var select := (t: ResourceType) => ForceSelect(t, listings(t));
    CleanupOrderByRank();
    calls := Plan(select, CleanupOrder);
    forall t, x | x in ForceSelect(t, listings(t))
      ensures Deletion(t, x) in calls
    {
      var k := CleanupIndex(t);
      assert x in select(CleanupOrder[k]);
    }
    deleted := CountAccepted(|calls|, accepted);
  }
}
