# rds-controller parameter maps and e2e helpers, modelled in Dafny

This project models two parts of the RDS controller repository.

- **The controller's parameter-map utilities** (`pkg/util/parameters.go`).
  - `GetParametersDifference` splits the desired and observed parameters of a DB (cluster) parameter group into the parameters to add or update, the unchanged ones and the ones to remove.
  - `ChunkParameters` splits a parameter map into batches of bounded size.
- **The deterministic core of the Python end-to-end test helpers.**
  - The retry decorators `with_retry`, `retry_on_api_error` and `retry_on_error`.
  - The status matchers and the `wait_until` / `wait_until_deleted` polling loops of the DB instance, DB cluster and both parameter-group helpers.
  - `ensure_resource_reference`.
  - The selection, ordering and counting rules of the leftover-resource cleanup.
  - The `ACK.ResourceSynced` condition lookups of the cluster parameter group tests.

Modelling conventions:

- A Go `map[string]*string` is a `map<string, Option<string>>`, where `None` is a nil pointer.
- A nil map is `None : Option<Parameters>`, and it behaves as the empty map.
- Go's map iteration order is an explicit argument: a sequence listing every key exactly once. Every property holds for every such order.
- An AWS call is replaced by its outcome, `Attempt<T>`: either the value it returned or the exception it raised.
- A retried call is a function from the number of failures so far to the outcome of the next call.
- A wait loop runs over a trace of ticks, one per iteration. Each tick says whether the deadline had passed when the clock was read, and what the fetch produced (`Absent`, `Present(record)` or `Failed(error)`).
- A loop run reports three things:
  - how it ended: `Success`, `Timeout`, `Fail(status)` from `pytest.fail`, `Escaped(error)` for an exception, or none if the trace ran out;
  - how many iterations it took;
  - the sleeps it took.
- `pytest.fail` raises an exception outside the `Exception` hierarchy. So the `except Exception` blocks of the waiters do not catch a status failure raised inside their `try`.

Modules:

- `Wrappers`: `Option`.
- `Pow`: powers of two and the minimum that caps a backoff.
- `Calls`: errors, attempts, and the describe-one-record step of every `get`.
- `Retry`: the shared retry loop, `with_retry`, `retry_on_api_error`.
- `Polling`: ticks, outcomes, the capped backoff sleep, and the wait-until-absent loop of both parameter-group helpers.
- `DbInstance`, `DbCluster`, `DbParameterGroup`, `DbClusterParameterGroup`: one module per helper file.
- `References`: `ensure_resource_reference`.
- `ResourceCleanup`: the leftover-resource cleanup.
- `SyncedCondition`: the condition lookups.
- `Parameters`: the Go utilities.

Behaviour of the loops worth knowing before reading the contracts:

- The DB cluster helpers do not swallow fetch errors. A raising `get` escapes `wait_until` and `wait_until_deleted`.
- A cluster record without a `Status` key raises `KeyError` in `wait_until_deleted`.
- The instance and parameter-group waits sleep `min(interval, 2^min(attempts, 6))`, with `attempts` counted from 1. The first sleep is therefore `min(interval, 2)`.
- After failed attempt `attempt`, `with_retry` backs off `min(max_backoff, base * 2^(attempt-1))` seconds, plus jitter.

## Model

| member | source | states |
|---|---|---|
| Parameters.SameValue | pkg/util/parameters.go:90-101 | The nil-aware comparison holds exactly when the two optional values are equal. Two nils are equal; a nil and a non-nil differ. |
| Parameters.GetParametersDifference | pkg/util/parameters.go:56-117 | Nil maps act as empty maps. `added` and `unmodified` are disjoint and together hold exactly the keys of `to`. A key is unmodified iff both maps hold it with equal values. `removed` is exactly the keys of `from` missing from `to`. Every value comes from the map it was taken from. Patching `from` with the result yields `to`. Empty `from` gives `added == to`; empty `to` gives `removed == from`; diffing a map against itself gives only unmodified entries. |
| Parameters.SplitDesired | pkg/util/parameters.go:86-107 | The first loop puts every desired key into exactly one of added or unmodified. It uses the nil/nil, nil/non-nil and string comparisons, and keeps the desired value. |
| Parameters.CollectRemoved | pkg/util/parameters.go:109-114 | The second loop collects exactly the observed keys that are not desired, with their observed values. |
| Parameters.DifferenceConsequences | pkg/util/parameters.go:63-84 | Any difference of two maps patches `from` into `to`. It reduces to the early-return results when one side is empty. A map differs from itself in nothing. |
| Parameters.DifferenceUnique | pkg/util/parameters.go:86-114 | The difference relation determines its three maps uniquely, so the early returns and the loops agree. |
| Parameters.ChunkParameters | pkg/util/parameters.go:121-142 | Let C = max(chunkSize, 0) and S = C + 1. There are \|input\|/S + 1 chunks, each with at most chunkSize entries (empty for a negative size). Chunk j holds exactly the entries visited at positions j*S to j*S+C-1. An entry is kept iff its position mod S is below C. The entry visited when the first chunk is full is lost. Chunks are pairwise key-disjoint and take every entry from the input with its value. |
| Parameters.KeptPositions | pkg/util/parameters.go:128-139 | With the window layout of the chunks, the entry at position n is in some chunk iff n mod S < C. |
| Parameters.ChunksDisjoint | pkg/util/parameters.go:128-139 | Chunks filled from disjoint position windows share no key. |
| Parameters.ChunkParametersDropsExample | pkg/util/parameters.go:128-137 | Chunking {a, b} in chunks of 1 gives two chunks, and b is in neither. |
| Parameters.ChunkParametersComplete | pkg/util/parameters.go:119-120 | The corrected chunker, for a positive size: chunks of at most chunkSize entries over consecutive windows of chunkSize positions. Every input entry is in some chunk, with its value, and chunks are key-disjoint. |
| Calls.DescribeOne | test/e2e/db_instance.py:166-176 | One describe call returns the single listed record. A not-found fault, and only that, becomes None. A response of another length fails the assertion. Every other exception passes through. |
| Retry.RetryFrom | test/e2e/retry_util.py:57-83 | The shared retry loop makes at least one call and at most the attempt limit. It returns the outcome of the last call. Every earlier call raised a retryable exception. A retryable exception is re-raised only at the limit. One sleep per retried failure, with the backoff of its position. |
| Retry.Backoff | test/e2e/retry_util.py:69-72 | The backoff before retry n+1 is base * 2^n, capped at the maximum. It is never negative, never exceeds either bound, and equals one of them. |
| Retry.BackoffMonotone | test/e2e/retry_util.py:69-72 | Backoffs are non-decreasing in the retry number. |
| Retry.WithRetry | test/e2e/retry_util.py:32-87 | A first call that succeeds is returned with no sleep. A non-retryable exception propagates on the first call. There are at most max_attempts calls. An ultimate retryable failure comes after exactly max_attempts calls and max_attempts - 1 sleeps. |
| Retry.RetryOnApiError | test/e2e/retry_util.py:90-96 | With the defaults (5 attempts, base 2, cap 60) there are at most 5 calls. The sleeps are a prefix of 2, 4, 8, 16, and all four occur when the call ultimately fails. |
| Retry.DefaultBackoffs | test/e2e/retry_util.py:25-27 | The default policy's first four backoffs are 2, 4, 8 and 16 seconds. |
| Polling.BackoffSleep | test/e2e/db_instance.py:99 | The capped sleep min(interval, 2^min(attempts, 6)) is never negative. It is at most the interval, at most the power and at most 64, and it equals one of the first two. |
| Polling.BackoffSleepMonotone | test/e2e/db_instance.py:99 | The capped sleep is non-decreasing in the attempt number. |
| Polling.BackoffSleepSchedule | test/e2e/db_instance.py:157-158 | With an interval of at least 64, the sleep is 2 after attempt 1, 16 after attempt 4, and 64 from attempt 6 on. |
| Polling.DefaultBackoffSleepSchedule | test/e2e/db_instance.py:27-29 | With the default 15-second interval the capped sleeps are 2, 4 and 8 seconds after the first three attempts, then 15 seconds. |
| Polling.FetchOf | test/e2e/db_instance.py:82-96 | A retried `get` is seen by a loop as a fetch: it fails exactly when `get` raised, and otherwise shows the returned record or its absence. |
| DbInstance.GetAsFetch | test/e2e/db_instance.py:136-140 | Composing `get` with a wait loop: the loop sees no instance exactly when the last describe raised the not-found fault, and the record exactly when the describe listed a single one. Otherwise the fetch fails, never with the not-found fault. |
| Polling.WaitUntilAbsent | test/e2e/db_parameter_group.py:52-73 | The parameter-group wait succeeds iff an in-time fetch finds nothing. It times out iff the deadline check, made at the top of the iteration, fails. Fetch errors and still-existing groups keep it polling, never failing it. Sleeps are min(interval, 2^min(attempt, 6)), one per continued iteration. |
| DbInstance.WaitForStatus | test/e2e/db_instance.py:36-46 | `wait_until(id, status_matches(s))` returns exactly when an in-time fetch shows the instance with DBInstanceStatus s. No earlier fetch showed it with that status. |
| DbInstance.WaitUntil | test/e2e/db_instance.py:69-100 | The deadline is checked before each fetch. The loop returns on the first in-time fetch whose record matches. A fetch error is swallowed. The only failure is the timeout. Sleeps are the capped backoff of the attempt number. |
| DbInstance.MissingStatusFails | test/e2e/db_instance.py:142-151 | An in-time record without DBInstanceStatus is read as "unknown", which is not "deleting". So the deletion wait fails at once with status "unknown", with no further sleep or fetch. |
| DbInstance.WaitUntilDeleted | test/e2e/db_instance.py:120-158 | Succeeds iff an in-time fetch returns no instance. It fails immediately, with that status, on an in-time record whose status (default "unknown") is not "deleting". Fetch errors are swallowed. Nothing escapes as an exception. |
| DbInstance.Get | test/e2e/db_instance.py:161-178 | The describe call is retried by `retry_on_api_error`, so at most 5 calls. The result is no record exactly when the last describe raised the not-found fault. A not-found fault on the first call gives None after one call. |
| DbCluster.RetryDelay | test/e2e/db_cluster.py:50 | The uncapped sleep after retry n+1 is 5 * 2^n seconds, at least 5. |
| DbCluster.RetryOnError | test/e2e/db_cluster.py:37-52 | At most MAX_RETRIES + 1 = 6 calls. A first success or a non-retryable exception returns after one call. The sleeps are a prefix of 5, 10, 20, 40, 80. The sixth retryable failure is re-raised after all five sleeps. |
| DbCluster.WaitForStatus | test/e2e/db_cluster.py:54-65 | `wait_until(id, status_matches(s))` returns exactly when a fetch shows the cluster with Status s, whether or not the deadline has passed. No earlier fetch showed it with that status. |
| DbCluster.MatchersAgree | test/e2e/db_cluster.py:54-61 | The instance helpers' `StatusMatcher` is the cluster helpers' `AttributeMatcher` on the key DBInstanceStatus, so both files match a status the same way. |
| DbCluster.WaitUntil | test/e2e/db_cluster.py:88-94 | The match is evaluated before the deadline check, so a first-fetch match succeeds even when the deadline has already passed. A timeout happens only after a non-matching fetch. A raising `get` escapes. The sleep is the constant interval. |
| DbCluster.WaitUntilDeleted | test/e2e/db_cluster.py:114-133 | The deadline is checked first, then the loop sleeps, then fetches. It succeeds iff an in-time fetch finds nothing. It fails with the status on anything but "deleting". A missing Status raises KeyError and a raising `get` escapes. Every iteration past the deadline check sleeps once. |
| DbCluster.Get | test/e2e/db_cluster.py:136-150 | The describe call is retried by `retry_on_error`, so at most 6 calls. The result is no record exactly when the last describe raised the not-found fault. |
| References.EnsureReference | test/e2e/db_parameter_group.py:145-164 | A reference (it has a namespace) is returned unchanged. A truthy explicit name wins over metadata.name, which is used only without one. With no truthy name the argument is returned unchanged. Otherwise the result is a reference of the given plural, with that name, in namespace "default". |
| References.EnsureReferenceIdempotent | test/e2e/db_parameter_group.py:145-164 | Ensuring a reference a second time, with the same explicit name, changes nothing. |
| DbParameterGroup.WaitUntilDeleted | test/e2e/db_parameter_group.py:29-73 | Every iteration but a final one was in time and still found the group, or its fetch raised. Succeeds iff an in-time fetch finds no group, with no status check. Fails only on the deadline. One capped-backoff sleep per iteration that kept polling. |
| DbParameterGroup.Get | test/e2e/db_parameter_group.py:76-95 | At most 5 describe calls. The result is no group exactly when the last one raised the not-found fault. |
| DbParameterGroup.EnsureResourceReference | test/e2e/db_parameter_group.py:129-164 | A built reference has plural "dbparametergroups" and namespace "default". An explicit truthy name is always used. Without one, metadata.name is used. Without either, the argument is returned unchanged, as is a reference argument. |
| DbClusterParameterGroup.WaitUntilDeleted | test/e2e/db_cluster_parameter_group.py:30-74 | Every iteration but a final one was in time and still found the group, or its fetch raised. Succeeds iff an in-time fetch finds no group, with no status check. Fails only on the deadline. One capped-backoff sleep per iteration that kept polling. |
| DbClusterParameterGroup.Get | test/e2e/db_cluster_parameter_group.py:77-96 | At most 5 describe calls. The result is no group exactly when the last one raised the not-found fault. |
| DbClusterParameterGroup.EnsureResourceReference | test/e2e/db_cluster_parameter_group.py:127-161 | A built reference has plural "dbclusterparametergroups" and namespace "default". An explicit truthy name is always used. Without one, metadata.name is used. Without either, the argument is returned unchanged, as is a reference argument. |
| ResourceCleanup.Cutoff | test/e2e/resource_cleanup.py:42 | The age cutoff lies before the current time. |
| ResourceCleanup.IsOld | test/e2e/resource_cleanup.py:49 | Only a resource with a creation time strictly before now minus 24 hours is old. A missing creation time (read as now) never is. |
| ResourceCleanup.FirstMissing | test/e2e/resource_cleanup.py:48 | The first record without an identifier, where reading the identifier raises KeyError. |
| ResourceCleanup.Keep | test/e2e/resource_cleanup.py:46-50 | The filtered records are exactly those satisfying the rule, each as often as listed. |
| ResourceCleanup.GetOldResources | test/e2e/resource_cleanup.py:37-100 | Exactly the scanned records whose identifier matches the type's prefix pattern are selected, with each record as often as listed. The instance pattern has two prefixes. Instances, clusters and both snapshot types must also be old; parameter groups and global clusters are selected by name alone. Any listing failure or missing identifier gives an empty selection. |
| ResourceCleanup.UndatedNeverSelected | test/e2e/resource_cleanup.py:49 | An age-checked resource without a creation time is never selected. |
| ResourceCleanup.Plan | test/e2e/resource_cleanup.py:173-187 | One deletion per selected resource, type by type. Every deletion is of a selected resource and every selected resource is deleted. Visiting types by rank deletes resources by rank. |
| ResourceCleanup.CleanupOrderByRank | test/e2e/resource_cleanup.py:161-169 | The cleanup order visits instances, then clusters, then snapshots and global clusters, then both parameter-group types. |
| ResourceCleanup.CountAccepted | test/e2e/resource_cleanup.py:185-187 | `deleted_count` is the number of deletion calls that returned True, so at most the number of calls. |
| ResourceCleanup.CleanupOldResources | test/e2e/resource_cleanup.py:156-195 | Deletions are exactly the selected old resources, ordered by dependency rank. There is one call per resource found. The count equals the number of successful deletions, so it never exceeds the number found. |
| ResourceCleanup.ForceSelect | test/e2e/resource_cleanup.py:224-267 | The forced selection ignores age. It takes, from the single unpaginated listing, the matching records before the first one that makes the loop raise. Snapshots and global clusters, which have no listing branch, and failed listings give nothing. |
| ResourceCleanup.ForceCleanup | test/e2e/resource_cleanup.py:197-281 | Same order and count: one call per resource the forced selection found, and a count of at most that number. Only instances, clusters and parameter groups whose identifier matches are deleted; never a snapshot or a global cluster. |
| SyncedCondition.ScanConditions | test/e2e/tests/test_db_cluster_parameter_group.py:53-55 | The scan stops at the first condition of type ACK.ResourceSynced, or at the first entry that is not a dict. Every entry before the stop was a dict of another type. |
| SyncedCondition.IsSynced | test/e2e/tests/test_db_cluster_parameter_group.py:43-61 | True iff the resource has conditions and the first synced-type condition, reached without an exception, has status "True". False when status/conditions are missing or there is no such condition. False on any exception. |
| SyncedCondition.AssertSynced | test/e2e/tests/test_db_cluster_parameter_group.py:65-95 | Uses the first matching condition. Fails when none is found and when its status is not "True". Exceptions from fetching or from a non-dict entry escape. |
| SyncedCondition.AssertSyncedMatchesIsSynced | test/e2e/tests/test_db_cluster_parameter_group.py:43-95 | The assertion passes exactly when the predicate is true. |

## Left out

- Terminal-error constructors `NewErrUnknownParameter` and `NewErrUnmodifiableParameter`: thin wrappers over the ACK runtime's error package, which is not part of this model.
- Go aliasing: the early returns of `GetParametersDifference` hand back the caller's own map. The model's maps are values.
- Wall-clock time, `time.sleep` and timeouts: replaced by the per-iteration deadline flag of a tick. The sleeps of the wait and retry loops are reported, not performed.
- The 5-second pause of `cleanup_old_resources` after each resource type with old resources: it only gives AWS time to process the deletions. It does not change which calls are made or the count.
- Negative sleep lengths: wait intervals and the `with_retry` cap are natural numbers. A negative one makes `time.sleep` raise `ValueError` outside every `try`, so the wait or retry would end with that exception. The model does not cover this. The defaults are 15-second intervals and a 60-second cap.
- Jitter and floating-point backoff in `with_retry`: only the integer part `min(max, base * 2^(k-1))` is modelled. Backoff settings are whole seconds.
- Logging and the `last_status` tracking of the instance waits: they affect only log output.
- boto3, Kubernetes and acktest calls, including paginators: replaced by their outcomes.
  - Listings are given as pages of records.
  - Deletion results are given as one boolean per call.
  - Fetching a reference gives the resource, or none when it raised.
- `CRD_GROUP` and `CRD_VERSION`: defined in `e2e/__init__.py`, which is not part of this model, so they are parameters.
- `wait_for_resources_deleted`, `get_tags`, `get_parameters`, the test bodies and fixtures, and `conftest.py`: orchestration against live services.
- Regular-expression matching: the cleanup patterns are alternations of anchored literals, modelled as prefix lists.
- Python value shapes outside these cases are not modelled:
  - a metadata entry that is not a dict;
  - a status entry that is not a dict;
  - a non-string status;
  - comparing timezone-aware with naive datetimes.
  Timestamps are integer seconds on one clock.

## Findings

| source | as written | input that shows it | evidently intended | confidence | as-written member | corrected member |
|---|---|---|---|---|---|---|
| pkg/util/parameters.go:128-137 | When the current chunk is full, the visited entry only closes the chunk and resets the counter. It is never stored, so one entry in every chunkSize + 1 is lost. | input {a: "1", b: "2"} with chunkSize 1 and iteration order a, b gives [{a: "1"}, {}], and b is in no chunk | every input parameter lands in exactly one chunk of at most chunkSize entries, as the function's comment says | not executed | Parameters.ChunkParametersDropsExample | Parameters.ChunkParametersComplete |
