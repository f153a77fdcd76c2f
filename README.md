# Region server space quota manager, in Dafny

This project models `RegionServerSpaceQuotaManager`, HBase's per-region-server bookkeeping for
filesystem space quotas, and proves what it promises. The manager holds three pieces of state:

- the latest snapshot of every table's space usage, which is replaced wholesale on each refresh;
- the registry of violation policy enforcements in force, one per table;
- the lifecycle of the periodic refresher chore, as a `started` flag and an optional chore.

The class keeps the source's fields and its mutating methods. `start` and `stop` switch the
lifecycle. `updateQuotaSnapshot` swaps the snapshot map. `enforceViolationPolicy` and
`disableViolationPolicyEnforcement` update the registry in place, including the remove-then-put-back
rollback. The side-effect-free reads are functions over the class state. `getActivePoliciesAsMap`
is a method whose loop fills a fresh map.

Modules:

- `SpaceQuotaTypes` (`quota_types.dfy`): table names, snapshots, statuses, policies, enforcements,
  and the enforcement factory type.
- `EnforcementRegistry` (`enforcement_registry.dfy`): the history of `enable()`/`disable()` calls
  and the map that history produces (`Replay`).
- `RefresherLifecycle` (`refresher_lifecycle.dfy`): the history of schedule and cancel calls on the
  refresher chore.
- `SpaceQuotaManager` (`space_quota_manager.dfy`): the class `RegionServerSpaceQuotaManager`.
- `QuotaScenarios` (`quota_scenarios.dfy`): example sequences of enforce, disable, start and stop
  on a fresh manager, with what the read operations answer along the way.

Three ghost histories state the class's object invariant `Valid()`:

- **Snapshot generations.** The current snapshot map is the last generation stored, or empty before
  the first.
- **Enforcement calls.** The registry is the replay of every `enable()`/`disable()` call and its
  outcome.
- **Chore calls.** Schedules and cancels of the refresher alternate, and the manager is started
  exactly after a schedule.

Inputs the class cannot compute are parameters:

- whether quota support is enabled in the configuration (an argument of `Start`);
- whether an enforcement's `enable()` or `disable()` returns normally or throws an `IOException`
  (arguments of `EnforceViolationPolicy` and `DisableViolationPolicyEnforcement`; `false` means the
  `IOException` path);
- the enforcement factory (a constructor argument, kept as a constant of the class).

The constructor requires that the factory binds each enforcement it builds to the table and snapshot
it was given.

A failed `enable()` on a table that is already enforced returns before the `put`
(RegionServerSpaceQuotaManager.java:165-171), so the older entry stays in force. A table is
therefore enforced exactly when its most recent *successful* transition was an enable, and its
entry is that transition's enforcement (`EnforcementRegistry.ReplayIsLastEffective`).

## Model

| member | source | states |
|---|---|---|
| `SpaceQuotaManager.RegionServerSpaceQuotaManager.constructor` | hbase-server/src/main/java/org/apache/hadoop/hbase/quotas/RegionServerSpaceQuotaManager.java:64-70 | A new manager is stopped, has no refresher, an empty snapshot map and an empty registry, and keeps the factory it was given. |
| `SpaceQuotaManager.RegionServerSpaceQuotaManager.Start` | hbase-server/src/main/java/org/apache/hadoop/hbase/quotas/RegionServerSpaceQuotaManager.java:72-85 | With quota support disabled, or when already started, nothing changes. Otherwise the manager is started, a refresher is installed and exactly one schedule call is made. Snapshots and registry are untouched. |
| `SpaceQuotaManager.RegionServerSpaceQuotaManager.Stop` | hbase-server/src/main/java/org/apache/hadoop/hbase/quotas/RegionServerSpaceQuotaManager.java:87-93 | Always ends stopped with no refresher. The refresher is cancelled only if one was installed. Snapshots and registry are untouched. |
| `SpaceQuotaManager.RegionServerSpaceQuotaManager.IsStarted` | hbase-server/src/main/java/org/apache/hadoop/hbase/quotas/RegionServerSpaceQuotaManager.java:98-100 | The manager is started exactly when a refresher is installed. Then exactly one scheduled chore is live; otherwise none is. |
| `SpaceQuotaManager.RegionServerSpaceQuotaManager.CopyQuotaSnapshots` | hbase-server/src/main/java/org/apache/hadoop/hbase/quotas/RegionServerSpaceQuotaManager.java:106-108 | Returns the most recent map stored by an update, or the empty map before any update. This is the sequential form of the atomic reference swap: a reader gets one whole stored map, never a mix of two. |
| `SpaceQuotaManager.RegionServerSpaceQuotaManager.UpdateQuotaSnapshot` | hbase-server/src/main/java/org/apache/hadoop/hbase/quotas/RegionServerSpaceQuotaManager.java:115-117 | Afterwards `CopyQuotaSnapshots()` returns exactly the new map. Lifecycle and registry are unchanged. |
| `SpaceQuotaManager.RegionServerSpaceQuotaManager.CopyActiveEnforcements` | hbase-server/src/main/java/org/apache/hadoop/hbase/quotas/RegionServerSpaceQuotaManager.java:218-221 | The registry equals the replay of the enable/disable history. Every entry belongs to its own table and is bound to an in-violation snapshot. |
| `SpaceQuotaManager.RegionServerSpaceQuotaManager.GetActivePoliciesAsMap` | hbase-server/src/main/java/org/apache/hadoop/hbase/quotas/RegionServerSpaceQuotaManager.java:130-141 | The keys are exactly the enforced tables whose enforcement carries a snapshot, and each maps to that enforcement's own snapshot. The keys are a subset of `CopyActiveEnforcements()`; on a valid manager they are all of them, and every value is in violation. |
| `SpaceQuotaManager.RegionServerSpaceQuotaManager.EnforceViolationPolicy` | hbase-server/src/main/java/org/apache/hadoop/hbase/quotas/RegionServerSpaceQuotaManager.java:146-174 | A snapshot not in violation fails with an illegal-state error and changes nothing. Otherwise exactly one `enable()` call is made on the factory's enforcement. When `enable()` returns normally the registry becomes `old[t := enforcement]`, overwriting any earlier entry without disabling it. When it throws an `IOException` the registry is unchanged and the caller sees no error. |
| `SpaceQuotaManager.RegionServerSpaceQuotaManager.DisableViolationPolicyEnforcement` | hbase-server/src/main/java/org/apache/hadoop/hbase/quotas/RegionServerSpaceQuotaManager.java:179-197 | With no entry for the table, nothing changes and no `disable()` is made. Otherwise exactly one `disable()` call is made on the entry's enforcement. The registry becomes `old - {t}` when `disable()` returns normally, and exactly `old` (the same entry restored) when it throws an `IOException`. |
| `SpaceQuotaManager.RegionServerSpaceQuotaManager.AreCompactionsDisabled` | hbase-server/src/main/java/org/apache/hadoop/hbase/quotas/RegionServerSpaceQuotaManager.java:206-212 | Returns the flag of the table's enforcement when it has one, and false otherwise. The result is true exactly when the table's most recent successful transition enabled an enforcement that disables compactions. |
| `EnforcementRegistry.ReplayIsLastEffective` | hbase-server/src/main/java/org/apache/hadoop/hbase/quotas/RegionServerSpaceQuotaManager.java:164-196 | A table is in the registry iff its most recent successful enable/disable call was an enable, and its entry is that call's enforcement. Failed calls leave no trace. |
| `EnforcementRegistry.ReplayBoundInViolation` | hbase-server/src/main/java/org/apache/hadoop/hbase/quotas/RegionServerSpaceQuotaManager.java:146-173 | Only enforcements built for their own table from an in-violation snapshot ever enter the registry. |
| `RefresherLifecycle.AlternatingKeepsOneChore` | hbase-server/src/main/java/org/apache/hadoop/hbase/quotas/RegionServerSpaceQuotaManager.java:72-93 | Because the `started` guard makes schedules and cancels alternate, at most one refresher chore is ever live. |
| `QuotaScenarios.CompactionScenario` | hbase-server/src/main/java/org/apache/hadoop/hbase/quotas/RegionServerSpaceQuotaManager.java:146-212 | Enforcing a no-writes-compactions violation disables compactions on the table. A successful disable allows them again. |
| `QuotaScenarios.NotInViolationScenario` | hbase-server/src/main/java/org/apache/hadoop/hbase/quotas/RegionServerSpaceQuotaManager.java:146-151 | Enforcing a snapshot that is not in violation yields the illegal-state error, and the table is not enforced. |
| `QuotaScenarios.FailedEnableScenario` | hbase-server/src/main/java/org/apache/hadoop/hbase/quotas/RegionServerSpaceQuotaManager.java:165-171 | After an `enable()` that throws an `IOException` the caller sees no error, and the table is neither enforced nor among the active policies. |
| `QuotaScenarios.FailedDisableScenario` | hbase-server/src/main/java/org/apache/hadoop/hbase/quotas/RegionServerSpaceQuotaManager.java:185-196 | After a `disable()` that throws an `IOException` the table is still enforced, and its compactions stay disabled. |
| `QuotaScenarios.ReEnforceScenario` | hbase-server/src/main/java/org/apache/hadoop/hbase/quotas/RegionServerSpaceQuotaManager.java:130-173 | Enforcing a table twice leaves it the only enforced table, with the second snapshot as its active policy. |
| `QuotaScenarios.LifecycleScenario` | hbase-server/src/main/java/org/apache/hadoop/hbase/quotas/RegionServerSpaceQuotaManager.java:72-100 | A start with quota support disabled does not start the manager. A start does. A second start keeps it started with one chore. Two stops leave it stopped. |
| `QuotaScenarios.StopTwice` | hbase-server/src/main/java/org/apache/hadoop/hbase/quotas/RegionServerSpaceQuotaManager.java:87-93 | Stopping is idempotent: two stops cancel the refresher at most once. Snapshots and registry are untouched. |

## Left out

- Concurrency: `synchronized`, the `ConcurrentHashMap` and the `AtomicReference` swap are not modelled. The fields are plain sequential state, and the generation skew between the two copies is not modelled either.
- `UpdateQuotaSnapshot`: the stored snapshot map is modelled as a value, not as the caller's reference. `updateQuotaSnapshot` stores the caller's own map object (RegionServerSpaceQuotaManager.java:116) and copies only on read (line 107), so a caller that mutates that map afterwards changes what `copyQuotaSnapshots` returns; the model cannot express that aliasing.
- Logging: the `LOG` calls only write messages.
- `getActiveEnforcements` and `ActivePolicyEnforcement`: `ActivePolicyEnforcement` is not part of this model. Its inputs are `CopyActiveEnforcements()` and `CopyQuotaSnapshots()`, which are modelled.
- Host plumbing: `RegionServerServices`, `getConnection`, `getRegionServerServices`, `getFactory`, `getConfiguration` and `ChoreService`. `QuotaUtil.isQuotaEnabled` is the `quotaEnabled` argument of `Start`. Scheduling and cancelling the chore are ghost `Schedule`/`Cancel` records. The refresher itself is an opaque token.
- Start: the `IOException` that `start` may throw comes from code that is not part of this model, so it is not modelled.
- Enforcement internals: the bodies of `enable()`, `disable()` and the factory's `create` are not part of this model. The factory is an abstract function bound to its table and snapshot, and the outcomes of `enable()`/`disable()` are boolean arguments.
- `EnforceViolationPolicy`, `DisableViolationPolicyEnforcement`: only `IOException` failures of `enable()`/`disable()` are modelled (the `catch` at lines 167 and 190). Any other exception propagates to the caller; from `enable()` the registry is then unchanged, but from `disable()` the entry has already been removed (line 186) and is not put back (line 193), so the table is no longer tracked although its enforcement was never disabled.
- Null checks: `Objects.requireNonNull` guards are replaced by non-null types. Enforcement objects are compared by value, not by reference.
- Unreachable null snapshot: `GetActivePoliciesAsMap` keeps the source's filter on enforcements without a snapshot. On a valid manager that case cannot occur, because every entry comes from the factory bound to a snapshot.
