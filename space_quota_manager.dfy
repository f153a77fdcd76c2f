/**
  The region server's local bookkeeping for filesystem space quotas: the latest snapshot of
  every table's usage, the violation policy enforcements in force, and the lifecycle of the
  periodic refresher that feeds both.
 */
module SpaceQuotaManager {
  import opened SpaceQuotaTypes
  import opened EnforcementRegistry
  import opened RefresherLifecycle

  type SnapshotMap = map<TableName, SpaceQuotaSnapshot>

  /** The snapshot map readers see: the most recent generation stored, or empty before any. */
  function LatestGeneration(generations: seq<SnapshotMap>): SnapshotMap {
    if generations == [] then map[] else generations[|generations| - 1]
  }

  class RegionServerSpaceQuotaManager {
    const factory: EnforcementFactory
    var spaceQuotaRefresher: Option<SpaceQuotaRefresherChore>
    var currentQuotaSnapshots: SnapshotMap
    var started: bool
    var enforcedPolicies: EnforcementMap

    // Every snapshot map stored, oldest first.
    ghost var snapshotGenerations: seq<SnapshotMap>
    // Every enable()/disable() call made on an enforcement, oldest first.
    ghost var enforcementCalls: seq<EnforcementCall>
    // Every schedule/cancel of the refresher chore, oldest first.
    ghost var choreCalls: seq<ChoreCall>

    ghost predicate Valid()
      reads this
    {
      && BindsSnapshot(factory)
      && (started <==> spaceQuotaRefresher.Some?)
      && Alternating(choreCalls)
      && (started <==> |choreCalls| % 2 == 1)
      && currentQuotaSnapshots == LatestGeneration(snapshotGenerations)
      && WellFormed(enforcementCalls)
      && enforcedPolicies == Replay(enforcementCalls)
    }

    /** A stopped manager with no snapshots and no enforcements. */
    constructor (factory: EnforcementFactory)
      requires BindsSnapshot(factory)
      ensures Valid()
      ensures this.factory == factory
      ensures !started && spaceQuotaRefresher == None
      ensures currentQuotaSnapshots == map[] && enforcedPolicies == map[]
      ensures snapshotGenerations == [] && enforcementCalls == [] && choreCalls == []
    {
      this.factory := factory;
      spaceQuotaRefresher := None;
      currentQuotaSnapshots := map[];
      started := false;
      enforcedPolicies := map[];
      snapshotGenerations := [];
      enforcementCalls := [];
      choreCalls := [];
    }

    /**
      Schedules the refresher and marks the manager started, unless quota support is
      disabled or the manager is already started; in those cases nothing changes.
     */
    method Start(quotaEnabled: bool)
      requires Valid()
      modifies this
      ensures Valid()
      ensures !quotaEnabled || old(started) ==> unchanged(this)
      ensures quotaEnabled && !old(started) ==>
        && started && spaceQuotaRefresher.Some?
        && choreCalls == old(choreCalls) + [Schedule]
      ensures unchanged(this`currentQuotaSnapshots, this`enforcedPolicies,
                        this`snapshotGenerations, this`enforcementCalls)
    {
      if !quotaEnabled {
        return;
      }
      if started {
        return;
      }
      spaceQuotaRefresher := Some(SpaceQuotaRefresherChore);
      choreCalls := choreCalls + [Schedule];
      started := true;
    }

    /** Cancels the refresher if one is scheduled, and marks the manager stopped. */
    method Stop()
      requires Valid()
      modifies this
      ensures Valid()
      ensures !started && spaceQuotaRefresher == None
      ensures choreCalls == if old(spaceQuotaRefresher).Some? then old(choreCalls) + [Cancel] else old(choreCalls)
      ensures unchanged(this`currentQuotaSnapshots, this`enforcedPolicies,
                        this`snapshotGenerations, this`enforcementCalls)
    {
      if spaceQuotaRefresher.Some? {
        choreCalls := choreCalls + [Cancel];
        spaceQuotaRefresher := None;
      }
      started := false;
    }

    /**
      Whether the refresher has been started. On a valid manager this is exactly when a
      refresher chore is installed, and then exactly one is live; otherwise none is.
     */
    function IsStarted(): (r: bool)
      reads this
      ensures Valid() ==> (r <==> spaceQuotaRefresher.Some?)
      ensures Valid() ==> LiveChores(choreCalls) == if r then 1 else 0
    {
      AlternatingKeepsOneChore(choreCalls);
      started
    }

    /**
      The snapshot map of the most recent update. Sequentially this is what the atomic swap
      guarantees: a reader gets one whole stored map, never a mix of two.
     */
    function CopyQuotaSnapshots(): (r: SnapshotMap)
      reads this
      ensures Valid() ==> r == LatestGeneration(snapshotGenerations)
      ensures Valid() ==> (snapshotGenerations == [] && r == map[]) || r in snapshotGenerations
    {
      currentQuotaSnapshots
    }

    /** Replaces the whole snapshot map; nothing else changes. */
    method UpdateQuotaSnapshot(newSnapshots: SnapshotMap)
      requires Valid()
      modifies this
      ensures Valid()
      ensures snapshotGenerations == old(snapshotGenerations) + [newSnapshots]
      ensures CopyQuotaSnapshots() == newSnapshots
      ensures unchanged(this`started, this`spaceQuotaRefresher, this`enforcedPolicies,
                        this`enforcementCalls, this`choreCalls)
    {
      currentQuotaSnapshots := newSnapshots;
      snapshotGenerations := snapshotGenerations + [newSnapshots];
    }

    /**
      The enforcements in force. Each belongs to its own table, is bound to an in-violation
      snapshot, and is there because its table's last successful transition enabled it.
     */
    function CopyActiveEnforcements(): (r: EnforcementMap)
      reads this
      ensures Valid() ==> r == Replay(enforcementCalls)
      ensures Valid() ==> forall t | t in r :: r[t].table == t && BoundInViolation(r[t])
    {
      ReplayBoundInViolation(enforcementCalls);
      enforcedPolicies
    }

    /**
      The snapshot each enforced table's enforcement is bound to (not the latest measured
      one), for the enforced tables whose enforcement carries a snapshot.
     */
    method GetActivePoliciesAsMap() returns (policies: SnapshotMap)
      ensures forall t :: t in policies <==> t in enforcedPolicies && enforcedPolicies[t].quotaSnapshot.Some?
      ensures forall t | t in policies :: policies[t] == enforcedPolicies[t].quotaSnapshot.value
      ensures policies.Keys <= CopyActiveEnforcements().Keys
      ensures Valid() ==> policies.Keys == enforcedPolicies.Keys
      ensures Valid() ==> forall t | t in policies :: policies[t].status.inViolation
    {
      var enforcements := CopyActiveEnforcements();
      policies := map[];
      var remaining := enforcements.Keys;
      while remaining != {}
        invariant remaining <= enforcements.Keys
        invariant forall t :: t in policies <==>
          t in enforcements && t !in remaining && enforcements[t].quotaSnapshot.Some?
        invariant forall t | t in policies :: policies[t] == enforcements[t].quotaSnapshot.value
        decreases remaining
      {
        var t :| t in remaining;
        var snapshot := enforcements[t].quotaSnapshot;
        if snapshot.Some? {
          policies := policies[t := snapshot.value];
        }
        remaining := remaining - {t};
      }
    }

    /**
      Enforces the violation policy of snapshot on tableName. A snapshot not in violation is
      refused with an illegal-state error and nothing changes. Otherwise the factory builds
      the enforcement and enable() is called on it: if enable() throws an IOException
      (enableSucceeds is false) the table is left as it was; if it returns normally the enforcement is registered, overwriting any earlier entry for the
      table without disabling it.
     */
    method EnforceViolationPolicy(tableName: TableName, snapshot: SpaceQuotaSnapshot, enableSucceeds: bool)
      returns (outcome: Outcome<QuotaError>)
      requires Valid()
      modifies this
      ensures Valid()
      ensures !snapshot.status.inViolation ==> outcome == Fail(IllegalState(tableName)) && unchanged(this)
      ensures snapshot.status.inViolation ==> outcome == Pass
      ensures snapshot.status.inViolation ==>
        enforcementCalls == old(enforcementCalls) + [EnableCall(tableName, factory(tableName, snapshot), enableSucceeds)]
      ensures snapshot.status.inViolation ==>
        enforcedPolicies == if enableSucceeds then old(enforcedPolicies)[tableName := factory(tableName, snapshot)]
                            else old(enforcedPolicies)
      ensures unchanged(this`started, this`spaceQuotaRefresher, this`currentQuotaSnapshots,
                        this`snapshotGenerations, this`choreCalls)
    {
      if !snapshot.status.inViolation {
        return Fail(IllegalState(tableName));
      }
      var enforcement := factory(tableName, snapshot);
      enforcementCalls := enforcementCalls + [EnableCall(tableName, enforcement, enableSucceeds)];
      if !enableSucceeds {
        return Pass;
      }
      enforcedPolicies := enforcedPolicies[tableName := enforcement];
      outcome := Pass;
    }

    /**
      Disables the enforcement on tableName, if there is one. Its entry is removed and
      disable() is called on it; if disable() throws an IOException (disableSucceeds is false),
      the same entry is put back.
     */
    method DisableViolationPolicyEnforcement(tableName: TableName, disableSucceeds: bool)
      requires Valid()
      modifies this
      ensures Valid()
      ensures tableName !in old(enforcedPolicies) ==> unchanged(this)
      ensures tableName in old(enforcedPolicies) ==>
        enforcementCalls == old(enforcementCalls) + [DisableCall(tableName, old(enforcedPolicies)[tableName], disableSucceeds)]
      ensures tableName in old(enforcedPolicies) ==>
        enforcedPolicies == if disableSucceeds then old(enforcedPolicies) - {tableName} else old(enforcedPolicies)
      ensures unchanged(this`started, this`spaceQuotaRefresher, this`currentQuotaSnapshots,
                        this`snapshotGenerations, this`choreCalls)
    {
      var removed := if tableName in enforcedPolicies then Some(enforcedPolicies[tableName]) else None;
      enforcedPolicies := enforcedPolicies - {tableName};
      if removed.Some? {
        var enforcement := removed.value;
        enforcementCalls := enforcementCalls + [DisableCall(tableName, enforcement, disableSucceeds)];
        if !disableSucceeds {
          enforcedPolicies := enforcedPolicies[tableName := enforcement];
        }
      }
    }

    /**
      Whether compactions are disabled on tableName: the flag of its enforcement when it has
      one, false otherwise. Compactions are disabled exactly when the table's most recent
      successful transition enabled an enforcement that disables them.
     */
    function AreCompactionsDisabled(tableName: TableName): (r: bool)
      reads this
      ensures tableName in enforcedPolicies ==> r == enforcedPolicies[tableName].compactionsDisabled
      ensures tableName !in enforcedPolicies ==> !r
      ensures Valid() ==> (r <==>
        && LastEffective(enforcementCalls, tableName).Some?
        && LastEffective(enforcementCalls, tableName).value.EnableCall?
        && LastEffective(enforcementCalls, tableName).value.enforcement.compactionsDisabled)
    {
      ReplayIsLastEffective(enforcementCalls, tableName);
      if tableName in enforcedPolicies then enforcedPolicies[tableName].compactionsDisabled else false
    }
  }
}
