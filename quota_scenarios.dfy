/**
  Example sequences of enforce, disable, start and stop on a fresh manager, reporting
  what the read operations answer along the way. Each postcondition is what a caller can
  conclude from the manager's contracts alone.
 */
module QuotaScenarios {
  import opened SpaceQuotaTypes
  import opened EnforcementRegistry
  import opened RefresherLifecycle
  import opened SpaceQuotaManager

  /** An enforcement factory in which only the no-writes-compactions policy disables compactions. */
  function CreateEnforcement(t: TableName, s: SpaceQuotaSnapshot): SpaceViolationPolicyEnforcement
  {
    SpaceViolationPolicyEnforcement(t, Some(s), s.status.policy == Some(NoWritesCompactions))
  }

  function InViolation(policy: SpaceViolationPolicy, usage: int, limit: int): SpaceQuotaSnapshot {
    SpaceQuotaSnapshot(SpaceQuotaStatus(Some(policy), true), usage, limit)
  }

  /**
    A table over its quota under no-writes-compactions: once its enforcement is enabled its
    compactions are disabled, and once that enforcement is disabled they are allowed again.
   */
  method CompactionScenario() returns (disabledWhileEnforced: bool, disabledAfterDisable: bool)
    ensures disabledWhileEnforced && !disabledAfterDisable
  {
    var m := new RegionServerSpaceQuotaManager(CreateEnforcement);
    var t1 := TableName("default", "t1");
    var outcome := m.EnforceViolationPolicy(t1, InViolation(NoWritesCompactions, 120, 100), true);
    assert outcome == Pass;
    disabledWhileEnforced := m.AreCompactionsDisabled(t1);
    m.DisableViolationPolicyEnforcement(t1, true);
    disabledAfterDisable := m.AreCompactionsDisabled(t1);
  }

  /** Enforcing a snapshot that is not in violation fails fast and registers nothing. */
  method NotInViolationScenario() returns (outcome: Outcome<QuotaError>, enforced: bool)
    ensures outcome == Fail(IllegalState(TableName("default", "t2")))
    ensures !enforced
  {
    var m := new RegionServerSpaceQuotaManager(CreateEnforcement);
    var t2 := TableName("default", "t2");
    var ok := SpaceQuotaSnapshot(SpaceQuotaStatus(None, false), 10, 100);
    outcome := m.EnforceViolationPolicy(t2, ok, true);
    enforced := t2 in m.CopyActiveEnforcements();
  }

  /**
    An enable() that throws an IOException leaves the table unenforced and out of the active
    policies, and the caller sees no error.
   */
  method FailedEnableScenario() returns (outcome: Outcome<QuotaError>, enforced: bool, hasActivePolicy: bool)
    ensures outcome == Pass && !enforced && !hasActivePolicy
  {
    var m := new RegionServerSpaceQuotaManager(CreateEnforcement);
    var t := TableName("default", "t3");
    outcome := m.EnforceViolationPolicy(t, InViolation(NoWrites, 200, 100), false);
    enforced := t in m.CopyActiveEnforcements();
    var policies := m.GetActivePoliciesAsMap();
    hasActivePolicy := t in policies;
  }

  /**
    A disable() that throws an IOException keeps the table enforced with the enforcement it had,
    so its compactions stay disabled.
   */
  method FailedDisableScenario() returns (enforced: bool, disabledAfterFailedDisable: bool)
    ensures enforced && disabledAfterFailedDisable
  {
    var m := new RegionServerSpaceQuotaManager(CreateEnforcement);
    var t := TableName("default", "t4");
    var outcome := m.EnforceViolationPolicy(t, InViolation(NoWritesCompactions, 150, 100), true);
    assert outcome == Pass;
    m.DisableViolationPolicyEnforcement(t, false);
    enforced := t in m.CopyActiveEnforcements();
    disabledAfterFailedDisable := m.AreCompactionsDisabled(t);
  }

  /**
    Enforcing a second snapshot on an enforced table rebinds it: the active policy is the
    second snapshot, and the first enforcement was never disabled.
   */
  method ReEnforceScenario() returns (activePolicy: Option<SpaceQuotaSnapshot>, enforcedTables: set<TableName>)
    ensures activePolicy == Some(InViolation(NoInserts, 300, 100))
    ensures enforcedTables == {TableName("ns", "t5")}
  {
    var m := new RegionServerSpaceQuotaManager(CreateEnforcement);
    var t := TableName("ns", "t5");
    var first := m.EnforceViolationPolicy(t, InViolation(NoWrites, 120, 100), true);
    var second := m.EnforceViolationPolicy(t, InViolation(NoInserts, 300, 100), true);
    assert first == Pass && second == Pass;
    var policies := m.GetActivePoliciesAsMap();
    activePolicy := if t in policies then Some(policies[t]) else None;
    // Two enable() calls and no disable() of the first enforcement.
    assert m.enforcementCalls == [EnableCall(t, CreateEnforcement(t, InViolation(NoWrites, 120, 100)), true),
                                  EnableCall(t, CreateEnforcement(t, InViolation(NoInserts, 300, 100)), true)];
    enforcedTables := m.CopyActiveEnforcements().Keys;
  }

  /**
    Starting with quota support disabled does nothing; a second start schedules no second
    refresher; stopping twice cancels the refresher once.
   */
  method LifecycleScenario() returns (startedWhileDisabled: bool, startedAfterStart: bool,
                                      startedAfterSecondStart: bool, startedAfterStop: bool)
    ensures !startedWhileDisabled && startedAfterStart && startedAfterSecondStart && !startedAfterStop
  {
    var m := new RegionServerSpaceQuotaManager(CreateEnforcement);
    m.Start(false);
    startedWhileDisabled := m.IsStarted();
    m.Start(true);
    startedAfterStart := m.IsStarted();
    m.Start(true);
    startedAfterSecondStart := m.IsStarted();
    assert m.choreCalls == [Schedule] && LiveChores(m.choreCalls) == 1;
    m.Stop();
    m.Stop();
    startedAfterStop := m.IsStarted();
    assert m.choreCalls == [Schedule, Cancel];
  }

  /** Stopping twice is the same as stopping once: the second stop cancels nothing. */
  method StopTwice(m: RegionServerSpaceQuotaManager)
    requires m.Valid()
    modifies m
    ensures m.Valid() && !m.IsStarted()
    ensures m.choreCalls == if old(m.started) then old(m.choreCalls) + [Cancel] else old(m.choreCalls)
    ensures unchanged(m`currentQuotaSnapshots, m`enforcedPolicies)
  {
    m.Stop();
    m.Stop();
  }
}
