/**
  Value types shared by the region server's space quota bookkeeping: table names,
  quota snapshots with their violation status, and the enforcement objects that the
  enforcement factory builds from a snapshot.
 */
module SpaceQuotaTypes {

  datatype Option<T> = None | Some(value: T)

  /** Result of an operation that either completes or fails fast with an error. */
  datatype Outcome<E> = Pass | Fail(error: E)

  /** The fail-fast error channel: a caller broke the operation's contract. */
  datatype QuotaError = IllegalState(table: TableName)

  /** A table, identified by its namespace and its qualifier. */
  datatype TableName = TableName(namespace: string, qualifier: string)

  /** What an enforcement does to a table whose quota is violated. */
  datatype SpaceViolationPolicy = Disable | NoWritesCompactions | NoWrites | NoInserts

  /** Whether a table is in violation and, if so, under which policy. */
  datatype SpaceQuotaStatus = SpaceQuotaStatus(policy: Option<SpaceViolationPolicy>, inViolation: bool)

  /** One measurement of a table's space usage against its limit (both in bytes). */
  datatype SpaceQuotaSnapshot = SpaceQuotaSnapshot(status: SpaceQuotaStatus, usage: int, limit: int)

  /**
    An enforcement of a violation policy on one table. It may carry the snapshot it was
    built from, and it answers whether compactions are disabled while it is in force.
   */
  datatype SpaceViolationPolicyEnforcement =
    SpaceViolationPolicyEnforcement(table: TableName, quotaSnapshot: Option<SpaceQuotaSnapshot>,
                                    compactionsDisabled: bool)

  /** Builds the enforcement for a table from the snapshot that put it in violation. */
  type EnforcementFactory = (TableName, SpaceQuotaSnapshot) -> SpaceViolationPolicyEnforcement

  /** The factory binds each enforcement it creates to the table and snapshot it was given. */
  ghost predicate BindsSnapshot(factory: EnforcementFactory) {
    forall t, s :: factory(t, s).table == t && factory(t, s).quotaSnapshot == Some(s)
  }

  /** The enforcement is bound to a snapshot, and that snapshot is in violation. */
  predicate BoundInViolation(e: SpaceViolationPolicyEnforcement) {
    e.quotaSnapshot.Some? && e.quotaSnapshot.value.status.inViolation
  }
}
