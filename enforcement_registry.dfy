/**
  The history of enable()/disable() calls that the manager makes on enforcement objects,
  and the enforcement map that history produces. The manager keeps its map equal to
  the replay of its history; the lemmas here say what that means for each table.
 */
module EnforcementRegistry {
  import opened SpaceQuotaTypes

  /** One call into an enforcement object, and whether that call succeeded. */
  datatype EnforcementCall =
    | EnableCall(table: TableName, enforcement: SpaceViolationPolicyEnforcement, succeeded: bool)
    | DisableCall(table: TableName, enforcement: SpaceViolationPolicyEnforcement, succeeded: bool)

  type EnforcementMap = map<TableName, SpaceViolationPolicyEnforcement>

  /**
    The effect of one call on the map: a successful enable registers (or overwrites) the
    table's entry, a successful disable removes it, and a failed call leaves the map as it was.
   */
  function Step(m: EnforcementMap, c: EnforcementCall): EnforcementMap {
    match c
    case EnableCall(t, e, ok) => if ok then m[t := e] else m
    case DisableCall(t, _, ok) => if ok then m - {t} else m
  }

  /** The enforcement map that a history of calls leaves behind, starting from an empty map. */
  function Replay(calls: seq<EnforcementCall>): EnforcementMap
    decreases |calls|
  {
    if calls == [] then map[]
    else Step(Replay(calls[..|calls| - 1]), calls[|calls| - 1])
  }

  /**
    A call the manager can make given the map it holds: enable only on an enforcement bound
    to its table and to an in-violation snapshot, disable only on the table's current entry.
   */
  ghost predicate Admissible(m: EnforcementMap, c: EnforcementCall) {
    match c
    case EnableCall(t, e, _) => e.table == t && BoundInViolation(e)
    case DisableCall(t, e, _) => t in m && m[t] == e
  }

  /** Every call of the history was admissible when it was made. */
  ghost predicate WellFormed(calls: seq<EnforcementCall>)
    decreases |calls|
  {
    calls == []
    || (WellFormed(calls[..|calls| - 1]) && Admissible(Replay(calls[..|calls| - 1]), calls[|calls| - 1]))
  }

  /** The most recent successful call for table t, if there is one. */
  function LastEffective(calls: seq<EnforcementCall>, t: TableName): Option<EnforcementCall>
    decreases |calls|
  {
    if calls == [] then None
    else
      var c := calls[|calls| - 1];
      if c.table == t && c.succeeded then Some(c) else LastEffective(calls[..|calls| - 1], t)
  }

  /**
    A table has an entry exactly when its most recent successful call was an enable, and the
    entry is the enforcement of that call. Failed calls leave no trace in the map; a failed
    enable does not remove an older entry, and a failed disable keeps the entry in force.
   */
  lemma {:induction false} ReplayIsLastEffective(calls: seq<EnforcementCall>, t: TableName)
    ensures t in Replay(calls) <==> LastEffective(calls, t).Some? && LastEffective(calls, t).value.EnableCall?
    ensures t in Replay(calls) ==> Replay(calls)[t] == LastEffective(calls, t).value.enforcement
    decreases |calls|
  {
    if calls != [] {
      ReplayIsLastEffective(calls[..|calls| - 1], t);
    }
  }

  /**
    In a well-formed history every registered enforcement belongs to its own table and is
    bound to a snapshot that is in violation.
   */
  lemma {:induction false} ReplayBoundInViolation(calls: seq<EnforcementCall>)
    ensures WellFormed(calls) ==>
      forall t | t in Replay(calls) :: Replay(calls)[t].table == t && BoundInViolation(Replay(calls)[t])
    decreases |calls|
  {
    if calls != [] {
      ReplayBoundInViolation(calls[..|calls| - 1]);
    }
  }
}
