/**
  The calls the manager makes on the chore service for its periodic space quota refresher:
  scheduling one on start and cancelling it on stop.
 */
module RefresherLifecycle {

  /** The refresher chore that periodically feeds snapshots and enforcement decisions. */
  datatype SpaceQuotaRefresherChore = SpaceQuotaRefresherChore

  datatype ChoreCall = Schedule | Cancel

  /** Schedules and cancels alternate, starting with a schedule. */
  ghost predicate Alternating(calls: seq<ChoreCall>) {
    forall i | 0 <= i < |calls| :: calls[i] == if i % 2 == 0 then Schedule else Cancel
  }

  /** How many scheduled refresher chores have not been cancelled. */
  function LiveChores(calls: seq<ChoreCall>): int
    decreases |calls|
  {
    if calls == [] then 0
    else LiveChores(calls[..|calls| - 1]) + (if calls[|calls| - 1] == Schedule then 1 else -1)
  }

  /**
    When schedules and cancels alternate, at most one refresher chore is live: exactly one
    after an odd number of calls (the last being a schedule), none after an even number.
   */
  lemma {:induction false} AlternatingKeepsOneChore(calls: seq<ChoreCall>)
    ensures Alternating(calls) ==> LiveChores(calls) == |calls| % 2
    decreases |calls|
  {
    if calls != [] && Alternating(calls) {
      var prefix := calls[..|calls| - 1];
      assert forall i | 0 <= i < |prefix| :: prefix[i] == calls[i];
      AlternatingKeepsOneChore(prefix);
    }
  }
}
