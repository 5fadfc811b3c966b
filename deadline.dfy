/**
 * The deadline query: which teams could finish a demand of a given size,
 * started on a given day, by a desired end date.
 */
module Deadline {
  import opened Types
  import opened TeamSchedule
  import opened AllocationSimulator

  /** Team `t` is accepted when its simulated end date exists and is no later than `desired`. */
  predicate MeetsDeadline(sched: ScheduleTable, t: TeamId, hours: real, start: Day, desired: Day)
  {
    match SimulatedEnd(sched, t, hours, start)
    case None => false
    case Some(e) => e <= desired
  }

  /** The accepted teams of `teams`, in their order. */
  function TeamsMeeting(sched: ScheduleTable, teams: seq<TeamId>, hours: real, start: Day, desired: Day)
    : (r: seq<TeamId>)
    ensures |r| <= |teams|
    ensures forall t :: t in r <==> t in teams && MeetsDeadline(sched, t, hours, start, desired)
  {
    if |teams| == 0 then []
    else
      var last := teams[|teams| - 1];
      var prefix := TeamsMeeting(sched, teams[..|teams| - 1], hours, start, desired);
      assert forall t :: t in teams <==> t in teams[..|teams| - 1] || t == last;
      if MeetsDeadline(sched, last, hours, start, desired) then prefix + [last] else prefix
  }

  function MinDays(a: int, b: int): int { if a <= b then a else b }

  /**
   * For hours the query accepts (not negative) and a start no later than the
   * desired date, a team is accepted exactly when its free time summed from
   * the start up to the desired date (or over the simulation's day cap, if
   * that is shorter) covers the hours.
   */
  lemma MeetsDeadlineIffCovered(sched: ScheduleTable, t: TeamId, hours: real, start: Day, desired: Day)
    requires hours >= 0.0 && start <= desired
    ensures var k := MinDays(desired - start + 1, MaxSimulationDays);
            k >= 1 &&
            (MeetsDeadline(sched, t, hours, start, desired) <==> CumulativeFree(sched, t, start, k) >= hours)
  {
    var k: nat := MinDays(desired - start + 1, MaxSimulationDays);
    if hours == 0.0 {
      assert CumulativeFree(sched, t, start, k) >= 0.0;
      return;
    }
    SimulatedEndIsEarliestCover(sched, t, hours, start);
    var r := SimulatedEnd(sched, t, hours, start);
    if MeetsDeadline(sched, t, hours, start, desired) {
      CumulativeFreeMonotone(sched, t, start, r.value - start + 1, k);
    }
    if CumulativeFree(sched, t, start, k) >= hours {
      assert r.Some?;
    }
  }

  /** An accepted team stays accepted for any later desired date. */
  lemma MeetsDeadlineLater(sched: ScheduleTable, t: TeamId, hours: real, start: Day, desired: Day, later: Day)
    requires desired <= later
    requires MeetsDeadline(sched, t, hours, start, desired)
    ensures MeetsDeadline(sched, t, hours, start, later)
  {
  }

  /**
   * The query: it rejects negative hours, then a start after the desired
   * date; otherwise it runs the simulation for every team and keeps those
   * whose simulated end is no later than the desired date.
   */
  method TeamsMeetingDeadline(sched: ScheduleTable, teams: seq<TeamId>, desired: Day, start: Day, hours: real)
    returns (r: Result<seq<TeamId>>)
    ensures hours < 0.0 ==> r == Err(InvalidHours)
    ensures hours >= 0.0 && start > desired ==> r == Err(InvalidRange)
    ensures hours >= 0.0 && start <= desired ==> r == Ok(TeamsMeeting(sched, teams, hours, start, desired))
  {
    if hours < 0.0 {
      return Err(InvalidHours);
    }
    if start > desired {
      return Err(InvalidRange);
    }
    var suitable: seq<TeamId> := [];
    var i := 0;
    while i < |teams|
      invariant 0 <= i <= |teams|
      invariant suitable == TeamsMeeting(sched, teams[..i], hours, start, desired)
    {
      var end := SimulateDemandAllocation(sched, teams[i], hours, start);
      assert teams[..i + 1][..i] == teams[..i];
      if end.Some? && end.value <= desired {
        suitable := suitable + [teams[i]];
      }
      i := i + 1;
    }
    assert teams[..|teams|] == teams;
    return Ok(suitable);
  }
}
