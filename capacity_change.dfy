/**
 * The clash check of a capacity change request: on each day of the range,
 * would the team's capacity, adjusted by the change in the employee's
 * effective hours, drop below the hours already committed to the team?
 */
module CapacityChange {
  import opened Types
  import opened CapacityLedger
  import opened TeamSchedule

  /** The longest range a capacity change request may cover, in days. */
  const MaxRequestDays: int := 24

  /** How many days ahead of today a requested range must start. */
  const RequestLeadDays: int := 7

  /**
   * Changing employee `e` (standard capacity `standard`, member of team `t`)
   * to `newCap` hours on day `d` would leave the team with less capacity than
   * it has allocated.
   */
  predicate ClashOn(sched: ScheduleTable, caps: seq<CapacityRow>, e: EmployeeId, standard: real, t: TeamId,
                    newCap: real, d: Day)
  {
    TeamCapacityOn(sched, t, d) + (newCap - EffectiveCapacity(caps, e, standard, d)) < HoursAllocatedOn(sched, t, d)
  }

  /**
   * The per-day clash loop: it visits every day of [start, end] and reports
   * whether any of them clashes.
   */
  method DetectClash(sched: ScheduleTable, caps: seq<CapacityRow>, e: EmployeeId, standard: real, t: TeamId,
                     newCap: real, start: Day, end: Day)
    returns (clash: bool)
    ensures clash <==> exists d :: start <= d <= end && ClashOn(sched, caps, e, standard, t, newCap, d)
  {
    clash := false;
    var current := start;
    while current <= end
      invariant start <= current && (current <= end + 1 || current == start)
      invariant clash <==> exists d :: start <= d < current && ClashOn(sched, caps, e, standard, t, newCap, d)
      decreases end + 1 - current
    {
      var effective := EffectiveCapacity(caps, e, standard, current);
      var change := newCap - effective;
      var teamCapacity := TeamCapacityOn(sched, t, current);
      var scheduled := HoursAllocatedOn(sched, t, current);
      assert ClashOn(sched, caps, e, standard, t, newCap, current) <==> teamCapacity + change < scheduled;
      if teamCapacity + change < scheduled {
        clash := true;
      }
      current := current + 1;
    }
  }

  /**
   * A clash only gets worse as the requested capacity drops: whatever clashes
   * at `newCap` also clashes at any lower value.
   */
  lemma ClashMonotone(sched: ScheduleTable, caps: seq<CapacityRow>, e: EmployeeId, standard: real, t: TeamId,
                      newCap: real, lower: real, d: Day)
    requires lower <= newCap
    requires ClashOn(sched, caps, e, standard, t, newCap, d)
    ensures ClashOn(sched, caps, e, standard, t, lower, d)
  {
  }

  /**
   * A team of 16 hours with 15 committed: an 8-hour employee without an
   * override cannot drop to 4 hours, but may keep 8; once an override of 4
   * hours is stored, asking for 4 again changes nothing and does not clash.
   */
  lemma ClashScenario(sched: ScheduleTable, e: EmployeeId, t: TeamId, d: Day)
    requires (t, d) in sched && sched[(t, d)] == ScheduleRow(16.0, 15.0)
    ensures ClashOn(sched, [], e, 8.0, t, 4.0, d)
    ensures !ClashOn(sched, [], e, 8.0, t, 8.0, d)
    ensures !ClashOn(sched, [CapacityRow(e, d, 4.0)], e, 8.0, t, 4.0, d)
  {
    assert Matches([CapacityRow(e, d, 4.0)][0], e, d);
  }
}
