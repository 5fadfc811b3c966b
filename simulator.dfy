/**
 * The read-only allocation simulation: a greedy day-by-day walk that takes
 * `min(remaining, free)` hours each day, starting at the start date, for at
 * most `MaxSimulationDays` days.
 *
 * The walk is specified by `SimulatedEnd`, which is stated in terms of the
 * team's free capacity summed from the start date (`CumulativeFree`).
 */
module AllocationSimulator {
  import opened Types
  import opened TeamSchedule

  /** The day cap of the simulation walk. */
  const MaxSimulationDays: nat := 365

  /** Free time of team `t` summed over the `n` days `start`, ..., `start + n - 1`. */
  function CumulativeFree(sched: ScheduleTable, t: TeamId, start: Day, n: nat): (r: real)
    ensures r >= 0.0
  {
    if n == 0 then 0.0
    else CumulativeFree(sched, t, start, n - 1) + FreeTimeOn(sched, t, start + n - 1)
  }

  lemma {:induction false} CumulativeFreeMonotone(sched: ScheduleTable, t: TeamId, start: Day, m: nat, n: nat)
    requires m <= n
    ensures CumulativeFree(sched, t, start, m) <= CumulativeFree(sched, t, start, n)
  {
    if m < n {
      CumulativeFreeMonotone(sched, t, start, m, n - 1);
    }
  }

  /**
   * The first day `e >= d` (within the day cap counted from `start`) by which
   * the free time summed from `start` covers `hours`.
   */
  function FirstCover(sched: ScheduleTable, t: TeamId, hours: real, start: Day, d: Day): (r: Option<Day>)
    requires start <= d
    ensures r.Some? ==> d <= r.value < start + MaxSimulationDays
    decreases start + MaxSimulationDays - d
  {
    if d >= start + MaxSimulationDays then None
    else if CumulativeFree(sched, t, start, d - start + 1) >= hours then Some(d)
    else FirstCover(sched, t, hours, start, d + 1)
  }

  /**
   * The date the simulation returns: the start date for zero hours; the day
   * before the start for negative hours (the walk never runs); otherwise the
   * first covering day, or None when the day cap is reached first.
   */
  function SimulatedEnd(sched: ScheduleTable, t: TeamId, hours: real, start: Day): (r: Option<Day>)
    ensures hours <= 0.0 ==> r.Some? && r.value < start + 1
    ensures hours == 0.0 ==> r == Some(start)
    ensures hours < 0.0 ==> r == Some(start - 1)
    ensures hours > 0.0 && r.Some? ==> start <= r.value < start + MaxSimulationDays
  {
    if hours == 0.0 then Some(start)
    else if hours < 0.0 then Some(start - 1)
    else FirstCover(sched, t, hours, start, start)
  }

  /**
   * `e` is the earliest day within the day cap by which the free time summed
   * from `start` reaches `hours`.
   */
  ghost predicate IsEarliestCover(sched: ScheduleTable, t: TeamId, hours: real, start: Day, e: Day)
  {
    && start <= e < start + MaxSimulationDays
    && CumulativeFree(sched, t, start, e - start + 1) >= hours
    && forall k: nat :: 1 <= k <= e - start ==> CumulativeFree(sched, t, start, k) < hours
  }

  lemma {:induction false} FirstCoverCharacterised(sched: ScheduleTable, t: TeamId, hours: real, start: Day, d: Day)
    requires start <= d <= start + MaxSimulationDays
    requires forall j: nat :: 1 <= j <= d - start ==> CumulativeFree(sched, t, start, j) < hours
    ensures FirstCover(sched, t, hours, start, d).Some? ==>
              IsEarliestCover(sched, t, hours, start, FirstCover(sched, t, hours, start, d).value)
    ensures FirstCover(sched, t, hours, start, d).None? ==>
              forall j: nat :: 1 <= j <= MaxSimulationDays ==> CumulativeFree(sched, t, start, j) < hours
    decreases start + MaxSimulationDays - d
  {
    if d < start + MaxSimulationDays && CumulativeFree(sched, t, start, d - start + 1) < hours {
      FirstCoverCharacterised(sched, t, hours, start, d + 1);
    }
  }

  /**
   * For positive hours the simulated end is exactly the earliest covering day:
   * it exists iff some walk of at most `MaxSimulationDays` days covers the
   * hours, and then it is the unique earliest such day.
   */
  lemma SimulatedEndIsEarliestCover(sched: ScheduleTable, t: TeamId, hours: real, start: Day)
    requires hours > 0.0
    ensures SimulatedEnd(sched, t, hours, start).Some? ==>
              IsEarliestCover(sched, t, hours, start, SimulatedEnd(sched, t, hours, start).value)
    ensures SimulatedEnd(sched, t, hours, start).None? <==>
              forall k: nat :: 1 <= k <= MaxSimulationDays ==> CumulativeFree(sched, t, start, k) < hours
    ensures forall e :: IsEarliestCover(sched, t, hours, start, e) ==> SimulatedEnd(sched, t, hours, start) == Some(e)
  {
    FirstCoverCharacterised(sched, t, hours, start, start);
    var r := SimulatedEnd(sched, t, hours, start);
    if r.Some? {
      var k: nat := r.value - start + 1;
      assert 1 <= k <= MaxSimulationDays && CumulativeFree(sched, t, start, k) >= hours;
    }
    forall e | IsEarliestCover(sched, t, hours, start, e)
      ensures r == Some(e)
    {
    }
  }

  lemma {:induction false} CumulativeFreeStrict(sched: ScheduleTable, t: TeamId, start: Day, m: nat, n: nat)
    requires m < n
    requires forall d :: start + m <= d < start + n ==> FreeTimeOn(sched, t, d) > 0.0
    ensures CumulativeFree(sched, t, start, m) < CumulativeFree(sched, t, start, n)
  {
    if m < n - 1 {
      CumulativeFreeStrict(sched, t, start, m, n - 1);
    }
  }

  /**
   * With a constant free time `c > 0` on every day of the first `k` days, a
   * demand of `k * c` hours ends on day `start + k - 1`.
   */
  lemma {:induction false} ConstantFreeSum(sched: ScheduleTable, t: TeamId, start: Day, c: real, n: nat)
    requires forall d :: start <= d < start + n ==> FreeTimeOn(sched, t, d) == c
    ensures CumulativeFree(sched, t, start, n) == (n as real) * c
  {
    if n > 0 {
      ConstantFreeSum(sched, t, start, c, n - 1);
    }
  }

  lemma ConstantCapacityEndDate(sched: ScheduleTable, t: TeamId, start: Day, c: real, k: nat)
    requires c > 0.0 && 1 <= k <= MaxSimulationDays
    requires forall d :: start <= d < start + k ==> FreeTimeOn(sched, t, d) == c
    ensures SimulatedEnd(sched, t, (k as real) * c, start) == Some(start + k - 1)
  {
    var hours := (k as real) * c;
    ConstantFreeSum(sched, t, start, c, k);
    forall j: nat | 1 <= j <= k - 1
      ensures CumulativeFree(sched, t, start, j) < hours
    {
      CumulativeFreeStrict(sched, t, start, j, k);
    }
    SimulatedEndIsEarliestCover(sched, t, hours, start);
    assert IsEarliestCover(sched, t, hours, start, start + k - 1);
  }

  /**
   * The simulation walk. It never changes the store; its result is the
   * specified end date.
   */
  method SimulateDemandAllocation(sched: ScheduleTable, t: TeamId, totalHours: real, start: Day)
    returns (end: Option<Day>)
    ensures end == SimulatedEnd(sched, t, totalHours, start)
  {
    if totalHours == 0.0 {
      return Some(start);
    }
    var remaining := totalHours;
    var current := start;
    var daysAttempted: nat := 0;
    while remaining > 0.0 && daysAttempted < MaxSimulationDays
      invariant daysAttempted <= MaxSimulationDays
      invariant current == start + daysAttempted
      invariant totalHours < 0.0 ==> daysAttempted == 0 && remaining == totalHours
      invariant totalHours > 0.0 && remaining > 0.0 ==>
                  remaining == totalHours - CumulativeFree(sched, t, start, daysAttempted) &&
                  FirstCover(sched, t, totalHours, start, start) == FirstCover(sched, t, totalHours, start, current)
      invariant totalHours > 0.0 && remaining <= 0.0 ==>
                  FirstCover(sched, t, totalHours, start, start) == Some(current - 1)
      decreases MaxSimulationDays - daysAttempted
    {
      daysAttempted := daysAttempted + 1;
      var capacity := TeamCapacityOn(sched, t, current);
      var alreadyAllocated := HoursAllocatedOn(sched, t, current);
      var available := capacity - alreadyAllocated;
      var take := 0.0;
      if available > 0.0 {
        take := Min(remaining, available);
      }
      remaining := remaining - take;
      current := current + 1;
    }
    if remaining <= 0.0 {
      end := Some(current - 1);
    } else {
      end := None;
    }
  }
}
