/**
 * The persisted tables and the operations that change them. Every operation
 * that fails leaves every table as it was (the all-or-nothing outcome of a
 * database transaction).
 */
module Persistence {
  import opened Types
  import opened CapacityLedger
  import opened TeamSchedule
  import opened AllocationSimulator
  import opened DemandAllocator
  import opened Membership
  import opened DemandStatus
  import opened CapacityChange

  /** The days `lo`, ..., `hi`. */
  function DateRange(lo: Day, hi: Day): (r: set<Day>)
    ensures forall d :: d in r <==> lo <= d <= hi
    decreases hi - lo
  {
    if lo > hi then {} else DateRange(lo, hi - 1) + {hi}
  }

  /** Refreshing [lo, hi] is refreshing [lo, hi - 1] and then the single date `hi`. */
  lemma CapacityRangeStep(sched: ScheduleTable, caps: seq<CapacityRow>, employees: map<EmployeeId, Employee>,
                          t: TeamId, lo: Day, hi: Day)
    requires lo <= hi
    ensures var before := WithCapacityRefreshed(sched, caps, employees, t, DateRange(lo, hi - 1));
            WithCapacityRefreshed(sched, caps, employees, t, DateRange(lo, hi)) ==
            before[(t, hi) := ScheduleRow(TeamOverrideSum(caps, employees, t, hi), HoursAllocatedOn(before, t, hi))]
  {
    CapacityRefreshStep(sched, caps, employees, t, DateRange(lo, hi - 1), hi);
  }

  /**
   * The override rows a capacity change leaves, as the code is written with
   * the `get_or_create` repair of core/models.py:180-186 applied (read
   * literally, the team refresh sets a field on the returned tuple, so no
   * change for an employee with a team gets through either). A reversed
   * range, negative hours and an unknown employee are refused. For an
   * employee without a team, the closing note calls the employee's first
   * name as if it were a function. That raises, and the transaction takes
   * back every row already written.
   */
  function CapacityChangeAsWritten(caps: seq<CapacityRow>, employees: map<EmployeeId, Employee>,
                                   e: EmployeeId, start: Day, end: Day, h: real): (r: Result<seq<CapacityRow>>)
    ensures r.Ok? <==> start <= end && h >= 0.0 && e in employees && employees[e].team.Some?
    ensures r.Ok? ==> forall d :: start <= d <= end ==> Lookup(r.value, e, d) == Some(h)
  {
    if start > end then Err(InvalidRange)
    else if h < 0.0 then Err(NegativeCapacity)
    else if e !in employees then Err(EmployeeNotFound)
    else if employees[e].team.None? then Err(NoTeam)
    else
      UpsertRangeLookup(caps, e, start, end, h);
      Ok(UpsertRange(caps, e, start, end, h))
  }

  /**
   * An employee without a team, set to 4 hours on day 10: the code as written
   * (with the `get_or_create` repair applied) keeps no override row, while the
   * intended change stores one.
   */
  lemma NoTeamCapacityChangeIsLost()
    ensures var employees := map[1 := Employee(None, 8.0)];
            && CapacityChangeAsWritten([], employees, 1, 10, 10, 4.0) == Err(NoTeam)
            && Lookup(UpsertRange([], 1, 10, 10, 4.0), 1, 10) == Some(4.0)
  {
    UpsertRangeLookup([], 1, 10, 10, 4.0);
  }

  /**
   * For an employee with a team the code as written, with the `get_or_create`
   * repair of core/models.py:180-186 applied, and the intended change store
   * the same override rows; without a team only the intended change succeeds,
   * and it writes `h` on every date of the range.
   */
  lemma CapacityChangeAsWrittenDiffersOnlyWithoutTeam(caps: seq<CapacityRow>, employees: map<EmployeeId, Employee>,
                                                      e: EmployeeId, start: Day, end: Day, h: real)
    requires start <= end && h >= 0.0 && e in employees
    ensures employees[e].team.Some? ==>
              CapacityChangeAsWritten(caps, employees, e, start, end, h) == Ok(UpsertRange(caps, e, start, end, h))
    ensures employees[e].team.None? ==>
              CapacityChangeAsWritten(caps, employees, e, start, end, h).Err? &&
              forall d :: start <= d <= end ==> Lookup(UpsertRange(caps, e, start, end, h), e, d) == Some(h)
  {
    UpsertRangeLookup(caps, e, start, end, h);
  }

  /** Every stored reference to a team points at a stored team. */
  ghost predicate TeamsResolve(employees: map<EmployeeId, Employee>, teams: map<TeamId, Team>,
                               demands: map<DemandId, Demand>)
  {
    && (forall e :: e in employees && employees[e].team.Some? ==> employees[e].team.value in teams)
    && (forall id :: id in demands && demands[id].team.Some? ==> demands[id].team.value in teams)
  }

  /** Storing a demand whose team exists keeps every team reference resolvable. */
  lemma ResolveAfterDemandUpdate(employees: map<EmployeeId, Employee>, teams: map<TeamId, Team>,
                                 demands: map<DemandId, Demand>, id: DemandId, d: Demand)
    requires TeamsResolve(employees, teams, demands)
    requires d.team.Some? ==> d.team.value in teams
    ensures TeamsResolve(employees, teams, demands[id := d])
  {
  }

  class Store {
    var employees: map<EmployeeId, Employee>
    var teams: map<TeamId, Team>
    var demands: map<DemandId, Demand>
    /** The capacity override rows. */
    var capacities: seq<CapacityRow>
    /** The cached per-(team, date) summaries. */
    var schedule: ScheduleTable
    /** The per-day allocation rows of every assigned demand. */
    var allocations: seq<DailyAllocation>
    var requests: seq<CapacityChangeRequest>

    /**
     * The store invariant. Three parts are table constraints: one override
     * row per (employee, date), one allocation row per (demand, date), and
     * team references resolve. The rest is kept by every modelled operation
     * but enforced by no table: no team exceeds the member cap, no
     * allocation row is negative, and the cached allocated hours never
     * understate the rows (deleting a demand's rows leaves the cache stale,
     * but only upward).
     */
    ghost predicate Valid()
      reads this
    {
      && UniqueRows(capacities)
      && UniqueAllocations(allocations)
      && TeamsResolve(employees, teams, demands)
      && TeamsWithinCap(employees)
      && NonNegativeRows(allocations)
      && CacheCoversRows(schedule, allocations)
    }

    constructor(employees0: map<EmployeeId, Employee>, teams0: map<TeamId, Team>, demands0: map<DemandId, Demand>)
      requires TeamsResolve(employees0, teams0, demands0)
      requires TeamsWithinCap(employees0)
      ensures Valid()
      ensures employees == employees0 && teams == teams0 && demands == demands0
      ensures capacities == [] && schedule == map[] && allocations == [] && requests == []
    {
      employees := employees0;
      teams := teams0;
      demands := demands0;
      capacities := [];
      schedule := map[];
      allocations := [];
      requests := [];
    }

    /**
     * Add employee `e` to team `t`: nothing happens when it is already a
     * member; a full team refuses; otherwise the employee's team becomes `t`.
     */
    method AddMember(t: TeamId, e: EmployeeId) returns (r: Result<()>)
      requires Valid() && t in teams && e in employees
      modifies this`employees
      ensures Valid()
      ensures old(employees[e].team) == Some(t) ==> r == Ok(()) && employees == old(employees)
      ensures old(employees[e].team) != Some(t) && old(MemberCount(employees, t)) >= MaxMembers ==>
                r == Err(TeamFull) && employees == old(employees)
      ensures old(employees[e].team) != Some(t) && old(MemberCount(employees, t)) < MaxMembers ==>
                r == Ok(()) && employees == WithTeam(old(employees), e, Some(t)) &&
                MemberCount(employees, t) == old(MemberCount(employees, t)) + 1
    {
      if employees[e].team == Some(t) {
        return Ok(());
      }
      if MemberCount(employees, t) >= MaxMembers {
        return Err(TeamFull);
      }
      JoinKeepsCap(employees, e, t);
      employees := WithTeam(employees, e, Some(t));
      r := Ok(());
    }

    /** Remove employee `e` from team `t`; nothing happens when it is not a member. */
    method RemoveMember(t: TeamId, e: EmployeeId)
      requires Valid() && t in teams && e in employees
      modifies this`employees
      ensures Valid()
      ensures old(employees[e].team) == Some(t) ==>
                employees == WithTeam(old(employees), e, None) &&
                MemberCount(employees, t) == old(MemberCount(employees, t)) - 1
      ensures old(employees[e].team) != Some(t) ==> employees == old(employees)
    {
      if employees[e].team != Some(t) {
        return;
      }
      LeaveKeepsCap(employees, e);
      employees := WithTeam(employees, e, None);
    }

    /**
     * Refresh the team capacity of (t, d) to the sum of the override rows of
     * the team's current members on `d`, creating the schedule row if absent.
     */
    method UpdateAggregatedCapacity(t: TeamId, d: Day)
      requires t in teams
      modifies this`schedule
      ensures schedule == old(schedule)[(t, d) :=
                ScheduleRow(TeamOverrideSum(capacities, employees, t, d), HoursAllocatedOn(old(schedule), t, d))]
      ensures old(Valid()) ==> Valid()
    {
      var total := TeamOverrideSum(capacities, employees, t, d);
      var row := if (t, d) in schedule then schedule[(t, d)] else ScheduleRow(0.0, 0.0);
      schedule := schedule[(t, d) := row.(teamCapacity := total)];
    }

    /**
     * Refresh the allocated hours of (t, d) to the sum of the team's
     * allocation rows on `d`, creating the schedule row if absent.
     */
    method UpdateTeamDailyAllocationSummary(t: TeamId, d: Day)
      requires t in teams
      modifies this`schedule
      ensures schedule == old(schedule)[(t, d) :=
                ScheduleRow(TeamCapacityOn(old(schedule), t, d), AllocatedSum(allocations, t, d))]
      ensures old(Valid()) ==> Valid()
    {
      var total := AllocatedSum(allocations, t, d);
      var row := if (t, d) in schedule then schedule[(t, d)] else ScheduleRow(0.0, 0.0);
      schedule := schedule[(t, d) := row.(hoursAllocated := total)];
    }

    /**
     * Delete every allocation row of demand `id`. The schedule is not
     * refreshed (see `ClearLeavesScheduleStale`), so it can only overstate
     * the rows that remain (see `ClearKeepsCover`).
     */
    method ClearPreviousAllocations(id: DemandId)
      requires Valid() && id in demands
      modifies this`allocations
      ensures Valid()
      ensures allocations == WithoutDemand(old(allocations), id)
      ensures forall x :: x in allocations <==> x in old(allocations) && x.demand != id
    {
      WithoutDemandKeepsUnique(allocations, id);
      ClearKeepsCover(schedule, allocations, id);
      allocations := WithoutDemand(allocations, id);
    }

    /**
     * Assign demand `id` to team `t` with `hours` predicted hours from
     * `start`. The checks run in order: the demand is not yet assigned, it is
     * still Pending, the hours are positive, the team exists, and the
     * simulation finds an end date within its day cap. The replayed rows are
     * then inserted, which fails if a row for the same (demand, date) is
     * already stored. On success the demand records the team, the hours, the
     * start and the simulated end, and every date the rows touch has its
     * allocated hours refreshed and ends within the team's capacity.
     */
    method SetAssignedTeam(id: DemandId, t: TeamId, hours: real, start: Day) returns (r: Result<Day>)
      requires Valid() && id in demands
      modifies this`demands, this`allocations, this`schedule
      ensures Valid()
      ensures old(demands[id].assignmentStatus) ==> r == Err(AlreadyAssigned)
      ensures !old(demands[id].assignmentStatus) && old(demands[id].status) != Pending ==> r == Err(InvalidState)
      ensures !old(demands[id].assignmentStatus) && old(demands[id].status) == Pending && hours <= 0.0 ==>
                r == Err(InvalidHours)
      ensures (!old(demands[id].assignmentStatus) && old(demands[id].status) == Pending && hours > 0.0 &&
               t !in old(teams)) ==> r == Err(TeamNotFound)
      ensures (!old(demands[id].assignmentStatus) && old(demands[id].status) == Pending && hours > 0.0 &&
               t in old(teams) && SimulatedEnd(old(schedule), t, hours, start).None?) ==> r == Err(CapacityExceeded)
      ensures (!old(demands[id].assignmentStatus) && old(demands[id].status) == Pending && hours > 0.0 &&
               t in old(teams) && SimulatedEnd(old(schedule), t, hours, start).Some?) ==>
                var end := SimulatedEnd(old(schedule), t, hours, start).value;
                var plan := GreedyRows(old(schedule), id, t, hours, start, end + 1);
                r == (if Conflicts(old(allocations), plan) then Err(DuplicateAllocation) else Ok(end))
      ensures r.Err? ==> demands == old(demands) && allocations == old(allocations) && schedule == old(schedule)
      ensures r.Ok? ==>
                var plan := GreedyRows(old(schedule), id, t, hours, start, r.value + 1);
                && demands == old(demands)[id := old(demands[id]).(team := Some(t), timeNeeded := hours,
                                 startDate := Some(start), estimatedEndDate := Some(r.value), assignmentStatus := true)]
                && allocations == old(allocations) + plan
                && schedule == WithAllocatedRefreshed(old(schedule), allocations, t, DatesOf(plan))
      ensures r.Ok? && old(AllocationsCached(schedule, allocations)) ==> AllocationsCached(schedule, allocations)
      ensures r.Ok? ==> forall t', d' :: TeamCapacityOn(schedule, t', d') == TeamCapacityOn(old(schedule), t', d')
      ensures r.Ok? ==>
                var plan := GreedyRows(old(schedule), id, t, hours, start, r.value + 1);
                forall i :: 0 <= i < |plan| ==>
                  HoursAllocatedOn(schedule, t, plan[i].date) <= TeamCapacityOn(schedule, t, plan[i].date)
    {
      var demand := demands[id];
      if demand.assignmentStatus {
        return Err(AlreadyAssigned);
      }
      if demand.status == InProgress || demand.status == Finished {
        return Err(InvalidState);
      }
      if hours <= 0.0 {
        return Err(InvalidHours);
      }
      if t !in teams {
        return Err(TeamNotFound);
      }
      var simulated := SimulateDemandAllocation(schedule, t, hours, start);
      if simulated.None? {
        return Err(CapacityExceeded);
      }
      r := AssignWithinCapacity(id, t, hours, start, simulated.value);
    }

    /**
     * The part of an assignment after every check has passed, given the end
     * date `end` the simulation found: replay the simulation into rows,
     * refuse them if one clashes with a stored row, and otherwise store the
     * demand's new fields and the rows and refresh the allocated hours of
     * their dates.
     */
    method AssignWithinCapacity(id: DemandId, t: TeamId, hours: real, start: Day, end: Day) returns (r: Result<Day>)
      requires Valid() && id in demands && t in teams && hours > 0.0
      requires SimulatedEnd(schedule, t, hours, start) == Some(end)
      modifies this`demands, this`allocations, this`schedule
      ensures Valid()
      ensures var plan := GreedyRows(old(schedule), id, t, hours, start, end + 1);
              r == (if Conflicts(old(allocations), plan) then Err(DuplicateAllocation) else Ok(end))
      ensures r.Err? ==> demands == old(demands) && allocations == old(allocations) && schedule == old(schedule)
      ensures r.Ok? ==>
                var plan := GreedyRows(old(schedule), id, t, hours, start, end + 1);
                && demands == old(demands)[id := old(demands[id]).(team := Some(t), timeNeeded := hours,
                                 startDate := Some(start), estimatedEndDate := Some(end), assignmentStatus := true)]
                && allocations == old(allocations) + plan
                && schedule == WithAllocatedRefreshed(old(schedule), allocations, t, DatesOf(plan))
      ensures r.Ok? && old(AllocationsCached(schedule, allocations)) ==> AllocationsCached(schedule, allocations)
      ensures r.Ok? ==> forall t', d' :: TeamCapacityOn(schedule, t', d') == TeamCapacityOn(old(schedule), t', d')
      ensures r.Ok? ==>
                var plan := GreedyRows(old(schedule), id, t, hours, start, end + 1);
                forall i :: 0 <= i < |plan| ==>
                  HoursAllocatedOn(schedule, t, plan[i].date) <= TeamCapacityOn(schedule, t, plan[i].date)
    {
      var rows := ReplayAllocation(schedule, id, t, hours, start);
      if Conflicts(allocations, rows) {
        return Err(DuplicateAllocation);
      }
      ghost var before := schedule;
      StoreAssignment(id, t, hours, start, end, rows);
      assert rows == GreedyRows(before, id, t, hours, start, end + 1);
      r := Ok(end);
    }

    /**
     * Store a clash-free replayed plan: the demand's new fields, the rows, and
     * the refreshed allocated hours of every date they touch.
     */
    method StoreAssignment(id: DemandId, t: TeamId, hours: real, start: Day, end: Day, rows: seq<DailyAllocation>)
      requires Valid() && id in demands && t in teams && hours > 0.0
      requires SimulatedEnd(schedule, t, hours, start) == Some(end)
      requires rows == GreedyRows(schedule, id, t, hours, start, end + 1)
      requires !Conflicts(allocations, rows)
      modifies this`demands, this`allocations, this`schedule
      ensures Valid()
      ensures demands == old(demands)[id := old(demands[id]).(team := Some(t), timeNeeded := hours,
                           startDate := Some(start), estimatedEndDate := Some(end), assignmentStatus := true)]
      ensures allocations == old(allocations) + rows
      ensures schedule == WithAllocatedRefreshed(old(schedule), allocations, t, DatesOf(rows))
      ensures old(AllocationsCached(schedule, allocations)) ==> AllocationsCached(schedule, allocations)
      ensures forall t', d' :: TeamCapacityOn(schedule, t', d') == TeamCapacityOn(old(schedule), t', d')
      ensures forall i :: 0 <= i < |rows| ==>
                HoursAllocatedOn(schedule, t, rows[i].date) <= TeamCapacityOn(schedule, t, rows[i].date)
    {
      ghost var refreshed := WithAllocatedRefreshed(schedule, allocations + rows, t, DatesOf(rows));
      assert UniqueAllocations(allocations + rows) &&
             (AllocationsCached(schedule, allocations) ==> AllocationsCached(refreshed, allocations + rows))
      by {
        GreedyCommitSound(schedule, allocations, id, t, hours, start);
      }
      assert NonNegativeRows(allocations + rows) && CacheCoversRows(refreshed, allocations + rows) &&
             forall i :: 0 <= i < |rows| ==> HoursAllocatedOn(refreshed, t, rows[i].date) <= TeamCapacityOn(refreshed, t, rows[i].date)
      by {
        ReplayIsGreedyPlan(schedule, id, t, hours, start, end);
        PlanCommitCovered(schedule, allocations, rows, id, t, hours, start, end);
      }
      var updated := demands[id].(team := Some(t), timeNeeded := hours, startDate := Some(start),
                                  estimatedEndDate := Some(end), assignmentStatus := true);
      ResolveAfterDemandUpdate(employees, teams, demands, id, updated);
      demands := demands[id := updated];
      CommitRows(t, rows);
      assert schedule == refreshed;
      AllocatedRefreshKeepsCapacity(old(schedule), allocations, t, DatesOf(rows));
    }

    /**
     * Store the allocation rows `rows` of team `t` and refresh the allocated
     * hours of every date they touch, in order.
     */
    method CommitRows(t: TeamId, rows: seq<DailyAllocation>)
      requires t in teams
      modifies this`allocations, this`schedule
      ensures allocations == old(allocations) + rows
      ensures schedule == WithAllocatedRefreshed(old(schedule), allocations, t, DatesOf(rows))
    {
      allocations := allocations + rows;
      assert WithAllocatedRefreshed(old(schedule), allocations, t, DatesOf(rows[..0])) == old(schedule);
      var i := 0;
      while i < |rows|
        invariant 0 <= i <= |rows|
        invariant allocations == old(allocations) + rows
        invariant schedule == WithAllocatedRefreshed(old(schedule), allocations, t, DatesOf(rows[..i]))
      {
        AllocatedRefreshStep(old(schedule), allocations, t, DatesOf(rows[..i]), rows[i].date);
        assert DatesOf(rows[..i + 1]) == DatesOf(rows[..i]) + {rows[i].date} by {
          assert rows[..i + 1] == rows[..i] + [rows[i]];
        }
        UpdateTeamDailyAllocationSummary(t, rows[i].date);
        i := i + 1;
      }
      assert rows[..|rows|] == rows;
    }

    /**
     * Change the status of demand `id` to the status named `newStatus` on day
     * `today`. Names outside the three statuses and demands without a team are
     * refused. The team's completion counters are stored (the corrected
     * behaviour; `PersistedTeamAsWritten` is the code's).
     */
    method UpdateDemandStatus(id: DemandId, newStatus: string, today: Day) returns (r: Result<()>)
      requires Valid() && id in demands
      modifies this`demands, this`teams
      ensures Valid()
      ensures ParseStatus(newStatus).None? ==> r == Err(InvalidStatus)
      ensures ParseStatus(newStatus).Some? && old(demands[id].team).None? ==> r == Err(NotAssigned)
      ensures r.Err? ==> demands == old(demands) && teams == old(teams)
      ensures ParseStatus(newStatus).Some? && old(demands[id].team).Some? ==>
                var s := ParseStatus(newStatus).value;
                var t := old(demands[id].team).value;
                && r == Ok(())
                && demands == old(demands)[id := ApplyStatus(old(demands[id]), s, today)]
                && teams == old(teams)[t := TeamAfterStatus(old(teams)[t], old(demands[id]), s, today)]
    {
      var parsed := ParseStatus(newStatus);
      if parsed.None? {
        return Err(InvalidStatus);
      }
      var demand := demands[id];
      if demand.team.None? {
        return Err(NotAssigned);
      }
      var s := parsed.value;
      var t := demand.team.value;
      var team := teams[t];
      if s == Finished && demand.estimatedEndDate.Some? {
        team := RecordCompletion(team, today, demand.estimatedEndDate.value);
      }
      demands := demands[id := ApplyStatus(demand, s, today)];
      teams := teams[t := team];
      r := Ok(());
    }

    /**
     * Employee `e` asks to work `newCap` hours on each day of [start, end]
     * (today is `today`). The checks run in order: a well-ordered range, at
     * most 24 days, starting at least a week from today, an employee with a
     * team, and no day on which the change would leave the team with less
     * capacity than it has allocated. On success one Pending request is
     * stored.
     */
    method SendCapacityChangeRequest(e: EmployeeId, newCap: real, start: Day, end: Day, today: Day)
      returns (r: Result<()>)
      requires Valid() && e in employees
      modifies this`requests
      ensures Valid()
      ensures start > end ==> r == Err(InvalidRange)
      ensures start <= end && end - start + 1 > MaxRequestDays ==> r == Err(InvalidSpan)
      ensures (start <= end && end - start + 1 <= MaxRequestDays && start < today + RequestLeadDays) ==>
                r == Err(TooSoon)
      ensures (start <= end && end - start + 1 <= MaxRequestDays && start >= today + RequestLeadDays &&
               employees[e].team.None?) ==> r == Err(NoTeam)
      ensures (start <= end && end - start + 1 <= MaxRequestDays && start >= today + RequestLeadDays &&
               employees[e].team.Some?) ==>
                r == (if exists d :: start <= d <= end &&
                           ClashOn(schedule, capacities, e, employees[e].standardDailyCapacity,
                                   employees[e].team.value, newCap, d)
                      then Err(CapacityClash) else Ok(()))
      ensures r.Err? ==> requests == old(requests)
      ensures r.Ok? ==> requests == old(requests) + [CapacityChangeRequest(e, start, end, newCap, RequestPending)]
    {
      if start > end {
        return Err(InvalidRange);
      }
      var days := end - start + 1;
      if !(1 <= days <= MaxRequestDays) {
        return Err(InvalidSpan);
      }
      if start < today + RequestLeadDays {
        return Err(TooSoon);
      }
      var employee := employees[e];
      if employee.team.None? {
        return Err(NoTeam);
      }
      var clash := DetectClash(schedule, capacities, e, employee.standardDailyCapacity, employee.team.value,
                               newCap, start, end);
      if clash {
        return Err(CapacityClash);
      }
      requests := requests + [CapacityChangeRequest(e, start, end, newCap, RequestPending)];
      r := Ok(());
    }

    /**
     * Set employee `e` to `h` hours on each day of [start, end]: one override
     * row per date, updated in place when it exists and added otherwise; then,
     * when the employee has a team, refresh that team's capacity on every date
     * of the range. Refused for a reversed range, negative hours or an unknown
     * employee, in that order. An employee without a team gets its overrides
     * and no refresh (the intended behaviour; `CapacityChangeAsWritten` is the
     * code's, which rolls back).
     */
    method ChangeEmployeeCapacityForRange(e: EmployeeId, start: Day, end: Day, h: real) returns (r: Result<()>)
      requires Valid()
      modifies this`capacities, this`schedule
      ensures Valid()
      ensures start > end ==> r == Err(InvalidRange)
      ensures start <= end && h < 0.0 ==> r == Err(NegativeCapacity)
      ensures start <= end && h >= 0.0 && e !in employees ==> r == Err(EmployeeNotFound)
      ensures r.Ok? <==> start <= end && h >= 0.0 && e in employees
      ensures r.Err? ==> capacities == old(capacities) && schedule == old(schedule)
      ensures r.Ok? ==> capacities == UpsertRange(old(capacities), e, start, end, h)
      ensures r.Ok? && employees[e].team.Some? ==>
                schedule == WithCapacityRefreshed(old(schedule), capacities, employees, employees[e].team.value,
                                                  DateRange(start, end))
      ensures r.Ok? && employees[e].team.None? ==> schedule == old(schedule)
    {
      if start > end {
        return Err(InvalidRange);
      }
      if h < 0.0 {
        return Err(NegativeCapacity);
      }
      if e !in employees {
        return Err(EmployeeNotFound);
      }
      UpsertOverrides(e, start, end, h);
      var employee := employees[e];
      if employee.team.Some? {
        CapacityRefreshKeepsCover(schedule, allocations, capacities, employees, employee.team.value, DateRange(start, end));
        RefreshTeamCapacity(employee.team.value, start, end);
      }
      r := Ok(());
    }

    /** The per-date loop of a capacity change: one upsert per date of [start, end], in order. */
    method UpsertOverrides(e: EmployeeId, start: Day, end: Day, h: real)
      requires UniqueRows(capacities)
      modifies this`capacities
      ensures capacities == UpsertRange(old(capacities), e, start, end, h)
      ensures UniqueRows(capacities)
    {
      var current := start;
      while current <= end
        invariant start <= current && (current <= end + 1 || current == start)
        invariant UpsertRange(old(capacities), e, start, end, h) == UpsertRange(capacities, e, current, end, h)
        decreases end + 1 - current
      {
        capacities := Upsert(capacities, e, current, h);
        current := current + 1;
      }
      UpsertRangeKeepsUnique(old(capacities), e, start, end, h);
    }

    /** Refresh the team capacity of team `t` on every date of [start, end], in order. */
    method RefreshTeamCapacity(t: TeamId, start: Day, end: Day)
      requires t in teams
      modifies this`schedule
      ensures schedule == WithCapacityRefreshed(old(schedule), capacities, employees, t, DateRange(start, end))
    {
      ghost var sched0 := schedule;
      var current := start;
      assert WithCapacityRefreshed(sched0, capacities, employees, t, DateRange(start, current - 1)) == sched0;
      while current <= end
        invariant start <= current && (current <= end + 1 || current == start)
        invariant schedule == WithCapacityRefreshed(sched0, capacities, employees, t, DateRange(start, current - 1))
        decreases end + 1 - current
      {
        CapacityRangeStep(sched0, capacities, employees, t, start, current);
        UpdateAggregatedCapacity(t, current);
        current := current + 1;
      }
      if start > end {
        assert DateRange(start, end) == DateRange(start, current - 1);
      }
    }
  }
}
