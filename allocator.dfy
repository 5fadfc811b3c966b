/**
 * The mutating half of demand assignment: the replay of the simulation walk
 * that builds one allocation row per day with hours consumed, and what
 * committing those rows does to the cached team schedule.
 */
module DemandAllocator {
  import opened Types
  import opened TeamSchedule
  import opened AllocationSimulator

  /** The total hours of a list of allocation rows. */
  function SumHours(rows: seq<DailyAllocation>): real
  {
    if |rows| == 0 then 0.0 else SumHours(rows[..|rows| - 1]) + rows[|rows| - 1].hours
  }

  function DatesOf(rows: seq<DailyAllocation>): set<Day>
  {
    set r | r in rows :: r.date
  }

  /**
   * What the greedy walk takes on day `d`: the free time of the day, capped by
   * what is still to be allocated after the days before it.
   */
  function GreedyTake(sched: ScheduleTable, t: TeamId, hours: real, start: Day, d: Day): real
    requires start <= d
  {
    Min(Max(hours - CumulativeFree(sched, t, start, d - start), 0.0), FreeTimeOn(sched, t, d))
  }

  /** The rows the walk has built before reaching day `current`. */
  ghost predicate PlanPrefix(rows: seq<DailyAllocation>, sched: ScheduleTable, id: DemandId, t: TeamId,
                             hours: real, start: Day, current: Day)
    requires start <= current
  {
    && (forall i :: 0 <= i < |rows| ==> rows[i].demand == id && rows[i].team == t && start <= rows[i].date < current)
    && (forall i, j :: 0 <= i < j < |rows| ==> rows[i].date < rows[j].date)
    && (forall i :: 0 <= i < |rows| ==> 0.0 < rows[i].hours <= FreeTimeOn(sched, t, rows[i].date))
    && (forall i :: 0 <= i < |rows| ==> rows[i].hours == GreedyTake(sched, t, hours, start, rows[i].date))
    && (forall d :: start <= d < current && GreedyTake(sched, t, hours, start, d) > 0.0 ==>
          exists i :: 0 <= i < |rows| && rows[i].date == d)
  }

  /**
   * `rows` is the allocation of `hours` of demand `id` to team `t` from
   * `start`, ending on `end`: the rows the walk builds before the day after
   * `end` (one per day with a positive greedy take, in increasing date order,
   * each within that day's free time), the last one on `end`, summing to
   * `hours`.
   */
  ghost predicate IsGreedyPlan(rows: seq<DailyAllocation>, sched: ScheduleTable, id: DemandId, t: TeamId,
                               hours: real, start: Day, end: Day)
  {
    && start <= end
    && PlanPrefix(rows, sched, id, t, hours, start, end + 1)
    && |rows| > 0
    && rows[|rows| - 1].date == end
    && SumHours(rows) == hours
  }

  /** A day on which the walk takes nothing extends the prefix without a row. */
  lemma PlanPrefixSkip(rows: seq<DailyAllocation>, sched: ScheduleTable, id: DemandId, t: TeamId,
                       hours: real, start: Day, current: Day)
    requires start <= current
    requires PlanPrefix(rows, sched, id, t, hours, start, current)
    requires GreedyTake(sched, t, hours, start, current) <= 0.0
    ensures PlanPrefix(rows, sched, id, t, hours, start, current + 1)
  {
  }

  /** A day on which the walk takes a positive amount extends the prefix by that day's row. */
  lemma PlanPrefixAppend(rows: seq<DailyAllocation>, sched: ScheduleTable, id: DemandId, t: TeamId,
                         hours: real, start: Day, current: Day)
    requires start <= current
    requires PlanPrefix(rows, sched, id, t, hours, start, current)
    requires GreedyTake(sched, t, hours, start, current) > 0.0
    ensures var rows' := rows + [DailyAllocation(id, t, current, GreedyTake(sched, t, hours, start, current))];
            PlanPrefix(rows', sched, id, t, hours, start, current + 1)
  {
    var take := GreedyTake(sched, t, hours, start, current);
    var rows' := rows + [DailyAllocation(id, t, current, take)];
    assert rows'[..|rows|] == rows;
    forall d | start <= d < current + 1 && GreedyTake(sched, t, hours, start, d) > 0.0
      ensures exists i :: 0 <= i < |rows'| && rows'[i].date == d
    {
      if d == current {
        assert rows'[|rows|].date == d;
      } else {
        var i :| 0 <= i < |rows| && rows[i].date == d;
        assert rows'[i].date == d;
      }
    }
  }

  /**
   * The walk's arithmetic for one day: what it takes is the greedy take, and
   * what remains is the demand less the free time summed so far.
   */
  lemma WalkStep(sched: ScheduleTable, t: TeamId, hours: real, start: Day, current: Day, remaining: real, take: real)
    requires start <= current
    requires remaining > 0.0 && remaining == Max(hours - CumulativeFree(sched, t, start, current - start), 0.0)
    requires var available := TeamCapacityOn(sched, t, current) - HoursAllocatedOn(sched, t, current);
             take == if available > 0.0 then Min(remaining, available) else 0.0
    ensures take == GreedyTake(sched, t, hours, start, current)
    ensures remaining - take == Max(hours - CumulativeFree(sched, t, start, current + 1 - start), 0.0)
  {
    assert CumulativeFree(sched, t, start, current + 1 - start) ==
           CumulativeFree(sched, t, start, current - start) + FreeTimeOn(sched, t, current);
  }

  /**
   * What the replay needs from a successful simulation ending on `end`: the
   * free time summed up to `end` covers the hours, and no shorter walk does.
   */
  lemma ReplayBounds(sched: ScheduleTable, t: TeamId, hours: real, start: Day, end: Day, n: nat)
    requires hours > 0.0
    requires SimulatedEnd(sched, t, hours, start) == Some(end)
    ensures start <= end
    ensures CumulativeFree(sched, t, start, end + 1 - start) >= hours
    ensures n <= end - start ==> CumulativeFree(sched, t, start, n) < hours
  {
    SimulatedEndIsEarliestCover(sched, t, hours, start);
  }

  /** The rows the greedy walk has written before day `current`. */
  ghost function GreedyRows(sched: ScheduleTable, id: DemandId, t: TeamId, hours: real, start: Day, current: Day)
    : seq<DailyAllocation>
    requires start <= current
    decreases current - start
  {
    if current == start then []
    else
      var prev := GreedyRows(sched, id, t, hours, start, current - 1);
      var take := GreedyTake(sched, t, hours, start, current - 1);
      if take > 0.0 then prev + [DailyAllocation(id, t, current - 1, take)] else prev
  }

  /** The greedy rows up to `c + 1` are those up to `c`, plus day `c`'s row when it takes something. */
  lemma GreedyRowsNext(sched: ScheduleTable, id: DemandId, t: TeamId, hours: real, start: Day, c: Day)
    requires start <= c
    ensures var take := GreedyTake(sched, t, hours, start, c);
            GreedyRows(sched, id, t, hours, start, c + 1) ==
            if take > 0.0 then GreedyRows(sched, id, t, hours, start, c) + [DailyAllocation(id, t, c, take)]
            else GreedyRows(sched, id, t, hours, start, c)
  {
  }

  /** What the walk has consumed grows by the greedy take of each day. */
  lemma TakeStep(sched: ScheduleTable, t: TeamId, hours: real, start: Day, c: Day)
    requires hours > 0.0 && start <= c
    ensures hours - Max(hours - CumulativeFree(sched, t, start, c + 1 - start), 0.0) ==
            hours - Max(hours - CumulativeFree(sched, t, start, c - start), 0.0) + GreedyTake(sched, t, hours, start, c)
  {
    assert CumulativeFree(sched, t, start, c + 1 - start) ==
           CumulativeFree(sched, t, start, c - start) + FreeTimeOn(sched, t, c);
  }

  /** One more day of the walk extends a plan prefix of greedy rows by that day. */
  lemma GreedyRowsPrefixStep(sched: ScheduleTable, id: DemandId, t: TeamId, hours: real, start: Day, c: Day)
    requires start <= c
    requires PlanPrefix(GreedyRows(sched, id, t, hours, start, c), sched, id, t, hours, start, c)
    ensures PlanPrefix(GreedyRows(sched, id, t, hours, start, c + 1), sched, id, t, hours, start, c + 1)
  {
    var prev := GreedyRows(sched, id, t, hours, start, c);
    var take := GreedyTake(sched, t, hours, start, c);
    GreedyRowsNext(sched, id, t, hours, start, c);
    if take > 0.0 {
      assert GreedyRows(sched, id, t, hours, start, c + 1) == prev + [DailyAllocation(id, t, c, take)];
      PlanPrefixAppend(prev, sched, id, t, hours, start, c);
    } else {
      assert GreedyRows(sched, id, t, hours, start, c + 1) == prev;
      PlanPrefixSkip(prev, sched, id, t, hours, start, c);
    }
  }

  /** The greedy rows up to any day form a plan prefix. */
  lemma {:induction false} GreedyRowsPrefix(sched: ScheduleTable, id: DemandId, t: TeamId, hours: real,
                                            start: Day, current: Day)
    requires start <= current
    ensures PlanPrefix(GreedyRows(sched, id, t, hours, start, current), sched, id, t, hours, start, current)
    decreases current - start
  {
    if current > start {
      GreedyRowsPrefix(sched, id, t, hours, start, current - 1);
      GreedyRowsPrefixStep(sched, id, t, hours, start, current - 1);
    }
  }

  /** The greedy rows up to any day add up to what the walk has consumed by then. */
  lemma {:induction false} GreedyRowsSum(sched: ScheduleTable, id: DemandId, t: TeamId, hours: real,
                                         start: Day, current: Day)
    requires hours > 0.0 && start <= current
    ensures SumHours(GreedyRows(sched, id, t, hours, start, current)) ==
            hours - Max(hours - CumulativeFree(sched, t, start, current - start), 0.0)
    decreases current - start
  {
    if current > start {
      var c := current - 1;
      var prev := GreedyRows(sched, id, t, hours, start, c);
      var take := GreedyTake(sched, t, hours, start, c);
      if take > 0.0 {
        var rows := prev + [DailyAllocation(id, t, c, take)];
        assert rows[..|rows| - 1] == prev;
        assert GreedyRows(sched, id, t, hours, start, current) == rows;
      } else {
        assert GreedyRows(sched, id, t, hours, start, current) == prev;
      }
      GreedyRowsSum(sched, id, t, hours, start, c);
      TakeStep(sched, t, hours, start, c);
    }
  }

  /**
   * The greedy rows up to the day after the simulated end are a greedy plan
   * ending on that day.
   */
  lemma GreedyRowsArePlan(sched: ScheduleTable, id: DemandId, t: TeamId, hours: real, start: Day)
    requires hours > 0.0
    requires SimulatedEnd(sched, t, hours, start).Some?
    ensures var end := SimulatedEnd(sched, t, hours, start).value;
            start <= end &&
            IsGreedyPlan(GreedyRows(sched, id, t, hours, start, end + 1), sched, id, t, hours, start, end)
  {
    var end := SimulatedEnd(sched, t, hours, start).value;
    ReplayBounds(sched, t, hours, start, end, end - start);
    GreedyRowsPlanTo(sched, id, t, hours, start, end);
  }

  /** The greedy rows up to the day after the first covering day `end` are a greedy plan ending on `end`. */
  lemma GreedyRowsPlanTo(sched: ScheduleTable, id: DemandId, t: TeamId, hours: real, start: Day, end: Day)
    requires hours > 0.0 && start <= end
    requires CumulativeFree(sched, t, start, end - start) < hours
    requires CumulativeFree(sched, t, start, end + 1 - start) >= hours
    ensures IsGreedyPlan(GreedyRows(sched, id, t, hours, start, end + 1), sched, id, t, hours, start, end)
  {
    GreedyRowsFinal(sched, id, t, hours, start, end);
    GreedyRowsPrefix(sched, id, t, hours, start, end + 1);
  }

  /**
   * The greedy rows up to the first day `end` whose summed free time covers
   * the hours finish on that day and add up to the hours.
   */
  lemma GreedyRowsFinal(sched: ScheduleTable, id: DemandId, t: TeamId, hours: real, start: Day, end: Day)
    requires hours > 0.0 && start <= end
    requires CumulativeFree(sched, t, start, end - start) < hours
    requires CumulativeFree(sched, t, start, end + 1 - start) >= hours
    ensures var rows := GreedyRows(sched, id, t, hours, start, end + 1);
            |rows| > 0 && rows[|rows| - 1].date == end && SumHours(rows) == hours
  {
    LastDayTakes(sched, t, hours, start, end);
    var take := GreedyTake(sched, t, hours, start, end);
    var rows := GreedyRows(sched, id, t, hours, start, end + 1);
    assert rows == GreedyRows(sched, id, t, hours, start, end) + [DailyAllocation(id, t, end, take)];
    GreedyRowsSum(sched, id, t, hours, start, end + 1);
  }

  /** The walk takes a positive amount on the first covering day itself. */
  lemma LastDayTakes(sched: ScheduleTable, t: TeamId, hours: real, start: Day, end: Day)
    requires start <= end
    requires CumulativeFree(sched, t, start, end - start) < hours
    requires CumulativeFree(sched, t, start, end + 1 - start) >= hours
    ensures GreedyTake(sched, t, hours, start, end) > 0.0
  {
    assert CumulativeFree(sched, t, start, end + 1 - start) ==
           CumulativeFree(sched, t, start, end - start) + FreeTimeOn(sched, t, end);
  }

  /**
   * One day of the replay, once the free time summed up to `end` is known to
   * cover the hours: a day with hours still to allocate is no later than
   * `end`, and the replay's rows and remaining hours follow the greedy walk.
   */
  lemma ReplayStep(sched: ScheduleTable, id: DemandId, t: TeamId, hours: real, start: Day, end: Day,
                   current: Day, remaining: real, take: real)
    requires start <= current <= end + 1
    requires CumulativeFree(sched, t, start, end + 1 - start) >= hours
    requires remaining > 0.0 && remaining == Max(hours - CumulativeFree(sched, t, start, current - start), 0.0)
    requires var available := TeamCapacityOn(sched, t, current) - HoursAllocatedOn(sched, t, current);
             take == if available > 0.0 then Min(remaining, available) else 0.0
    ensures current <= end
    ensures take > 0.0 ==>
              GreedyRows(sched, id, t, hours, start, current + 1) ==
              GreedyRows(sched, id, t, hours, start, current) + [DailyAllocation(id, t, current, take)]
    ensures !(take > 0.0) ==>
              take == 0.0 && GreedyRows(sched, id, t, hours, start, current + 1) == GreedyRows(sched, id, t, hours, start, current)
    ensures remaining - take == Max(hours - CumulativeFree(sched, t, start, current + 1 - start), 0.0)
  {
    WalkStep(sched, t, hours, start, current, remaining, take);
  }

  /**
   * The second walk of an assignment: it re-reads the same schedule the
   * simulation succeeded on, so it terminates without a day cap, and it ends
   * exactly on the simulated end date.
   */
  method ReplayAllocation(sched: ScheduleTable, id: DemandId, t: TeamId, hours: real, start: Day)
    returns (rows: seq<DailyAllocation>)
    requires hours > 0.0
    requires SimulatedEnd(sched, t, hours, start).Some?
    ensures rows == GreedyRows(sched, id, t, hours, start, SimulatedEnd(sched, t, hours, start).value + 1)
  {
    ghost var end := SimulatedEnd(sched, t, hours, start).value;
    ReplayBounds(sched, t, hours, start, end, end - start);
    var remaining := hours;
    var current := start;
    rows := [];
    while remaining > 0.0
      invariant start <= current <= end + 1
      invariant CumulativeFree(sched, t, start, end + 1 - start) >= hours
      invariant CumulativeFree(sched, t, start, end - start) < hours
      invariant remaining == Max(hours - CumulativeFree(sched, t, start, current - start), 0.0)
      invariant rows == GreedyRows(sched, id, t, hours, start, current)
      decreases end + 1 - current
    {
      var capacity := TeamCapacityOn(sched, t, current);
      var alreadyAllocated := HoursAllocatedOn(sched, t, current);
      var available := capacity - alreadyAllocated;
      var take := 0.0;
      if available > 0.0 {
        take := Min(remaining, available);
      }
      ReplayStep(sched, id, t, hours, start, end, current, remaining, take);
      if take > 0.0 {
        rows := rows + [DailyAllocation(id, t, current, take)];
        remaining := remaining - take;
      }
      current := current + 1;
    }
    ReplayEnds(sched, t, hours, start, end, current);
  }

  /** The replay stops with nothing left to allocate exactly on the day after the first covering day. */
  lemma ReplayEnds(sched: ScheduleTable, t: TeamId, hours: real, start: Day, end: Day, current: Day)
    requires start <= end && start <= current <= end + 1
    requires CumulativeFree(sched, t, start, end - start) < hours
    requires Max(hours - CumulativeFree(sched, t, start, current - start), 0.0) <= 0.0
    ensures current == end + 1
  {
    if current <= end {
      CumulativeFreeMonotone(sched, t, start, current - start, end - start);
    }
  }

  lemma PlanDatesFree(rows: seq<DailyAllocation>, sched: ScheduleTable, id: DemandId, t: TeamId,
                      hours: real, start: Day, end: Day, k: nat)
    requires IsGreedyPlan(rows, sched, id, t, hours, start, end)
    requires k < |rows|
    ensures forall i :: 0 <= i < |rows| && i != k ==> rows[i].team != t || rows[i].date != rows[k].date
  {
    forall i | 0 <= i < |rows| && i != k
      ensures rows[i].date != rows[k].date
    {
      if i < k {
        assert rows[i].date < rows[k].date;
      } else {
        assert rows[k].date < rows[i].date;
      }
    }
  }

  /**
   * Committing rows of team `t` and refreshing the allocated hours of every
   * date they touch keeps the schedule a faithful cache of the allocation rows.
   */
  lemma CommitKeepsScheduleConsistent(sched: ScheduleTable, allocs: seq<DailyAllocation>, rows: seq<DailyAllocation>,
                                      t: TeamId)
    requires AllocationsCached(sched, allocs)
    requires forall i :: 0 <= i < |rows| ==> rows[i].team == t
    ensures AllocationsCached(WithAllocatedRefreshed(sched, allocs + rows, t, DatesOf(rows)), allocs + rows)
  {
    var s' := WithAllocatedRefreshed(sched, allocs + rows, t, DatesOf(rows));
    forall t', d' ensures HoursAllocatedOn(s', t', d') == AllocatedSum(allocs + rows, t', d')
    {
      AllocatedSumAppend(allocs, rows, t', d');
      if !(t' == t && d' in DatesOf(rows)) {
        assert HoursAllocatedOn(s', t', d') == HoursAllocatedOn(sched, t', d');
        assert forall i :: 0 <= i < |rows| ==> rows[i].team != t' || rows[i].date != d' by {
          forall i | 0 <= i < |rows| ensures rows[i].team != t' || rows[i].date != d' {
            assert rows[i] in rows;
          }
        }
        AllocatedSumAbsent(rows, t', d');
      }
    }
  }

  /**
   * Committing rows of team `t` and refreshing the dates they touch keeps a
   * cache that never understates the rows from understating them.
   */
  lemma CommitKeepsCover(sched: ScheduleTable, allocs: seq<DailyAllocation>, rows: seq<DailyAllocation>, t: TeamId)
    requires CacheCoversRows(sched, allocs)
    requires forall i :: 0 <= i < |rows| ==> rows[i].team == t
    ensures CacheCoversRows(WithAllocatedRefreshed(sched, allocs + rows, t, DatesOf(rows)), allocs + rows)
  {
    var s' := WithAllocatedRefreshed(sched, allocs + rows, t, DatesOf(rows));
    forall t', d' ensures AllocatedSum(allocs + rows, t', d') <= HoursAllocatedOn(s', t', d')
    {
      AllocatedSumAppend(allocs, rows, t', d');
      if !(t' == t && d' in DatesOf(rows)) {
        assert HoursAllocatedOn(s', t', d') == HoursAllocatedOn(sched, t', d');
        assert forall i :: 0 <= i < |rows| ==> rows[i].team != t' || rows[i].date != d' by {
          forall i | 0 <= i < |rows| ensures rows[i].team != t' || rows[i].date != d' {
            assert rows[i] in rows;
          }
        }
        AllocatedSumAbsent(rows, t', d');
      }
    }
  }

  /**
   * Once a greedy plan is committed over a cache that never understates the
   * rows (a faithful one, or one left stale by deleting a demand's rows) and
   * its dates are refreshed, no date of the plan has more hours allocated
   * than the team's capacity.
   */
  lemma CommitWithinCapacity(sched: ScheduleTable, allocs: seq<DailyAllocation>, rows: seq<DailyAllocation>,
                             id: DemandId, t: TeamId, hours: real, start: Day, end: Day, i: nat)
    requires CacheCoversRows(sched, allocs)
    requires IsGreedyPlan(rows, sched, id, t, hours, start, end)
    requires i < |rows|
    ensures var s' := WithAllocatedRefreshed(sched, allocs + rows, t, DatesOf(rows));
            HoursAllocatedOn(s', t, rows[i].date) <= TeamCapacityOn(s', t, rows[i].date)
  {
    var s' := WithAllocatedRefreshed(sched, allocs + rows, t, DatesOf(rows));
    var d := rows[i].date;
    assert rows[i] in rows;
    PlanDatesFree(rows, sched, id, t, hours, start, end, i);
    AllocatedSumSingle(rows, i, t, d);
    AllocatedSumAppend(allocs, rows, t, d);
    assert HoursAllocatedOn(s', t, d) <= HoursAllocatedOn(sched, t, d) + rows[i].hours;
  }

  /** At most one allocation row per (demand, date), as the table's unique constraint demands. */
  ghost predicate UniqueAllocations(allocs: seq<DailyAllocation>)
  {
    forall i, j :: 0 <= i < j < |allocs| ==> allocs[i].demand != allocs[j].demand || allocs[i].date != allocs[j].date
  }

  /** Some row of `allocs` already holds (demand `id`, date `d`). */
  predicate HasAllocationOn(allocs: seq<DailyAllocation>, id: DemandId, d: Day)
  {
    exists i :: 0 <= i < |allocs| && allocs[i].demand == id && allocs[i].date == d
  }

  /** Inserting `rows` after `allocs` would break the (demand, date) constraint. */
  predicate Conflicts(allocs: seq<DailyAllocation>, rows: seq<DailyAllocation>)
  {
    exists j :: 0 <= j < |rows| && HasAllocationOn(allocs, rows[j].demand, rows[j].date)
  }

  /**
   * Storing the replayed rows of a simulation that succeeded, when none of
   * them clashes with a stored row, keeps the (demand, date) keys unique and
   * keeps a faithful schedule cache faithful once their dates are refreshed.
   */
  lemma GreedyCommitSound(sched: ScheduleTable, allocs: seq<DailyAllocation>, id: DemandId, t: TeamId,
                          hours: real, start: Day)
    requires hours > 0.0 && SimulatedEnd(sched, t, hours, start).Some?
    requires UniqueAllocations(allocs)
    requires !Conflicts(allocs, GreedyRows(sched, id, t, hours, start, SimulatedEnd(sched, t, hours, start).value + 1))
    ensures var rows := GreedyRows(sched, id, t, hours, start, SimulatedEnd(sched, t, hours, start).value + 1);
            && UniqueAllocations(allocs + rows)
            && (AllocationsCached(sched, allocs) ==>
                  AllocationsCached(WithAllocatedRefreshed(sched, allocs + rows, t, DatesOf(rows)), allocs + rows))
  {
    var end := SimulatedEnd(sched, t, hours, start).value;
    var rows := GreedyRows(sched, id, t, hours, start, end + 1);
    ReplayBounds(sched, t, hours, start, end, end - start);
    GreedyRowsPlanTo(sched, id, t, hours, start, end);
    AppendPlanKeepsUnique(allocs, rows, sched, id, t, hours, start, end);
    if AllocationsCached(sched, allocs) {
      CommitKeepsScheduleConsistent(sched, allocs, rows, t);
    }
  }

  /**
   * Storing a greedy plan adds no negative row and, over a cache that never
   * understates the rows, keeps it so once the plan's dates are refreshed and
   * leaves no date of the plan allocated beyond the team's capacity.
   */
  lemma PlanCommitCovered(sched: ScheduleTable, allocs: seq<DailyAllocation>, rows: seq<DailyAllocation>,
                          id: DemandId, t: TeamId, hours: real, start: Day, end: Day)
    requires IsGreedyPlan(rows, sched, id, t, hours, start, end)
    requires CacheCoversRows(sched, allocs) && NonNegativeRows(allocs)
    ensures NonNegativeRows(allocs + rows)
    ensures CacheCoversRows(WithAllocatedRefreshed(sched, allocs + rows, t, DatesOf(rows)), allocs + rows)
    ensures forall i :: 0 <= i < |rows| ==>
              var s' := WithAllocatedRefreshed(sched, allocs + rows, t, DatesOf(rows));
              HoursAllocatedOn(s', t, rows[i].date) <= TeamCapacityOn(s', t, rows[i].date)
  {
    assert forall i :: 0 <= i < |rows| ==> (allocs + rows)[|allocs| + i] == rows[i];
    CommitKeepsCover(sched, allocs, rows, t);
    forall i | 0 <= i < |rows|
      ensures var s' := WithAllocatedRefreshed(sched, allocs + rows, t, DatesOf(rows));
              HoursAllocatedOn(s', t, rows[i].date) <= TeamCapacityOn(s', t, rows[i].date)
    {
      CommitWithinCapacity(sched, allocs, rows, id, t, hours, start, end, i);
    }
  }

  /** The rows the simulation replays into are a greedy plan ending on the simulated end date. */
  lemma ReplayIsGreedyPlan(sched: ScheduleTable, id: DemandId, t: TeamId, hours: real, start: Day, end: Day)
    requires hours > 0.0 && SimulatedEnd(sched, t, hours, start) == Some(end)
    ensures IsGreedyPlan(GreedyRows(sched, id, t, hours, start, end + 1), sched, id, t, hours, start, end)
  {
    ReplayBounds(sched, t, hours, start, end, end - start);
    GreedyRowsPlanTo(sched, id, t, hours, start, end);
  }

  /** A greedy plan that conflicts with no stored row keeps the (demand, date) keys unique. */
  lemma AppendPlanKeepsUnique(allocs: seq<DailyAllocation>, rows: seq<DailyAllocation>, sched: ScheduleTable,
                              id: DemandId, t: TeamId, hours: real, start: Day, end: Day)
    requires UniqueAllocations(allocs)
    requires IsGreedyPlan(rows, sched, id, t, hours, start, end)
    requires !Conflicts(allocs, rows)
    ensures UniqueAllocations(allocs + rows)
  {
    var all := allocs + rows;
    forall i, j | 0 <= i < j < |all|
      ensures all[i].demand != all[j].demand || all[i].date != all[j].date
    {
      if j >= |allocs| {
        var jr := j - |allocs|;
        assert all[j] == rows[jr];
        if i < |allocs| {
          assert !HasAllocationOn(allocs, rows[jr].demand, rows[jr].date);
        } else {
          assert rows[i - |allocs|].date < rows[jr].date;
        }
      }
    }
  }

  /** The rows of `allocs` that do not belong to demand `id`, in their order. */
  function WithoutDemand(allocs: seq<DailyAllocation>, id: DemandId): (r: seq<DailyAllocation>)
    ensures |r| <= |allocs|
    ensures forall x :: x in r <==> x in allocs && x.demand != id
  {
    if |allocs| == 0 then []
    else
      var last := allocs[|allocs| - 1];
      var prefix := WithoutDemand(allocs[..|allocs| - 1], id);
      assert forall x :: x in allocs <==> x in allocs[..|allocs| - 1] || x == last;
      if last.demand != id then prefix + [last] else prefix
  }

  /** The rows of `allocs` that belong to demand `id`, in their order. */
  function OnlyDemand(allocs: seq<DailyAllocation>, id: DemandId): seq<DailyAllocation>
  {
    if |allocs| == 0 then []
    else
      var last := allocs[|allocs| - 1];
      var prefix := OnlyDemand(allocs[..|allocs| - 1], id);
      if last.demand == id then prefix + [last] else prefix
  }

  /** Every (team, date) sum splits into the rows of demand `id` and the rest. */
  lemma {:induction false} AllocatedSumSplit(allocs: seq<DailyAllocation>, id: DemandId, t: TeamId, d: Day)
    ensures AllocatedSum(allocs, t, d) ==
            AllocatedSum(WithoutDemand(allocs, id), t, d) + AllocatedSum(OnlyDemand(allocs, id), t, d)
  {
    if |allocs| > 0 {
      var n := |allocs| - 1;
      var last := allocs[n];
      AllocatedSumSplit(allocs[..n], id, t, d);
      AllocatedSumAppend(WithoutDemand(allocs[..n], id), [last], t, d);
      AllocatedSumAppend(OnlyDemand(allocs[..n], id), [last], t, d);
      assert AllocatedSum([last], t, d) == (if last.team == t && last.date == d then last.hours else 0.0) by {
        assert [last][..0] == [];
      }
    }
  }

  /**
   * Deleting a demand's rows without refreshing the schedule leaves every
   * (team, date) overstated by exactly that demand's hours there: a schedule
   * that cached the table before the delete reads as the remaining rows plus
   * the deleted ones.
   */
  lemma ClearLeavesScheduleStale(sched: ScheduleTable, allocs: seq<DailyAllocation>, id: DemandId)
    requires AllocationsCached(sched, allocs)
    ensures forall t, d :: HoursAllocatedOn(sched, t, d) ==
              AllocatedSum(WithoutDemand(allocs, id), t, d) + AllocatedSum(OnlyDemand(allocs, id), t, d)
  {
    forall t, d ensures HoursAllocatedOn(sched, t, d) ==
              AllocatedSum(WithoutDemand(allocs, id), t, d) + AllocatedSum(OnlyDemand(allocs, id), t, d)
    {
      AllocatedSumSplit(allocs, id, t, d);
    }
  }

  /** With no negative row, deleting a demand's rows never raises a (team, date) sum. */
  lemma {:induction false} WithoutDemandSumBelow(allocs: seq<DailyAllocation>, id: DemandId, t: TeamId, d: Day)
    requires NonNegativeRows(allocs)
    ensures AllocatedSum(WithoutDemand(allocs, id), t, d) <= AllocatedSum(allocs, t, d)
  {
    if |allocs| > 0 {
      var n := |allocs| - 1;
      var last := allocs[n];
      assert NonNegativeRows(allocs[..n]);
      WithoutDemandSumBelow(allocs[..n], id, t, d);
      if last.demand != id {
        AllocatedSumAppend(WithoutDemand(allocs[..n], id), [last], t, d);
        assert AllocatedSum([last], t, d) == (if last.team == t && last.date == d then last.hours else 0.0) by {
          assert [last][..0] == [];
        }
      }
    }
  }

  /**
   * Deleting a demand's rows without refreshing the schedule keeps a cache
   * that never understated the rows from understating the rows that remain.
   */
  lemma ClearKeepsCover(sched: ScheduleTable, allocs: seq<DailyAllocation>, id: DemandId)
    requires CacheCoversRows(sched, allocs) && NonNegativeRows(allocs)
    ensures CacheCoversRows(sched, WithoutDemand(allocs, id))
    ensures NonNegativeRows(WithoutDemand(allocs, id))
  {
    var r := WithoutDemand(allocs, id);
    forall t, d ensures AllocatedSum(r, t, d) <= HoursAllocatedOn(sched, t, d) {
      WithoutDemandSumBelow(allocs, id, t, d);
    }
    forall i | 0 <= i < |r| ensures r[i].hours >= 0.0 {
      assert r[i] in allocs;
    }
  }

  /** Deleting a demand's rows keeps the (demand, date) keys unique. */
  lemma {:induction false} WithoutDemandKeepsUnique(allocs: seq<DailyAllocation>, id: DemandId)
    requires UniqueAllocations(allocs)
    ensures UniqueAllocations(WithoutDemand(allocs, id))
  {
    if |allocs| > 0 {
      var n := |allocs| - 1;
      var last := allocs[n];
      var prefix := WithoutDemand(allocs[..n], id);
      WithoutDemandKeepsUnique(allocs[..n], id);
      if last.demand != id {
        var r := prefix + [last];
        forall i, j | 0 <= i < j < |r|
          ensures r[i].demand != r[j].demand || r[i].date != r[j].date
        {
          if j == |prefix| {
            assert r[i] in allocs[..n];
            var k :| 0 <= k < n && allocs[..n][k] == r[i];
            assert allocs[k] == r[i];
          } else {
            assert r[i] == prefix[i] && r[j] == prefix[j];
          }
        }
      }
    }
  }

  /** Rows with strictly increasing dates inside [lo, hi] number at most hi - lo + 1. */
  lemma {:induction false} IncreasingDatesBound(rows: seq<DailyAllocation>, lo: Day, hi: Day)
    requires forall i :: 0 <= i < |rows| ==> lo <= rows[i].date <= hi
    requires forall i, j :: 0 <= i < j < |rows| ==> rows[i].date < rows[j].date
    ensures |rows| == 0 || |rows| <= hi - lo + 1
  {
    if |rows| > 0 {
      IncreasingDatesBound(rows[1..], rows[0].date + 1, hi);
    }
  }

  /**
   * A team of two members with 16 free hours on every day: a 40-hour demand
   * starting on day `start` takes 16, 16 and 8 hours and ends on `start + 2`.
   */
  lemma SixteenHourTeamScenario(sched: ScheduleTable, rows: seq<DailyAllocation>, id: DemandId, t: TeamId, start: Day)
    requires forall d :: start <= d < start + 3 ==> FreeTimeOn(sched, t, d) == 16.0
    requires IsGreedyPlan(rows, sched, id, t, 40.0, start, start + 2)
    ensures SimulatedEnd(sched, t, 40.0, start) == Some(start + 2)
    ensures |rows| == 3
    ensures rows[0] == DailyAllocation(id, t, start, 16.0)
    ensures rows[1] == DailyAllocation(id, t, start + 1, 16.0)
    ensures rows[2] == DailyAllocation(id, t, start + 2, 8.0)
  {
    ConstantFreeSum(sched, t, start, 16.0, 1);
    ConstantFreeSum(sched, t, start, 16.0, 2);
    ConstantFreeSum(sched, t, start, 16.0, 3);
    SimulatedEndIsEarliestCover(sched, t, 40.0, start);
    assert IsEarliestCover(sched, t, 40.0, start, start + 2);
    assert GreedyTake(sched, t, 40.0, start, start) == 16.0;
    assert GreedyTake(sched, t, 40.0, start, start + 1) == 16.0;
    assert GreedyTake(sched, t, 40.0, start, start + 2) == 8.0;
    var i0 :| 0 <= i0 < |rows| && rows[i0].date == start;
    var i1 :| 0 <= i1 < |rows| && rows[i1].date == start + 1;
    var i2 :| 0 <= i2 < |rows| && rows[i2].date == start + 2;
    assert i0 < i1 < i2;
    IncreasingDatesBound(rows, start, start + 2);
  }
}
