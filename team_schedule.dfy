/**
 * The cached per-(team, date) schedule: its read helpers, free time, and the
 * two refresh operations that rebuild its fields from the underlying rows.
 */
module TeamSchedule {
  import opened Types
  import opened CapacityLedger

  /** The stored team capacity for (t, d), or 0 when no schedule row exists. */
  function TeamCapacityOn(sched: ScheduleTable, t: TeamId, d: Day): real
  {
    if (t, d) in sched then sched[(t, d)].teamCapacity else 0.0
  }

  /** The stored hours allocated for (t, d), or 0 when no schedule row exists. */
  function HoursAllocatedOn(sched: ScheduleTable, t: TeamId, d: Day): real
  {
    if (t, d) in sched then sched[(t, d)].hoursAllocated else 0.0
  }

  /** A team's free time on a day: capacity minus allocated hours, never below zero. */
  function FreeTimeOn(sched: ScheduleTable, t: TeamId, d: Day): (r: real)
    ensures r >= 0.0
  {
    Max(TeamCapacityOn(sched, t, d) - HoursAllocatedOn(sched, t, d), 0.0)
  }

  /**
   * A day without a schedule row reads as no capacity, nothing allocated and
   * no free time; otherwise the free time is what the stored capacity leaves
   * after the stored allocated hours, and it is zero exactly when the day is
   * fully (or over-) allocated.
   */
  lemma FreeTimeOnMeaning(sched: ScheduleTable, t: TeamId, d: Day)
    ensures (t, d) !in sched ==>
              TeamCapacityOn(sched, t, d) == 0.0 && HoursAllocatedOn(sched, t, d) == 0.0 && FreeTimeOn(sched, t, d) == 0.0
    ensures (t, d) in sched ==>
              TeamCapacityOn(sched, t, d) == sched[(t, d)].teamCapacity &&
              HoursAllocatedOn(sched, t, d) == sched[(t, d)].hoursAllocated
    ensures FreeTimeOn(sched, t, d) == 0.0 <==> TeamCapacityOn(sched, t, d) <= HoursAllocatedOn(sched, t, d)
    ensures FreeTimeOn(sched, t, d) >= TeamCapacityOn(sched, t, d) - HoursAllocatedOn(sched, t, d)
    ensures FreeTimeOn(sched, t, d) > 0.0 ==>
              HoursAllocatedOn(sched, t, d) + FreeTimeOn(sched, t, d) == TeamCapacityOn(sched, t, d)
  {
  }

  /** The sum of the allocation rows of team `t` dated `d`. */
  function AllocatedSum(allocs: seq<DailyAllocation>, t: TeamId, d: Day): real
  {
    if |allocs| == 0 then 0.0
    else
      var last := allocs[|allocs| - 1];
      AllocatedSum(allocs[..|allocs| - 1], t, d) +
      (if last.team == t && last.date == d then last.hours else 0.0)
  }

  lemma {:induction false} AllocatedSumAppend(a: seq<DailyAllocation>, b: seq<DailyAllocation>, t: TeamId, d: Day)
    ensures AllocatedSum(a + b, t, d) == AllocatedSum(a, t, d) + AllocatedSum(b, t, d)
    decreases |b|
  {
    if |b| > 0 {
      assert (a + b)[..|a + b| - 1] == a + b[..|b| - 1];
      AllocatedSumAppend(a, b[..|b| - 1], t, d);
    } else {
      assert a + b == a;
    }
  }

  lemma {:induction false} AllocatedSumAbsent(allocs: seq<DailyAllocation>, t: TeamId, d: Day)
    requires forall i :: 0 <= i < |allocs| ==> allocs[i].team != t || allocs[i].date != d
    ensures AllocatedSum(allocs, t, d) == 0.0
  {
    if |allocs| > 0 {
      AllocatedSumAbsent(allocs[..|allocs| - 1], t, d);
    }
  }

  /** The sum over rows that hold exactly one row for (t, d) is that row's hours. */
  lemma {:induction false} AllocatedSumSingle(allocs: seq<DailyAllocation>, k: nat, t: TeamId, d: Day)
    requires k < |allocs| && allocs[k].team == t && allocs[k].date == d
    requires forall i :: 0 <= i < |allocs| && i != k ==> allocs[i].team != t || allocs[i].date != d
    ensures AllocatedSum(allocs, t, d) == allocs[k].hours
  {
    var n := |allocs| - 1;
    if k == n {
      AllocatedSumAbsent(allocs[..n], t, d);
    } else {
      AllocatedSumSingle(allocs[..n], k, t, d);
    }
  }

  /**
   * The cache contract: every (team, date) reads as allocated exactly the sum
   * of that team's allocation rows on that date.
   */
  ghost predicate AllocationsCached(sched: ScheduleTable, allocs: seq<DailyAllocation>)
  {
    forall t, d :: HoursAllocatedOn(sched, t, d) == AllocatedSum(allocs, t, d)
  }

  /**
   * The weaker cache contract that survives deleting rows without a refresh:
   * no (team, date) reads as fewer allocated hours than its rows hold.
   */
  ghost predicate CacheCoversRows(sched: ScheduleTable, allocs: seq<DailyAllocation>)
  {
    forall t, d :: AllocatedSum(allocs, t, d) <= HoursAllocatedOn(sched, t, d)
  }

  /** Every allocation row holds a non-negative number of hours. */
  ghost predicate NonNegativeRows(allocs: seq<DailyAllocation>)
  {
    forall i :: 0 <= i < |allocs| ==> allocs[i].hours >= 0.0
  }

  /** The schedule after refreshing the team capacity of (t, d) for every d in `ds`. */
  function WithCapacityRefreshed(sched: ScheduleTable, caps: seq<CapacityRow>, employees: map<EmployeeId, Employee>,
                                 t: TeamId, ds: set<Day>): (r: ScheduleTable)
    ensures forall d :: d in ds ==>
              (t, d) in r && r[(t, d)] == ScheduleRow(TeamOverrideSum(caps, employees, t, d), HoursAllocatedOn(sched, t, d))
    ensures forall k :: k in sched && !(k.0 == t && k.1 in ds) ==> k in r && r[k] == sched[k]
    ensures forall k :: k in r ==> k in sched || (k.0 == t && k.1 in ds)
  {
    map k | k in sched.Keys + (set d | d in ds :: (t, d)) ::
      if k.0 == t && k.1 in ds
      then ScheduleRow(TeamOverrideSum(caps, employees, t, k.1), HoursAllocatedOn(sched, t, k.1))
      else sched[k]
  }

  /** The schedule after refreshing the allocated hours of (t, d) for every d in `ds`. */
  function WithAllocatedRefreshed(sched: ScheduleTable, allocs: seq<DailyAllocation>, t: TeamId, ds: set<Day>)
    : (r: ScheduleTable)
    ensures forall d :: d in ds ==>
              (t, d) in r && r[(t, d)] == ScheduleRow(TeamCapacityOn(sched, t, d), AllocatedSum(allocs, t, d))
    ensures forall k :: k in sched && !(k.0 == t && k.1 in ds) ==> k in r && r[k] == sched[k]
    ensures forall k :: k in r ==> k in sched || (k.0 == t && k.1 in ds)
  {
    map k | k in sched.Keys + (set d | d in ds :: (t, d)) ::
      if k.0 == t && k.1 in ds
      then ScheduleRow(TeamCapacityOn(sched, t, k.1), AllocatedSum(allocs, t, k.1))
      else sched[k]
  }

  /** Refreshing one more date is a single-row update of the schedule refreshed so far. */
  lemma CapacityRefreshStep(sched: ScheduleTable, caps: seq<CapacityRow>, employees: map<EmployeeId, Employee>,
                            t: TeamId, ds: set<Day>, d: Day)
    ensures var before := WithCapacityRefreshed(sched, caps, employees, t, ds);
            WithCapacityRefreshed(sched, caps, employees, t, ds + {d}) ==
            before[(t, d) := ScheduleRow(TeamOverrideSum(caps, employees, t, d), HoursAllocatedOn(before, t, d))]
  {
    var before := WithCapacityRefreshed(sched, caps, employees, t, ds);
    var after := WithCapacityRefreshed(sched, caps, employees, t, ds + {d});
    var row := ScheduleRow(TeamOverrideSum(caps, employees, t, d), HoursAllocatedOn(sched, t, d));
    assert HoursAllocatedOn(before, t, d) == HoursAllocatedOn(sched, t, d);
    var upd := before[(t, d) := row];
    assert after.Keys == upd.Keys by {
      forall k ensures k in after <==> k in upd {
        if k == (t, d) {
          assert k in after;
        }
      }
    }
    forall k | k in upd ensures after[k] == upd[k] {
    }
  }

  lemma AllocatedRefreshStep(sched: ScheduleTable, allocs: seq<DailyAllocation>, t: TeamId, ds: set<Day>, d: Day)
    ensures var before := WithAllocatedRefreshed(sched, allocs, t, ds);
            WithAllocatedRefreshed(sched, allocs, t, ds + {d}) ==
            before[(t, d) := ScheduleRow(TeamCapacityOn(before, t, d), AllocatedSum(allocs, t, d))]
  {
    var before := WithAllocatedRefreshed(sched, allocs, t, ds);
    var after := WithAllocatedRefreshed(sched, allocs, t, ds + {d});
    var row := ScheduleRow(TeamCapacityOn(sched, t, d), AllocatedSum(allocs, t, d));
    assert TeamCapacityOn(before, t, d) == TeamCapacityOn(sched, t, d);
    var upd := before[(t, d) := row];
    assert after.Keys == upd.Keys by {
      forall k ensures k in after <==> k in upd {
        if k == (t, d) {
          assert k in after;
        }
      }
    }
    forall k | k in upd ensures after[k] == upd[k] {
    }
  }

  /**
   * A team-capacity refresh never touches allocated hours, so it keeps the
   * cache contract, and capacity changes only on the refreshed dates.
   */
  lemma CapacityRefreshKeepsCache(sched: ScheduleTable, allocs: seq<DailyAllocation>, caps: seq<CapacityRow>,
                                  employees: map<EmployeeId, Employee>, t: TeamId, ds: set<Day>)
    requires AllocationsCached(sched, allocs)
    ensures AllocationsCached(WithCapacityRefreshed(sched, caps, employees, t, ds), allocs)
    ensures forall t', d' :: t' != t || d' !in ds ==>
              TeamCapacityOn(WithCapacityRefreshed(sched, caps, employees, t, ds), t', d') == TeamCapacityOn(sched, t', d')
  {
    var r := WithCapacityRefreshed(sched, caps, employees, t, ds);
    forall t', d' ensures HoursAllocatedOn(r, t', d') == AllocatedSum(allocs, t', d') {
      assert HoursAllocatedOn(r, t', d') == HoursAllocatedOn(sched, t', d');
    }
  }

  /** A team-capacity refresh never touches allocated hours, so rows stay covered. */
  lemma CapacityRefreshKeepsCover(sched: ScheduleTable, allocs: seq<DailyAllocation>, caps: seq<CapacityRow>,
                                  employees: map<EmployeeId, Employee>, t: TeamId, ds: set<Day>)
    requires CacheCoversRows(sched, allocs)
    ensures CacheCoversRows(WithCapacityRefreshed(sched, caps, employees, t, ds), allocs)
  {
    var r := WithCapacityRefreshed(sched, caps, employees, t, ds);
    forall t', d' ensures AllocatedSum(allocs, t', d') <= HoursAllocatedOn(r, t', d') {
      assert HoursAllocatedOn(r, t', d') == HoursAllocatedOn(sched, t', d');
    }
  }

  /** An allocated-hours refresh never touches team capacity. */
  lemma AllocatedRefreshKeepsCapacity(sched: ScheduleTable, allocs: seq<DailyAllocation>, t: TeamId, ds: set<Day>)
    ensures forall t', d' :: TeamCapacityOn(WithAllocatedRefreshed(sched, allocs, t, ds), t', d') == TeamCapacityOn(sched, t', d')
  {
    var r := WithAllocatedRefreshed(sched, allocs, t, ds);
    forall t', d' ensures TeamCapacityOn(r, t', d') == TeamCapacityOn(sched, t', d') {
      if t' == t && d' in ds {
        assert r[(t', d')].teamCapacity == TeamCapacityOn(sched, t', d');
      }
    }
  }
}
