# Capacity planning engine: a verified Dafny model

This project models the engine of a team capacity-planning application.
Employees belong to teams of at most six people. Each employee works a
standard number of hours a day, and per-day capacity override rows can
change that figure for single dates. Each team keeps a cached per-day
schedule row holding its capacity and the hours already committed.

Demands (pieces of work with a predicted number of hours) are assigned to a
team as follows:

- A read-only simulation walks forward from a start date, taking
  `min(remaining, free)` hours each day for at most 365 days. Its result is
  the estimated end date.
- The same walk is then replayed into one allocation row per day that
  consumes hours.
- Committing the rows refreshes the team's cached allocated hours.

The model also covers:

- the demand status changes, which update a team's completion-timeliness
  counters;
- the validation of capacity change requests (range, span, lead time,
  membership, and a per-day clash check against committed hours);
- applying a capacity change as one override row per date, followed by a
  refresh of the team's capacity;
- the deadline query that lists the teams able to finish a demand by a given
  date.

How the model represents things:

- Dates are day numbers (`Day = int`), and hours are exact `real`s.
- The current date is a parameter named `today`.
- The persisted tables are the fields of one class, `Persistence.Store`:
  - employees, teams and demands are maps;
  - the override rows, the allocation rows and the capacity change requests
    are sequences;
  - the cached schedule is a map from (team, day) to a row.
- Each uniqueness constraint of the database (one override per
  (employee, date), one allocation per (demand, date)) is part of the class
  invariant `Valid`. So are two facts about the stored hours: no allocation
  row is negative, and the cached allocated hours of a (team, date) never
  fall below the sum of its allocation rows. Deleting a demand's rows leaves
  the cache stale, but only upward, and that is what keeps every committed
  plan within capacity.
- A failing operation returns `Err(..)` and leaves every table as it was.
  This is the all-or-nothing outcome of a database transaction.

Module layout:

| file | module | what it holds |
|---|---|---|
| `types.dfy` | `Types` | days, ids, `Option`, `Result`, the error kinds and the entity datatypes |
| `capacity_ledger.dfy` | `CapacityLedger` | override rows: lookup, effective capacity, upsert, range upsert, team override sum |
| `team_schedule.dfy` | `TeamSchedule` | the schedule read helpers, free time, allocation sums and the two refresh operations |
| `simulator.dfy` | `AllocationSimulator` | the simulation walk and its specification (earliest covering day) |
| `allocator.dfy` | `DemandAllocator` | the replay of the walk into allocation rows, and what committing them does |
| `membership.dfy` | `Membership` | team members and the six-member cap |
| `demand_status.dfy` | `DemandStatus` | status names, status transitions and completion counters |
| `capacity_change.dfy` | `CapacityChange` | the per-day clash check of a capacity change request |
| `deadline.dfy` | `Deadline` | the per-team deadline acceptance rule and the query over all teams |
| `store.dfy` | `Persistence` | the `Store` class: the tables and every operation that changes them |

## Model

| member | source | states |
|---|---|---|
| CapacityLedger.FindRow | core/models.py:553-562 | the row found is the first row for (employee, date); when none is found, no row matches |
| CapacityLedger.EffectiveCapacity | core/models.py:567-572 | an employee's hours on a day are the override row's hours when one exists (in a table with one row per key), and the standard daily capacity otherwise |
| CapacityLedger.CountRowsOfUnique | core/models.py:559-561 | in a table with unique (employee, date) keys, every key has exactly one row when a lookup finds one, and none otherwise |
| CapacityLedger.Upsert | core/services.py:44-53 | writing hours for an (employee, date): an existing row is updated in place and the table keeps its length; otherwise exactly one row is added |
| CapacityLedger.UpsertRange | core/services.py:43-53 | one upsert per date of the range, in increasing date order (its effect is stated by the range lemmas below) |
| CapacityLedger.TeamOverrideSum | core/models.py:175-178 | the figure the capacity refresh stores, as written: the sum of the override rows dated d whose employee is currently a member of the team; members without an override row add nothing |
| CapacityLedger.TeamOverrideSumNoMemberRows | core/models.py:175-178 | a date on which no current member has an override row sums to 0, the aggregation's `or 0.0` default |
| CapacityLedger.UpsertLookup | core/services.py:44-53 | after one upsert the (employee, date) key reads the new hours and every other key reads as before |
| CapacityLedger.UpsertKeepsUnique | core/services.py:44-53 | an upsert never creates a second row for a key |
| CapacityLedger.UpsertSameValue | core/services.py:44-49 | upserting the hours a key already holds leaves the table identical |
| CapacityLedger.UpsertRangeLookup | core/services.py:43-62 | after a range upsert every date of the range reads the new hours for the employee; other employees and dates outside the range read as before |
| CapacityLedger.UpsertRangeKeepsUnique | core/services.py:43-62 | a range upsert keeps the one-row-per-(employee, date) constraint |
| CapacityLedger.OneRowPerDate | core/services.py:43-62 | after a range upsert, each date of the range has exactly one override row for the employee, and the effective capacity there is the new hours |
| CapacityLedger.UpsertRangeNoChange | core/services.py:43-53 | a range upsert whose dates already hold the new hours changes nothing |
| CapacityLedger.UpsertRangeIdempotent | core/services.py:21-62 | applying the same capacity change twice leaves the same override rows as applying it once |
| TeamSchedule.TeamCapacityOn | core/services.py:4-10 | the stored team capacity for (team, date), or 0 when no schedule row exists (its meaning is stated by `FreeTimeOnMeaning`) |
| TeamSchedule.HoursAllocatedOn | core/services.py:12-18 | the stored allocated hours for (team, date), or 0 when no schedule row exists (its meaning is stated by `FreeTimeOnMeaning`) |
| TeamSchedule.FreeTimeOn | core/models.py:189-198 | a team's free time on a day is never negative |
| TeamSchedule.FreeTimeOnMeaning | core/services.py:4-18 | a missing schedule row reads as zero capacity, zero allocated and zero free time; otherwise the read helpers return the stored fields; free time is zero exactly when the allocated hours reach the capacity, and is capacity minus allocated whenever positive |
| TeamSchedule.AllocatedSum | core/models.py:202-207 | the sum of the team's allocation rows dated d, which the summary refresh stores (its properties are the three lemmas below) |
| TeamSchedule.AllocatedSumAppend | core/models.py:201-206 | the allocated sum over two lists of rows is the sum of their sums |
| TeamSchedule.AllocatedSumAbsent | core/models.py:201-206 | with no row for (team, date) the allocated sum is zero, the default of the aggregation |
| TeamSchedule.AllocatedSumSingle | core/models.py:201-206 | with exactly one row for (team, date) the allocated sum is that row's hours |
| TeamSchedule.WithCapacityRefreshed | core/models.py:174-187 | refreshing a set of dates gives each (team, date) a row holding the team's override sum as its capacity and its previous allocated hours; every other row is unchanged and no other row is added |
| TeamSchedule.WithAllocatedRefreshed | core/models.py:201-213 | refreshing a set of dates gives each (team, date) a row holding the sum of the team's allocation rows as its allocated hours and its previous capacity; every other row is unchanged and no other row is added |
| TeamSchedule.CapacityRefreshStep | core/models.py:174-187 | refreshing one more date is a single-row update of the schedule refreshed so far |
| TeamSchedule.AllocatedRefreshStep | core/models.py:201-213 | refreshing one more date is a single-row update of the schedule refreshed so far |
| TeamSchedule.CapacityRefreshKeepsCache | core/models.py:174-187 | a capacity refresh keeps allocated hours equal to the sum of allocation rows everywhere, and changes capacity only on the refreshed dates of that team |
| TeamSchedule.CapacityRefreshKeepsCover | core/models.py:174-187 | a capacity refresh keeps a cache that never understates the allocation rows from understating them |
| TeamSchedule.AllocatedRefreshKeepsCapacity | core/models.py:201-213 | an allocated-hours refresh leaves the team capacity of every (team, date) unchanged |
| AllocationSimulator.CumulativeFree | core/models.py:376-389 | the free time summed over the first n days of the walk is never negative |
| AllocationSimulator.CumulativeFreeMonotone | core/models.py:376-389 | a longer walk never has less summed free time |
| AllocationSimulator.CumulativeFreeStrict | core/models.py:376-389 | a walk that crosses days with positive free time has strictly more summed free time |
| AllocationSimulator.FirstCover | core/models.py:373-376 | a covering day found from day d lies between d and the 365-day cap |
| AllocationSimulator.SimulatedEnd | core/models.py:366-392 | zero hours give the start date and negative hours the day before it; positive hours give no date or a date within the 365 days from the start |
| AllocationSimulator.FirstCoverCharacterised | core/models.py:376-392 | searching from day d, when no earlier day covers the hours, finds the earliest covering day, or finds none exactly when no walk within the cap covers them |
| AllocationSimulator.SimulatedEndIsEarliestCover | core/models.py:366-392 | for positive hours the end date exists if and only if some walk of at most 365 days covers the hours; it is then the earliest day whose summed free time from the start reaches the hours, and it is the only such day |
| AllocationSimulator.ConstantFreeSum | core/models.py:376-389 | with the same free time c every day, n days sum to n·c |
| AllocationSimulator.ConstantCapacityEndDate | core/models.py:366-392 | with constant free time c > 0, a demand of k·c hours (k ≤ 365) ends on day start + k − 1 |
| AllocationSimulator.SimulateDemandAllocation | core/models.py:366-392 | the walk (min(remaining, free) per day, at most 365 days) returns exactly the specified end date; it reads the schedule and changes nothing |
| DemandAllocator.GreedyTake | core/models.py:427-434 | what the walk takes on a day: that day's free time, capped by the hours not yet covered by the free time of the days before it (related to the walk by `WalkStep`) |
| DemandAllocator.GreedyRows | core/models.py:426-447 | the rows the replay has built before a day: one row per earlier day with a positive take, holding that take (its properties are `GreedyRowsPrefix`, `GreedyRowsSum` and `GreedyRowsArePlan`) |
| DemandAllocator.PlanPrefixSkip | core/models.py:433-447 | a day on which the walk takes nothing adds no row and keeps the rows a valid prefix of the plan |
| DemandAllocator.PlanPrefixAppend | core/models.py:436-447 | a day on which the walk takes a positive amount adds exactly that day's row and keeps the rows a valid prefix |
| DemandAllocator.WalkStep | core/models.py:427-447 | one day of the walk takes the greedy amount for that day, and what remains is the demand less the free time summed so far |
| DemandAllocator.ReplayBounds | core/models.py:414-420 | a successful simulation ending on `end` means the free time summed to `end` covers the hours and no shorter walk does |
| DemandAllocator.GreedyRowsPrefixStep | core/models.py:426-445 | one more day of the replay loop keeps the rows built so far a plan prefix: the day adds its row exactly when it takes hours |
| DemandAllocator.GreedyRowsPrefix | core/models.py:424-447 | the rows the replay has built before any day are in increasing date order, lie in the walked range, each hold the greedy take (positive and within the day's free time), and cover every day with a positive take |
| DemandAllocator.GreedyRowsSum | core/models.py:424-447 | the rows built before a day sum to the hours already allocated by then |
| DemandAllocator.GreedyRowsFinal | core/models.py:426-447 | the replay's last row is on the simulated end date, and the rows sum exactly to the predicted hours |
| DemandAllocator.LastDayTakes | core/models.py:426-447 | the walk takes a positive amount on the simulated end date |
| DemandAllocator.GreedyRowsPlanTo | core/models.py:424-447 | the replayed rows up to the end date form the complete plan |
| DemandAllocator.GreedyRowsArePlan | core/models.py:414-447 | after a successful simulation the replayed rows are the allocation: dates strictly increasing from the start, each row 0 < hours ≤ that day's free time, the last row on the simulated end date, summing exactly to the predicted hours |
| DemandAllocator.ReplayStep | core/models.py:426-447 | while hours remain, the replay has not passed the simulated end; each day adds a row exactly when it takes hours; what remains drops by that take |
| DemandAllocator.ReplayEnds | core/models.py:426-447 | the replay loop, which has no day cap, stops exactly on the day after the simulated end |
| DemandAllocator.ReplayAllocation | core/models.py:422-447 | the replay loop terminates and returns the rows of the walk up to the simulated end |
| DemandAllocator.PlanDatesFree | core/models.py:22-29 | each date appears in at most one row of a plan, so committing it writes one row per (demand, date) |
| DemandAllocator.CommitKeepsScheduleConsistent | core/models.py:457-460 | storing rows of one team and refreshing their dates keeps allocated hours equal to the sum of allocation rows for every (team, date) |
| DemandAllocator.CommitKeepsCover | core/models.py:457-460 | storing rows of one team and refreshing their dates keeps a cache that never understates the allocation rows from understating them |
| DemandAllocator.CommitWithinCapacity | core/models.py:426-460 | after committing a plan over a cache that never understates the allocation rows (a consistent one, or one left stale by a clear), no date it touches is allocated beyond the team's capacity |
| DemandAllocator.PlanCommitCovered | core/models.py:426-460 | committing a plan adds no negative row, keeps the cache from understating the rows, and leaves every date of the plan within the team's capacity |
| DemandAllocator.ReplayIsGreedyPlan | core/models.py:422-447 | the rows the replay builds for a simulation that ended on `end` are a greedy plan ending on `end` |
| DemandAllocator.AppendPlanKeepsUnique | core/models.py:22-29 | adding a plan that clashes with no stored (demand, date) keeps one allocation row per (demand, date) |
| DemandAllocator.GreedyCommitSound | core/models.py:449-460 | committing the replayed rows keeps the (demand, date) constraint and keeps the schedule's allocated hours consistent with the allocation rows |
| DemandAllocator.WithoutDemand | core/models.py:362-364 | clearing a demand's allocations removes exactly its rows and keeps every other row |
| DemandAllocator.AllocatedSumSplit | core/models.py:362-364 | the allocated sum splits into the cleared demand's rows and the rows that stay |
| DemandAllocator.ClearLeavesScheduleStale | core/models.py:362-364 | after the clear, the cached allocated hours still include the cleared demand's rows, because no refresh follows |
| DemandAllocator.WithoutDemandSumBelow | core/models.py:362-364 | with no negative row, clearing a demand never raises the allocated sum of any (team, date) |
| DemandAllocator.ClearKeepsCover | core/models.py:362-364 | clearing without a refresh keeps a cache that never understated the rows from understating the remaining rows, and the remaining rows stay non-negative |
| DemandAllocator.WithoutDemandKeepsUnique | core/models.py:362-364 | clearing keeps the (demand, date) constraint |
| DemandAllocator.IncreasingDatesBound | core/models.py:426-447 | rows with strictly increasing dates inside [lo, hi] number at most hi − lo + 1 |
| DemandAllocator.SixteenHourTeamScenario | core/models.py:366-447 | with 16 free hours a day, a 40-hour demand ends on the third day with rows of 16, 16 and 8 hours |
| Membership.WithTeam | core/models.py:156-170 | moving an employee changes only that employee's team |
| Membership.MembersAfterMove | core/models.py:156-170 | moving an employee adds it to its new team's member set and removes it from every other team |
| Membership.JoinKeepsCap | core/models.py:150-161 | joining a team with fewer than six members keeps every team within the cap; the joined team grows by one and no other team grows |
| Membership.LeaveKeepsCap | core/models.py:163-172 | leaving keeps every team within the cap; the team left shrinks by one |
| DemandStatus.ParseStatus | core/models.py:332-336 | a parsed status is the one with that stored name |
| DemandStatus.ParseStatusName | core/models.py:471-472 | every status name parses back to its status, and a name is refused exactly when it is none of the three |
| DemandStatus.ApplyStatus | core/models.py:477-503 | Finished clears the assignment flag and records today as the actual end; Pending → In Progress fills a missing start date with today and keeps an existing one; nothing else changes |
| DemandStatus.RecordCompletion | core/models.py:484-495 | the counter a completion increments: overdue when late, early when early, on time otherwise (stated by `RecordCompletionCountsOnce`) |
| DemandStatus.PersistedTeamAsWritten | core/models.py:484-503 | the stored team after a status change as the code is written: unchanged, because only the demand is saved (the as-written half of the Findings row) |
| DemandStatus.RecordCompletionCountsOnce | core/models.py:484-496 | a completion increments exactly one counter by one: overdue if late, early if early, on-time otherwise |
| DemandStatus.TeamAfterStatus | core/models.py:480-496 | the counters change only when a demand with an estimated end date is Finished |
| DemandStatus.FinishedAlwaysCounts | core/models.py:480-496 | finishing a demand with an estimated end date always adds one completion, which the stored team as written never receives |
| DemandStatus.OverdueCompletionIsLost | core/models.py:484-503 | a demand estimated for day 3 and finished on day 5 counts as overdue in the intended counters but not in the stored team |
| CapacityChange.ClashOn | core/models.py:93-99 | a day clashes when the team's stored capacity plus (new hours − the employee's effective hours) is below the team's allocated hours (used by `DetectClash` and `ClashMonotone`) |
| CapacityChange.DetectClash | core/models.py:89-105 | the per-day loop reports a clash if and only if some day of the range would leave the team's capacity, adjusted by the change in the employee's effective hours, below its allocated hours |
| CapacityChange.ClashMonotone | core/models.py:93-99 | a change that clashes at some capacity also clashes at any lower one |
| CapacityChange.ClashScenario | core/models.py:93-99 | a 16-hour team with 15 hours committed refuses a drop from 8 to 4 hours but accepts keeping 8, or 4 once the override is already 4 |
| Deadline.MeetsDeadline | core/services.py:103 | a team is accepted when its simulated end date exists and is no later than the desired date (related to free time by `MeetsDeadlineIffCovered`) |
| Deadline.TeamsMeeting | core/services.py:93-104 | the accepted teams are exactly the teams whose simulated end date exists and is no later than the desired date |
| Deadline.MeetsDeadlineIffCovered | core/services.py:96-104 | for hours ≥ 0 and a start no later than the desired date, a team is accepted if and only if its free time summed from the start to the desired date (or over the first 365 days, if fewer) covers the hours |
| Deadline.MeetsDeadlineLater | core/services.py:103-104 | a team accepted for a desired date is accepted for any later one |
| Deadline.TeamsMeetingDeadline | core/services.py:83-104 | negative hours are refused, then a start after the desired date; otherwise the result is exactly the accepted teams, in team order |
| Persistence.CapacityChangeAsWritten | core/services.py:21-71 | the capacity change as the code is written, with the `get_or_create` repair of core/models.py:180-186 applied (read literally, no change for an employee with a team succeeds either): it succeeds exactly when the range is ordered, the hours are non-negative, the employee exists and the employee has a team, and then every date of the range holds the new hours; without a team the closing note raises and everything rolls back |
| Persistence.NoTeamCapacityChangeIsLost | core/services.py:67-71 | an employee without a team, set to 4 hours on day 10: the code as written (with the `get_or_create` repair applied) keeps no override, the intended change stores one |
| Persistence.CapacityChangeAsWrittenDiffersOnlyWithoutTeam | core/services.py:20-71 | for a valid request the code as written, with the `get_or_create` repair of core/models.py:180-186 applied, and the intended change store the same overrides when the employee has a team; without a team only the intended change succeeds |
| Persistence.DateRange | core/services.py:38-53 | the dates visited are exactly those from start to end |
| Persistence.CapacityRangeStep | core/services.py:67-69 | refreshing dates start..hi is refreshing start..hi−1 and then the single date hi |
| Persistence.Store.constructor | core/models.py:10-29 | an empty store with the given employees, teams and demands satisfies the table constraints |
| Persistence.Store.AddMember | core/models.py:150-161 | an existing member is left as is; a team with six members refuses with no change; otherwise the employee joins and the team grows by one, keeping the cap |
| Persistence.Store.RemoveMember | core/models.py:163-172 | a non-member is left as is; otherwise the employee's team becomes none and the team shrinks by one |
| Persistence.Store.UpdateAggregatedCapacity | core/models.py:174-187 | the (team, date) row, created when absent, gets the sum of the members' override rows as capacity and keeps its allocated hours; no other row changes; the store invariant is kept |
| Persistence.Store.UpdateTeamDailyAllocationSummary | core/models.py:201-213 | the (team, date) row, created when absent, gets the sum of the team's allocation rows as allocated hours and keeps its capacity; no other row changes; the store invariant is kept |
| Persistence.Store.ClearPreviousAllocations | core/models.py:362-364 | exactly the demand's allocation rows are deleted; the table constraints hold, and the cached allocated hours still never understate the rows |
| Persistence.Store.SetAssignedTeam | core/models.py:396-460 | the checks run in order (already assigned, not Pending, hours ≤ 0, unknown team, no end date within 365 days, a clashing (demand, date) row), and each failure changes nothing; on success the demand records team, hours, start, the simulated end date and the assigned flag, the replayed rows are appended, each touched date's allocated hours become its row sum, capacities are untouched, a consistent cache stays consistent, and every date of the plan ends within the team's capacity |
| Persistence.Store.AssignWithinCapacity | core/models.py:422-460 | after the checks have passed, the replayed rows are committed unless one clashes with a stored (demand, date) row, in which case nothing changes; on success every date of the plan ends within the team's capacity |
| Persistence.Store.StoreAssignment | core/models.py:449-460 | a clash-free plan is stored: the demand's new fields, the rows appended, their dates refreshed, capacities untouched, the invariant kept, and every date of the plan within the team's capacity |
| Persistence.Store.CommitRows | core/models.py:457-460 | the rows are stored and every date they touch is refreshed, in order |
| Persistence.Store.UpdateDemandStatus | core/models.py:470-503 | an unknown status name and a demand without a team are refused with no change; otherwise the demand takes the new status as `ApplyStatus` describes, and the team's counters are stored as `TeamAfterStatus` describes |
| Persistence.Store.SendCapacityChangeRequest | core/models.py:71-116 | the checks run in order (start after end, more than 24 days, less than 7 days ahead, no team, a clash on some day), and each failure stores no request; otherwise exactly one Pending request with the given employee, dates and hours is stored |
| Persistence.Store.ChangeEmployeeCapacityForRange | core/services.py:21-71 | a reversed range, negative hours and an unknown employee are refused in that order with no change; otherwise (the corrected behaviour for an employee without a team, see Findings) each date of the range holds exactly one override with the new hours, other overrides are unchanged, and the employee's team (if any) has its capacity refreshed on exactly the dates of the range; with no team the schedule is unchanged |
| Persistence.Store.UpsertOverrides | core/services.py:43-62 | the per-date loop leaves the table as the range upsert does and keeps one row per (employee, date) |
| Persistence.Store.RefreshTeamCapacity | core/services.py:67-69 | refreshing each date of the range in turn gives the schedule with every date of the range refreshed |

## Left out

- `Manager.handle_capacity_request` and `handle_demand_edit_request` (core/models.py:234-329): approval wrappers. They call `change_employee_capacity_for_range` and `update_demand_status`, which are modelled, and then delete the request record.
- `Employee.send_demand_edit_request`, `Demand.identify_team_demands`, `Team.member_count`, the `Manager` team counters and the login-detail updates: these are queries or record keeping with no planning rule in them.
- Notifications and `print` logging: side effects with no effect on the tables. The one exception, the note at core/services.py:71 that raises, is a Findings row.
- The add-member view at core/views.py:456-463 sets `employee.team` directly, with its six-member check commented out. It bypasses `add_member`, so the cap holds in `Valid` only because every modelled operation keeps it; the database does not enforce it and the view is not part of this model.
- Transaction isolation and concurrent writers: only the all-or-nothing outcome of `transaction.atomic` is modelled.
- Floating-point rounding of `FloatField` hours: hours are exact reals.
- The clock: `timezone.localdate()` is the parameter `today`.
- `isinstance` type checks and the `TypeError`s they raise: Dafny's typing rules these inputs out.
- The 0–24 validators on override rows and request capacities (core/models.py:522-524, 556-558): Django runs them only in form and model validation, never on `save`, so none of the modelled operations enforces them.
- The demand name, `time_completed` and `allocation_mode` fields, and the request's primary key: no rule reads them.
- Persistence.Store.ClearPreviousAllocations: as in the code, the cached allocated hours are not refreshed, so the cache can go stale (`ClearLeavesScheduleStale`); the contract keeps only the weaker fact that the cache never understates the rows (`ClearKeepsCover`).
- TeamSchedule.FreeTimeOn: its own contract states only non-negativity; its meaning (capacity minus allocated, 0 without a row) is the separate lemma `FreeTimeOnMeaning`.

Where the code cannot run as written, the model follows the evident intent:

- `set_assigned_team` calls `self._simulate_demand_allocation` (core/models.py:414), but the method is `simulate_demand_allocation` (core/models.py:366). Both names are modelled as the one simulation.
- Both refresh operations misuse `get_or_create`. At core/models.py:180-186 the returned tuple is not unpacked, and at core/models.py:209 the arguments are positional. The model creates the (team, date) row with zero capacity and zero allocated hours when it is absent, then sets the one field.
- `update_aggregated_capacity` sums only the override rows of the team's current members (core/models.py:175-178). It does not use their effective capacity, so a member without an override row adds nothing. This is modelled as written (`TeamOverrideSum`).
- `update_demand_status` and `handle_demand_edit_request` are indented at module level but take `self`. They are modelled as operations on a stored demand.
- `change_employee_capacity_for_range` runs its bulk create and bulk update inside the date loop (core/services.py:55-62). This writes the same final rows as one write after the loop, so the model performs one upsert per date.
- `get_teams_meeting_deadline` cannot return a list as written, for four reasons. It first creates a demand with the nonexistent field `hours_needed` (core/services.py:77-81). It then calls `append(team, 0)` (core/services.py:104). It replaces the list with `None` when a team is late (core/services.py:105-106). Finally, for a team whose simulation finds no end date, `simulated_end_date > desired_end_date` (core/services.py:105) compares `None` with a date and raises. The model keeps the validation order of core/services.py:87-91 and the per-team acceptance rule of core/services.py:103, and collects the accepted teams in order. It creates no dummy demand.
- With negative hours the simulation loop never runs, so the simulation returns the day before the start (core/models.py:376-392). `SimulatedEnd` keeps this. `set_assigned_team` never reaches it, because it refuses hours ≤ 0 first.
- `set_assigned_team` does not delete the demand's earlier allocation rows. If the new rows collide with stored ones on (demand, date), the database's unique constraint (core/models.py:29) fails the transaction. The model returns `DuplicateAllocation` and changes nothing.

## Findings

| source | as written | input that shows it | evidently intended | confidence | as-written member | corrected member |
|---|---|---|---|---|---|---|
| core/models.py:484-503 | the overdue/early/on-time counter is incremented on the in-memory team, and only the demand is saved, so the stored team never changes | a demand with estimated end day 3, finished on day 5: the stored team's overdue count stays 0 | the incremented counter is stored with the team | not executed | DemandStatus.PersistedTeamAsWritten (shown by DemandStatus.OverdueCompletionIsLost) | DemandStatus.TeamAfterStatus (used by Persistence.Store.UpdateDemandStatus; proved by DemandStatus.FinishedAlwaysCounts) |
| core/services.py:67-71 | with the `get_or_create` repair of core/models.py:180-186 applied (read literally, the team refresh raises for an employee with a team as well), for an employee without a team, the closing note calls `employee.user.first_name()`, but `first_name` is a string; the call raises inside the transaction, and every override written at core/services.py:55-62 is rolled back | employee 1 without a team, set to 4 hours on day 10: no override row is stored | the overrides are stored, the note is printed, and no team capacity is refreshed | not executed | Persistence.CapacityChangeAsWritten (shown by Persistence.NoTeamCapacityChangeIsLost) | Persistence.Store.ChangeEmployeeCapacityForRange (related by Persistence.CapacityChangeAsWrittenDiffersOnlyWithoutTeam; its rows proved by CapacityLedger.OneRowPerDate) |
