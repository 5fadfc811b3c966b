/**
 * Demand status changes: the three status names, what a change does to the
 * demand record, and the completion-timeliness counters a Finished demand
 * adds to its team.
 */
module DemandStatus {
  import opened Types

  /** The name a status is stored under. */
  function StatusName(s: Status): string
  {
    match s
    case Pending => "Pending"
    case InProgress => "In Progress"
    case Finished => "Finished"
  }

  /** The status with the given name, or None for a name that is not one of the three. */
  function ParseStatus(name: string): (r: Option<Status>)
    ensures r.Some? ==> StatusName(r.value) == name
  {
    if name == "Pending" then Some(Pending)
    else if name == "In Progress" then Some(InProgress)
    else if name == "Finished" then Some(Finished)
    else None
  }

  /** Every status name parses back to its status, and only status names parse. */
  lemma ParseStatusName(s: Status, name: string)
    ensures ParseStatus(StatusName(s)) == Some(s)
    ensures ParseStatus(name).None? <==> forall s' :: StatusName(s') != name
  {
    if ParseStatus(name).None? {
      forall s' ensures StatusName(s') != name {
        assert ParseStatus(StatusName(s')).Some?;
      }
    }
  }

  /**
   * The demand record after its status becomes `s` on day `today`: Finished
   * clears the assignment flag and records `today` as the actual end date;
   * Pending to In Progress fills a missing start date with `today`; nothing
   * else changes.
   */
  function ApplyStatus(d: Demand, s: Status, today: Day): (r: Demand)
    ensures r.status == s
    ensures r.team == d.team && r.timeNeeded == d.timeNeeded && r.estimatedEndDate == d.estimatedEndDate
    ensures s == Finished ==> !r.assignmentStatus && r.actualEndDate == Some(today) && r.startDate == d.startDate
    ensures s == InProgress && d.status == Pending ==>
              r.startDate == (if d.startDate.Some? then d.startDate else Some(today))
    ensures s != Finished ==> r.assignmentStatus == d.assignmentStatus && r.actualEndDate == d.actualEndDate
    ensures !(s == InProgress && d.status == Pending) ==> r.startDate == d.startDate
  {
    match s
    case Finished => d.(status := s, assignmentStatus := false, actualEndDate := Some(today))
    case InProgress =>
      if d.status == Pending && d.startDate.None? then d.(status := s, startDate := Some(today))
      else d.(status := s)
    case Pending => d.(status := s)
  }

  /** The three counters added together. */
  function CompletionTotal(team: Team): int
  {
    team.onTimeCompletions + team.overdueDemands + team.earlyCompletion
  }

  /**
   * A demand estimated to end on `estimated` finished on `actual`: overdue
   * when late, early when early, on time otherwise.
   */
  function RecordCompletion(team: Team, actual: Day, estimated: Day): Team
  {
    if actual > estimated then team.(overdueDemands := team.overdueDemands + 1)
    else if actual < estimated then team.(earlyCompletion := team.earlyCompletion + 1)
    else team.(onTimeCompletions := team.onTimeCompletions + 1)
  }

  /**
   * Recording a completion increments exactly one counter by one, chosen by
   * the sign of `actual - estimated`, and never decreases any counter.
   */
  lemma RecordCompletionCountsOnce(team: Team, actual: Day, estimated: Day)
    ensures var r := RecordCompletion(team, actual, estimated);
            CompletionTotal(r) == CompletionTotal(team) + 1 &&
            r.overdueDemands >= team.overdueDemands &&
            r.earlyCompletion >= team.earlyCompletion &&
            r.onTimeCompletions >= team.onTimeCompletions &&
            (r.overdueDemands > team.overdueDemands <==> actual > estimated) &&
            (r.earlyCompletion > team.earlyCompletion <==> actual < estimated) &&
            (r.onTimeCompletions > team.onTimeCompletions <==> actual == estimated)
  {
  }

  /**
   * The team's counters after a status change of demand `d` to `s` on
   * `today`: a Finished demand with an estimated end date counts once.
   */
  function TeamAfterStatus(team: Team, d: Demand, s: Status, today: Day): (r: Team)
    ensures s != Finished || d.estimatedEndDate.None? ==> r == team
  {
    if s == Finished && d.estimatedEndDate.Some? then RecordCompletion(team, today, d.estimatedEndDate.value)
    else team
  }

  /**
   * The team's counters as the status change leaves them in the store: the
   * increments are made on the in-memory team and only the demand is saved,
   * so the stored team never changes.
   */
  function PersistedTeamAsWritten(team: Team, d: Demand, s: Status, today: Day): Team
  {
    team
  }

  /**
   * A demand estimated to end on day 3 and finished on day 5 is overdue: the
   * intended counters record it, the stored ones do not.
   */
  lemma OverdueCompletionIsLost()
    ensures var team := Team(0, 0, 0);
            var d := Demand(Some(1), 10.0, InProgress, true, Some(0), Some(3), None);
            TeamAfterStatus(team, d, Finished, 5).overdueDemands == 1 &&
            PersistedTeamAsWritten(team, d, Finished, 5).overdueDemands == 0
  {
  }

  /** A Finished demand with an estimate always changes its team's counters. */
  lemma FinishedAlwaysCounts(team: Team, d: Demand, today: Day)
    requires d.estimatedEndDate.Some?
    ensures CompletionTotal(TeamAfterStatus(team, d, Finished, today)) == CompletionTotal(team) + 1
    ensures TeamAfterStatus(team, d, Finished, today) != PersistedTeamAsWritten(team, d, Finished, today)
  {
    RecordCompletionCountsOnce(team, today, d.estimatedEndDate.value);
  }
}
