/**
 * The entities of the capacity-planning store, as values.
 *
 * Calendar dates are day numbers (`Day`), hours are exact reals, and every
 * persisted table row is a datatype value. The tables themselves live in
 * `Persistence.Store`.
 */
module Types {

  /** A calendar date, as a day number: `d + 1` is the following day. */
  type Day = int

  type TeamId = nat
  type EmployeeId = nat
  type DemandId = nat

  datatype Option<+T> = None | Some(value: T)

  /** The failures the engine raises; each one leaves the store unchanged. */
  datatype Error =
    | InvalidRange          // a start date after an end date
    | InvalidSpan           // a capacity change longer than 24 days
    | TooSoon               // a capacity change starting less than a week away
    | NoTeam                // the employee belongs to no team
    | CapacityClash         // a capacity change would undercut committed hours
    | NegativeCapacity      // negative capacity hours
    | EmployeeNotFound
    | TeamNotFound
    | TeamFull              // the team already has the maximum number of members
    | AlreadyAssigned       // the demand is already assigned to a team
    | InvalidState          // the demand is already In Progress or Finished
    | InvalidHours          // non-positive (or negative) predicted hours
    | CapacityExceeded      // the simulation found no end date within its day cap
    | DuplicateAllocation   // a (demand, date) allocation row already exists
    | InvalidStatus         // a status name outside the three demand statuses
    | NotAssigned           // the demand has no team

  datatype Result<+T> = Ok(value: T) | Err(error: Error)

  function Min(a: real, b: real): real { if a <= b then a else b }
  function Max(a: real, b: real): real { if a >= b then a else b }

  /** The three completion states of a demand. */
  datatype Status = Pending | InProgress | Finished

  datatype RequestStatus = RequestPending | Approved | Rejected

  datatype Employee = Employee(team: Option<TeamId>, standardDailyCapacity: real)

  /** A team's lifetime completion counters. */
  datatype Team = Team(onTimeCompletions: int, overdueDemands: int, earlyCompletion: int)

  datatype Demand = Demand(
    team: Option<TeamId>,
    timeNeeded: real,
    status: Status,
    assignmentStatus: bool,
    startDate: Option<Day>,
    estimatedEndDate: Option<Day>,
    actualEndDate: Option<Day>)

  /** The cached per-(team, date) summary. */
  datatype ScheduleRow = ScheduleRow(teamCapacity: real, hoursAllocated: real)

  /** A per-(employee, date) capacity override. */
  datatype CapacityRow = CapacityRow(employee: EmployeeId, date: Day, hours: real)

  /** Hours of one demand committed to one team on one date. */
  datatype DailyAllocation = DailyAllocation(demand: DemandId, team: TeamId, date: Day, hours: real)

  datatype CapacityChangeRequest = CapacityChangeRequest(
    employee: EmployeeId,
    startDate: Day,
    endDate: Day,
    newCapacity: real,
    status: RequestStatus)

  type ScheduleTable = map<(TeamId, Day), ScheduleRow>
}
