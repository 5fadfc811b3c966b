/**
 * Per-employee, per-day capacity: the override table and its lookups.
 *
 * The override table is a sequence of rows; the store keeps at most one row
 * per (employee, date) (`UniqueRows`), as the database's unique constraint does.
 */
module CapacityLedger {
  import opened Types

  predicate Matches(row: CapacityRow, e: EmployeeId, d: Day)
  {
    row.employee == e && row.date == d
  }

  /** At most one override row per (employee, date). */
  ghost predicate UniqueRows(caps: seq<CapacityRow>)
  {
    forall i, j :: 0 <= i < j < |caps| ==>
      caps[i].employee != caps[j].employee || caps[i].date != caps[j].date
  }

  /** The position of the first override row for (e, d), if any. */
  function FindRow(caps: seq<CapacityRow>, e: EmployeeId, d: Day): (r: Option<nat>)
    ensures r.Some? ==> r.value < |caps| && Matches(caps[r.value], e, d)
    ensures r.Some? ==> forall j :: 0 <= j < r.value ==> !Matches(caps[j], e, d)
    ensures r.None? ==> forall j :: 0 <= j < |caps| ==> !Matches(caps[j], e, d)
  {
    if |caps| == 0 then None
    else if Matches(caps[0], e, d) then Some(0)
    else
      match FindRow(caps[1..], e, d)
      case None => None
      case Some(i) => Some(i + 1)
  }

  /** The override hours stored for (e, d), if a row exists. */
  function Lookup(caps: seq<CapacityRow>, e: EmployeeId, d: Day): Option<real>
  {
    match FindRow(caps, e, d)
    case None => None
    case Some(i) => Some(caps[i].hours)
  }

  /**
   * An employee's hours on a day: the override row for that (employee, date)
   * when one exists, else the employee's standard daily capacity.
   */
  function EffectiveCapacity(caps: seq<CapacityRow>, e: EmployeeId, standard: real, d: Day): (r: real)
    ensures (exists i :: 0 <= i < |caps| && Matches(caps[i], e, d)) ||
            r == standard
    ensures (forall i :: 0 <= i < |caps| ==> !Matches(caps[i], e, d)) ==> r == standard
    ensures forall i :: 0 <= i < |caps| && Matches(caps[i], e, d) && UniqueRows(caps) ==>
              r == caps[i].hours
  {
    match FindRow(caps, e, d)
    case None => standard
    case Some(i) =>
      assert forall j :: 0 <= j < |caps| && Matches(caps[j], e, d) && UniqueRows(caps) ==> j == i;
      caps[i].hours
  }

  /** The number of override rows for (e, d). */
  function CountRows(caps: seq<CapacityRow>, e: EmployeeId, d: Day): nat
  {
    if |caps| == 0 then 0
    else (if Matches(caps[0], e, d) then 1 else 0) + CountRows(caps[1..], e, d)
  }

  lemma {:induction false} CountRowsAbsent(caps: seq<CapacityRow>, e: EmployeeId, d: Day)
    requires forall j :: 0 <= j < |caps| ==> !Matches(caps[j], e, d)
    ensures CountRows(caps, e, d) == 0
  {
    if |caps| > 0 {
      CountRowsAbsent(caps[1..], e, d);
    }
  }

  /** With unique rows, a stored override is the only row for its key. */
  lemma {:induction false} CountRowsOfUnique(caps: seq<CapacityRow>, e: EmployeeId, d: Day)
    requires UniqueRows(caps)
    ensures CountRows(caps, e, d) == if Lookup(caps, e, d).Some? then 1 else 0
  {
    if |caps| > 0 {
      assert UniqueRows(caps[1..]) by {
        forall i, j | 0 <= i < j < |caps[1..]|
          ensures caps[1..][i].employee != caps[1..][j].employee || caps[1..][i].date != caps[1..][j].date
        {
          assert caps[1..][i] == caps[i + 1] && caps[1..][j] == caps[j + 1];
        }
      }
      if Matches(caps[0], e, d) {
        assert forall j :: 0 <= j < |caps[1..]| ==> !Matches(caps[1..][j], e, d) by {
          forall j | 0 <= j < |caps[1..]| ensures !Matches(caps[1..][j], e, d) {
            assert caps[1..][j] == caps[j + 1];
          }
        }
        CountRowsAbsent(caps[1..], e, d);
      } else {
        CountRowsOfUnique(caps[1..], e, d);
      }
    }
  }

  /**
   * Write `h` into the (e, d) override: update the existing row in place, or
   * append a new row when there is none.
   */
  function Upsert(caps: seq<CapacityRow>, e: EmployeeId, d: Day, h: real): (r: seq<CapacityRow>)
    ensures Lookup(caps, e, d).Some? ==> |r| == |caps|
    ensures Lookup(caps, e, d).None? ==> |r| == |caps| + 1
  {
    match FindRow(caps, e, d)
    case Some(i) => caps[i := caps[i].(hours := h)]
    case None => caps + [CapacityRow(e, d, h)]
  }

  /** After an upsert, (e, d) holds `h` and every other key reads as before. */
  lemma UpsertLookup(caps: seq<CapacityRow>, e: EmployeeId, d: Day, h: real)
    ensures Lookup(Upsert(caps, e, d, h), e, d) == Some(h)
    ensures forall e', d' :: (e' != e || d' != d) ==>
              Lookup(Upsert(caps, e, d, h), e', d') == Lookup(caps, e', d')
  {
    var c' := Upsert(caps, e, d, h);
    var at := if FindRow(caps, e, d).Some? then FindRow(caps, e, d).value else |caps|;
    assert Matches(c'[at], e, d);
    forall e', d' | e' != e || d' != d
      ensures Lookup(c', e', d') == Lookup(caps, e', d')
    {
      match FindRow(caps, e', d')
      case None =>
        assert forall j :: 0 <= j < |c'| ==> !Matches(c'[j], e', d');
      case Some(k) =>
        assert Matches(c'[k], e', d');
    }
  }

  /** An upsert never adds a second row for a key. */
  lemma UpsertKeepsUnique(caps: seq<CapacityRow>, e: EmployeeId, d: Day, h: real)
    requires UniqueRows(caps)
    ensures UniqueRows(Upsert(caps, e, d, h))
  {
  }

  /** Upserting the value a key already holds changes nothing. */
  lemma UpsertSameValue(caps: seq<CapacityRow>, e: EmployeeId, d: Day, h: real)
    requires Lookup(caps, e, d) == Some(h)
    ensures Upsert(caps, e, d, h) == caps
  {
  }

  /** One upsert per date of [lo, hi], in increasing date order. */
  function UpsertRange(caps: seq<CapacityRow>, e: EmployeeId, lo: Day, hi: Day, h: real): seq<CapacityRow>
    decreases hi - lo + 1
  {
    if lo > hi then caps else UpsertRange(Upsert(caps, e, lo, h), e, lo + 1, hi, h)
  }

  /**
   * After a range upsert every date of the range holds `h` for employee `e`,
   * and every other (employee, date) key reads as before.
   */
  lemma {:induction false} UpsertRangeLookup(caps: seq<CapacityRow>, e: EmployeeId, lo: Day, hi: Day, h: real)
    ensures forall d :: lo <= d <= hi ==> Lookup(UpsertRange(caps, e, lo, hi, h), e, d) == Some(h)
    ensures forall e', d' :: e' != e || d' < lo || hi < d' ==>
              Lookup(UpsertRange(caps, e, lo, hi, h), e', d') == Lookup(caps, e', d')
    decreases hi - lo + 1
  {
    if lo <= hi {
      var c1 := Upsert(caps, e, lo, h);
      UpsertLookup(caps, e, lo, h);
      UpsertRangeLookup(c1, e, lo + 1, hi, h);
    }
  }

  lemma {:induction false} UpsertRangeKeepsUnique(caps: seq<CapacityRow>, e: EmployeeId, lo: Day, hi: Day, h: real)
    requires UniqueRows(caps)
    ensures UniqueRows(UpsertRange(caps, e, lo, hi, h))
    decreases hi - lo + 1
  {
    if lo <= hi {
      UpsertKeepsUnique(caps, e, lo, h);
      UpsertRangeKeepsUnique(Upsert(caps, e, lo, h), e, lo + 1, hi, h);
    }
  }

  /**
   * After a range upsert over a table with unique keys, each date of the range
   * has exactly one override row for `e`, and it holds `h`; the employee's
   * effective capacity on those dates is `h`, whatever the standard capacity.
   */
  lemma OneRowPerDate(caps: seq<CapacityRow>, e: EmployeeId, lo: Day, hi: Day, h: real, standard: real)
    requires UniqueRows(caps)
    ensures forall d :: lo <= d <= hi ==>
              CountRows(UpsertRange(caps, e, lo, hi, h), e, d) == 1 &&
              EffectiveCapacity(UpsertRange(caps, e, lo, hi, h), e, standard, d) == h
  {
    var c' := UpsertRange(caps, e, lo, hi, h);
    UpsertRangeLookup(caps, e, lo, hi, h);
    UpsertRangeKeepsUnique(caps, e, lo, hi, h);
    forall d | lo <= d <= hi
      ensures CountRows(c', e, d) == 1 && EffectiveCapacity(c', e, standard, d) == h
    {
      CountRowsOfUnique(c', e, d);
    }
  }

  lemma {:induction false} UpsertRangeNoChange(caps: seq<CapacityRow>, e: EmployeeId, lo: Day, hi: Day, h: real)
    requires forall d :: lo <= d <= hi ==> Lookup(caps, e, d) == Some(h)
    ensures UpsertRange(caps, e, lo, hi, h) == caps
    decreases hi - lo + 1
  {
    if lo <= hi {
      UpsertSameValue(caps, e, lo, h);
      UpsertRangeNoChange(caps, e, lo + 1, hi, h);
    }
  }

  /** Running the same range upsert twice leaves the same rows as running it once. */
  lemma UpsertRangeIdempotent(caps: seq<CapacityRow>, e: EmployeeId, lo: Day, hi: Day, h: real)
    ensures UpsertRange(UpsertRange(caps, e, lo, hi, h), e, lo, hi, h) == UpsertRange(caps, e, lo, hi, h)
  {
    UpsertRangeLookup(caps, e, lo, hi, h);
    UpsertRangeNoChange(UpsertRange(caps, e, lo, hi, h), e, lo, hi, h);
  }

  /**
   * The sum of the override rows dated `d` whose employee is currently a
   * member of team `t`: the figure the team-capacity refresh stores.
   */
  function TeamOverrideSum(caps: seq<CapacityRow>, employees: map<EmployeeId, Employee>, t: TeamId, d: Day): real
  {
    if |caps| == 0 then 0.0
    else
      var last := caps[|caps| - 1];
      TeamOverrideSum(caps[..|caps| - 1], employees, t, d) +
      (if last.date == d && last.employee in employees && employees[last.employee].team == Some(t)
       then last.hours else 0.0)
  }

  /**
   * A date on which no current member of `t` has an override row sums to 0,
   * the default the aggregation falls back to.
   */
  lemma {:induction false} TeamOverrideSumNoMemberRows(caps: seq<CapacityRow>, employees: map<EmployeeId, Employee>,
                                                       t: TeamId, d: Day)
    requires forall i :: 0 <= i < |caps| && caps[i].date == d && caps[i].employee in employees ==>
               employees[caps[i].employee].team != Some(t)
    ensures TeamOverrideSum(caps, employees, t, d) == 0.0
  {
    if |caps| > 0 {
      TeamOverrideSumNoMemberRows(caps[..|caps| - 1], employees, t, d);
    }
  }
}
