/**
 * Team membership: who belongs to which team, and the six-member cap that
 * adding a member enforces.
 */
module Membership {
  import opened Types

  /** The most members a team may have. */
  const MaxMembers: nat := 6

  /** The employees whose team is `t`. */
  function Members(employees: map<EmployeeId, Employee>, t: TeamId): set<EmployeeId>
  {
    set e | e in employees && employees[e].team == Some(t)
  }

  function MemberCount(employees: map<EmployeeId, Employee>, t: TeamId): nat
  {
    |Members(employees, t)|
  }

  /** No team has more than the maximum number of members. */
  ghost predicate TeamsWithinCap(employees: map<EmployeeId, Employee>)
  {
    forall t: TeamId :: MemberCount(employees, t) <= MaxMembers
  }

  /** The employee table after employee `e` has moved to team `nt` (or to no team). */
  function WithTeam(employees: map<EmployeeId, Employee>, e: EmployeeId, nt: Option<TeamId>)
    : (r: map<EmployeeId, Employee>)
    requires e in employees
    ensures r.Keys == employees.Keys
    ensures r[e].team == nt && r[e].standardDailyCapacity == employees[e].standardDailyCapacity
    ensures forall e' :: e' in employees && e' != e ==> r[e'] == employees[e']
  {
    employees[e := employees[e].(team := nt)]
  }

  /**
   * Moving one employee adds it to the member set of its new team, removes it
   * from the member set of every other team, and leaves the rest as they were.
   */
  lemma MembersAfterMove(employees: map<EmployeeId, Employee>, e: EmployeeId, nt: Option<TeamId>, t: TeamId)
    requires e in employees
    ensures Members(WithTeam(employees, e, nt), t) ==
            if nt == Some(t) then Members(employees, t) + {e} else Members(employees, t) - {e}
  {
    var after := WithTeam(employees, e, nt);
    if nt == Some(t) {
      assert Members(after, t) == Members(employees, t) + {e} by {
        forall x ensures x in Members(after, t) <==> x in Members(employees, t) + {e} {
          if x != e && x in employees {
            assert after[x] == employees[x];
          }
        }
      }
    } else {
      assert Members(after, t) == Members(employees, t) - {e} by {
        forall x ensures x in Members(after, t) <==> x in Members(employees, t) - {e} {
          if x != e && x in employees {
            assert after[x] == employees[x];
          }
        }
      }
    }
  }

  lemma SubsetCount(a: set<EmployeeId>, b: set<EmployeeId>)
    requires a <= b
    ensures |a| <= |b|
  {
    assert b == a + (b - a);
  }

  /**
   * Joining a team with fewer than the maximum number of members keeps every
   * team within the cap; the joined team grows by one unless the employee was
   * already a member, and no other team grows.
   */
  lemma JoinKeepsCap(employees: map<EmployeeId, Employee>, e: EmployeeId, t: TeamId)
    requires e in employees
    requires TeamsWithinCap(employees)
    requires MemberCount(employees, t) < MaxMembers
    ensures TeamsWithinCap(WithTeam(employees, e, Some(t)))
    ensures MemberCount(WithTeam(employees, e, Some(t)), t) ==
            MemberCount(employees, t) + (if employees[e].team == Some(t) then 0 else 1)
    ensures forall t': TeamId :: t' != t ==> MemberCount(WithTeam(employees, e, Some(t)), t') <= MemberCount(employees, t')
  {
    var after := WithTeam(employees, e, Some(t));
    forall t': TeamId ensures MemberCount(after, t') <= MaxMembers
      && (t' != t ==> MemberCount(after, t') <= MemberCount(employees, t'))
      && (t' == t ==> MemberCount(after, t) ==
                      MemberCount(employees, t) + (if employees[e].team == Some(t) then 0 else 1))
    {
      assert MemberCount(employees, t') <= MaxMembers;
      MembersAfterMove(employees, e, Some(t), t');
      if t' == t {
        if employees[e].team == Some(t) {
          assert e in Members(employees, t);
          assert Members(after, t) == Members(employees, t);
        } else {
          assert e !in Members(employees, t);
        }
      } else {
        SubsetCount(Members(after, t'), Members(employees, t'));
      }
    }
  }

  /**
   * Leaving a team keeps every team within the cap: the team left shrinks by
   * one and no other team changes size.
   */
  lemma LeaveKeepsCap(employees: map<EmployeeId, Employee>, e: EmployeeId)
    requires e in employees
    requires TeamsWithinCap(employees)
    ensures TeamsWithinCap(WithTeam(employees, e, None))
    ensures forall t: TeamId :: MemberCount(WithTeam(employees, e, None), t) ==
                        MemberCount(employees, t) - (if employees[e].team == Some(t) then 1 else 0)
  {
    var after := WithTeam(employees, e, None);
    forall t: TeamId ensures MemberCount(after, t) ==
                     MemberCount(employees, t) - (if employees[e].team == Some(t) then 1 else 0)
    {
      MembersAfterMove(employees, e, None, t);
      if employees[e].team == Some(t) {
        assert e in Members(employees, t);
      }
    }
  }
}
