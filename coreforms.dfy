/**
 * The school-choice restriction of `SchoolStaffAssignmentForm` in
 * core/forms.py: which schools a membership form offers to its user.
 */
module CoreForms {
  import opened Wrappers
  import opened Registry
  import opened Permissions

  /** The school choices: every active school for admins, the caller's own active-assignment schools otherwise. */
  function SchoolChoices(p: Profiles, activeSchools: set<SchoolNo>, u: Option<User>): (r: set<SchoolNo>)
    ensures !SignedIn(u) ==> r == {}
    ensures SignedIn(u) && IsAdmin(u) ==> r == activeSchools
    ensures SignedIn(u) && !IsAdmin(u) ==> r == UserSchools(p, u)
  {
    if SignedIn(u) then
      if u.value.superuser || IsAdmin(u) then activeSchools else UserSchools(p, u)
    else {}
  }

  /** The form, reduced to the choice set its constructor installs on the `school` field. */
  class SchoolStaffAssignmentForm {
    var schoolChoices: set<SchoolNo>

    constructor (p: Profiles, activeSchools: set<SchoolNo>, u: Option<User>)
      ensures schoolChoices == SchoolChoices(p, activeSchools, u)
    {
      if u.Some? && u.value.authenticated {
        if u.value.superuser || IsAdmin(u) {
          schoolChoices := activeSchools;
        } else {
          schoolChoices := UserSchools(p, u);
        }
      } else {
        schoolChoices := {};
      }
    }

    /** The school a submitted form may carry: one of the offered choices. */
    predicate AcceptsSchool(s: SchoolNo)
      reads this
    {
      s in schoolChoices
    }
  }

  /** A non-admin School Admin is only offered schools it may create memberships at, and every such school is offered. */
  lemma SchoolAdminChoicesAreCreatable(p: Profiles, activeSchools: set<SchoolNo>, u: Option<User>, s: SchoolNo)
    requires SignedIn(u) && !IsAdmin(u) && IsSchoolAdmin(u)
    ensures s in SchoolChoices(p, activeSchools, u) <==> CanCreateStaffMembership(p, u, Some(s))
  {
  }

  /** A Teacher or School Staff member without School Admins is offered schools but can create at none. */
  lemma ChoicesWithoutCreateRight(p: Profiles, activeSchools: set<SchoolNo>, u: Option<User>, s: SchoolNo)
    requires SignedIn(u) && !IsAdmin(u) && !IsSchoolAdmin(u)
    ensures s in SchoolChoices(p, activeSchools, u) ==> !CanCreateStaffMembership(p, u, Some(s))
  {
  }
}
