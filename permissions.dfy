/**
 * The permission evaluator of core/permissions.py: predicates over a user's
 * authentication, superuser flag, groups, profiles and active school
 * assignments. A missing user (`not user`) is `None`.
 */
module Permissions {
  import opened Wrappers
  import opened Registry

  /** The six named groups; any other group the user belongs to is `Other`, holding its name. */
  datatype Group = Admins | SchoolAdmins | SchoolStaffGroup | Teachers | SystemAdmins | SystemStaff | Other(name: string)

  function GroupName(g: Group): string {
    match g
    case Admins => "Admins"
    case SchoolAdmins => "School Admins"
    case SchoolStaffGroup => "School Staff"
    case Teachers => "Teachers"
    case SystemAdmins => "System Admins"
    case SystemStaff => "System Staff"
    case Other(n) => n
  }

  /** The groups a school-staff profile is assigned from, and those of a system user. */
  const SchoolScopeGroups: set<Group> := {Admins, SchoolAdmins, SchoolStaffGroup, Teachers}
  const SystemScopeGroups: set<Group> := {Admins, SystemAdmins, SystemStaff}

  /** The identity-provider user as the evaluator sees it. */
  datatype User = User(id: UserId, authenticated: bool, superuser: bool, groups: set<Group>)

  predicate SignedIn(u: Option<User>) {
    u.Some? && u.value.authenticated
  }

  /** `_in_group`. */
  predicate InGroup(u: Option<User>, g: Group) {
    SignedIn(u) && g in u.value.groups
  }

  predicate IsAdmin(u: Option<User>) {
    SignedIn(u) && (u.value.superuser || InGroup(u, Admins) || InGroup(u, SystemAdmins))
  }

  predicate IsSchoolStaff(u: Option<User>) { InGroup(u, SchoolStaffGroup) }
  predicate IsSchoolAdmin(u: Option<User>) { InGroup(u, SchoolAdmins) }
  predicate IsTeacher(u: Option<User>) { InGroup(u, Teachers) }
  predicate IsSystemStaff(u: Option<User>) { InGroup(u, SystemStaff) }

  predicate CanAccessSystemUsers(u: Option<User>) {
    if !SignedIn(u) then false
    else if u.value.superuser then true
    else IsAdmin(u) || IsSystemStaff(u)
  }

  predicate IsAdminsGroup(u: Option<User>) {
    if !SignedIn(u) then false
    else if u.value.superuser then true
    else InGroup(u, Admins)
  }

  predicate HasProfile(p: Profiles, id: UserId) {
    id in p.schoolStaff || id in p.systemUsers
  }

  predicate HasAppAccess(p: Profiles, u: Option<User>) {
    if !SignedIn(u) then false
    else if u.value.superuser then true
    else if !HasProfile(p, u.value.id) then false
    else u.value.groups != {}
  }

  /** The schools of a staff member's assignments with no end date. */
  function StaffSchools(p: Profiles, staffUser: UserId): set<SchoolNo> {
    set a | a in p.assignments && a.staffUser == staffUser && IsActive(a) :: a.school
  }

  /** `get_user_schools`. */
  function UserSchools(p: Profiles, u: Option<User>): set<SchoolNo> {
    if !SignedIn(u) then {}
    else if u.value.id !in p.schoolStaff then {}
    else StaffSchools(p, u.value.id)
  }

  /** `user_has_school_access_to_staff`; `staff.user` is a stored user, hence authenticated. */
  predicate UserHasSchoolAccessToStaff(p: Profiles, u: Option<User>, staff: SchoolStaff) {
    if !SignedIn(u) then false
    else if u.value.superuser || IsAdmin(u) then true
    else
      var mine := UserSchools(p, u);
      if mine == {} then false
      else
        var theirs := if staff.user in p.schoolStaff then StaffSchools(p, staff.user) else {};
        if theirs == {} then false
        else mine * theirs != {}
  }

  predicate CanViewStaff(p: Profiles, u: Option<User>, staff: SchoolStaff) {
    if !SignedIn(u) then false
    else if u.value.superuser || IsAdmin(u) then true
    else if IsSchoolAdmin(u) || IsTeacher(u) then UserHasSchoolAccessToStaff(p, u, staff)
    else false
  }

  /** A row of the staff list, annotated with the school of its latest assignment. */
  datatype StaffRow = StaffRow(staff: SchoolStaff, latestSchoolNo: Option<SchoolNo>)

  /** The rows whose latest school is one of `allowed`, in their original order. */
  function RowsAtSchools(rows: seq<StaffRow>, allowed: set<SchoolNo>): (r: seq<StaffRow>)
    ensures forall row :: row in r <==> row in rows && row.latestSchoolNo.Some? && row.latestSchoolNo.value in allowed
    ensures |r| <= |rows|
  {
    if rows == [] then []
    else
      var rest := RowsAtSchools(rows[1..], allowed);
      var row := rows[0];
      assert forall x :: x in rows <==> x == row || x in rows[1..];
      if row.latestSchoolNo.Some? && row.latestSchoolNo.value in allowed then [row] + rest else rest
  }

  /** `filter_staff_for_user`. */
  function FilterStaffForUser(p: Profiles, rows: seq<StaffRow>, u: Option<User>): seq<StaffRow> {
    if !SignedIn(u) then []
    else if u.value.superuser || IsAdmin(u) then rows
    else if !(IsSchoolAdmin(u) || IsTeacher(u)) then []
    else
      var mine := UserSchools(p, u);
      if mine == {} then []
      else RowsAtSchools(rows, mine)
  }

  /** `can_create_staff_membership`; `target` is the optional target school. */
  predicate CanCreateStaffMembership(p: Profiles, u: Option<User>, target: Option<SchoolNo>) {
    if !SignedIn(u) then false
    else if u.value.superuser || IsAdmin(u) then true
    else if IsSchoolAdmin(u) then
      if target.None? then true else target.value in UserSchools(p, u)
    else false
  }

  predicate CanEditStaffMembership(p: Profiles, u: Option<User>, membership: Assignment) {
    if !SignedIn(u) then false
    else if u.value.superuser || IsAdmin(u) then true
    else if IsSchoolAdmin(u) then membership.school in UserSchools(p, u)
    else false
  }

  predicate CanDeleteStaffMembership(p: Profiles, u: Option<User>, membership: Assignment) {
    if !SignedIn(u) then false
    else if u.value.superuser || IsAdmin(u) then true
    else if IsSchoolAdmin(u) then membership.school in UserSchools(p, u)
    else false
  }

  predicate CanEditStaff(p: Profiles, u: Option<User>, staff: SchoolStaff) {
    if !SignedIn(u) then false
    else if u.value.superuser then true
    else if IsAdminsGroup(u) then true
    else if InGroup(u, SystemAdmins) then true
    else if IsSchoolAdmin(u) then UserHasSchoolAccessToStaff(p, u, staff)
    else false
  }

  predicate CanEditStaffGroups(p: Profiles, u: Option<User>, staff: SchoolStaff) {
    if !SignedIn(u) then false
    else if u.value.superuser then true
    else if IsAdminsGroup(u) then true
    else if InGroup(u, SystemAdmins) then true
    else if IsSchoolAdmin(u) then UserHasSchoolAccessToStaff(p, u, staff)
    else false
  }

  predicate CanEditSystemUser(u: Option<User>, systemUser: SystemUser) {
    if !SignedIn(u) then false
    else if u.value.superuser then true
    else if IsAdminsGroup(u) then true
    else InGroup(u, SystemAdmins)
  }

  predicate CanEditSystemUserGroups(u: Option<User>, systemUser: SystemUser) {
    if !SignedIn(u) then false
    else if u.value.superuser then true
    else if IsAdminsGroup(u) then true
    else InGroup(u, SystemAdmins)
  }

  predicate CanManagePendingUsers(u: Option<User>) {
    if !SignedIn(u) then false
    else if u.value.superuser then true
    else if IsAdminsGroup(u) then true
    else InGroup(u, SystemAdmins)
  }

  predicate CanAssignAdminsGroup(u: Option<User>) {
    if !SignedIn(u) then false
    else if u.value.superuser then true
    else IsAdminsGroup(u)
  }

  // ---- Properties ----------------------------------------------------------

  /** A missing or signed-out user is refused everything and has no schools. */
  lemma SignedOutGetsNothing(p: Profiles, u: Option<User>, staff: SchoolStaff, su: SystemUser,
                             m: Assignment, target: Option<SchoolNo>, rows: seq<StaffRow>)
    requires !SignedIn(u)
    ensures !IsAdmin(u) && !IsAdminsGroup(u) && !CanAccessSystemUsers(u) && !HasAppAccess(p, u)
    ensures !CanManagePendingUsers(u) && !CanAssignAdminsGroup(u)
    ensures !CanViewStaff(p, u, staff) && !UserHasSchoolAccessToStaff(p, u, staff)
    ensures !CanCreateStaffMembership(p, u, target)
    ensures !CanEditStaffMembership(p, u, m) && !CanDeleteStaffMembership(p, u, m)
    ensures !CanEditStaff(p, u, staff) && !CanEditStaffGroups(p, u, staff)
    ensures !CanEditSystemUser(u, su) && !CanEditSystemUserGroups(u, su)
    ensures UserSchools(p, u) == {} && FilterStaffForUser(p, rows, u) == []
  {
  }

  /** Layer-1 gate: superusers pass; anyone else needs a profile and at least one group of any name. */
  lemma AppAccessRule(p: Profiles, u: Option<User>)
    ensures SignedIn(u) && u.value.superuser ==> HasAppAccess(p, u)
    ensures SignedIn(u) && !u.value.superuser ==>
      (HasAppAccess(p, u) <==> HasProfile(p, u.value.id) && u.value.groups != {})
  {
  }

  /** Managing pending users is exactly the system-wide admin test. */
  lemma ManagePendingIsAdmin(u: Option<User>)
    ensures CanManagePendingUsers(u) <==> IsAdmin(u)
    ensures SignedIn(u) && !u.value.superuser && u.value.groups == {SystemStaff} ==> !CanManagePendingUsers(u)
  {
  }

  /** The three group-edit and system-user-edit checks coincide with managing pending users. */
  lemma SystemUserEditIsAdmin(u: Option<User>, su: SystemUser)
    ensures CanEditSystemUser(u, su) <==> IsAdmin(u)
    ensures CanEditSystemUserGroups(u, su) <==> IsAdmin(u)
  {
  }

  /** Only superusers and Admins members can hand out the Admins group; System Admins cannot. */
  lemma AssignAdminsRule(u: Option<User>)
    ensures CanAssignAdminsGroup(u) <==> SignedIn(u) && (u.value.superuser || Admins in u.value.groups)
    ensures SignedIn(u) && !u.value.superuser && Admins !in u.value.groups && SystemAdmins in u.value.groups
            ==> !CanAssignAdminsGroup(u) && CanManagePendingUsers(u)
  {
  }

  /** School-scoped groups alone never open the system-user pages. */
  lemma SchoolGroupsCannotSeeSystemUsers(u: Option<User>)
    requires SignedIn(u) && !u.value.superuser
    requires u.value.groups <= {SchoolAdmins, SchoolStaffGroup, Teachers}
    ensures !CanAccessSystemUsers(u)
  {
  }

  /** `get_user_schools` is exactly the schools of the caller's open-ended assignments. */
  lemma UserSchoolsAreActiveAssignmentSchools(p: Profiles, u: Option<User>, s: SchoolNo)
    ensures s in UserSchools(p, u) <==>
      SignedIn(u) && u.value.id in p.schoolStaff
      && exists a :: a in p.assignments && a.staffUser == u.value.id && a.endDate == None && a.school == s
    ensures SignedIn(u) && u.value.id !in p.schoolStaff ==> UserSchools(p, u) == {}
  {
  }

  /** Row-level access: admins always; anyone else iff the two active-school sets meet. */
  lemma SchoolAccessIsOverlap(p: Profiles, u: Option<User>, staff: SchoolStaff)
    requires SignedIn(u)
    requires staff.user in p.schoolStaff
    ensures IsAdmin(u) ==> UserHasSchoolAccessToStaff(p, u, staff)
    ensures !IsAdmin(u) ==>
      (UserHasSchoolAccessToStaff(p, u, staff) <==> UserSchools(p, u) * UserSchools(p, Some(User(staff.user, true, false, {}))) != {})
  {
  }

  /** Viewing a staff member needs the School Admins or Teachers group besides the overlap. */
  lemma ViewStaffRule(p: Profiles, u: Option<User>, staff: SchoolStaff)
    requires SignedIn(u) && !IsAdmin(u)
    ensures CanViewStaff(p, u, staff) <==> (IsSchoolAdmin(u) || IsTeacher(u)) && UserHasSchoolAccessToStaff(p, u, staff)
  {
  }

  /** For a non-admin School Admin, memberships are scoped to the caller's active schools. */
  lemma SchoolAdminMembershipScope(p: Profiles, u: Option<User>, s: SchoolNo, m: Assignment)
    requires SignedIn(u) && !IsAdmin(u) && IsSchoolAdmin(u)
    ensures CanCreateStaffMembership(p, u, Some(s)) <==> s in UserSchools(p, u)
    ensures CanCreateStaffMembership(p, u, None)
    ensures CanEditStaffMembership(p, u, m) <==> m.school in UserSchools(p, u)
    ensures CanDeleteStaffMembership(p, u, m) <==> m.school in UserSchools(p, u)
  {
  }

  /** Non-admins outside School Admins never touch memberships. */
  lemma OthersCannotTouchMemberships(p: Profiles, u: Option<User>, target: Option<SchoolNo>, m: Assignment)
    requires !IsAdmin(u) && !IsSchoolAdmin(u)
    ensures !CanCreateStaffMembership(p, u, target)
    ensures !CanEditStaffMembership(p, u, m) && !CanDeleteStaffMembership(p, u, m)
  {
  }

  /** Scenario: a School Admin active only at one school cannot create a membership at another. */
  lemma SchoolAdminCannotReachOtherSchool(id: UserId, s1: SchoolNo, s2: SchoolNo, job: string)
    requires s1 != s2
    ensures var u := Some(User(id, true, false, {SchoolAdmins}));
            var p := Profiles(map[id := SchoolStaff(1, id, NonTeaching, None)], map[], [Assignment(1, id, s1, job, None, None)]);
            !CanCreateStaffMembership(p, u, Some(s2)) && CanCreateStaffMembership(p, u, Some(s1))
  {
    var p := Profiles(map[id := SchoolStaff(1, id, NonTeaching, None)], map[], [Assignment(1, id, s1, job, None, None)]);
    var u := Some(User(id, true, false, {SchoolAdmins}));
    assert p.assignments[0] in p.assignments;
    assert StaffSchools(p, id) == {s1};
  }

  /** `filter_staff_for_user`: everything for admins, nothing for others without a school-scoped role or school. */
  lemma FilterStaffRule(p: Profiles, rows: seq<StaffRow>, u: Option<User>)
    ensures IsAdmin(u) ==> FilterStaffForUser(p, rows, u) == rows
    ensures !IsAdmin(u) && !(IsSchoolAdmin(u) || IsTeacher(u)) ==> FilterStaffForUser(p, rows, u) == []
    ensures UserSchools(p, u) == {} && !IsAdmin(u) ==> FilterStaffForUser(p, rows, u) == []
    ensures SignedIn(u) && !IsAdmin(u) && (IsSchoolAdmin(u) || IsTeacher(u)) ==>
      forall row :: row in FilterStaffForUser(p, rows, u) <==>
        row in rows && row.latestSchoolNo.Some? && row.latestSchoolNo.value in UserSchools(p, u)
  {
  }

  /** The staff-edit and staff-group-edit checks are the same rule. */
  lemma StaffEditRule(p: Profiles, u: Option<User>, staff: SchoolStaff)
    ensures CanEditStaff(p, u, staff) <==> CanEditStaffGroups(p, u, staff)
    ensures CanEditStaff(p, u, staff) <==>
      IsAdmin(u) || (SignedIn(u) && IsSchoolAdmin(u) && UserHasSchoolAccessToStaff(p, u, staff))
  {
  }
}
