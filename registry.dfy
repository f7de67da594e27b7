/**
 * The profile registry of core/models.py: SchoolStaff and SystemUser profiles
 * (one of each at most per user), school assignments with their activity rule
 * and uniqueness constraint, and the string form of a SystemUser.
 */
module Registry {
  import opened Wrappers
  import Text

  type UserId = nat
  /** Schools are keyed by their EMIS school number (the table's primary key). */
  type SchoolNo = string
  /** Calendar dates, as day numbers. */
  type Date = int

  datatype StaffType = Teaching | NonTeaching
  datatype RegistrationStatus = Valid | Expired

  datatype SchoolStaff = SchoolStaff(
    pk: nat,
    user: UserId,
    staffType: StaffType,
    registrationStatus: Option<RegistrationStatus>)

  datatype SystemUser = SystemUser(
    pk: nat,
    user: UserId,
    organization: string,
    positionTitle: string)

  /**
   * A SchoolStaffAssignment. It names its SchoolStaff by that profile's user:
   * the profile is one-to-one with the user, so the two identify the same row.
   */
  datatype Assignment = Assignment(
    id: nat,
    staffUser: UserId,
    school: SchoolNo,
    jobTitle: string,
    startDate: Option<Date>,
    endDate: Option<Date>)

  /**
   * The profile tables. Keying both profile maps by user is the one-to-one
   * field: a user has at most one SchoolStaff and at most one SystemUser, and
   * nothing stops a user from having both.
   */
  datatype Profiles = Profiles(
    schoolStaff: map<UserId, SchoolStaff>,
    systemUsers: map<UserId, SystemUser>,
    assignments: seq<Assignment>)

  /** The fields a freshly created SchoolStaff gets when the caller sets nothing else. */
  function NewSchoolStaff(pk: nat, user: UserId): (s: SchoolStaff)
    ensures s.pk == pk && s.user == user
    ensures s.staffType == NonTeaching && s.registrationStatus == None
  {
    SchoolStaff(pk, user, NonTeaching, None)
  }

  /** `SchoolStaffAssignment.is_active`: a flag, not a date check. */
  predicate IsActive(a: Assignment) {
    a.endDate == None
  }

  /** `SchoolStaff.active_assignments`: open-ended, or ending today or later. */
  function ActiveAssignments(assignments: seq<Assignment>, staffUser: UserId, today: Date): (r: seq<Assignment>)
    ensures forall a :: a in r <==>
      a in assignments && a.staffUser == staffUser && (a.endDate == None || a.endDate.value >= today)
    ensures |r| <= |assignments|
  {
    if assignments == [] then []
    else
      var a := assignments[0];
      var rest := ActiveAssignments(assignments[1..], staffUser, today);
      if a.staffUser == staffUser && (a.endDate == None || a.endDate.value >= today) then [a] + rest else rest
  }

  /** Every assignment flagged active is among the active assignments, whatever the date. */
  lemma ActiveFlagImpliesActiveAssignment(assignments: seq<Assignment>, a: Assignment, today: Date)
    requires a in assignments && IsActive(a)
    ensures a in ActiveAssignments(assignments, a.staffUser, today)
  {
  }

  /** The columns of `uq_school_staff_assignment`. */
  function AssignmentKey(a: Assignment): (UserId, SchoolNo, Option<Date>, Option<Date>) {
    (a.staffUser, a.school, a.startDate, a.endDate)
  }

  /**
   * Two readings of `uq_school_staff_assignment`. `AsWritten` is what the
   * database enforces: SQL treats two NULLs as different, so a key with a
   * missing date never collides. `Intended` is the rule the constraint is
   * evidently meant to make, with a missing date equal to a missing date.
   */
  datatype KeyRule = AsWritten | Intended

  /** The database's comparison: every column equal, and both dates present on both rows. */
  predicate SqlKeyCollides(a: Assignment, b: Assignment) {
    a.staffUser == b.staffUser && a.school == b.school
    && a.startDate.Some? && b.startDate.Some? && a.startDate == b.startDate
    && a.endDate.Some? && b.endDate.Some? && a.endDate == b.endDate
  }

  /** Rows `a` and `b` break the constraint under `rule`. */
  predicate Clash(rule: KeyRule, a: Assignment, b: Assignment) {
    match rule
    case AsWritten => SqlKeyCollides(a, b)
    case Intended => AssignmentKey(a) == AssignmentKey(b)
  }

  /** No two rows of the table break the constraint under `rule`. */
  predicate KeysDistinct(rule: KeyRule, assignments: seq<Assignment>) {
    forall i, j :: 0 <= i < j < |assignments| ==> !Clash(rule, assignments[i], assignments[j])
  }

  /**
   * Saving `a` keeps the constraint under `rule`: it breaks it with no row
   * other than its own (an update is compared with the other rows only).
   */
  predicate Admits(rule: KeyRule, existing: seq<Assignment>, a: Assignment) {
    forall b :: b in existing && b.id != a.id ==> !Clash(rule, a, b)
  }

  /**
   * As written, the constraint lets a second open-ended assignment of the same
   * person at the same school through: both dates are NULL, so the table the
   * database reaches repeats a key.
   */
  lemma SqlConstraintAdmitsDuplicateOpenAssignment(staffUser: UserId, school: SchoolNo)
    ensures var first := Assignment(1, staffUser, school, "TEACHER", None, None);
            var second := Assignment(2, staffUser, school, "TEACHER", None, None);
            Admits(AsWritten, [first], second) && KeysDistinct(AsWritten, [first, second])
            && !KeysDistinct(Intended, [first, second])
  {
    var first := Assignment(1, staffUser, school, "TEACHER", None, None);
    var second := Assignment(2, staffUser, school, "TEACHER", None, None);
    assert Clash(Intended, [first, second][0], [first, second][1]);
  }

  /** Assignment ids are a primary key. */
  predicate IdsDistinct(assignments: seq<Assignment>) {
    forall i, j :: 0 <= i < j < |assignments| ==> assignments[i].id != assignments[j].id
  }

  /** Appending a row with a new id that the constraint admits keeps keys and ids distinct, under either rule. */
  lemma AppendAdmittedKeepsDistinct(rule: KeyRule, existing: seq<Assignment>, a: Assignment)
    requires KeysDistinct(rule, existing) && IdsDistinct(existing)
    requires Admits(rule, existing, a) && forall b :: b in existing ==> b.id != a.id
    ensures KeysDistinct(rule, existing + [a]) && IdsDistinct(existing + [a])
  {
    var s := existing + [a];
    forall i, j | 0 <= i < j < |s| ensures !Clash(rule, s[i], s[j]) && s[i].id != s[j].id {
      if j == |existing| {
        assert s[i] in existing && s[j] == a;
        assert !Clash(rule, a, s[i]);
      } else {
        assert s[i] == existing[i] && s[j] == existing[j];
      }
    }
  }

  /** Saving an edited row in place, when the constraint admits it, keeps keys and ids distinct, under either rule. */
  lemma ReplaceAdmittedKeepsDistinct(rule: KeyRule, existing: seq<Assignment>, i: nat, a: Assignment)
    requires i < |existing| && KeysDistinct(rule, existing) && IdsDistinct(existing)
    requires a.id == existing[i].id && Admits(rule, existing, a)
    ensures KeysDistinct(rule, existing[i := a]) && IdsDistinct(existing[i := a])
  {
    var s := existing[i := a];
    forall j, k | 0 <= j < k < |s| ensures !Clash(rule, s[j], s[k]) && s[j].id != s[k].id {
      if j == i {
        assert existing[k] in existing && existing[k].id != a.id;
        assert !Clash(rule, a, existing[k]);
      } else if k == i {
        assert existing[j] in existing && existing[j].id != a.id;
        assert !Clash(rule, a, existing[j]);
      }
    }
  }

  /** Deleting one row keeps keys and ids distinct, under either rule. */
  lemma RemoveAtKeepsDistinct(rule: KeyRule, existing: seq<Assignment>, i: nat)
    requires i < |existing| && KeysDistinct(rule, existing) && IdsDistinct(existing)
    ensures KeysDistinct(rule, existing[..i] + existing[i + 1..]) && IdsDistinct(existing[..i] + existing[i + 1..])
  {
    var r := existing[..i] + existing[i + 1..];
    assert forall k :: 0 <= k < |r| ==> r[k] == existing[if k < i then k else k + 1];
  }

  /** Where assignment `id` of `staffUser` sits (`get_object_or_404(pk=id, school_staff=staff)`). */
  function AssignmentIndex(assignments: seq<Assignment>, id: nat, staffUser: UserId): (r: Option<nat>)
    ensures r.Some? ==> r.value < |assignments| && assignments[r.value].id == id && assignments[r.value].staffUser == staffUser
    ensures r.None? ==> forall a :: a in assignments ==> !(a.id == id && a.staffUser == staffUser)
  {
    if assignments == [] then None
    else if assignments[0].id == id && assignments[0].staffUser == staffUser then Some(0)
    else
      match AssignmentIndex(assignments[1..], id, staffUser)
      case None =>
        assert forall a :: a in assignments ==> a == assignments[0] || a in assignments[1..];
        None
      case Some(k) => Some(k + 1)
  }

  /** The assignments of everyone but `staffUser`, in their order. */
  function AssignmentsNotOf(assignments: seq<Assignment>, staffUser: UserId): (r: seq<Assignment>)
    ensures forall a :: a in r <==> a in assignments && a.staffUser != staffUser
  {
    if assignments == [] then []
    else
      var rest := AssignmentsNotOf(assignments[1..], staffUser);
      assert forall a :: a in assignments <==> a == assignments[0] || a in assignments[1..];
      if assignments[0].staffUser == staffUser then rest else [assignments[0]] + rest
  }

  /** The profiles after deleting `staffUser`'s SchoolStaff row, whose assignments go with it. */
  function WithoutStaff(p: Profiles, staffUser: UserId): (r: Profiles)
    ensures staffUser !in r.schoolStaff && r.systemUsers == p.systemUsers
    ensures forall id :: id != staffUser ==> (id in r.schoolStaff <==> id in p.schoolStaff)
  {
    Profiles(p.schoolStaff - {staffUser}, p.systemUsers, AssignmentsNotOf(p.assignments, staffUser))
  }

  /** Deleting one person's assignments keeps the remaining keys and ids distinct, under either rule. */
  lemma {:induction false} AssignmentsNotOfKeepsDistinct(rule: KeyRule, assignments: seq<Assignment>, staffUser: UserId)
    requires KeysDistinct(rule, assignments) && IdsDistinct(assignments)
    ensures KeysDistinct(rule, AssignmentsNotOf(assignments, staffUser))
    ensures IdsDistinct(AssignmentsNotOf(assignments, staffUser))
    decreases |assignments|
  {
    if assignments != [] {
      var tail := assignments[1..];
      assert KeysDistinct(rule, tail) && IdsDistinct(tail) by {
        assert forall i :: 0 <= i < |tail| ==> tail[i] == assignments[i + 1];
      }
      AssignmentsNotOfKeepsDistinct(rule, tail, staffUser);
      if assignments[0].staffUser != staffUser {
        ConsKeepsDistinct(rule, assignments[0], tail, AssignmentsNotOf(tail, staffUser));
      }
    }
  }

  /** Putting back in front a row that differs in key and id from every later row keeps a subsequence of them distinct. */
  lemma ConsKeepsDistinct(rule: KeyRule, first: Assignment, tail: seq<Assignment>, rest: seq<Assignment>)
    requires KeysDistinct(rule, [first] + tail) && IdsDistinct([first] + tail)
    requires KeysDistinct(rule, rest) && IdsDistinct(rest)
    requires forall a :: a in rest ==> a in tail
    ensures KeysDistinct(rule, [first] + rest) && IdsDistinct([first] + rest)
  {
    var all := [first] + tail;
    forall b | b in tail ensures !Clash(rule, first, b) && first.id != b.id {
      var k :| 0 <= k < |tail| && tail[k] == b;
      assert all[0] == first && all[k + 1] == b;
    }
    var r := [first] + rest;
    forall i, j | 0 <= i < j < |r|
      ensures !Clash(rule, r[i], r[j]) && r[i].id != r[j].id
    {
      if i == 0 {
        assert r[j] == rest[j - 1] && r[j] in tail;
      } else {
        assert r[i] == rest[i - 1] && r[j] == rest[j - 1];
      }
    }
  }

  /** `User.get_full_name()`: first and last name joined by a space, stripped. */
  function FullName(firstName: string, lastName: string): (r: string)
    ensures r == "" <==> Text.IsBlank(firstName) && Text.IsBlank(lastName)
  {
    Text.AllSpaceJoin(firstName, lastName);
    Text.Strip(firstName + " " + lastName)
  }

  /** `SystemUser.__str__`: the full name, else the username, then " (organization)" when there is one. */
  function SystemUserLabel(firstName: string, lastName: string, username: string, organization: string): (r: string)
    ensures var name := if FullName(firstName, lastName) != "" then FullName(firstName, lastName) else username;
            (organization == "" ==> r == name)
            && (organization != "" ==> r == name + " (" + organization + ")")
  {
    var full := FullName(firstName, lastName);
    var name := if full != "" then full else username;
    if organization != "" then name + " (" + organization + ")" else name
  }

  /** The label falls back to the username exactly when both name parts are blank. */
  lemma SystemUserLabelUsesUsername(firstName: string, lastName: string, username: string)
    requires Text.IsBlank(firstName) && Text.IsBlank(lastName)
    ensures SystemUserLabel(firstName, lastName, username, "") == username
    ensures SystemUserLabel(firstName, lastName, username, "MoE") == username + " (MoE)"
  {
    assert FullName(firstName, lastName) == "";
    assert username + " (" + "MoE" + ")" == username + " (MoE)";
  }

  /**
   * The assignment whose school is the "latest school" of a staff member in
   * the list views: the one with the highest id, not the latest dates.
   */
  function LatestAssignment(assignments: seq<Assignment>, staffUser: UserId): (r: Option<Assignment>)
    ensures r.None? <==> forall a :: a in assignments ==> a.staffUser != staffUser
    ensures r.Some? ==> r.value in assignments && r.value.staffUser == staffUser
    ensures r.Some? ==> forall a :: a in assignments && a.staffUser == staffUser ==> a.id <= r.value.id
  {
    if assignments == [] then None
    else
      var a := assignments[0];
      var rest := LatestAssignment(assignments[1..], staffUser);
      assert forall b :: b in assignments ==> b == a || b in assignments[1..];
      if a.staffUser != staffUser then rest
      else if rest.Some? && rest.value.id > a.id then rest
      else Some(a)
  }

  /** The school number a list row is annotated with (`latest_school_no`). */
  function LatestSchoolNo(assignments: seq<Assignment>, staffUser: UserId): (r: Option<SchoolNo>)
    ensures r.Some? <==> exists a :: a in assignments && a.staffUser == staffUser
  {
    match LatestAssignment(assignments, staffUser)
    case None => None
    case Some(a) => Some(a.school)
  }
}
