/**
 * The school-membership views of core/views.py: adding a membership from a
 * staff member's detail page, editing one, and deleting one.
 *
 * A membership is saved only when the caller may create memberships at the
 * school it names, re-checked after form validation. The views make no key
 * check of their own: the form leaves out the staff member, so the only guard
 * against a repeated (staff, school, start, end) key is the table's unique
 * constraint, and a save it refuses ends the request without a change. Each
 * view takes the `KeyRule` under which that constraint is read: `AsWritten`
 * is the program, `Intended` the corrected rule (see `Registry.KeyRule`).
 */
module MembershipViews {
  import opened Wrappers
  import opened Registry
  import opened Permissions
  import opened Store
  import opened Decorators
  import opened CoreForms

  /** The cleaned fields of a submitted `SchoolStaffAssignmentForm`. */
  datatype MembershipFields = MembershipFields(school: SchoolNo, jobTitle: string, startDate: Option<Date>, endDate: Option<Date>)

  /** The form accepts the fields: its other validations pass and the school is among the offered choices. */
  predicate FormAccepts(p: Profiles, activeSchools: set<SchoolNo>, u: User, f: MembershipFields, fieldsValid: bool) {
    fieldsValid && f.school in SchoolChoices(p, activeSchools, Some(u))
  }

  function NewMembership(id: nat, staffUser: UserId, f: MembershipFields): (a: Assignment)
    ensures a.id == id && a.staffUser == staffUser && a.school == f.school
  {
    Assignment(id, staffUser, f.school, f.jobTitle, f.startDate, f.endDate)
  }

  function EditedMembership(m: Assignment, f: MembershipFields): (a: Assignment)
    ensures a.id == m.id && a.staffUser == m.staffUser && a.school == f.school
  {
    m.(school := f.school, jobTitle := f.jobTitle, startDate := f.startDate, endDate := f.endDate)
  }

  // ---- staff_detail POST (add a membership) ---------------------------------

  datatype AddOutcome =
    | AddNoAccess
    | AddStaffNotFound
    | AddViewRefused
    | AddDetailPage
    | AddNoCreateRight
    | AddSchoolOutOfScope
    | AddKeyTaken
    | AddSaved

  function AddMembershipDecision(rule: KeyRule, p: Profiles, u: User, activeSchools: set<SchoolNo>, staffUser: UserId,
                                 posted: Option<MembershipFields>, fieldsValid: bool, nextPk: nat): (r: AddOutcome)
    ensures r == AddNoAccess <==> !HasAppAccess(p, Some(u))
    ensures r == AddViewRefused <==>
      (HasAppAccess(p, Some(u)) && staffUser in p.schoolStaff && !CanViewStaff(p, Some(u), p.schoolStaff[staffUser]))
    ensures r == AddSaved <==>
      (HasAppAccess(p, Some(u)) && staffUser in p.schoolStaff && CanViewStaff(p, Some(u), p.schoolStaff[staffUser])
       && posted.Some? && FormAccepts(p, activeSchools, u, posted.value, fieldsValid)
       && CanCreateStaffMembership(p, Some(u), Some(posted.value.school))
       && Admits(rule, p.assignments, NewMembership(nextPk, staffUser, posted.value)))
    ensures r == AddKeyTaken ==> posted.Some? && !Admits(rule, p.assignments, NewMembership(nextPk, staffUser, posted.value))
    ensures r == AddSchoolOutOfScope ==> posted.Some? && !CanCreateStaffMembership(p, Some(u), Some(posted.value.school))
  {
    if RequireAppAccess(p, Some(u)) != CallView then AddNoAccess
    else if staffUser !in p.schoolStaff then AddStaffNotFound
    else if !CanViewStaff(p, Some(u), p.schoolStaff[staffUser]) then AddViewRefused
    else if posted.None? then AddDetailPage
    else if !CanCreateStaffMembership(p, Some(u), None) then AddNoCreateRight
    else if !FormAccepts(p, activeSchools, u, posted.value, fieldsValid) then AddDetailPage
    else if !CanCreateStaffMembership(p, Some(u), Some(posted.value.school)) then AddSchoolOutOfScope
    else if !Admits(rule, p.assignments, NewMembership(nextPk, staffUser, posted.value)) then AddKeyTaken
    else AddSaved
  }

  /** A membership added by anyone but an admin is a School Admin's, at one of that admin's active schools. */
  lemma AddedMembershipInCallerScope(rule: KeyRule, p: Profiles, u: User, activeSchools: set<SchoolNo>, staffUser: UserId,
                                     f: MembershipFields, fieldsValid: bool, nextPk: nat)
    requires AddMembershipDecision(rule, p, u, activeSchools, staffUser, Some(f), fieldsValid, nextPk) == AddSaved
    requires !IsAdmin(Some(u))
    ensures IsSchoolAdmin(Some(u)) && f.school in UserSchools(p, Some(u))
  {
  }

  /**
   * As written, the staff page stores a second membership of a person at a
   * school with the same start and end whenever one of those dates is missing:
   * it saves where the intended rule refuses, and the table then repeats a key.
   */
  lemma AsWrittenAddRepeatsOpenKey(p: Profiles, u: User, activeSchools: set<SchoolNo>, staffUser: UserId,
                                   f: MembershipFields, fieldsValid: bool, nextPk: nat)
    requires AddMembershipDecision(Intended, p, u, activeSchools, staffUser, Some(f), fieldsValid, nextPk) == AddKeyTaken
    requires f.startDate.None? || f.endDate.None?
    ensures AddMembershipDecision(AsWritten, p, u, activeSchools, staffUser, Some(f), fieldsValid, nextPk) == AddSaved
    ensures !KeysDistinct(Intended, p.assignments + [NewMembership(nextPk, staffUser, f)])
  {
    var a := NewMembership(nextPk, staffUser, f);
    var b :| b in p.assignments && b.id != a.id && Clash(Intended, a, b);
    var k :| 0 <= k < |p.assignments| && p.assignments[k] == b;
    var s := p.assignments + [a];
    assert s[k] == b && s[|p.assignments|] == a;
  }

  /** Under the intended rule, a membership the staff page saves keeps the table's keys distinct. */
  lemma IntendedAddKeepsKeysDistinct(p: Profiles, u: User, activeSchools: set<SchoolNo>, staffUser: UserId,
                                     f: MembershipFields, fieldsValid: bool, nextPk: nat)
    requires AddMembershipDecision(Intended, p, u, activeSchools, staffUser, Some(f), fieldsValid, nextPk) == AddSaved
    requires KeysDistinct(Intended, p.assignments) && IdsDistinct(p.assignments)
    requires forall b :: b in p.assignments ==> b.id < nextPk
    ensures KeysDistinct(Intended, p.assignments + [NewMembership(nextPk, staffUser, f)])
  {
    AppendAdmittedKeepsDistinct(Intended, p.assignments, NewMembership(nextPk, staffUser, f));
  }

  /**
   * `staff_detail` on POST: a membership passing every check is appended with
   * the next free id; nothing changes otherwise. The table keeps the
   * constraint as the database enforces it, and under the intended rule also
   * keeps its keys distinct.
   */
  method AddMembership(db: Database, uid: UserId, rule: KeyRule, activeSchools: set<SchoolNo>, staffUser: UserId,
                       posted: Option<MembershipFields>, fieldsValid: bool) returns (r: AddOutcome)
    requires db.Valid() && uid in db.accounts
    modifies db
    ensures db.Valid()
    ensures r == AddMembershipDecision(rule, old(db.profiles), old(db.accounts)[uid].user, activeSchools, staffUser,
                                       posted, fieldsValid, old(db.nextPk))
    ensures r == AddSaved ==>
      db.profiles == old(db.profiles).(assignments := old(db.profiles).assignments + [NewMembership(old(db.nextPk), staffUser, posted.value)])
      && db.nextPk == old(db.nextPk) + 1
    ensures r != AddSaved ==> db.profiles == old(db.profiles) && db.nextPk == old(db.nextPk)
    ensures rule == Intended && KeysDistinct(Intended, old(db.profiles).assignments) ==>
      KeysDistinct(Intended, db.profiles.assignments)
    ensures db.accounts == old(db.accounts) && db.registrations == old(db.registrations)
    ensures db.documents == old(db.documents) && db.calls == old(db.calls)
  {
    var u := db.accounts[uid].user;
    r := AddMembershipDecision(rule, db.profiles, u, activeSchools, staffUser, posted, fieldsValid, db.nextPk);
    if r == AddSaved {
      var a := NewMembership(db.nextPk, staffUser, posted.value);
      var before := db.profiles.assignments;
      assert Admits(AsWritten, before, a);
      AppendAdmittedKeepsDistinct(AsWritten, before, a);
      if rule == Intended && KeysDistinct(Intended, before) {
        AppendAdmittedKeepsDistinct(Intended, before, a);
      }
      assert forall i :: 0 <= i < |before| ==> before[i] in before;
      db.profiles := db.profiles.(assignments := before + [a]);
      db.nextPk := db.nextPk + 1;
    }
  }

  // ---- staff_membership_edit ------------------------------------------------

  datatype EditOutcome =
    | EditNoAccess
    | EditNotFound
    | EditRefused
    | EditPage
    | EditSchoolOutOfScope
    | EditKeyTaken
    | EditSaved

  function EditMembershipDecision(rule: KeyRule, p: Profiles, u: User, activeSchools: set<SchoolNo>, staffUser: UserId,
                                  id: nat, posted: Option<MembershipFields>, fieldsValid: bool): (r: EditOutcome)
    ensures r == EditNoAccess <==> !HasAppAccess(p, Some(u))
    ensures r == EditNotFound <==>
      (HasAppAccess(p, Some(u)) && (staffUser !in p.schoolStaff || AssignmentIndex(p.assignments, id, staffUser).None?))
    ensures r == EditSaved <==>
      (HasAppAccess(p, Some(u)) && staffUser in p.schoolStaff && AssignmentIndex(p.assignments, id, staffUser).Some?
       && var i := AssignmentIndex(p.assignments, id, staffUser).value;
          CanEditStaffMembership(p, Some(u), p.assignments[i])
          && posted.Some? && FormAccepts(p, activeSchools, u, posted.value, fieldsValid)
          && CanCreateStaffMembership(p, Some(u), Some(posted.value.school))
          && Admits(rule, p.assignments, EditedMembership(p.assignments[i], posted.value)))
    ensures r == EditKeyTaken ==>
      AssignmentIndex(p.assignments, id, staffUser).Some? && posted.Some?
      && !Admits(rule, p.assignments, EditedMembership(p.assignments[AssignmentIndex(p.assignments, id, staffUser).value], posted.value))
  {
    if RequireAppAccess(p, Some(u)) != CallView then EditNoAccess
    else if staffUser !in p.schoolStaff then EditNotFound
    else
      match AssignmentIndex(p.assignments, id, staffUser)
      case None => EditNotFound
      case Some(i) =>
        var m := p.assignments[i];
        if !CanEditStaffMembership(p, Some(u), m) then EditRefused
        else if posted.None? || !FormAccepts(p, activeSchools, u, posted.value, fieldsValid) then EditPage
        else if !CanCreateStaffMembership(p, Some(u), Some(posted.value.school)) then EditSchoolOutOfScope
        else if !Admits(rule, p.assignments, EditedMembership(m, posted.value)) then EditKeyTaken
        else EditSaved
  }

  /** A non-admin School Admin can move a membership only from one of their schools to another of them. */
  lemma EditStaysInCallerScope(rule: KeyRule, p: Profiles, u: User, activeSchools: set<SchoolNo>, staffUser: UserId, id: nat,
                               f: MembershipFields, fieldsValid: bool)
    requires EditMembershipDecision(rule, p, u, activeSchools, staffUser, id, Some(f), fieldsValid) == EditSaved
    requires !IsAdmin(Some(u))
    ensures IsSchoolAdmin(Some(u))
    ensures p.assignments[AssignmentIndex(p.assignments, id, staffUser).value].school in UserSchools(p, Some(u))
    ensures f.school in UserSchools(p, Some(u))
  {
  }

  /**
   * As written, an edit that gives a membership the same school and dates as
   * another membership of the person is saved whenever one of those dates is
   * missing, and the table then repeats a key.
   */
  lemma AsWrittenEditRepeatsOpenKey(p: Profiles, u: User, activeSchools: set<SchoolNo>, staffUser: UserId, id: nat,
                                    f: MembershipFields, fieldsValid: bool)
    requires EditMembershipDecision(Intended, p, u, activeSchools, staffUser, id, Some(f), fieldsValid) == EditKeyTaken
    requires f.startDate.None? || f.endDate.None?
    ensures EditMembershipDecision(AsWritten, p, u, activeSchools, staffUser, id, Some(f), fieldsValid) == EditSaved
    ensures var i := AssignmentIndex(p.assignments, id, staffUser).value;
            !KeysDistinct(Intended, p.assignments[i := EditedMembership(p.assignments[i], f)])
  {
    var i := AssignmentIndex(p.assignments, id, staffUser).value;
    var a := EditedMembership(p.assignments[i], f);
    var b :| b in p.assignments && b.id != a.id && Clash(Intended, a, b);
    var k :| 0 <= k < |p.assignments| && p.assignments[k] == b;
    var s := p.assignments[i := a];
    assert k != i && s[k] == b && s[i] == a;
    if k < i {
      assert Clash(Intended, s[k], s[i]);
    } else {
      assert Clash(Intended, s[i], s[k]);
    }
  }

  /** Under the intended rule, a saved edit keeps the table's keys distinct. */
  lemma IntendedEditKeepsKeysDistinct(p: Profiles, u: User, activeSchools: set<SchoolNo>, staffUser: UserId, id: nat,
                                      f: MembershipFields, fieldsValid: bool)
    requires EditMembershipDecision(Intended, p, u, activeSchools, staffUser, id, Some(f), fieldsValid) == EditSaved
    requires KeysDistinct(Intended, p.assignments) && IdsDistinct(p.assignments)
    ensures var i := AssignmentIndex(p.assignments, id, staffUser).value;
            KeysDistinct(Intended, p.assignments[i := EditedMembership(p.assignments[i], f)])
  {
    var i := AssignmentIndex(p.assignments, id, staffUser).value;
    ReplaceAdmittedKeepsDistinct(Intended, p.assignments, i, EditedMembership(p.assignments[i], f));
  }

  /**
   * `staff_membership_edit`: a POST passing every check rewrites the
   * membership in place, keeping the constraint as the database enforces it,
   * and under the intended rule keeping the keys distinct.
   */
  method EditMembership(db: Database, uid: UserId, rule: KeyRule, activeSchools: set<SchoolNo>, staffUser: UserId, id: nat,
                        posted: Option<MembershipFields>, fieldsValid: bool) returns (r: EditOutcome)
    requires db.Valid() && uid in db.accounts
    modifies db
    ensures db.Valid()
    ensures r == EditMembershipDecision(rule, old(db.profiles), old(db.accounts)[uid].user, activeSchools, staffUser, id,
                                        posted, fieldsValid)
    ensures r == EditSaved ==>
      var i := AssignmentIndex(old(db.profiles).assignments, id, staffUser).value;
      db.profiles == old(db.profiles).(assignments := old(db.profiles).assignments[i :=
        EditedMembership(old(db.profiles).assignments[i], posted.value)])
    ensures r != EditSaved ==> db.profiles == old(db.profiles)
    ensures rule == Intended && KeysDistinct(Intended, old(db.profiles).assignments) ==>
      KeysDistinct(Intended, db.profiles.assignments)
    ensures db.accounts == old(db.accounts) && db.registrations == old(db.registrations)
    ensures db.documents == old(db.documents) && db.calls == old(db.calls) && db.nextPk == old(db.nextPk)
  {
    var u := db.accounts[uid].user;
    r := EditMembershipDecision(rule, db.profiles, u, activeSchools, staffUser, id, posted, fieldsValid);
    if r == EditSaved {
      var before := db.profiles.assignments;
      var i := AssignmentIndex(before, id, staffUser).value;
      var a := EditedMembership(before[i], posted.value);
      assert Admits(AsWritten, before, a);
      ReplaceAdmittedKeepsDistinct(AsWritten, before, i, a);
      if rule == Intended && KeysDistinct(Intended, before) {
        ReplaceAdmittedKeepsDistinct(Intended, before, i, a);
      }
      assert before[i] in before;
      assert forall k :: 0 <= k < |before| && k != i ==> before[i := a][k] == before[k];
      db.profiles := db.profiles.(assignments := before[i := a]);
    }
  }

  // ---- staff_membership_delete ----------------------------------------------

  /** The table after deleting row `i`: one row fewer, every other row kept. */
  function WithoutRow(assignments: seq<Assignment>, i: nat): (r: seq<Assignment>)
    requires i < |assignments|
    ensures |r| == |assignments| - 1
    ensures forall k :: 0 <= k < |assignments| && k != i ==> assignments[k] in r
    ensures multiset(r) + multiset{assignments[i]} == multiset(assignments)
  {
    var r := assignments[..i] + assignments[i + 1..];
    assert assignments == assignments[..i] + [assignments[i]] + assignments[i + 1..];
    assert forall k :: 0 <= k < |assignments| && k != i ==> assignments[k] == r[if k < i then k else k - 1];
    r
  }

  /** Deleting a row keeps the profile tables consistent. */
  lemma DeleteKeepsConsistent(accounts: map<UserId, Account>, p: Profiles, nextPk: nat, i: nat)
    requires ProfilesConsistent(accounts, p, nextPk) && i < |p.assignments|
    ensures ProfilesConsistent(accounts, p.(assignments := WithoutRow(p.assignments, i)), nextPk)
  {
    RemoveAtKeepsDistinct(AsWritten, p.assignments, i);
    var after := WithoutRow(p.assignments, i);
    assert after == p.assignments[..i] + p.assignments[i + 1..];
    assert forall a :: a in after ==> a in p.assignments;
  }

  datatype DeleteOutcome = DeleteNoAccess | DeleteNotFound | DeleteRefused | DeletePage | MembershipDeleted

  function DeleteMembershipDecision(p: Profiles, u: User, staffUser: UserId, id: nat, isPost: bool): (r: DeleteOutcome)
    ensures r == DeleteNoAccess <==> !HasAppAccess(p, Some(u))
    ensures r == MembershipDeleted <==>
      (HasAppAccess(p, Some(u)) && staffUser in p.schoolStaff && AssignmentIndex(p.assignments, id, staffUser).Some?
       && CanDeleteStaffMembership(p, Some(u), p.assignments[AssignmentIndex(p.assignments, id, staffUser).value])
       && isPost)
  {
    if RequireAppAccess(p, Some(u)) != CallView then DeleteNoAccess
    else if staffUser !in p.schoolStaff then DeleteNotFound
    else
      match AssignmentIndex(p.assignments, id, staffUser)
      case None => DeleteNotFound
      case Some(i) =>
        if !CanDeleteStaffMembership(p, Some(u), p.assignments[i]) then DeleteRefused
        else if isPost then MembershipDeleted
        else DeletePage
  }

  /** `staff_membership_delete`: on POST the membership is removed and every other one kept. */
  method DeleteMembership(db: Database, uid: UserId, staffUser: UserId, id: nat, isPost: bool) returns (r: DeleteOutcome)
    requires db.Valid() && uid in db.accounts
    modifies db
    ensures db.Valid()
    ensures r == DeleteMembershipDecision(old(db.profiles), old(db.accounts)[uid].user, staffUser, id, isPost)
    ensures r == MembershipDeleted ==>
      db.profiles == old(db.profiles).(assignments :=
        WithoutRow(old(db.profiles).assignments, AssignmentIndex(old(db.profiles).assignments, id, staffUser).value))
    ensures r != MembershipDeleted ==> db.profiles == old(db.profiles)
    ensures db.accounts == old(db.accounts) && db.registrations == old(db.registrations)
    ensures db.documents == old(db.documents) && db.calls == old(db.calls) && db.nextPk == old(db.nextPk)
  {
    var u := db.accounts[uid].user;
    r := DeleteMembershipDecision(db.profiles, u, staffUser, id, isPost);
    if r == MembershipDeleted {
      var before := db.profiles.assignments;
      var i := AssignmentIndex(before, id, staffUser).value;
      DeleteKeepsConsistent(db.accounts, db.profiles, db.nextPk, i);
      db.profiles := db.profiles.(assignments := WithoutRow(before, i));
    }
  }
}
