/**
 * The profile-management views of core/views.py: editing a SchoolStaff or
 * SystemUser profile (with group replacement that keeps out-of-scope groups),
 * the pending-users list, turning a pending user into a SchoolStaff or
 * SystemUser, deleting a pending user, and deleting a SchoolStaff profile.
 *
 * Every handler sits behind `login_required` and `require_app_access`; the
 * caller is the stored account `uid`. The profile being edited or deleted is
 * named by its user (profiles are one-to-one with users). Form validation of
 * the edit and assign forms is an input, and so are the cleaned values.
 */
module ProfileViews {
  import opened Wrappers
  import opened Text
  import opened Registry
  import opened Permissions
  import opened Registrations
  import opened Store
  import opened Sorting
  import opened Decorators
  import RegistrationViews

  // ---- group replacement ------------------------------------------------------

  /** Drop the memberships in `scope`, then add the chosen groups. */
  function ReplaceGroups(current: set<Group>, scope: set<Group>, chosen: set<Group>): (r: set<Group>)
    ensures chosen <= r
    ensures forall g :: g !in scope && g in current ==> g in r
    ensures forall g :: g in r ==> g in chosen || (g in current && g !in scope)
  {
    (current - scope) + chosen
  }

  /** When the choice stays inside the scope, the scoped part becomes the choice and the rest is untouched. */
  lemma ReplaceGroupsWithinScope(current: set<Group>, scope: set<Group>, chosen: set<Group>)
    requires chosen <= scope
    ensures ReplaceGroups(current, scope, chosen) * scope == chosen
    ensures ReplaceGroups(current, scope, chosen) - scope == current - scope
  {
    var r := ReplaceGroups(current, scope, chosen);
    assert forall g :: g in r * scope <==> g in chosen;
    assert forall g :: g in r - scope <==> g in current - scope;
  }

  function SetGroups(accounts: map<UserId, Account>, id: UserId, groups: set<Group>): map<UserId, Account>
    requires id in accounts
  {
    accounts[id := accounts[id].(user := accounts[id].user.(groups := groups))]
  }

  // ---- staff_edit -----------------------------------------------------------

  datatype StaffEditOutcome = StaffEditNoAccess | StaffEditNotFound | StaffEditRefused | StaffEditPage | StaffEditSaved

  function StaffEditDecision(p: Profiles, u: User, staffUser: UserId, isPost: bool, formValid: bool): (r: StaffEditOutcome)
    ensures r == StaffEditNoAccess <==> !HasAppAccess(p, Some(u))
    ensures r == StaffEditNotFound <==> HasAppAccess(p, Some(u)) && staffUser !in p.schoolStaff
    ensures r == StaffEditSaved <==>
      (HasAppAccess(p, Some(u)) && staffUser in p.schoolStaff
       && CanEditStaff(p, Some(u), p.schoolStaff[staffUser]) && isPost && formValid)
  {
    if RequireAppAccess(p, Some(u)) != CallView then StaffEditNoAccess
    else if staffUser !in p.schoolStaff then StaffEditNotFound
    else if !CanEditStaff(p, Some(u), p.schoolStaff[staffUser]) then StaffEditRefused
    else if isPost && formValid then StaffEditSaved
    else StaffEditPage
  }

  /** A School Admin who is not an admin saves an edit only for staff sharing an active school. */
  lemma SchoolAdminEditsOnlyColleagues(p: Profiles, u: User, staffUser: UserId, formValid: bool)
    requires !IsAdmin(Some(u))
    requires StaffEditDecision(p, u, staffUser, true, formValid) == StaffEditSaved
    requires p.schoolStaff[staffUser].user == staffUser
    ensures IsSchoolAdmin(Some(u))
    ensures UserSchools(p, Some(u)) * UserSchools(p, Some(User(staffUser, true, false, {}))) != {}
  {
    var staff := p.schoolStaff[staffUser];
    StaffEditRule(p, Some(u), staff);
    SchoolAccessIsOverlap(p, Some(u), staff);
  }

  /**
   * `staff_edit`: a valid POST sets the staff type and, for callers allowed to
   * edit groups, replaces the staff member's school-level groups.
   */
  method StaffEdit(db: Database, uid: UserId, staffUser: UserId, isPost: bool, formValid: bool,
                   staffType: StaffType, chosen: set<Group>) returns (r: StaffEditOutcome)
    requires db.Valid() && uid in db.accounts
    modifies db
    ensures db.Valid()
    ensures r == StaffEditDecision(old(db.profiles), old(db.accounts)[uid].user, staffUser, isPost, formValid)
    ensures r == StaffEditSaved ==>
      staffUser in old(db.profiles).schoolStaff && staffUser in old(db.accounts)
      && db.profiles == old(db.profiles).(schoolStaff := old(db.profiles).schoolStaff[staffUser :=
           old(db.profiles).schoolStaff[staffUser].(staffType := staffType)])
      && db.accounts == (if CanEditStaffGroups(old(db.profiles), Some(old(db.accounts)[uid].user), old(db.profiles).schoolStaff[staffUser])
                         then SetGroups(old(db.accounts), staffUser,
                                        ReplaceGroups(old(db.accounts)[staffUser].user.groups, SchoolScopeGroups, chosen))
                         else old(db.accounts))
    ensures r != StaffEditSaved ==> db.profiles == old(db.profiles) && db.accounts == old(db.accounts)
    ensures db.registrations == old(db.registrations) && db.documents == old(db.documents)
    ensures db.calls == old(db.calls) && db.nextPk == old(db.nextPk)
  {
    var u := db.accounts[uid].user;
    r := StaffEditDecision(db.profiles, u, staffUser, isPost, formValid);
    if r == StaffEditSaved {
      var staff := db.profiles.schoolStaff[staffUser];
      var canEditGroups := CanEditStaffGroups(db.profiles, Some(u), staff);
      db.profiles := db.profiles.(schoolStaff := db.profiles.schoolStaff[staffUser := staff.(staffType := staffType)]);
      if canEditGroups {
        db.accounts := SetGroups(db.accounts, staffUser,
                                 ReplaceGroups(db.accounts[staffUser].user.groups, SchoolScopeGroups, chosen));
      }
    }
  }

  // ---- system_user_edit -----------------------------------------------------

  datatype SystemEditOutcome =
    | SystemEditNoAccess
    | SystemEditDenied
    | SystemEditNotFound
    | SystemEditRefused
    | SystemEditPage
    | SystemEditSaved

  function SystemEditDecision(p: Profiles, u: User, target: UserId, isPost: bool, formValid: bool): (r: SystemEditOutcome)
    ensures r == SystemEditNoAccess <==> !HasAppAccess(p, Some(u))
    ensures r == SystemEditDenied <==> HasAppAccess(p, Some(u)) && !CanAccessSystemUsers(Some(u))
    ensures r == SystemEditSaved <==>
      (HasAppAccess(p, Some(u)) && CanAccessSystemUsers(Some(u)) && target in p.systemUsers
       && CanEditSystemUser(Some(u), p.systemUsers[target]) && isPost && formValid)
  {
    if RequireAppAccess(p, Some(u)) != CallView then SystemEditNoAccess
    else if !CanAccessSystemUsers(Some(u)) then SystemEditDenied
    else if target !in p.systemUsers then SystemEditNotFound
    else if !CanEditSystemUser(Some(u), p.systemUsers[target]) then SystemEditRefused
    else if isPost && formValid then SystemEditSaved
    else SystemEditPage
  }

  /** Only admins save system-user edits; System Staff alone reaches the page but is sent back. */
  lemma SystemEditNeedsAdmin(p: Profiles, u: User, target: UserId, formValid: bool)
    ensures SystemEditDecision(p, u, target, true, formValid) == SystemEditSaved ==> IsAdmin(Some(u))
    ensures u.authenticated && !u.superuser && u.groups == {SystemStaff} && HasAppAccess(p, Some(u)) && target in p.systemUsers
            ==> SystemEditDecision(p, u, target, true, formValid) == SystemEditRefused
  {
    if target in p.systemUsers {
      SystemUserEditIsAdmin(Some(u), p.systemUsers[target]);
    }
  }

  /**
   * `system_user_edit`: a valid POST sets organisation and position and, for
   * callers allowed to edit groups, replaces the system-level groups.
   */
  method SystemUserEdit(db: Database, uid: UserId, target: UserId, isPost: bool, formValid: bool,
                        organization: string, positionTitle: string, chosen: set<Group>) returns (r: SystemEditOutcome)
    requires db.Valid() && uid in db.accounts
    modifies db
    ensures db.Valid()
    ensures r == SystemEditDecision(old(db.profiles), old(db.accounts)[uid].user, target, isPost, formValid)
    ensures r == SystemEditSaved ==>
      target in old(db.profiles).systemUsers && target in old(db.accounts)
      && db.profiles == old(db.profiles).(systemUsers := old(db.profiles).systemUsers[target :=
           old(db.profiles).systemUsers[target].(organization := organization, positionTitle := positionTitle)])
      && db.accounts == (if CanEditSystemUserGroups(Some(old(db.accounts)[uid].user), old(db.profiles).systemUsers[target])
                         then SetGroups(old(db.accounts), target,
                                        ReplaceGroups(old(db.accounts)[target].user.groups, SystemScopeGroups, chosen))
                         else old(db.accounts))
    ensures r != SystemEditSaved ==> db.profiles == old(db.profiles) && db.accounts == old(db.accounts)
    ensures db.registrations == old(db.registrations) && db.documents == old(db.documents)
    ensures db.calls == old(db.calls) && db.nextPk == old(db.nextPk)
  {
    var u := db.accounts[uid].user;
    r := SystemEditDecision(db.profiles, u, target, isPost, formValid);
    if r == SystemEditSaved {
      var su := db.profiles.systemUsers[target];
      var canEditGroups := CanEditSystemUserGroups(Some(u), su);
      db.profiles := db.profiles.(systemUsers := db.profiles.systemUsers[target :=
        su.(organization := organization, positionTitle := positionTitle)]);
      if canEditGroups {
        db.accounts := SetGroups(db.accounts, target,
                                 ReplaceGroups(db.accounts[target].user.groups, SystemScopeGroups, chosen));
      }
    }
  }

  // ---- pending_users_list ---------------------------------------------------

  /** A signed-in user still waiting for a role: no profile, not a superuser, no registration in progress. */
  predicate PendingUser(p: Profiles, regs: seq<Registration>, a: Account) {
    a.user.id !in p.schoolStaff && a.user.id !in p.systemUsers && !a.user.superuser
    && forall x :: x in regs && x.user == a.user.id ==> !InProgress(x.status)
  }

  /** The stripped search: empty matches everyone, otherwise a case-insensitive substring of a name, the email or the username. */
  predicate UserMatchesSearch(a: Account, q: string) {
    q == "" || Contains(Lower(a.firstName), Lower(q)) || Contains(Lower(a.lastName), Lower(q))
    || Contains(Lower(a.email), Lower(q)) || Contains(Lower(a.username), Lower(q))
  }

  function PendingUserFilter(users: seq<Account>, p: Profiles, regs: seq<Registration>, q: string): (r: seq<Account>)
    ensures forall a :: a in r <==> a in users && PendingUser(p, regs, a) && UserMatchesSearch(a, q)
  {
    if users == [] then []
    else
      var rest := PendingUserFilter(users[1..], p, regs, q);
      assert forall a :: a in users <==> a == users[0] || a in users[1..];
      if PendingUser(p, regs, users[0]) && UserMatchesSearch(users[0], q) then [users[0]] + rest else rest
  }

  function JoinedNewestFirst(a: Account): (int, int) {
    (-a.dateJoined, 0)
  }

  /** The rows of `pending_users_list` for a stripped search, newest sign-up first, before pagination. */
  function PendingUsers(users: seq<Account>, p: Profiles, regs: seq<Registration>, q: string): (r: seq<Account>)
    ensures forall a :: a in r <==> a in users && PendingUser(p, regs, a) && UserMatchesSearch(a, q)
    ensures forall i, j :: 0 <= i < j < |r| ==> r[i].dateJoined >= r[j].dateJoined
  {
    var filtered := PendingUserFilter(users, p, regs, q);
    var sorted := SortBy(filtered, JoinedNewestFirst);
    forall a
      ensures a in sorted <==> a in filtered
    {
      SortBySameElements(filtered, JoinedNewestFirst, a);
    }
    assert forall i, j :: 0 <= i < j < |sorted| ==> KeyLe(JoinedNewestFirst(sorted[i]), JoinedNewestFirst(sorted[j]));
    sorted
  }

  /**
   * A profile-less, non-superuser account is on exactly one of the two waiting
   * lists: pending users, or (through a registration) pending registrations.
   */
  lemma PendingListsPartition(users: seq<Account>, p: Profiles, regs: seq<Registration>,
                              accounts: map<UserId, Account>, a: Account)
    requires a in users && !a.user.superuser && !HasProfile(p, a.user.id)
    ensures a in PendingUsers(users, p, regs, "") <==>
      !exists x :: x in RegistrationViews.PendingRegistrations(regs, accounts, "", "") && x.user == a.user.id
  {
    var listed := RegistrationViews.PendingRegistrations(regs, accounts, "", "");
    assert forall x :: x in listed <==> x in regs && InProgress(x.status);
  }

  datatype UsersOutcome = UsersNoAccess | UsersDenied | UsersListing(rows: seq<Account>, perPage: int)

  /** `pending_users_list` behind `require_app_access`, for managers only. */
  function PendingUsersList(p: Profiles, u: User, users: seq<Account>, regs: seq<Registration>,
                            rawQuery: string, perPage: RegistrationViews.PerPageParam): (r: UsersOutcome)
    ensures r == UsersNoAccess <==> !HasAppAccess(p, Some(u))
    ensures r.UsersListing? <==> HasAppAccess(p, Some(u)) && CanManagePendingUsers(Some(u))
    ensures r.UsersListing? ==>
      r.rows == PendingUsers(users, p, regs, Strip(rawQuery)) && r.perPage in RegistrationViews.PageSizeOptions
  {
    if RequireAppAccess(p, Some(u)) != CallView then UsersNoAccess
    else if !CanManagePendingUsers(Some(u)) then UsersDenied
    else UsersListing(PendingUsers(users, p, regs, Strip(rawQuery)), RegistrationViews.PerPage(perPage))
  }

  // ---- assign_school_staff / assign_system_user -----------------------------

  datatype AssignOutcome = AssignNoAccess | AssignDenied | AssignUserNotFound | AlreadyAssigned | AssignPage | Assigned

  /** The shared guard of both assign views; `already` says whether the target has that kind of profile. */
  function AssignDecision(p: Profiles, accounts: map<UserId, Account>, u: User, target: UserId, already: bool,
                          isPost: bool, formValid: bool): (r: AssignOutcome)
    ensures r == AssignNoAccess <==> !HasAppAccess(p, Some(u))
    ensures r == AlreadyAssigned <==>
      (HasAppAccess(p, Some(u)) && CanManagePendingUsers(Some(u)) && target in accounts && already)
    ensures r == Assigned <==>
      (HasAppAccess(p, Some(u)) && CanManagePendingUsers(Some(u)) && target in accounts && !already && isPost && formValid)
  {
    if RequireAppAccess(p, Some(u)) != CallView then AssignNoAccess
    else if !CanManagePendingUsers(Some(u)) then AssignDenied
    else if target !in accounts then AssignUserNotFound
    else if already then AlreadyAssigned
    else if isPost && formValid then Assigned
    else AssignPage
  }

  /** A newly assigned user is no longer pending, and has app access once any group is held. */
  lemma AssignedUserLeavesPending(p: Profiles, regs: seq<Registration>, a: Account, staff: SchoolStaff, groups: set<Group>)
    requires a.user.authenticated
    ensures var p2 := p.(schoolStaff := p.schoolStaff[a.user.id := staff]);
            var a2 := a.(user := a.user.(groups := a.user.groups + groups));
            !PendingUser(p2, regs, a2)
            && (a2.user.groups != {} ==> HasAppAccess(p2, Some(a2.user)))
  {
  }

  /**
   * `assign_school_staff`: a valid POST creates the SchoolStaff profile with
   * the chosen staff type and adds the chosen groups to the user.
   */
  method AssignSchoolStaff(db: Database, uid: UserId, target: UserId, isPost: bool, formValid: bool,
                           staffType: StaffType, groups: set<Group>) returns (r: AssignOutcome)
    requires db.Valid() && uid in db.accounts
    modifies db
    ensures db.Valid()
    ensures r == AssignDecision(old(db.profiles), old(db.accounts), old(db.accounts)[uid].user, target,
                                target in old(db.profiles).schoolStaff, isPost, formValid)
    ensures r == Assigned ==>
      target in old(db.accounts)
      && db.profiles == old(db.profiles).(schoolStaff := old(db.profiles).schoolStaff[target :=
           NewSchoolStaff(old(db.nextPk), target).(staffType := staffType)])
      && db.accounts == SetGroups(old(db.accounts), target, old(db.accounts)[target].user.groups + groups)
      && db.nextPk == old(db.nextPk) + 1
    ensures r != Assigned ==> db.profiles == old(db.profiles) && db.accounts == old(db.accounts) && db.nextPk == old(db.nextPk)
    ensures db.registrations == old(db.registrations) && db.documents == old(db.documents) && db.calls == old(db.calls)
  {
    var u := db.accounts[uid].user;
    r := AssignDecision(db.profiles, db.accounts, u, target, target in db.profiles.schoolStaff, isPost, formValid);
    if r == Assigned {
      var staff := NewSchoolStaff(db.nextPk, target).(staffType := staffType);
      db.profiles := db.profiles.(schoolStaff := db.profiles.schoolStaff[target := staff]);
      db.accounts := SetGroups(db.accounts, target, db.accounts[target].user.groups + groups);
      db.nextPk := db.nextPk + 1;
    }
  }

  /**
   * `assign_system_user`: a valid POST creates the SystemUser profile, with
   * organisation and position defaulting to "" when the form leaves them out,
   * and adds the chosen groups to the user.
   */
  method AssignSystemUser(db: Database, uid: UserId, target: UserId, isPost: bool, formValid: bool,
                          organization: Option<string>, positionTitle: Option<string>, groups: set<Group>)
    returns (r: AssignOutcome)
    requires db.Valid() && uid in db.accounts
    modifies db
    ensures db.Valid()
    ensures r == AssignDecision(old(db.profiles), old(db.accounts), old(db.accounts)[uid].user, target,
                                target in old(db.profiles).systemUsers, isPost, formValid)
    ensures r == Assigned ==>
      target in old(db.accounts)
      && db.profiles == old(db.profiles).(systemUsers := old(db.profiles).systemUsers[target :=
           SystemUser(old(db.nextPk), target, organization.GetOr(""), positionTitle.GetOr(""))])
      && db.accounts == SetGroups(old(db.accounts), target, old(db.accounts)[target].user.groups + groups)
      && db.nextPk == old(db.nextPk) + 1
    ensures r != Assigned ==> db.profiles == old(db.profiles) && db.accounts == old(db.accounts) && db.nextPk == old(db.nextPk)
    ensures db.registrations == old(db.registrations) && db.documents == old(db.documents) && db.calls == old(db.calls)
  {
    var u := db.accounts[uid].user;
    r := AssignDecision(db.profiles, db.accounts, u, target, target in db.profiles.systemUsers, isPost, formValid);
    if r == Assigned {
      var su := SystemUser(db.nextPk, target, organization.GetOr(""), positionTitle.GetOr(""));
      db.profiles := db.profiles.(systemUsers := db.profiles.systemUsers[target := su]);
      db.accounts := SetGroups(db.accounts, target, db.accounts[target].user.groups + groups);
      db.nextPk := db.nextPk + 1;
    }
  }

  // ---- delete_pending_user --------------------------------------------------

  datatype DeleteUserOutcome =
    | DeleteUserNoAccess
    | DeleteUserDenied
    | DeleteUserNotFound
    | TargetHasRole
    | CannotDeleteSelf
    | CannotDeleteSuperuser
    | DeleteUserPage
    | UserDeleted

  function DeleteUserDecision(p: Profiles, accounts: map<UserId, Account>, u: User, target: UserId, isPost: bool)
    : (r: DeleteUserOutcome)
    ensures r == DeleteUserNoAccess <==> !HasAppAccess(p, Some(u))
    ensures r == UserDeleted <==>
      (HasAppAccess(p, Some(u)) && CanManagePendingUsers(Some(u)) && target in accounts
       && !HasProfile(p, target) && target != u.id && !accounts[target].user.superuser && isPost)
    ensures r in {TargetHasRole, CannotDeleteSelf, CannotDeleteSuperuser} <==>
      (HasAppAccess(p, Some(u)) && CanManagePendingUsers(Some(u)) && target in accounts
       && (HasProfile(p, target) || target == u.id || accounts[target].user.superuser))
  {
    if RequireAppAccess(p, Some(u)) != CallView then DeleteUserNoAccess
    else if !CanManagePendingUsers(Some(u)) then DeleteUserDenied
    else if target !in accounts then DeleteUserNotFound
    else if HasProfile(p, target) then TargetHasRole
    else if target == u.id then CannotDeleteSelf
    else if accounts[target].user.superuser then CannotDeleteSuperuser
    else if isPost then UserDeleted
    else DeleteUserPage
  }

  /** The registrations of everyone but `user`, in their order. */
  function RegistrationsNotOf(regs: seq<Registration>, user: UserId): (r: seq<Registration>)
    ensures forall x :: x in r <==> x in regs && x.user != user
  {
    if regs == [] then []
    else
      var rest := RegistrationsNotOf(regs[1..], user);
      assert forall x :: x in regs <==> x == regs[0] || x in regs[1..];
      if regs[0].user == user then rest else [regs[0]] + rest
  }

  /** The primary keys of `user`'s registrations. */
  function RegistrationPksOf(regs: seq<Registration>, user: UserId): (r: set<nat>)
    ensures forall pk :: pk in r <==> exists x :: x in regs && x.user == user && x.pk == pk
  {
    set x | x in regs && x.user == user :: x.pk
  }

  /** The documents whose registration is not among `gone`, in their order. */
  function DocumentsNotOf(docs: seq<Document>, gone: set<nat>): (r: seq<Document>)
    ensures forall d :: d in r <==> d in docs && d.registration !in gone
  {
    if docs == [] then []
    else
      var rest := DocumentsNotOf(docs[1..], gone);
      assert forall d :: d in docs <==> d == docs[0] || d in docs[1..];
      if docs[0].registration in gone then rest else [docs[0]] + rest
  }

  /**
   * `delete_pending_user`: on POST the account goes, and with it (by the
   * foreign keys' cascade) the user's registrations and their documents.
   */
  method DeletePendingUser(db: Database, uid: UserId, target: UserId, isPost: bool) returns (r: DeleteUserOutcome)
    requires db.Valid() && uid in db.accounts
    modifies db
    ensures db.Valid()
    ensures r == DeleteUserDecision(old(db.profiles), old(db.accounts), old(db.accounts)[uid].user, target, isPost)
    ensures r == UserDeleted ==>
      db.accounts == old(db.accounts) - {target} && db.registrations == RegistrationsNotOf(old(db.registrations), target)
    ensures r == UserDeleted ==>
      db.documents == DocumentsNotOf(old(db.documents), RegistrationPksOf(old(db.registrations), target))
    ensures r != UserDeleted ==>
      db.accounts == old(db.accounts) && db.registrations == old(db.registrations) && db.documents == old(db.documents)
    ensures uid in db.accounts
    ensures db.profiles == old(db.profiles)
    ensures db.calls == old(db.calls) && db.nextPk == old(db.nextPk)
  {
    var u := db.accounts[uid].user;
    r := DeleteUserDecision(db.profiles, db.accounts, u, target, isPost);
    if r == UserDeleted {
      db.documents := DocumentsNotOf(db.documents, RegistrationPksOf(db.registrations, target));
      db.accounts := db.accounts - {target};
      db.registrations := RegistrationsNotOf(db.registrations, target);
    }
  }

  // ---- staff_delete ---------------------------------------------------------

  datatype StaffDeleteOutcome =
    | StaffDeleteNoAccess
    | StaffDeleteDenied
    | StaffDeleteNotFound
    | CannotDeleteOwnProfile
    | StaffDeletePage
    | StaffDeleted

  function StaffDeleteDecision(p: Profiles, u: User, staffUser: UserId, isPost: bool): (r: StaffDeleteOutcome)
    ensures r == StaffDeleteNoAccess <==> !HasAppAccess(p, Some(u))
    ensures r == CannotDeleteOwnProfile <==>
      (HasAppAccess(p, Some(u)) && CanManagePendingUsers(Some(u)) && staffUser in p.schoolStaff && staffUser == u.id)
    ensures r == StaffDeleted <==>
      (HasAppAccess(p, Some(u)) && CanManagePendingUsers(Some(u)) && staffUser in p.schoolStaff && staffUser != u.id && isPost)
  {
    if RequireAppAccess(p, Some(u)) != CallView then StaffDeleteNoAccess
    else if !CanManagePendingUsers(Some(u)) then StaffDeleteDenied
    else if staffUser !in p.schoolStaff then StaffDeleteNotFound
    else if staffUser == u.id then CannotDeleteOwnProfile
    else if isPost then StaffDeleted
    else StaffDeletePage
  }

  /** The account of a deleted staff member with no other role and no registration in progress is pending again. */
  lemma DeletedStaffBecomesPending(p: Profiles, regs: seq<Registration>, a: Account)
    requires a.user.id !in p.systemUsers && !a.user.superuser
    requires forall x :: x in regs && x.user == a.user.id ==> !InProgress(x.status)
    ensures PendingUser(WithoutStaff(p, a.user.id), regs, a)
  {
  }

  /** `staff_delete`: on POST the SchoolStaff profile and its assignments go; the account stays. */
  method StaffDelete(db: Database, uid: UserId, staffUser: UserId, isPost: bool) returns (r: StaffDeleteOutcome)
    requires db.Valid() && uid in db.accounts
    modifies db
    ensures db.Valid()
    ensures r == StaffDeleteDecision(old(db.profiles), old(db.accounts)[uid].user, staffUser, isPost)
    ensures r == StaffDeleted ==> db.profiles == WithoutStaff(old(db.profiles), staffUser)
    ensures r != StaffDeleted ==> db.profiles == old(db.profiles)
    ensures db.accounts == old(db.accounts) && db.registrations == old(db.registrations)
    ensures db.documents == old(db.documents) && db.calls == old(db.calls) && db.nextPk == old(db.nextPk)
  {
    var u := db.accounts[uid].user;
    r := StaffDeleteDecision(db.profiles, u, staffUser, isPost);
    if r == StaffDeleted {
      AssignmentsNotOfKeepsDistinct(AsWritten, db.profiles.assignments, staffUser);
      db.profiles := WithoutStaff(db.profiles, staffUser);
    }
  }
}
