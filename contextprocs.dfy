/**
 * `staff_context` of core/context_processors.py: the template variables that
 * link the signed-in user to their own profile page. A SchoolStaff profile
 * wins over a SystemUser profile, which wins over the admin user page that
 * superusers and staff accounts fall back to.
 */
module ContextProcessors {
  import opened Wrappers
  import opened Registry
  import opened Permissions

  /** The pages the context can link to, by route name and argument (what `reverse` is given). */
  datatype ProfileUrl =
    | StaffDetail(staffPk: nat)
    | SystemUserDetail(systemUserPk: nat)
    | AdminUserChange(userId: UserId)

  /** The three context keys: `staff_pk_for_request_user`, `system_user_pk_for_request_user`, `user_profile_url`. */
  datatype StaffContext = StaffContext(staffPk: Option<nat>, systemUserPk: Option<nat>, profileUrl: Option<ProfileUrl>)

  const EmptyContext := StaffContext(None, None, None)

  /** The context for `user`, whose `is_staff` flag is `isStaff`, over the profile tables. */
  function ProfileContext(user: User, isStaff: bool, profiles: Profiles): StaffContext {
    if !user.authenticated then EmptyContext
    else if user.id in profiles.schoolStaff then
      var pk := profiles.schoolStaff[user.id].pk;
      StaffContext(Some(pk), None, Some(StaffDetail(pk)))
    else if user.id in profiles.systemUsers then
      var pk := profiles.systemUsers[user.id].pk;
      StaffContext(None, Some(pk), Some(SystemUserDetail(pk)))
    else if user.superuser || isStaff then StaffContext(None, None, Some(AdminUserChange(user.id)))
    else EmptyContext
  }

  /**
   * The context processor as it runs: every key starts as None, then the
   * profile lookups fill in keys and return early.
   */
  method StaffContextFor(user: User, isStaff: bool, profiles: Profiles) returns (context: StaffContext)
    ensures context == ProfileContext(user, isStaff, profiles)
  {
    context := EmptyContext;
    if user.authenticated {
      if user.id in profiles.schoolStaff {
        var staff := profiles.schoolStaff[user.id];
        context := context.(staffPk := Some(staff.pk));
        context := context.(profileUrl := Some(StaffDetail(staff.pk)));
        return;
      }
      if user.id in profiles.systemUsers {
        var systemUser := profiles.systemUsers[user.id];
        context := context.(systemUserPk := Some(systemUser.pk));
        context := context.(profileUrl := Some(SystemUserDetail(systemUser.pk)));
        return;
      }
      if user.superuser || isStaff {
        context := context.(profileUrl := Some(AdminUserChange(user.id)));
      }
    }
  }

  /** An anonymous visitor gets None for all three keys. */
  lemma AnonymousGetsNothing(user: User, isStaff: bool, profiles: Profiles)
    requires !user.authenticated
    ensures ProfileContext(user, isStaff, profiles).staffPk == None
    ensures ProfileContext(user, isStaff, profiles).systemUserPk == None
    ensures ProfileContext(user, isStaff, profiles).profileUrl == None
  {
  }

  /** A SchoolStaff profile takes priority: its key and its detail page are set, and the system-user key stays None, whatever else the user has. */
  lemma SchoolStaffFirst(user: User, isStaff: bool, profiles: Profiles)
    requires user.authenticated && user.id in profiles.schoolStaff
    ensures var pk := profiles.schoolStaff[user.id].pk;
      ProfileContext(user, isStaff, profiles) == StaffContext(Some(pk), None, Some(StaffDetail(pk)))
  {
  }

  /** Without a SchoolStaff profile, a SystemUser profile gives its key and its detail page. */
  lemma SystemUserSecond(user: User, isStaff: bool, profiles: Profiles)
    requires user.authenticated && user.id !in profiles.schoolStaff && user.id in profiles.systemUsers
    ensures var pk := profiles.systemUsers[user.id].pk;
      ProfileContext(user, isStaff, profiles) == StaffContext(None, Some(pk), Some(SystemUserDetail(pk)))
  {
  }

  /** Without either profile, only superusers and staff accounts get a link, to their admin user page. */
  lemma AdminFallback(user: User, isStaff: bool, profiles: Profiles)
    requires user.authenticated && user.id !in profiles.schoolStaff && user.id !in profiles.systemUsers
    ensures ProfileContext(user, isStaff, profiles).staffPk == None
    ensures ProfileContext(user, isStaff, profiles).systemUserPk == None
    ensures ProfileContext(user, isStaff, profiles).profileUrl == Some(AdminUserChange(user.id)) <==> user.superuser || isStaff
    ensures ProfileContext(user, isStaff, profiles).profileUrl == None <==> !(user.superuser || isStaff)
  {
  }

  /**
   * Over all inputs: at most one profile key is set, a set key always comes
   * with the link to that profile, and there is a link exactly when a signed-in
   * user has a profile or is a superuser or a staff account.
   */
  lemma ContextShape(user: User, isStaff: bool, profiles: Profiles)
    ensures var c := ProfileContext(user, isStaff, profiles);
      (c.staffPk == None || c.systemUserPk == None)
      && (c.staffPk.Some? ==> c.profileUrl == Some(StaffDetail(c.staffPk.value)))
      && (c.systemUserPk.Some? ==> c.profileUrl == Some(SystemUserDetail(c.systemUserPk.value)))
      && (c.profileUrl.Some? <==>
            (user.authenticated
             && (user.id in profiles.schoolStaff || user.id in profiles.systemUsers || user.superuser || isStaff)))
  {
  }
}
