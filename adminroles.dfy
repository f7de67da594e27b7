/**
 * The role columns of the user admin in core/admin.py: the "Role Status"
 * column of `CustomUserAdmin` and the "role assignment" list filter
 * `HasRoleFilter`, both decided by which profiles a user has.
 */
module AdminRoles {
  import opened Wrappers
  import opened Registry

  datatype RoleStatus = BothRoles | SchoolStaffOnly | SystemUserOnly | NoRole

  /** `role_status`: which of the two profiles the user has. */
  function RoleStatusOf(profiles: Profiles, user: UserId): (r: RoleStatus)
    ensures r == BothRoles || r == SchoolStaffOnly <==> user in profiles.schoolStaff
    ensures r == BothRoles || r == SystemUserOnly <==> user in profiles.systemUsers
  {
    var hasSchoolStaff := user in profiles.schoolStaff;
    var hasSystemUser := user in profiles.systemUsers;
    if hasSchoolStaff && hasSystemUser then BothRoles
    else if hasSchoolStaff then SchoolStaffOnly
    else if hasSystemUser then SystemUserOnly
    else NoRole
  }

  /** The text the column shows for each status. */
  function RoleLabel(r: RoleStatus): string {
    match r
    case BothRoles => "⚠ Both roles"
    case SchoolStaffOnly => "✓ School Staff"
    case SystemUserOnly => "✓ System User"
    case NoRole => "✗ No role"
  }

  /** The column tells the four cases apart. */
  lemma RoleLabelsDistinct(r: RoleStatus, s: RoleStatus)
    requires r != s
    ensures RoleLabel(r) != RoleLabel(s)
  {
    assert RoleLabel(r)[0] != RoleLabel(s)[0] || RoleLabel(r)[3] != RoleLabel(s)[3];
  }

  /** The conditions the filter's `queryset.filter` calls put on a user. */
  datatype Condition = NoProfile | WithSchoolStaff | WithSystemUser | WithBoth

  predicate Satisfies(profiles: Profiles, user: UserId, c: Condition) {
    match c
    case NoProfile => user !in profiles.schoolStaff && user !in profiles.systemUsers
    case WithSchoolStaff => user in profiles.schoolStaff
    case WithSystemUser => user in profiles.systemUsers
    case WithBoth => user in profiles.schoolStaff && user in profiles.systemUsers
  }

  /** `queryset.filter(...)`: the users meeting the condition, in the queryset's order. */
  function Keep(users: seq<UserId>, profiles: Profiles, c: Condition): (r: seq<UserId>)
    ensures forall u :: u in r <==> u in users && Satisfies(profiles, u, c)
    ensures |r| <= |users|
  {
    if users == [] then []
    else
      var rest := Keep(users[1..], profiles, c);
      if Satisfies(profiles, users[0], c) then [users[0]] + rest else rest
  }

  /** The filter's parameter value named by each choice it offers, if any. */
  function ConditionFor(value: Option<string>): Option<Condition> {
    if value == Some("no_role") then Some(NoProfile)
    else if value == Some("school_staff") then Some(WithSchoolStaff)
    else if value == Some("system_user") then Some(WithSystemUser)
    else if value == Some("both") then Some(WithBoth)
    else None
  }

  /** `HasRoleFilter.queryset`: the users the chosen value keeps; any other value keeps the queryset as it is. */
  function FilterUsers(value: Option<string>, users: seq<UserId>, profiles: Profiles): seq<UserId> {
    match ConditionFor(value)
    case Some(c) => Keep(users, profiles, c)
    case None => users
  }

  /** "no_role" keeps exactly the users with neither profile. */
  lemma NoRoleKeepsUnassigned(users: seq<UserId>, profiles: Profiles, u: UserId)
    ensures u in FilterUsers(Some("no_role"), users, profiles)
      <==> u in users && RoleStatusOf(profiles, u) == NoRole
  {
  }

  /** Each listed user falls under exactly the filter choices its role status says. */
  lemma FilterAgreesWithStatus(users: seq<UserId>, profiles: Profiles, u: UserId)
    requires u in users
    ensures u in FilterUsers(Some("school_staff"), users, profiles)
      <==> RoleStatusOf(profiles, u) in {BothRoles, SchoolStaffOnly}
    ensures u in FilterUsers(Some("system_user"), users, profiles)
      <==> RoleStatusOf(profiles, u) in {BothRoles, SystemUserOnly}
    ensures u in FilterUsers(Some("both"), users, profiles) <==> RoleStatusOf(profiles, u) == BothRoles
  {
  }

  /** "both" is "system_user" applied to the result of "school_staff", order included. */
  lemma {:induction false} BothIsIntersection(users: seq<UserId>, profiles: Profiles)
    ensures FilterUsers(Some("both"), users, profiles)
      == FilterUsers(Some("system_user"), FilterUsers(Some("school_staff"), users, profiles), profiles)
  {
    if users != [] {
      BothIsIntersection(users[1..], profiles);
    }
  }

  /** A value the filter does not offer, or no value, leaves the queryset unchanged. */
  lemma UnknownValueKeepsAll(value: Option<string>, users: seq<UserId>, profiles: Profiles)
    requires value !in {Some("no_role"), Some("school_staff"), Some("system_user"), Some("both")}
    ensures FilterUsers(value, users, profiles) == users
  {
  }
}
