/**
 * The view decorators of core/decorators.py: each wrapper either redirects
 * to the no-permissions page, refuses with PermissionDenied, or calls the
 * wrapped view.
 */
module Decorators {
  import opened Wrappers
  import opened Registry
  import opened Permissions

  datatype Outcome = RedirectNoPermissions | PermissionDenied | CallView

  /** `require_app_access`: the view runs exactly for users with app access. */
  function RequireAppAccess(p: Profiles, u: Option<User>): (r: Outcome)
    ensures r == CallView <==> HasAppAccess(p, u)
    ensures r != CallView ==> r == RedirectNoPermissions
  {
    if !HasAppAccess(p, u) then RedirectNoPermissions else CallView
  }

  /** `require_role_and_group(*allowed)`: app access first, then superuser, then any allowed group. */
  function RequireRoleAndGroup(p: Profiles, u: Option<User>, allowed: set<Group>): (r: Outcome)
    ensures !HasAppAccess(p, u) ==> r == RedirectNoPermissions
    ensures HasAppAccess(p, u) && u.value.superuser ==> r == CallView
    ensures HasAppAccess(p, u) && !u.value.superuser ==>
      (r == CallView <==> exists g :: g in allowed && g in u.value.groups)
    ensures HasAppAccess(p, u) && !u.value.superuser && r != CallView ==> r == PermissionDenied
  {
    if !HasAppAccess(p, u) then RedirectNoPermissions
    else if u.value.superuser then CallView
    else if allowed * u.value.groups == {} then
      assert forall g :: g in allowed && g in u.value.groups ==> g in allowed * u.value.groups;
      PermissionDenied
    else
      assert exists g :: g in allowed * u.value.groups;
      CallView
  }

  /** The role decorator never lets through anyone the app-access decorator would stop. */
  lemma RoleDecoratorIsNarrower(p: Profiles, u: Option<User>, allowed: set<Group>)
    ensures RequireRoleAndGroup(p, u, allowed) == CallView ==> RequireAppAccess(p, u) == CallView
    ensures RequireAppAccess(p, u) == RedirectNoPermissions ==> RequireRoleAndGroup(p, u, allowed) == RedirectNoPermissions
  {
  }
}
