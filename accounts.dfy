/**
 * Sign-in routing of accounts/views.py: where a user goes after logging in,
 * which "next" URL is honoured, and what the session keeps of it.
 *
 * The host check `url_has_allowed_host_and_scheme` is a parameter `safe`:
 * whatever the request's host and scheme make of a URL is fixed for one
 * request, so the model only needs it as a test on strings.
 */
module Accounts {
  import opened Wrappers
  import opened Text
  import opened Registry
  import opened Permissions
  import opened Registrations
  import RegistrationViews

  /** Where a view sends the browser. */
  datatype Target =
    | ToUrl(url: string)
    | ToDashboard
    | ToMyRegistration
    | ToEditRegistration(pk: nat)
    | ToNoPermissions
    | ToLogin

  /** The session entries these views read and write. */
  class Session {
    /** `session["next"]`, where the OAuth flow leaves the page to come back to. */
    var next: Option<string>
    /** The user `login` attaches to the session. */
    var user: Option<UserId>

    constructor (next: Option<string>, user: Option<UserId>)
      ensures this.next == next && this.user == user
    {
      this.next := next;
      this.user := user;
    }
  }

  // ---- _get_safe_redirect_url -----------------------------------------------

  /** `GET next or session next`: an empty or absent GET value falls through to the session. */
  function CandidateNext(getNext: string, sessionNext: Option<string>): (r: string)
    ensures getNext != "" ==> r == getNext
    ensures getNext == "" ==> r == sessionNext.GetOr("")
  {
    if getNext != "" then getNext else sessionNext.GetOr("")
  }

  /** The redirect URL the request offers, when it is non-empty and passes the host check. */
  function SafeRedirect(getNext: string, sessionNext: Option<string>, safe: string -> bool): (r: Option<string>)
    ensures r.Some? ==> r.value != "" && safe(r.value)
    ensures r.Some? ==> r.value == getNext || (getNext == "" && sessionNext == Some(r.value))
    ensures getNext != "" ==> (r.Some? <==> safe(getNext))
    ensures getNext == "" && sessionNext.Some? && sessionNext.value != "" ==> (r.Some? <==> safe(sessionNext.value))
    ensures getNext == "" && (sessionNext.None? || sessionNext == Some("")) ==> r.None?
  {
    var url := CandidateNext(getNext, sessionNext);
    if url != "" && safe(url) then Some(url) else None
  }

  /** An unsafe GET value is refused outright: it does not fall back to the session's URL. */
  lemma UnsafeGetNextHidesSessionNext(getNext: string, sessionNext: Option<string>, safe: string -> bool)
    requires getNext != "" && !safe(getNext)
    ensures SafeRedirect(getNext, sessionNext, safe) == None
  {
  }

  /** `_get_safe_redirect_url`: the session's "next" is consumed only when a URL is returned. */
  method TakeSafeRedirect(session: Session, getNext: string, safe: string -> bool) returns (r: Option<string>)
    modifies session
    ensures r == SafeRedirect(getNext, old(session.next), safe)
    ensures session.next == (if r.Some? then None else old(session.next))
    ensures session.user == old(session.user)
  {
    var url := CandidateNext(getNext, session.next);
    if url != "" && safe(url) {
      if session.next.Some? {
        session.next := None;
      }
      return Some(url);
    }
    return None;
  }

  // ---- _get_user_active_registration_url ------------------------------------

  const ActiveStatuses: set<Status> := {Draft, Submitted, UnderReview, Rejected}

  /** The newest in-progress registration decides: rejected goes to the history page, the others to their edit page. */
  function ActiveRegistrationTarget(regs: seq<Registration>, user: UserId): (r: Option<Target>)
    ensures r.None? <==> forall x :: x in regs && x.user == user ==> !InProgress(x.status)
    ensures r.Some? ==> r.value == ToMyRegistration || r.value.ToEditRegistration?
    ensures r.Some? ==> exists x :: (x in regs && x.user == user && InProgress(x.status)
      && (forall y :: y in regs && y.user == user && InProgress(y.status) ==> y.createdAt <= x.createdAt)
      && (r.value == ToMyRegistration <==> x.status == Rejected)
      && (r.value.ToEditRegistration? ==> r.value.pk == x.pk))
  {
    match RegistrationViews.Newest(regs, user, ActiveStatuses)
    case None => None
    case Some(x) =>
      if x.status == Rejected then Some(ToMyRegistration) else Some(ToEditRegistration(x.pk))
  }

  // ---- post_login_router ----------------------------------------------------

  /** A "next" URL that belongs to the registration flow. */
  predicate RegistrationFlow(next: Option<string>) {
    next.Some? && next.value != "" && Contains(next.value, "registration")
  }

  /**
   * The router's priority for a signed-in user, given the safe "next" URL:
   * app access, then a registration-flow URL, then an active registration,
   * then an approved teacher's status page, then the no-permissions page.
   */
  function RouteAfterLogin(p: Profiles, regs: seq<Registration>, u: User, next: Option<string>): (r: Target)
    requires u.authenticated
    ensures HasAppAccess(p, Some(u)) ==> r == (if next.Some? && next.value != "" then ToUrl(next.value) else ToDashboard)
    ensures !HasAppAccess(p, Some(u)) && RegistrationFlow(next) ==> r == ToUrl(next.value)
    ensures r.ToUrl? ==> next == Some(r.url) && (HasAppAccess(p, Some(u)) || Contains(r.url, "registration"))
    ensures !HasAppAccess(p, Some(u)) && !RegistrationFlow(next) ==>
      r == ActiveRegistrationTarget(regs, u.id).GetOr(if u.id in p.schoolStaff then ToMyRegistration else ToNoPermissions)
    ensures r == ToNoPermissions <==> (!HasAppAccess(p, Some(u)) && !RegistrationFlow(next)
      && u.id !in p.schoolStaff && forall x :: x in regs && x.user == u.id ==> !InProgress(x.status))
    ensures r != ToLogin
  {
    if HasAppAccess(p, Some(u)) then
      if next.Some? && next.value != "" then ToUrl(next.value) else ToDashboard
    else if RegistrationFlow(next) then ToUrl(next.value)
    else match ActiveRegistrationTarget(regs, u.id)
      case Some(t) => t
      case None => if u.id in p.schoolStaff then ToMyRegistration else ToNoPermissions
  }

  /** A user without app access never leaves the router for a URL outside the registration flow. */
  lemma NoAccessStaysInRegistrationFlow(p: Profiles, regs: seq<Registration>, u: User, getNext: string,
                                        sessionNext: Option<string>, safe: string -> bool)
    requires u.authenticated && !HasAppAccess(p, Some(u))
    ensures var r := RouteAfterLogin(p, regs, u, SafeRedirect(getNext, sessionNext, safe));
            r.ToUrl? ==> safe(r.url) && Contains(r.url, "registration")
  {
  }

  /** `post_login_router`, behind `login_required`. */
  method PostLoginRouter(session: Session, p: Profiles, regs: seq<Registration>, u: User, getNext: string,
                         safe: string -> bool) returns (r: Target)
    modifies session
    ensures !u.authenticated ==> r == ToLogin && session.next == old(session.next)
    ensures u.authenticated ==> r == RouteAfterLogin(p, regs, u, SafeRedirect(getNext, old(session.next), safe))
    ensures u.authenticated ==>
      session.next == (if SafeRedirect(getNext, old(session.next), safe).Some? then None else old(session.next))
    ensures session.user == old(session.user)
  {
    if !u.authenticated {
      return ToLogin;
    }
    var next := TakeSafeRedirect(session, getNext, safe);
    if HasAppAccess(p, Some(u)) {
      return if next.Some? then ToUrl(next.value) else ToDashboard;
    }
    if next.Some? && Contains(next.value, "registration") {
      return ToUrl(next.value);
    }
    var registration := ActiveRegistrationTarget(regs, u.id);
    if registration.Some? {
      return registration.value;
    }
    if u.id in p.schoolStaff {
      return ToMyRegistration;
    }
    return ToNoPermissions;
  }

  // ---- sign_in --------------------------------------------------------------

  datatype SignInOutcome =
    | Redirect(target: Target)
    /** The login page, with the "next" it carries and whether the registration-flow banner shows. */
    | LoginPage(next: string, registrationFlow: bool, failed: bool)

  /**
   * `sign_in`. `getNext` and `postNext` are the query and form "next" values
   * ("" when absent); `authenticated` is what `authenticate` returned for the
   * posted credentials.
   */
  function SignInDecision(u: User, isPost: bool, authenticated: Option<UserId>, getNext: string, postNext: string,
                          safe: string -> bool): (r: SignInOutcome)
    ensures u.authenticated ==> r.Redirect? && (r.target == ToUrl(getNext) <==> getNext != "" && safe(getNext))
    ensures u.authenticated && !(getNext != "" && safe(getNext)) ==> r == Redirect(ToDashboard)
    ensures !u.authenticated && isPost && authenticated.Some? ==>
      r == Redirect(if postNext != "" then ToUrl(postNext) else if getNext != "" then ToUrl(getNext) else ToDashboard)
    ensures r.LoginPage? <==> !u.authenticated && !(isPost && authenticated.Some?)
    ensures r.LoginPage? ==> (r.next == getNext && r.failed == isPost
      && (r.registrationFlow <==> getNext != "" && Contains(getNext, "registration")))
  {
    if u.authenticated then
      if getNext != "" && safe(getNext) then Redirect(ToUrl(getNext)) else Redirect(ToDashboard)
    else if isPost && authenticated.Some? then
      var next := if postNext != "" then postNext else getNext;
      Redirect(if next != "" then ToUrl(next) else ToDashboard)
    else
      LoginPage(getNext, if getNext != "" then Contains(getNext, "registration") else false, isPost)
  }

  /** A signed-in user is only ever sent to a URL that passes the host check. */
  lemma SignedInRedirectIsSafe(u: User, isPost: bool, authenticated: Option<UserId>, getNext: string,
                               postNext: string, safe: string -> bool)
    requires u.authenticated
    ensures var r := SignInDecision(u, isPost, authenticated, getNext, postNext, safe);
            r.target.ToUrl? ==> safe(r.target.url)
  {
  }

  /** After a password login the posted "next" is followed whether or not it passes the host check. */
  lemma PasswordLoginSkipsHostCheck(u: User, id: UserId, getNext: string, postNext: string, safe: string -> bool)
    requires !u.authenticated && postNext != "" && !safe(postNext)
    ensures SignInDecision(u, true, Some(id), getNext, postNext, safe) == Redirect(ToUrl(postNext))
  {
  }

  /** `sign_in` with its session effects: `login` on success, and a non-empty "next" kept for the OAuth round trip. */
  method SignIn(session: Session, u: User, isPost: bool, authenticated: Option<UserId>, getNext: string,
                postNext: string, safe: string -> bool) returns (r: SignInOutcome)
    modifies session
    ensures r == SignInDecision(u, isPost, authenticated, getNext, postNext, safe)
    ensures session.user == (if !u.authenticated && isPost && authenticated.Some? then authenticated else old(session.user))
    ensures session.next == (if r.LoginPage? && getNext != "" then Some(getNext) else old(session.next))
  {
    r := SignInDecision(u, isPost, authenticated, getNext, postNext, safe);
    if r.Redirect? {
      if !u.authenticated {
        session.user := authenticated;
      }
      return;
    }
    if getNext != "" {
      session.next := Some(getNext);
    }
  }
}
