/**
 * The allauth adapters of accounts/account_adapter.py: open signup, the
 * signup email-domain restriction, and the social-login username rule.
 */
module AccountAdapter {
  import opened Wrappers
  import opened Text

  /** The fields of the new user the adapters touch, and whether it has been written to the database. */
  class NewUser {
    var username: string
    var email: string
    var saved: bool

    constructor (username: string, email: string)
      ensures this.username == username && this.email == email && !saved
    {
      this.username := username;
      this.email := email;
      this.saved := false;
    }
  }

  /** `is_open_for_signup`: signup is never closed. */
  function OpenForSignup(): (r: bool)
    ensures r
  {
    true
  }

  /** Some domain of the list, lowercased and prefixed with "@", ends the lowercased email. */
  function AnyDomainMatches(email: string, domains: seq<string>): (r: bool)
    ensures r <==> exists i :: 0 <= i < |domains| && EndsWith(Lower(email), "@" + Lower(domains[i]))
  {
    if domains == [] then false
    else if EndsWith(Lower(email), "@" + Lower(domains[0])) then true
    else
      var rest := AnyDomainMatches(email, domains[1..]);
      assert forall i :: 1 <= i < |domains| ==> domains[i] == domains[1..][i - 1];
      rest
  }

  /**
   * The domain test of `save_user`: with `ALLOWED_SIGNUP_DOMAINS` unset or
   * empty every email passes; otherwise the email must end in one of them.
   * A user without an email is checked as "".
   */
  function DomainAllowed(email: Option<string>, allowed: Option<seq<string>>): (r: bool)
    ensures allowed.None? || allowed == Some([]) ==> r
    ensures allowed.Some? && allowed.value != [] ==>
      (r <==> exists i :: 0 <= i < |allowed.value| && EndsWith(Lower(email.GetOr("")), "@" + Lower(allowed.value[i])))
  {
    if allowed.None? || allowed.value == [] then true
    else AnyDomainMatches(email.GetOr(""), allowed.value)
  }

  lemma LowerTwice(s: string)
    ensures Lower(Lower(s)) == Lower(s)
  {
    assert forall i :: 0 <= i < |s| ==> Lower(Lower(s))[i] == Lower(s)[i];
  }

  /** Case does not matter on either side: a lowercased email passes exactly when the original does. */
  lemma DomainCheckIgnoresCase(email: string, allowed: Option<seq<string>>)
    ensures DomainAllowed(Some(Lower(email)), allowed) == DomainAllowed(Some(email), allowed)
  {
    LowerTwice(email);
  }

  /** A restricted list never admits an email that lacks an "@". */
  lemma RestrictedNeedsAt(email: string, allowed: seq<string>)
    requires allowed != [] && forall i :: 0 <= i < |email| ==> email[i] != '@'
    ensures !DomainAllowed(Some(email), Some(allowed))
  {
    forall i | 0 <= i < |allowed|
      ensures !EndsWith(Lower(email), "@" + Lower(allowed[i]))
    {
      var suffix := "@" + Lower(allowed[i]);
      if |suffix| <= |email| {
        assert Lower(email)[|email| - |suffix|] != suffix[0];
      }
    }
  }

  datatype SaveOutcome = PermissionDenied | SavedUser

  /**
   * `DomainRestrictedAdapter.save_user`, after allauth has filled in the user
   * from the form: a refused domain raises and nothing is written; otherwise
   * the user is written only when `commit` is set.
   */
  method SaveUser(user: NewUser, emailSet: bool, allowed: Option<seq<string>>, commit: bool) returns (r: SaveOutcome)
    modifies user
    ensures r == PermissionDenied <==> !DomainAllowed(if emailSet then Some(old(user.email)) else None, allowed)
    ensures user.saved == (old(user.saved) || (r == SavedUser && commit))
    ensures user.username == old(user.username) && user.email == old(user.email)
  {
    var email := if emailSet then Some(user.email) else None;
    if !DomainAllowed(email, allowed) {
      return PermissionDenied;
    }
    if commit {
      user.saved := true;
    }
    return SavedUser;
  }

  /** `EmailAsUsernameSocialAdapter.populate_user`: a non-empty provider email becomes both username and email. */
  method PopulateUser(user: NewUser, providerEmail: Option<string>)
    modifies user
    ensures providerEmail.Some? && providerEmail.value != "" ==>
      user.username == providerEmail.value && user.email == providerEmail.value
    ensures !(providerEmail.Some? && providerEmail.value != "") ==>
      user.username == old(user.username) && user.email == old(user.email)
    ensures user.saved == old(user.saved)
  {
    if providerEmail.Some? && providerEmail.value != "" {
      user.username := providerEmail.value;
      user.email := providerEmail.value;
    }
  }
}
