/**
 * The database the view handlers read and change: user accounts with their
 * groups, the profile tables, registrations, registration documents and the
 * trace of calls into registration model methods.
 */
module Store {
  import opened Wrappers
  import opened Registry
  import opened Permissions
  import opened Registrations

  /** A stored user account; `user` is what the permission predicates see. */
  datatype Account = Account(
    user: User,
    username: string,
    email: string,
    firstName: string,
    lastName: string,
    isStaff: bool,
    dateJoined: int)

  /**
   * The foreign keys and constraints of the profile tables: each profile
   * belongs to an existing account, each assignment to an existing SchoolStaff
   * row, assignment ids are distinct, no two assignments break
   * `uq_school_staff_assignment` as the database enforces it, and every
   * assignment id is below `nextPk`.
   */
  predicate ProfilesConsistent(accounts: map<UserId, Account>, p: Profiles, nextPk: nat) {
    (forall id :: id in p.schoolStaff ==> id in accounts && p.schoolStaff[id].user == id)
    && (forall id :: id in p.systemUsers ==> id in accounts && p.systemUsers[id].user == id)
    && (forall a :: a in p.assignments ==> a.staffUser in p.schoolStaff && a.id < nextPk)
    && KeysDistinct(AsWritten, p.assignments) && IdsDistinct(p.assignments)
  }

  class Database {
    var accounts: map<UserId, Account>
    var profiles: Profiles
    var registrations: seq<Registration>
    var documents: seq<Document>
    /** The calls the views made into registration model methods, oldest first. */
    var calls: seq<ModelCall>
    /** The next free primary key for registrations and documents. */
    var nextPk: nat

    /**
     * Accounts are stored under their own id and are signed-in users; profiles
     * point at existing accounts; assignments keep the database's constraint; keys below `nextPk`
     * are taken.
     */
    ghost predicate Valid()
      reads this
    {
      (forall id :: id in accounts ==> accounts[id].user.id == id && accounts[id].user.authenticated)
      && ProfilesConsistent(accounts, profiles, nextPk)
      && (forall r :: r in registrations ==> r.pk < nextPk && r.user in accounts)
      && (forall d :: d in documents ==> d.pk < nextPk)
    }

    constructor (accounts: map<UserId, Account>, profiles: Profiles, nextPk: nat)
      requires forall id :: id in accounts ==> accounts[id].user.id == id && accounts[id].user.authenticated
      requires ProfilesConsistent(accounts, profiles, nextPk)
      ensures Valid()
      ensures this.accounts == accounts && this.profiles == profiles
      ensures registrations == [] && documents == [] && calls == [] && this.nextPk == nextPk
    {
      this.accounts := accounts;
      this.profiles := profiles;
      registrations := [];
      documents := [];
      calls := [];
      this.nextPk := nextPk;
    }
  }
}
