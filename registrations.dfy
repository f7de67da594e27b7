/**
 * The registration records the teacher-registration views read and write:
 * TeacherRegistration, RegistrationDocument and the change-log entry. The
 * models' own methods (`submit`, `start_review`, `approve`, `reject`,
 * `is_editable`, `RegistrationChangeLog.log_change`) have no body in this
 * model: a view's call to one of them is recorded as a `ModelCall`, with the
 * arguments the view passes, and nothing is assumed about its effect.
 */
module Registrations {
  import opened Wrappers
  import opened Registry

  datatype Status = Draft | Submitted | UnderReview | Approved | Rejected

  /** The stored value of each status. */
  function StatusCode(s: Status): string {
    match s
    case Draft => "draft"
    case Submitted => "submitted"
    case UnderReview => "under_review"
    case Approved => "approved"
    case Rejected => "rejected"
  }

  /** Distinct statuses are stored under distinct codes, so a status filter matches at most one status. */
  lemma StatusCodeInjective(a: Status, b: Status)
    ensures StatusCode(a) == StatusCode(b) ==> a == b
  {
  }

  /** The statuses the views treat as an application still in progress. */
  predicate InProgress(s: Status) {
    s == Draft || s == Submitted || s == UnderReview || s == Rejected
  }

  datatype RegistrationType = Initial | OtherType(code: string)

  datatype Registration = Registration(
    pk: nat,
    user: UserId,
    registrationType: RegistrationType,
    status: Status,
    createdAt: int,
    createdBy: Option<UserId>,
    lastUpdatedBy: Option<UserId>,
    approvedStaffProfile: Option<UserId>)

  datatype Document = Document(
    pk: nat,
    registration: nat,
    linkTypeCode: Option<string>,
    originalFilename: string,
    fileSize: int,
    createdBy: Option<UserId>,
    lastUpdatedBy: Option<UserId>)

  /** A call into a registration model method whose body is not part of this model. */
  datatype ModelCall =
    | LogChange(registration: nat, fieldName: string, oldValue: string, newValue: string, changedBy: UserId, notes: string)
    | Submit(registration: nat, caller: UserId)
    | StartReview(registration: nat, caller: UserId)
    | Approve(registration: nat, caller: UserId, comments: string)
    | Reject(registration: nat, caller: UserId, comments: string)

  /** The registration with primary key `pk`, if any (the first one, primary keys being unique). */
  function FindRegistration(regs: seq<Registration>, pk: nat): (r: Option<Registration>)
    ensures r.Some? ==> r.value in regs && r.value.pk == pk
    ensures r.None? ==> forall x :: x in regs ==> x.pk != pk
  {
    if regs == [] then None
    else if regs[0].pk == pk then Some(regs[0])
    else FindRegistration(regs[1..], pk)
  }

  /** The first registration of `user` whose status is in `statuses`, in table order (`.filter(...).first()`). */
  function FirstOfUser(regs: seq<Registration>, user: UserId, statuses: set<Status>): (r: Option<Registration>)
    ensures r.Some? ==> r.value in regs && r.value.user == user && r.value.status in statuses
    ensures r.None? <==> forall x :: x in regs ==> !(x.user == user && x.status in statuses)
  {
    if regs == [] then None
    else if regs[0].user == user && regs[0].status in statuses then Some(regs[0])
    else
      assert forall x :: x in regs ==> x == regs[0] || x in regs[1..];
      FirstOfUser(regs[1..], user, statuses)
  }
}
