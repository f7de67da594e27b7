/**
 * The teacher-registration views of teacher_registration/views.py: the
 * required-document checklist, the routing of `my_registration`, and the
 * guards and database effects of creating, editing, submitting, reviewing
 * and deleting registrations, their documents and approved teachers.
 *
 * Every handler is reached through `login_required`, so its caller is a
 * stored account `uid`. `is_editable` is a registration model method whose
 * body is not part of this model; its value is an input.
 */
module RegistrationViews {
  import opened Wrappers
  import opened Text
  import opened Registry
  import opened Permissions
  import opened Registrations
  import opened Store
  import opened Sorting
  import opened Decorators
  import opened RegistrationForms

  // ---- Required documents ---------------------------------------------------

  /** A checklist item: its label and the document link-type codes that satisfy it. */
  datatype RequiredItem = RequiredItem(title: string, codes: seq<string>)

  const RequiredDocuments: seq<RequiredItem> := [
    RequiredItem("Birth Certificate or Passport", ["BIRTHCERT", "PASSPORT"]),
    RequiredItem("National ID Card", ["NATIONID"]),
    RequiredItem("Academic Certificate", ["ACACERT"]),
    RequiredItem("Academic Transcript", ["ACATRANS", "STATERES"]),
    RequiredItem("Teaching Certificate", ["TEACHCERT", "TEACHINGQUAL"]),
    RequiredItem("Teaching Transcript", ["TEACHTRANS"]),
    RequiredItem("Training/Workshop Certificates", ["TRAINCERT"]),
    RequiredItem("Police Clearance", ["POLCLEAR"]),
    RequiredItem("Medical Clearance", ["MEDCLEAR"]),
    RequiredItem("Passport Photo", ["PHOTO", "PORTRAIT"]),
    RequiredItem("Church Character Reference", ["CHURCHREF"]),
    RequiredItem("School Leader/Supervisor Reference", ["SCHREF"]),
    RequiredItem("Registration Fee Receipt", ["REGRECEIPT"])
  ]

  datatype ChecklistEntry = ChecklistEntry(title: string, uploaded: bool)

  /** Some document has a link type whose code is `code`, ignoring case. */
  predicate CodeUploaded(docs: seq<Document>, code: string) {
    exists d :: d in docs && d.linkTypeCode.Some? && Upper(d.linkTypeCode.value) == Upper(code)
  }

  predicate ItemUploaded(docs: seq<Document>, item: RequiredItem) {
    exists c :: c in item.codes && CodeUploaded(docs, c)
  }

  /** `get_required_documents_status`: one entry per checklist item, in checklist order. */
  method RequiredDocumentsStatus(docs: seq<Document>) returns (r: seq<ChecklistEntry>)
    ensures |r| == |RequiredDocuments|
    ensures forall k :: 0 <= k < |r| ==>
      r[k].title == RequiredDocuments[k].title && (r[k].uploaded <==> ItemUploaded(docs, RequiredDocuments[k]))
  {
    var uploadedCodes: set<string> := {};
    var i := 0;
    while i < |docs|
      invariant 0 <= i <= |docs|
      invariant forall c :: c in uploadedCodes <==>
        exists d :: d in docs[..i] && d.linkTypeCode.Some? && Upper(d.linkTypeCode.value) == c
    {
      var d := docs[i];
      assert docs[..i + 1] == docs[..i] + [d];
      if d.linkTypeCode.Some? {
        uploadedCodes := uploadedCodes + {Upper(d.linkTypeCode.value)};
      }
      i := i + 1;
    }
    assert docs[..i] == docs;
    r := [];
    var k := 0;
    while k < |RequiredDocuments|
      invariant 0 <= k <= |RequiredDocuments|
      invariant |r| == k
      invariant forall j :: 0 <= j < k ==>
        r[j].title == RequiredDocuments[j].title && (r[j].uploaded <==> ItemUploaded(docs, RequiredDocuments[j]))
    {
      var item := RequiredDocuments[k];
      var isUploaded := false;
      var m := 0;
      while m < |item.codes|
        invariant 0 <= m <= |item.codes|
        invariant isUploaded <==> exists c :: c in item.codes[..m] && CodeUploaded(docs, c)
      {
        assert item.codes[..m + 1] == item.codes[..m] + [item.codes[m]];
        assert Upper(item.codes[m]) in uploadedCodes <==> CodeUploaded(docs, item.codes[m]);
        isUploaded := isUploaded || Upper(item.codes[m]) in uploadedCodes;
        m := m + 1;
      }
      assert item.codes[..m] == item.codes;
      r := r + [ChecklistEntry(item.title, isUploaded)];
      k := k + 1;
    }
  }

  /** A document without a link type never ticks a checklist item. */
  lemma UntypedDocumentIgnored(docs: seq<Document>, d: Document, item: RequiredItem)
    requires d.linkTypeCode.None?
    ensures ItemUploaded(docs + [d], item) <==> ItemUploaded(docs, item)
  {
    assert forall c :: CodeUploaded(docs + [d], c) <==> CodeUploaded(docs, c) by {
      forall c ensures CodeUploaded(docs + [d], c) <==> CodeUploaded(docs, c) {
        assert forall x :: x in docs + [d] <==> x in docs || x == d;
      }
    }
  }

  /** Codes match whatever their case: a lower-case "passport" ticks the first item. */
  lemma PassportInAnyCase(d: Document)
    requires d.linkTypeCode == Some("passport")
    ensures ItemUploaded([d], RequiredDocuments[0])
  {
    assert Upper("passport") == "PASSPORT";
    assert "PASSPORT" in RequiredDocuments[0].codes;
    assert CodeUploaded([d], "PASSPORT");
  }

  // ---- my_registration ------------------------------------------------------

  /** A newest registration of `user` whose status is in `statuses` (`order_by("-created_at").first()`). */
  function Newest(regs: seq<Registration>, user: UserId, statuses: set<Status>): (r: Option<Registration>)
    ensures r.Some? ==> r.value in regs && r.value.user == user && r.value.status in statuses
    ensures r.Some? ==> forall x :: x in regs && x.user == user && x.status in statuses ==> x.createdAt <= r.value.createdAt
    ensures r.None? <==> forall x :: x in regs ==> !(x.user == user && x.status in statuses)
  {
    if regs == [] then None
    else
      var rest := Newest(regs[1..], user, statuses);
      var head := regs[0];
      assert forall x :: x in regs <==> x == head || x in regs[1..];
      if head.user == user && head.status in statuses && (rest.None? || rest.value.createdAt < head.createdAt) then Some(head)
      else rest
  }

  datatype MyRoute = MyToLogin | ToAdminRegister | ApprovedHistory | ToEditDraft(pk: nat) | ToCreate | StatusPage

  /** `my_registration`. */
  function MyRegistrationRoute(p: Profiles, regs: seq<Registration>, u: User): (r: MyRoute)
    ensures r == MyToLogin <==> !u.authenticated
    ensures r == ToAdminRegister <==> u.authenticated && CanManagePendingUsers(Some(u))
    ensures r == ApprovedHistory <==> u.authenticated && !CanManagePendingUsers(Some(u)) && u.id in p.schoolStaff
    ensures r.ToEditDraft? <==> (u.authenticated && !CanManagePendingUsers(Some(u)) && u.id !in p.schoolStaff
      && exists x :: x in regs && x.user == u.id && x.status == Draft)
    ensures r.ToEditDraft? ==> exists x :: (x in regs && x.user == u.id && x.status == Draft && x.pk == r.pk
      && forall y :: y in regs && y.user == u.id && y.status == Draft ==> y.createdAt <= x.createdAt)
    ensures r == ToCreate <==> (u.authenticated && !CanManagePendingUsers(Some(u)) && u.id !in p.schoolStaff
      && forall x :: x in regs ==> x.user != u.id)
    ensures r == StatusPage ==> ((exists x :: x in regs && x.user == u.id)
      && forall x :: x in regs && x.user == u.id ==> x.status != Draft)
  {
    if !u.authenticated then MyToLogin
    else if CanManagePendingUsers(Some(u)) then ToAdminRegister
    else if u.id in p.schoolStaff then ApprovedHistory
    else match Newest(regs, u.id, {Draft})
      case Some(draft) => ToEditDraft(draft.pk)
      case None =>
        if exists x :: x in regs && x.user == u.id then StatusPage else ToCreate
  }

  // ---- registration_create --------------------------------------------------

  datatype CreateOutcome = CreateToLogin | AlreadyStaff | ContinueDraft(pk: nat) | PendingExists | Created(pk: nat)

  /** The branch `registration_create` takes; a new registration would get primary key `nextPk`. */
  function CreateDecision(p: Profiles, regs: seq<Registration>, u: User, nextPk: nat): (r: CreateOutcome)
    ensures r.Created? <==> (u.authenticated && u.id !in p.schoolStaff
      && forall x :: x in regs && x.user == u.id ==> x.status != Draft && x.status != Submitted && x.status != UnderReview)
    ensures r.Created? ==> r.pk == nextPk
    ensures r.ContinueDraft? ==> exists x :: x in regs && x.user == u.id && x.status == Draft && x.pk == r.pk
    ensures r == PendingExists ==> exists x :: x in regs && x.user == u.id && (x.status == Submitted || x.status == UnderReview)
  {
    if !u.authenticated then CreateToLogin
    else if u.id in p.schoolStaff then AlreadyStaff
    else match FirstOfUser(regs, u.id, {Draft})
      case Some(draft) => ContinueDraft(draft.pk)
      case None => if FirstOfUser(regs, u.id, {Submitted, UnderReview}).Some? then PendingExists else Created(nextPk)
  }

  /** Appending a registration only matters to `FirstOfUser` when nothing earlier matched. */
  lemma {:induction false} FirstOfUserAppend(regs: seq<Registration>, x: Registration, user: UserId, statuses: set<Status>)
    ensures FirstOfUser(regs + [x], user, statuses) ==
      if FirstOfUser(regs, user, statuses).Some? then FirstOfUser(regs, user, statuses)
      else if x.user == user && x.status in statuses then Some(x) else None
  {
    if regs == [] {
      assert regs + [x] == [x];
    } else {
      assert (regs + [x])[1..] == regs[1..] + [x];
      FirstOfUserAppend(regs[1..], x, user, statuses);
    }
  }

  /** A rejected registration never stops the user from starting a new one. */
  lemma RejectedDoesNotBlockCreate(p: Profiles, regs: seq<Registration>, u: User, nextPk: nat, rejected: Registration)
    requires rejected.user == u.id && rejected.status == Rejected
    ensures CreateDecision(p, regs + [rejected], u, nextPk) == CreateDecision(p, regs, u, nextPk)
  {
    FirstOfUserAppend(regs, rejected, u.id, {Draft});
    FirstOfUserAppend(regs, rejected, u.id, {Submitted, UnderReview});
  }

  /** Once a draft has been created, asking again leads to that draft instead of a second one. */
  lemma CreateAgainContinuesDraft(p: Profiles, regs: seq<Registration>, u: User, nextPk: nat, now: int)
    requires CreateDecision(p, regs, u, nextPk).Created?
    ensures CreateDecision(p, regs + [Registration(nextPk, u.id, Initial, Draft, now, Some(u.id), Some(u.id), None)], u, nextPk + 1)
      == ContinueDraft(nextPk)
  {
    FirstOfUserAppend(regs, Registration(nextPk, u.id, Initial, Draft, now, Some(u.id), Some(u.id), None), u.id, {Draft});
  }

  /** `registration_create`: makes an initial draft and logs its creation, or leaves everything as it was. */
  method RegistrationCreate(db: Database, uid: UserId, now: int) returns (r: CreateOutcome)
    requires db.Valid() && uid in db.accounts
    modifies db
    ensures db.Valid()
    ensures r == CreateDecision(db.profiles, old(db.registrations), old(db.accounts)[uid].user, old(db.nextPk))
    ensures r.Created? ==>
      db.registrations == old(db.registrations) + [Registration(r.pk, uid, Initial, Draft, now, Some(uid), Some(uid), None)]
      && db.calls == old(db.calls) + [LogChange(r.pk, "status", "", StatusCode(Draft), uid, "Registration created (self-registration)")]
      && db.nextPk == old(db.nextPk) + 1
    ensures !r.Created? ==> db.registrations == old(db.registrations) && db.calls == old(db.calls) && db.nextPk == old(db.nextPk)
    ensures db.accounts == old(db.accounts) && db.profiles == old(db.profiles) && db.documents == old(db.documents)
  {
    r := CreateDecision(db.profiles, db.registrations, db.accounts[uid].user, db.nextPk);
    if r.Created? {
      var reg := Registration(db.nextPk, uid, Initial, Draft, now, Some(uid), Some(uid), None);
      db.registrations := db.registrations + [reg];
      db.calls := db.calls + [LogChange(reg.pk, "status", "", StatusCode(Draft), uid, "Registration created (self-registration)")];
      db.nextPk := db.nextPk + 1;
    }
  }

  // ---- registration_edit ----------------------------------------------------

  datatype EditOutcome =
    | EditNotFound
    | EditDenied
    | NotEditableToPendingList
    | NotEditableToMyRegistration
    | EditFormShown
    | EditFormErrors
    | NamesRequired(errors: seq<string>)
    | SavedToEdit(pk: nat)
    | SubmittedToPendingList
    | SubmittedToMyRegistration

  /** The outcomes after which the registration and the user's names have been saved. */
  predicate EditSaves(r: EditOutcome) {
    r.SavedToEdit? || r == SubmittedToPendingList || r == SubmittedToMyRegistration
  }

  /** The messages of a submission whose cleaned names are blank. */
  function SubmitNameErrors(firstName: string, lastName: string): (r: seq<string>)
    ensures r == [] <==> !IsBlank(firstName) && !IsBlank(lastName)
    ensures "First name is required." in r <==> IsBlank(firstName)
    ensures "Last name is required." in r <==> IsBlank(lastName)
  {
    var firstBlank, lastBlank := IsBlank(firstName), IsBlank(lastName);
    assert "First name is required."[0] != "Last name is required."[0];
    (if firstBlank then ["First name is required."] else [])
    + (if lastBlank then ["Last name is required."] else [])
  }

  /** The branch a posted edit takes once the guards have passed; `first` and `last` are the cleaned names. */
  function PostedEdit(isAdmin: bool, pk: nat, submitting: bool, first: string, last: string, formsValid: bool): (r: EditOutcome)
    ensures r == EditFormErrors || EditSaves(r) || r.NamesRequired?
    ensures r == EditFormErrors <==> !(formsValid && |first| <= 150 && |last| <= 150)
    ensures r.SavedToEdit? ==> !submitting && r.pk == pk
    ensures r == SubmittedToPendingList || r == SubmittedToMyRegistration ==> submitting && !IsBlank(first) && !IsBlank(last)
    ensures r == SubmittedToPendingList ==> isAdmin
    ensures r.NamesRequired? ==> submitting && r.errors == SubmitNameErrors(first, last) && r.errors != []
  {
    if !(formsValid && |first| <= 150 && |last| <= 150) then EditFormErrors
    else if submitting && SubmitNameErrors(first, last) != [] then NamesRequired(SubmitNameErrors(first, last))
    else if submitting then (if isAdmin then SubmittedToPendingList else SubmittedToMyRegistration)
    else SavedToEdit(pk)
  }

  /**
   * The branch `registration_edit` takes. `first` and `last` are the posted
   * names as the form cleans them (stripped), `formsValid` the validity of
   * the rest of the form and of its formsets; the name fields themselves
   * allow at most 150 characters.
   */
  function EditDecision(regs: seq<Registration>, u: User, pk: nat, editable: bool, isPost: bool, submitting: bool,
                        first: string, last: string, formsValid: bool): (r: EditOutcome)
    ensures r == EditNotFound <==> FindRegistration(regs, pk).None?
    ensures r == EditDenied <==> (FindRegistration(regs, pk).Some?
      && FindRegistration(regs, pk).value.user != u.id && !CanManagePendingUsers(Some(u)))
    ensures EditSaves(r) ==> (FindRegistration(regs, pk).Some? && editable && isPost && formsValid
      && (FindRegistration(regs, pk).value.user == u.id || CanManagePendingUsers(Some(u))))
    ensures r.SavedToEdit? ==> !submitting && r.pk == pk
    ensures r == SubmittedToPendingList || r == SubmittedToMyRegistration ==>
      submitting && !IsBlank(first) && !IsBlank(last)
    ensures r.NamesRequired? ==> submitting && r.errors != []
  {
    match FindRegistration(regs, pk)
    case None => EditNotFound
    case Some(reg) =>
      var isOwner := reg.user == u.id;
      var isAdmin := CanManagePendingUsers(Some(u));
      if !isOwner && !isAdmin then EditDenied
      else if !editable then (if isAdmin then NotEditableToPendingList else NotEditableToMyRegistration)
      else if !isPost then EditFormShown
      else
        PostedEdit(isAdmin, pk, submitting, first, last, formsValid)
  }

  /** A blank name stops a submission before anything is saved. */
  lemma BlankNameBlocksSubmit(regs: seq<Registration>, u: User, pk: nat, editable: bool, first: string, last: string, formsValid: bool)
    requires IsBlank(first) || IsBlank(last)
    ensures !EditSaves(EditDecision(regs, u, pk, editable, true, true, first, last, formsValid))
  {
  }

  /**
   * `registration_edit`: on a save, the registration is stored with the caller
   * as last updater and the owner's names are replaced by the cleaned ones
   * (`first`, `last`); a submission also calls `submit`.
   */
  method RegistrationEdit(db: Database, uid: UserId, pk: nat, editable: bool, isPost: bool, submitting: bool,
                          first: string, last: string, formsValid: bool) returns (r: EditOutcome)
    requires db.Valid() && uid in db.accounts
    modifies db
    ensures db.Valid()
    ensures r == EditDecision(old(db.registrations), old(db.accounts)[uid].user, pk, editable, isPost, submitting, first, last, formsValid)
    ensures EditSaves(r) ==>
      var reg := FindRegistration(old(db.registrations), pk).value;
      db.registrations == StoreRegistration(old(db.registrations), reg.(lastUpdatedBy := Some(uid)))
      && db.accounts == old(db.accounts)[reg.user := old(db.accounts)[reg.user].(firstName := first, lastName := last)]
    ensures !EditSaves(r) ==> db.registrations == old(db.registrations) && db.accounts == old(db.accounts)
    ensures db.calls == if EditSaves(r) && submitting then old(db.calls) + [Submit(pk, uid)] else old(db.calls)
    ensures db.profiles == old(db.profiles) && db.documents == old(db.documents) && db.nextPk == old(db.nextPk)
  {
    r := EditDecision(db.registrations, db.accounts[uid].user, pk, editable, isPost, submitting, first, last, formsValid);
    if EditSaves(r) {
      var reg := FindRegistration(db.registrations, pk).value;
      SaveEdit(db, uid, reg, first, last, submitting);
    }
  }

  /** The saving half of `registration_edit`, for a registration `reg` found in the database. */
  method SaveEdit(db: Database, uid: UserId, reg: Registration, first: string, last: string, submitting: bool)
    requires db.Valid() && reg in db.registrations
    modifies db
    ensures db.Valid()
    ensures db.registrations == StoreRegistration(old(db.registrations), reg.(lastUpdatedBy := Some(uid)))
    ensures db.accounts == old(db.accounts)[reg.user := old(db.accounts)[reg.user].(firstName := first, lastName := last)]
    ensures db.calls == if submitting then old(db.calls) + [Submit(reg.pk, uid)] else old(db.calls)
    ensures db.profiles == old(db.profiles) && db.documents == old(db.documents) && db.nextPk == old(db.nextPk)
  {
    db.registrations := StoreRegistration(db.registrations, reg.(lastUpdatedBy := Some(uid)));
    var owner := db.accounts[reg.user];
    db.accounts := db.accounts[reg.user := owner.(firstName := first, lastName := last)];
    if submitting {
      db.calls := db.calls + [Submit(reg.pk, uid)];
    }
  }

  // ---- registration_submit --------------------------------------------------

  datatype SubmitOutcome = SubmitNotFound | SubmitDenied | AlreadySubmitted | SubmitConfirmPage | SubmittedToMy

  /** `registration_submit`: only the owner, only from a draft, and only on POST. */
  function SubmitDecision(regs: seq<Registration>, uid: UserId, pk: nat, isPost: bool): (r: SubmitOutcome)
    ensures r == SubmittedToMy <==> (FindRegistration(regs, pk).Some? && FindRegistration(regs, pk).value.user == uid
      && FindRegistration(regs, pk).value.status == Draft && isPost)
    ensures r == SubmitDenied <==> FindRegistration(regs, pk).Some? && FindRegistration(regs, pk).value.user != uid
    ensures r == AlreadySubmitted <==> (FindRegistration(regs, pk).Some? && FindRegistration(regs, pk).value.user == uid
      && FindRegistration(regs, pk).value.status != Draft)
  {
    match FindRegistration(regs, pk)
    case None => SubmitNotFound
    case Some(reg) =>
      if reg.user != uid then SubmitDenied
      else if reg.status != Draft then AlreadySubmitted
      else if isPost then SubmittedToMy
      else SubmitConfirmPage
  }

  /** A manager who does not own the registration cannot submit it through this view. */
  lemma SubmitIsOwnerOnly(regs: seq<Registration>, uid: UserId, pk: nat)
    requires FindRegistration(regs, pk).Some? && FindRegistration(regs, pk).value.user != uid
    ensures SubmitDecision(regs, uid, pk, true) == SubmitDenied
  {
  }

  method RegistrationSubmit(db: Database, uid: UserId, pk: nat, isPost: bool) returns (r: SubmitOutcome)
    requires db.Valid() && uid in db.accounts
    modifies db
    ensures db.Valid()
    ensures r == SubmitDecision(old(db.registrations), uid, pk, isPost)
    ensures db.calls == if r == SubmittedToMy then old(db.calls) + [Submit(pk, uid)] else old(db.calls)
    ensures db.registrations == old(db.registrations) && db.accounts == old(db.accounts) && db.profiles == old(db.profiles)
    ensures db.documents == old(db.documents) && db.nextPk == old(db.nextPk)
  {
    r := SubmitDecision(db.registrations, uid, pk, isPost);
    if r == SubmittedToMy {
      db.calls := db.calls + [Submit(pk, uid)];
    }
  }

  // ---- document_upload / document_delete ------------------------------------

  datatype DocOutcome = DocNotFound | DocDenied | BackToAdminEdit(pk: nat) | BackToEdit(pk: nat)

  /**
   * The branch `document_upload` takes. A non-editable registration sends
   * managers to the admin edit page; otherwise only a manager who is not the
   * owner goes there.
   */
  function UploadDecision(regs: seq<Registration>, u: User, regPk: nat, editable: bool): (r: DocOutcome)
    ensures r == DocNotFound <==> FindRegistration(regs, regPk).None?
    ensures r == DocDenied <==> (FindRegistration(regs, regPk).Some?
      && FindRegistration(regs, regPk).value.user != u.id && !CanManagePendingUsers(Some(u)))
    ensures r.BackToAdminEdit? || r.BackToEdit? ==> r.pk == regPk
  {
    match FindRegistration(regs, regPk)
    case None => DocNotFound
    case Some(reg) =>
      var isOwner := reg.user == u.id;
      var isAdmin := CanManagePendingUsers(Some(u));
      if !isOwner && !isAdmin then DocDenied
      else if !editable then (if isAdmin then BackToAdminEdit(regPk) else BackToEdit(regPk))
      else if isAdmin && !isOwner then BackToAdminEdit(regPk)
      else BackToEdit(regPk)
  }

  /** Whether an upload stores a document: permitted, editable, posted, and a file the form accepts. */
  predicate UploadStores(regs: seq<Registration>, u: User, regPk: nat, editable: bool, isPost: bool, file: Option<UploadedFile>) {
    var r := UploadDecision(regs, u, regPk, editable);
    editable && isPost && (r.BackToAdminEdit? || r.BackToEdit?) && FilePresent(file) && CleanFile(file).FileAccepted?
  }

  /** `document_upload`: a stored document belongs to the registration, records the file and the uploader. */
  method DocumentUpload(db: Database, uid: UserId, regPk: nat, editable: bool, isPost: bool,
                        linkTypeCode: Option<string>, file: Option<UploadedFile>) returns (r: DocOutcome)
    requires db.Valid() && uid in db.accounts
    modifies db
    ensures db.Valid()
    ensures r == UploadDecision(old(db.registrations), old(db.accounts)[uid].user, regPk, editable)
    ensures UploadStores(old(db.registrations), old(db.accounts)[uid].user, regPk, editable, isPost, file) ==>
      |db.documents| == |old(db.documents)| + 1 && db.documents[..|old(db.documents)|] == old(db.documents)
      && var d := db.documents[|old(db.documents)|];
      d.pk == old(db.nextPk) && d.registration == regPk && d.linkTypeCode == linkTypeCode
      && d.originalFilename == file.value.name && d.fileSize == file.value.size && d.fileSize <= MaxUploadSize
      && d.createdBy == Some(uid) && d.lastUpdatedBy == Some(uid)
      && db.nextPk == old(db.nextPk) + 1
    ensures !UploadStores(old(db.registrations), old(db.accounts)[uid].user, regPk, editable, isPost, file) ==>
      db.documents == old(db.documents) && db.nextPk == old(db.nextPk)
    ensures db.registrations == old(db.registrations) && db.accounts == old(db.accounts)
    ensures db.profiles == old(db.profiles) && db.calls == old(db.calls)
  {
    r := UploadDecision(db.registrations, db.accounts[uid].user, regPk, editable);
    if UploadStores(db.registrations, db.accounts[uid].user, regPk, editable, isPost, file) {
      var blank := Document(db.nextPk, regPk, linkTypeCode, "", 0, Some(uid), Some(uid));
      var d := SaveDocument(blank, file);
      db.documents := db.documents + [d];
      db.nextPk := db.nextPk + 1;
    }
  }

  /** The document `docPk` of registration `regPk`, if there is one. */
  function FindDocument(docs: seq<Document>, docPk: nat, regPk: nat): (r: Option<Document>)
    ensures r.Some? ==> r.value in docs && r.value.pk == docPk && r.value.registration == regPk
    ensures r.None? ==> forall d :: d in docs ==> !(d.pk == docPk && d.registration == regPk)
  {
    if docs == [] then None
    else if docs[0].pk == docPk && docs[0].registration == regPk then Some(docs[0])
    else FindDocument(docs[1..], docPk, regPk)
  }

  /** The documents other than the one with primary key `pk`, in their order. */
  function RemoveDocument(docs: seq<Document>, pk: nat): (r: seq<Document>)
    ensures forall d :: d in r <==> d in docs && d.pk != pk
    ensures |r| <= |docs|
  {
    if docs == [] then []
    else
      var rest := RemoveDocument(docs[1..], pk);
      assert forall d :: d in docs <==> d == docs[0] || d in docs[1..];
      if docs[0].pk == pk then rest else [docs[0]] + rest
  }

  /** The branch `document_delete` takes: both lookups come before the permission check. */
  function DeleteDocDecision(regs: seq<Registration>, docs: seq<Document>, u: User, regPk: nat, docPk: nat): (r: DocOutcome)
    ensures r == DocNotFound <==> FindRegistration(regs, regPk).None? || FindDocument(docs, docPk, regPk).None?
    ensures r == DocDenied <==> (FindRegistration(regs, regPk).Some? && FindDocument(docs, docPk, regPk).Some?
      && FindRegistration(regs, regPk).value.user != u.id && !CanManagePendingUsers(Some(u)))
    ensures r.BackToAdminEdit? ==> r.pk == regPk && CanManagePendingUsers(Some(u)) && FindRegistration(regs, regPk).value.user != u.id
    ensures r.BackToEdit? ==> r.pk == regPk && FindRegistration(regs, regPk).value.user == u.id
  {
    match FindRegistration(regs, regPk)
    case None => DocNotFound
    case Some(reg) =>
      if FindDocument(docs, docPk, regPk).None? then DocNotFound
      else
        var isOwner := reg.user == u.id;
        var isAdmin := CanManagePendingUsers(Some(u));
        if !isOwner && !isAdmin then DocDenied
        else if isAdmin && !isOwner then BackToAdminEdit(regPk)
        else BackToEdit(regPk)
  }

  /** `document_delete`: removes exactly the addressed document of that registration, and only when permitted and editable. */
  method DocumentDelete(db: Database, uid: UserId, regPk: nat, docPk: nat, editable: bool, isPost: bool) returns (r: DocOutcome)
    requires db.Valid() && uid in db.accounts
    modifies db
    ensures db.Valid()
    ensures r == DeleteDocDecision(old(db.registrations), old(db.documents), old(db.accounts)[uid].user, regPk, docPk)
    ensures db.documents == if (r.BackToAdminEdit? || r.BackToEdit?) && editable && isPost
      then RemoveDocument(old(db.documents), docPk) else old(db.documents)
    ensures db.documents != old(db.documents) ==> exists d :: d in old(db.documents) && d.pk == docPk && d.registration == regPk
    ensures db.registrations == old(db.registrations) && db.accounts == old(db.accounts) && db.profiles == old(db.profiles)
    ensures db.calls == old(db.calls) && db.nextPk == old(db.nextPk)
  {
    r := DeleteDocDecision(db.registrations, db.documents, db.accounts[uid].user, regPk, docPk);
    if (r.BackToAdminEdit? || r.BackToEdit?) && editable && isPost {
      db.documents := RemoveDocument(db.documents, docPk);
    }
  }

  // ---- pending_registrations_list -------------------------------------------

  datatype PerPageParam = PerPageAbsent | PerPageNotInteger | PerPageInteger(n: int)

  const PageSizeOptions: seq<int> := [10, 25, 50, 100]

  /** The page size: one of the offered sizes, 25 for anything else. */
  function PerPage(param: PerPageParam): (r: int)
    ensures r in PageSizeOptions
    ensures param.PerPageInteger? && param.n in PageSizeOptions ==> r == param.n
    ensures !(param.PerPageInteger? && param.n in PageSizeOptions) ==> r == 25
  {
    match param
    case PerPageAbsent => 25
    case PerPageNotInteger => 25
    case PerPageInteger(n) => if n in PageSizeOptions then n else 25
  }

  /** The list order: under review, submitted, rejected, draft. */
  function StatusRank(s: Status): int {
    match s
    case UnderReview => 0
    case Submitted => 1
    case Rejected => 2
    case Draft => 3
    case Approved => 4
  }

  function PendingKey(reg: Registration): (int, int) {
    (StatusRank(reg.status), -reg.createdAt)
  }

  /** The stripped status filter: empty matches every status, otherwise the stored status code must equal it. */
  predicate MatchesStatus(reg: Registration, statusFilter: string) {
    statusFilter == "" || StatusCode(reg.status) == statusFilter
  }

  /** The stripped search: empty matches everything, otherwise a case-insensitive substring of the owner's names or email. */
  predicate MatchesSearch(accounts: map<UserId, Account>, reg: Registration, q: string) {
    q == "" || (reg.user in accounts
      && (Contains(Lower(accounts[reg.user].firstName), Lower(q))
          || Contains(Lower(accounts[reg.user].lastName), Lower(q))
          || Contains(Lower(accounts[reg.user].email), Lower(q))))
  }

  predicate Listed(accounts: map<UserId, Account>, reg: Registration, statusFilter: string, q: string) {
    InProgress(reg.status) && MatchesStatus(reg, statusFilter) && MatchesSearch(accounts, reg, q)
  }

  function PendingFilter(regs: seq<Registration>, accounts: map<UserId, Account>, statusFilter: string, q: string): (r: seq<Registration>)
    ensures forall x :: x in r <==> x in regs && Listed(accounts, x, statusFilter, q)
  {
    if regs == [] then []
    else
      var rest := PendingFilter(regs[1..], accounts, statusFilter, q);
      assert forall x :: x in regs <==> x == regs[0] || x in regs[1..];
      if Listed(accounts, regs[0], statusFilter, q) then [regs[0]] + rest else rest
  }

  /** The rows of `pending_registrations_list` for the stripped filters, before pagination. */
  function PendingRegistrations(regs: seq<Registration>, accounts: map<UserId, Account>, statusFilter: string, q: string): (r: seq<Registration>)
    ensures forall x :: x in r <==> x in regs && Listed(accounts, x, statusFilter, q)
    ensures forall x :: x in r ==> x.status != Approved
    ensures forall i, j :: 0 <= i < j < |r| ==>
      StatusRank(r[i].status) < StatusRank(r[j].status)
      || (StatusRank(r[i].status) == StatusRank(r[j].status) && r[i].createdAt >= r[j].createdAt)
  {
    var filtered := PendingFilter(regs, accounts, statusFilter, q);
    var sorted := SortBy(filtered, PendingKey);
    assert forall x :: x in sorted <==> x in filtered by {
      forall x ensures x in sorted <==> x in filtered {
        SortBySameElements(filtered, PendingKey, x);
      }
    }
    assert forall i, j :: 0 <= i < j < |sorted| ==> KeyLe(PendingKey(sorted[i]), PendingKey(sorted[j]));
    sorted
  }

  /** A status filter naming a finished status lists nothing. */
  lemma ApprovedFilterIsEmpty(regs: seq<Registration>, accounts: map<UserId, Account>, q: string)
    ensures forall x :: x !in PendingRegistrations(regs, accounts, "approved", q)
  {
    var r := PendingRegistrations(regs, accounts, "approved", q);
    assert forall x :: x in r ==> x.status == Approved;
  }

  datatype ListOutcome = ListNoAccess | ListDenied | Listing(rows: seq<Registration>, perPage: int)

  /** `pending_registrations_list` behind `require_app_access`, for managers only. */
  function PendingList(p: Profiles, u: User, regs: seq<Registration>, accounts: map<UserId, Account>,
                       rawStatus: string, rawQuery: string, perPage: PerPageParam): (r: ListOutcome)
    ensures r == ListNoAccess <==> !HasAppAccess(p, Some(u))
    ensures r.Listing? <==> HasAppAccess(p, Some(u)) && CanManagePendingUsers(Some(u))
    ensures r.Listing? ==> r.rows == PendingRegistrations(regs, accounts, Strip(rawStatus), Strip(rawQuery)) && r.perPage in PageSizeOptions
  {
    if RequireAppAccess(p, Some(u)) != CallView then ListNoAccess
    else if !CanManagePendingUsers(Some(u)) then ListDenied
    else Listing(PendingRegistrations(regs, accounts, Strip(rawStatus), Strip(rawQuery)), PerPage(perPage))
  }

  // ---- registration_review --------------------------------------------------

  datatype ReviewOutcome =
    | ReviewNoAccess
    | ReviewDenied
    | ReviewNotFound
    | NotReviewable
    | ReviewPageShown
    | ApprovedToTeacherDetail
    | RejectedToPendingList

  datatype ReviewResult = ReviewResult(outcome: ReviewOutcome, calls: seq<ModelCall>)

  predicate Reviewable(s: Status) {
    s == Submitted || s == UnderReview || s == Rejected
  }

  /**
   * `registration_review`: the page reached and the model methods it calls,
   * in order. `posted` is `None` for a GET and otherwise the review form as
   * it validates the posted action and comments.
   */
  function ReviewDecision(p: Profiles, regs: seq<Registration>, u: User, pk: nat, posted: Option<ReviewForm>): (r: ReviewResult)
    ensures r.calls != [] ==> (HasAppAccess(p, Some(u)) && CanManagePendingUsers(Some(u))
      && FindRegistration(regs, pk).Some? && Reviewable(FindRegistration(regs, pk).value.status))
    ensures r.outcome == ReviewDenied <==> HasAppAccess(p, Some(u)) && !CanManagePendingUsers(Some(u))
    ensures r.outcome == NotReviewable <==> (HasAppAccess(p, Some(u)) && CanManagePendingUsers(Some(u))
      && FindRegistration(regs, pk).Some? && !Reviewable(FindRegistration(regs, pk).value.status))
    ensures r.calls != [] && FindRegistration(regs, pk).value.status != UnderReview ==> r.calls[0] == StartReview(pk, u.id)
    ensures r.calls != [] && FindRegistration(regs, pk).value.status == UnderReview ==> !r.calls[0].StartReview?
    ensures r.outcome == ApprovedToTeacherDetail <==> (r.calls != []
      && posted.Some? && posted.value.ReviewValid? && posted.value.action == ApproveAction
      && r.calls[|r.calls| - 1] == Approve(pk, u.id, posted.value.comments))
    ensures r.outcome == RejectedToPendingList <==> (r.calls != []
      && posted.Some? && posted.value.ReviewValid? && posted.value.action == RejectAction
      && r.calls[|r.calls| - 1] == Reject(pk, u.id, posted.value.comments))
    ensures |r.calls| <= 2
  {
    if RequireAppAccess(p, Some(u)) != CallView then ReviewResult(ReviewNoAccess, [])
    else if !CanManagePendingUsers(Some(u)) then ReviewResult(ReviewDenied, [])
    else match FindRegistration(regs, pk)
      case None => ReviewResult(ReviewNotFound, [])
      case Some(reg) =>
        if !Reviewable(reg.status) then ReviewResult(NotReviewable, [])
        else
          var started := if reg.status == Submitted || reg.status == Rejected then [StartReview(pk, u.id)] else [];
          match posted
          case None => ReviewResult(ReviewPageShown, started)
          case Some(ReviewInvalid(_)) => ReviewResult(ReviewPageShown, started)
          case Some(ReviewValid(ApproveAction, comments)) => ReviewResult(ApprovedToTeacherDetail, started + [Approve(pk, u.id, comments)])
          case Some(ReviewValid(RejectAction, comments)) => ReviewResult(RejectedToPendingList, started + [Reject(pk, u.id, comments)])
  }

  /** A rejection is only ever recorded with a reason that is not blank. */
  lemma RejectionCarriesReason(p: Profiles, regs: seq<Registration>, u: User, pk: nat, action: string, comments: string)
    ensures ReviewDecision(p, regs, u, pk, Some(ReviewClean(action, comments))).outcome == RejectedToPendingList
      ==> action == "reject" && !IsBlank(comments)
  {
    ReviewCleanRule(comments);
  }

  /** A rejection without a reason calls nothing but `start_review`, and shows the form again. */
  lemma RejectWithoutReasonOnlyStartsReview(p: Profiles, regs: seq<Registration>, u: User, pk: nat, comments: string)
    requires IsBlank(comments)
    ensures var r := ReviewDecision(p, regs, u, pk, Some(ReviewClean("reject", comments)));
      r.outcome != RejectedToPendingList && r.outcome != ApprovedToTeacherDetail
      && forall c :: c in r.calls ==> c.StartReview?
  {
    ReviewCleanRule(comments);
    InvalidReviewOnlyStartsReview(p, regs, u, pk, ReviewClean("reject", comments));
  }

  /** A posted review form that does not validate calls nothing but `start_review`, and shows the form again. */
  lemma InvalidReviewOnlyStartsReview(p: Profiles, regs: seq<Registration>, u: User, pk: nat, form: ReviewForm)
    requires form.ReviewInvalid?
    ensures var r := ReviewDecision(p, regs, u, pk, Some(form));
      r.outcome != RejectedToPendingList && r.outcome != ApprovedToTeacherDetail
      && forall c :: c in r.calls ==> c.StartReview?
  {
  }

  /** `registration_review`: appends the model calls the decision names, and changes nothing else here. */
  method RegistrationReview(db: Database, uid: UserId, pk: nat, posted: Option<ReviewForm>) returns (r: ReviewOutcome)
    requires db.Valid() && uid in db.accounts
    modifies db
    ensures db.Valid()
    ensures var d := ReviewDecision(old(db.profiles), old(db.registrations), old(db.accounts)[uid].user, pk, posted);
      r == d.outcome && db.calls == old(db.calls) + d.calls
    ensures db.registrations == old(db.registrations) && db.accounts == old(db.accounts) && db.profiles == old(db.profiles)
    ensures db.documents == old(db.documents) && db.nextPk == old(db.nextPk)
  {
    var d := ReviewDecision(db.profiles, db.registrations, db.accounts[uid].user, pk, posted);
    db.calls := db.calls + d.calls;
    r := d.outcome;
  }

  // ---- teacher_delete -------------------------------------------------------

  datatype TeacherDeleteOutcome = TeacherNoAccess | TeacherDenied | TeacherNotFound | TeacherConfirmPage | TeacherDeletedToList

  /** Every registration approved into `staffUser`'s profile loses that link; nothing else changes. */
  function UnlinkTeacher(regs: seq<Registration>, staffUser: UserId): (r: seq<Registration>)
    ensures |r| == |regs|
    ensures forall i :: 0 <= i < |r| ==>
      r[i] == if regs[i].approvedStaffProfile == Some(staffUser) then regs[i].(approvedStaffProfile := None) else regs[i]
  {
    if regs == [] then []
    else
      var head := if regs[0].approvedStaffProfile == Some(staffUser) then regs[0].(approvedStaffProfile := None) else regs[0];
      [head] + UnlinkTeacher(regs[1..], staffUser)
  }

  function TeacherDeleteDecision(p: Profiles, u: User, staffUser: UserId, isPost: bool): (r: TeacherDeleteOutcome)
    ensures r == TeacherDeletedToList <==> (HasAppAccess(p, Some(u)) && CanManagePendingUsers(Some(u))
      && staffUser in p.schoolStaff && p.schoolStaff[staffUser].staffType == Teaching && isPost)
    ensures r == TeacherNotFound ==> staffUser !in p.schoolStaff || p.schoolStaff[staffUser].staffType != Teaching
  {
    if RequireAppAccess(p, Some(u)) != CallView then TeacherNoAccess
    else if !CanManagePendingUsers(Some(u)) then TeacherDenied
    else if staffUser !in p.schoolStaff || p.schoolStaff[staffUser].staffType != Teaching then TeacherNotFound
    else if isPost then TeacherDeletedToList
    else TeacherConfirmPage
  }

  /** After the unlink no registration points at the deleted teacher, and every registration keeps its key, owner and status. */
  lemma {:induction false} UnlinkLeavesNoLink(regs: seq<Registration>, staffUser: UserId)
    ensures forall x :: x in UnlinkTeacher(regs, staffUser) ==> x.approvedStaffProfile != Some(staffUser)
    ensures forall x :: x in UnlinkTeacher(regs, staffUser) ==>
      exists y :: y in regs && y.pk == x.pk && y.user == x.user && y.status == x.status
  {
    var r := UnlinkTeacher(regs, staffUser);
    forall x | x in r
      ensures x.approvedStaffProfile != Some(staffUser)
      ensures exists y :: y in regs && y.pk == x.pk && y.user == x.user && y.status == x.status
    {
      var i :| 0 <= i < |r| && r[i] == x;
      assert regs[i] in regs;
    }
  }

  /** A deleted teacher without a system-user profile is left without app access, unless a superuser. */
  lemma DeletedTeacherLosesAccess(p: Profiles, staffUser: UserId, u: User)
    requires u.id == staffUser && staffUser !in p.systemUsers && !u.superuser
    ensures !HasAppAccess(WithoutStaff(p, staffUser), Some(u))
  {
  }

  /** `teacher_delete`: on POST the teacher's profile and assignments go, approval links are cleared, the account stays. */
  method TeacherDelete(db: Database, uid: UserId, staffUser: UserId, isPost: bool) returns (r: TeacherDeleteOutcome)
    requires db.Valid() && uid in db.accounts
    modifies db
    ensures db.Valid()
    ensures r == TeacherDeleteDecision(old(db.profiles), old(db.accounts)[uid].user, staffUser, isPost)
    ensures r == TeacherDeletedToList ==>
      db.registrations == UnlinkTeacher(old(db.registrations), staffUser) && db.profiles == WithoutStaff(old(db.profiles), staffUser)
    ensures r != TeacherDeletedToList ==> db.registrations == old(db.registrations) && db.profiles == old(db.profiles)
    ensures db.accounts == old(db.accounts) && db.documents == old(db.documents)
    ensures db.calls == old(db.calls) && db.nextPk == old(db.nextPk)
  {
    r := TeacherDeleteDecision(db.profiles, db.accounts[uid].user, staffUser, isPost);
    if r == TeacherDeletedToList {
      UnlinkLeavesNoLink(db.registrations, staffUser);
      AssignmentsNotOfKeepsDistinct(AsWritten, db.profiles.assignments, staffUser);
      db.registrations := UnlinkTeacher(db.registrations, staffUser);
      db.profiles := WithoutStaff(db.profiles, staffUser);
    }
  }
}
