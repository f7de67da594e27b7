/**
 * The forms of teacher_registration/forms.py: the upload checks and save of
 * RegistrationDocumentForm, the review form's rejection rule, the initial
 * values and save of TeacherRegistrationForm, and the field constraints of
 * AdminTeacherRegistrationForm.
 */
module RegistrationForms {
  import opened Wrappers
  import opened Registry
  import opened Registrations
  import opened Store
  import Text

  /** The upload size limit, 10 MiB. */
  const MaxUploadSize: int := 10 * 1024 * 1024
  const AllowedContentTypes: seq<string> := ["application/pdf", "image/jpeg", "image/png", "image/gif"]

  /** An uploaded file; `contentType` is `None` for file objects without that attribute. */
  datatype UploadedFile = UploadedFile(name: string, size: int, contentType: Option<string>)

  /** A file object is truthy exactly when it has a name. */
  predicate FilePresent(f: Option<UploadedFile>) {
    f.Some? && f.value.name != ""
  }

  datatype FileError = TooLarge | TypeNotAllowed
  datatype FileCheck = FileAccepted(file: Option<UploadedFile>) | FileRejected(error: FileError)

  /** `RegistrationDocumentForm.clean_file`. */
  function CleanFile(f: Option<UploadedFile>): (r: FileCheck)
    ensures r.FileAccepted? ==> r.file == f
  {
    if FilePresent(f) then
      if f.value.size > MaxUploadSize then FileRejected(TooLarge)
      else if f.value.contentType.Some? && f.value.contentType.value !in AllowedContentTypes then FileRejected(TypeNotAllowed)
      else FileAccepted(f)
    else FileAccepted(f)
  }

  /** The size check comes first; the type check applies only to files that carry a content type. */
  lemma CleanFileRule(f: UploadedFile)
    requires f.name != ""
    ensures CleanFile(Some(f)) == FileRejected(TooLarge) <==> f.size > MaxUploadSize
    ensures CleanFile(Some(f)) == FileRejected(TypeNotAllowed) <==>
      f.size <= MaxUploadSize && f.contentType.Some? && f.contentType.value !in AllowedContentTypes
    ensures f.contentType.None? && f.size <= MaxUploadSize ==> CleanFile(Some(f)).FileAccepted?
  {
  }

  /** The limit is inclusive: exactly 10 MiB is accepted, one byte more is not. */
  lemma UploadLimitBoundary(name: string)
    requires name != ""
    ensures CleanFile(Some(UploadedFile(name, 10485760, Some("application/pdf")))).FileAccepted?
    ensures CleanFile(Some(UploadedFile(name, 10485761, Some("application/pdf")))) == FileRejected(TooLarge)
    ensures CleanFile(Some(UploadedFile(name, 100, Some("text/plain")))) == FileRejected(TypeNotAllowed)
  {
  }

  /** `RegistrationDocumentForm.save`: the uploaded file's name and size are copied onto the document. */
  function SaveDocument(d: Document, f: Option<UploadedFile>): (r: Document)
    ensures FilePresent(f) ==> r.originalFilename == f.value.name && r.fileSize == f.value.size
    ensures !FilePresent(f) ==> r == d
    ensures r.pk == d.pk && r.registration == d.registration && r.linkTypeCode == d.linkTypeCode
    ensures r.createdBy == d.createdBy && r.lastUpdatedBy == d.lastUpdatedBy
  {
    if FilePresent(f) then d.(originalFilename := f.value.name, fileSize := f.value.size) else d
  }

  // ---- RegistrationReviewForm ------------------------------------------------

  datatype ReviewAction = ApproveAction | RejectAction
  datatype ReviewError = UnknownAction | RejectionNeedsReason
  datatype ReviewForm = ReviewValid(action: ReviewAction, comments: string) | ReviewInvalid(error: ReviewError)

  /** The review form's validation; `comments` arrives stripped, as the text field cleans it. */
  function ReviewClean(action: string, comments: string): (r: ReviewForm)
    ensures r.ReviewValid? ==> r.comments == Text.Strip(comments)
  {
    var cleaned := Text.Strip(comments);
    if action == "approve" then ReviewValid(ApproveAction, cleaned)
    else if action == "reject" then
      if Text.Strip(cleaned) == "" then ReviewInvalid(RejectionNeedsReason) else ReviewValid(RejectAction, cleaned)
    else ReviewInvalid(UnknownAction)
  }

  /** Stripping twice changes nothing more than stripping once. */
  lemma {:induction false} StripIdempotent(s: string)
    ensures Text.Strip(Text.Strip(s)) == Text.Strip(s)
  {
    var t := Text.Strip(s);
    if t != "" {
      assert !Text.IsSpace(t[0]) && !Text.IsSpace(t[|t| - 1]);
      assert Text.TrimStart(t) == t;
      assert Text.TrimEnd(t) == t;
    }
  }

  /** A rejection needs a reason that is not blank; an approval does not. */
  lemma ReviewCleanRule(comments: string)
    ensures ReviewClean("reject", comments).ReviewValid? <==> !Text.IsBlank(comments)
    ensures ReviewClean("approve", comments) == ReviewValid(ApproveAction, Text.Strip(comments))
    ensures ReviewClean("approve", "").ReviewValid?
  {
    StripIdempotent(comments);
  }

  // ---- TeacherRegistrationForm -----------------------------------------------

  datatype Names = Names(firstName: string, lastName: string)

  /** The bound instance, when there is one: whether it is saved and the names of its user, if it has one. */
  datatype BoundInstance = BoundInstance(saved: bool, user: Option<Names>)

  /** `setdefault`: a key already present keeps its value. */
  function SetDefault(m: map<string, string>, k: string, v: string): (r: map<string, string>)
    ensures k in r && (k in m ==> r[k] == m[k]) && (k !in m ==> r[k] == v)
    ensures forall j :: j != k ==> (j in r <==> j in m) && (j in m ==> r[j] == m[j])
  {
    if k in m then m else m[k := v]
  }

  /** `TeacherRegistrationForm.__init__`: the initial first and last names. */
  function InitialNames(initial: map<string, string>, instance: Option<BoundInstance>, user: Option<Names>): (r: map<string, string>)
  {
    if instance.Some? && instance.value.saved && instance.value.user.Some? then
      SetDefault(SetDefault(initial, "first_name", instance.value.user.value.firstName), "last_name", instance.value.user.value.lastName)
    else if user.Some? then
      SetDefault(SetDefault(initial, "first_name", user.value.firstName), "last_name", user.value.lastName)
    else initial
  }

  /** Where the default names come from: a saved instance's user, else `user`, else nowhere. */
  function NameSource(instance: Option<BoundInstance>, user: Option<Names>): Option<Names> {
    if instance.Some? && instance.value.saved && instance.value.user.Some? then instance.value.user else user
  }

  /**
   * Explicit initial values always win; a missing first or last name is taken
   * from the name source, and with no source the initial values are untouched.
   * No key other than the two names is ever added.
   */
  lemma InitialNamesRule(initial: map<string, string>, instance: Option<BoundInstance>, user: Option<Names>)
    ensures var r := InitialNames(initial, instance, user);
      (forall k :: k in initial ==> k in r && r[k] == initial[k])
      && (forall k :: k in r && k !in initial ==> k == "first_name" || k == "last_name")
      && (NameSource(instance, user).None? ==> r == initial)
      && (NameSource(instance, user).Some? ==>
            "first_name" in r && "last_name" in r
            && ("first_name" !in initial ==> r["first_name"] == NameSource(instance, user).value.firstName)
            && ("last_name" !in initial ==> r["last_name"] == NameSource(instance, user).value.lastName))
  {
  }

  /** `TeacherRegistrationForm.save(commit)`: with commit, the user's names are updated and the instance stored. */
  method SaveRegistrationForm(db: Database, reg: Registration, firstName: string, lastName: string, commit: bool)
    requires db.Valid() && reg.user in db.accounts && reg.pk < db.nextPk
    modifies db
    ensures db.Valid()
    ensures !commit ==> db.accounts == old(db.accounts) && db.registrations == old(db.registrations)
    ensures commit ==> db.accounts == old(db.accounts)[reg.user := old(db.accounts)[reg.user].(firstName := firstName, lastName := lastName)]
    ensures commit ==> db.registrations == StoreRegistration(old(db.registrations), reg)
    ensures db.profiles == old(db.profiles) && db.documents == old(db.documents) && db.calls == old(db.calls)
    ensures db.nextPk == old(db.nextPk)
  {
    if commit {
      var account := db.accounts[reg.user];
      db.accounts := db.accounts[reg.user := account.(firstName := firstName, lastName := lastName)];
      db.registrations := StoreRegistration(db.registrations, reg);
    }
  }

  /** No two registration rows share a primary key. */
  predicate PksDistinct(regs: seq<Registration>) {
    forall i, j :: 0 <= i < j < |regs| ==> regs[i].pk != regs[j].pk
  }

  /** Whether some row has the primary key `pk`. */
  predicate HasPk(regs: seq<Registration>, pk: nat) {
    exists x :: x in regs && x.pk == pk
  }

  /** Saving an instance: the row with its primary key is replaced, or the instance is added. */
  function StoreRegistration(regs: seq<Registration>, reg: Registration): (r: seq<Registration>)
    ensures reg in r
    ensures forall x :: x in r ==> x == reg || x in regs
    ensures forall x :: x in regs && x.pk != reg.pk ==> x in r
    ensures |r| == if HasPk(regs, reg.pk) then |regs| else |regs| + 1
  {
    if regs == [] then [reg]
    else if regs[0].pk == reg.pk then [reg] + regs[1..]
    else
      assert HasPk(regs, reg.pk) <==> HasPk(regs[1..], reg.pk) by {
        assert regs == [regs[0]] + regs[1..];
      }
      [regs[0]] + StoreRegistration(regs[1..], reg)
  }

  /** On a table whose keys are distinct, the saved instance is afterwards the only row with its key, and keys stay distinct. */
  lemma {:induction false} StoreRegistrationKeepsPksDistinct(regs: seq<Registration>, reg: Registration)
    requires PksDistinct(regs)
    ensures PksDistinct(StoreRegistration(regs, reg))
    ensures forall x :: x in StoreRegistration(regs, reg) && x.pk == reg.pk ==> x == reg
    decreases |regs|
  {
    if regs != [] {
      if regs[0].pk == reg.pk {
        assert forall x :: x in regs[1..] ==> x.pk != reg.pk;
      } else {
        StoreRegistrationKeepsPksDistinct(regs[1..], reg);
        assert forall x :: x in regs[1..] ==> x.pk != regs[0].pk;
      }
    }
  }

  // ---- AdminTeacherRegistrationForm ------------------------------------------

  datatype AdminField =
    | FirstName | LastName | Email | DateOfBirth | Gender | Nationality | NationalIdNumber | PhoneNumber
    | AddressLine1 | AddressLine2 | City | Province | TeachingCertificateNumber | HighestQualification
    | YearsOfExperience | PreferredSchool | PreferredJobTitle

  /** A posted value that the field converts: left blank, converted, or not convertible. */
  datatype Converted<T> = Blank | Value(value: T) | Unconvertible

  /**
   * A submitted `AdminTeacherRegistrationForm`: the posted strings of the text
   * and choice fields, and the converted date, number and model choices.
   * `emailRestAccepted` is the verdict of Django's `EmailValidator` on the
   * user and domain parts of a stripped address that contains "@".
   */
  datatype AdminInput = AdminInput(
    firstName: string, lastName: string,
    email: string, emailRestAccepted: bool,
    dateOfBirth: Converted<int>,
    gender: string, nationality: string, nationalIdNumber: string, phoneNumber: string,
    addressLine1: string, addressLine2: string, city: string, province: string,
    teachingCertificateNumber: string, highestQualification: string,
    yearsOfExperience: Converted<int>,
    preferredSchool: Option<SchoolNo>, preferredJobTitle: Option<string>)

  const GenderChoices: set<string> := {"male", "female", "other"}
  const QualificationChoices: set<string> := {"high_school", "certificate", "diploma", "bachelors", "masters", "doctorate"}

  /** A required text field of at most `maxLength` characters, checked on its stripped value. */
  predicate RequiredText(s: string, maxLength: nat) {
    var t := Text.Strip(s);
    t != "" && |t| <= maxLength
  }

  /** An optional text field: blank, or at most `maxLength` characters once stripped. */
  predicate OptionalText(s: string, maxLength: nat) {
    |Text.Strip(s)| <= maxLength
  }

  /** An optional choice field: empty, or one of the offered values (compared unstripped). */
  predicate OptionalChoice(s: string, choices: set<string>) {
    s == "" || s in choices
  }

  /** An optional email field: blank, or an address with "@" whose parts the validator accepts. */
  predicate OptionalEmail(email: string, restAccepted: bool) {
    var t := Text.Strip(email);
    t == "" || ('@' in t && restAccepted)
  }

  /** How a field is declared: its form field class with its `max_length` or `choices`. */
  datatype FieldKind =
    | RequiredCharField(maxLength: nat)
    | OptionalCharField(maxLength: nat)
    | OptionalEmailField
    | OptionalChoiceField(choices: set<string>)
    | OptionalDateField
    | NonNegativeIntegerField
    | ActiveSchoolField
    | ActiveJobTitleField

  /** The declaration of each field of `AdminTeacherRegistrationForm`. */
  function KindOf(f: AdminField): FieldKind {
    match f
    case FirstName => RequiredCharField(150)
    case LastName => RequiredCharField(150)
    case Email => OptionalEmailField
    case DateOfBirth => OptionalDateField
    case Gender => OptionalChoiceField(GenderChoices)
    case Nationality => OptionalCharField(100)
    case NationalIdNumber => OptionalCharField(50)
    case PhoneNumber => OptionalCharField(30)
    case AddressLine1 => OptionalCharField(255)
    case AddressLine2 => OptionalCharField(255)
    case City => OptionalCharField(100)
    case Province => OptionalCharField(100)
    case TeachingCertificateNumber => OptionalCharField(50)
    case HighestQualification => OptionalChoiceField(QualificationChoices)
    case YearsOfExperience => NonNegativeIntegerField
    case PreferredSchool => ActiveSchoolField
    case PreferredJobTitle => ActiveJobTitleField
  }

  /** The posted string of a text, email or choice field; the converted fields have none. */
  function PostedText(f: AdminField, form: AdminInput): string {
    match f
    case FirstName => form.firstName
    case LastName => form.lastName
    case Email => form.email
    case Gender => form.gender
    case Nationality => form.nationality
    case NationalIdNumber => form.nationalIdNumber
    case PhoneNumber => form.phoneNumber
    case AddressLine1 => form.addressLine1
    case AddressLine2 => form.addressLine2
    case City => form.city
    case Province => form.province
    case TeachingCertificateNumber => form.teachingCertificateNumber
    case HighestQualification => form.highestQualification
    case _ => ""
  }

  /** Whether field `f` fails the check its declaration implies; the model choices must be active rows. */
  predicate FieldFails(f: AdminField, form: AdminInput, activeSchools: set<SchoolNo>, activeJobTitles: set<string>) {
    match KindOf(f)
    case RequiredCharField(n) => !RequiredText(PostedText(f, form), n)
    case OptionalCharField(n) => !OptionalText(PostedText(f, form), n)
    case OptionalEmailField => !OptionalEmail(PostedText(f, form), form.emailRestAccepted)
    case OptionalChoiceField(choices) => !OptionalChoice(PostedText(f, form), choices)
    case OptionalDateField => form.dateOfBirth.Unconvertible?
    case NonNegativeIntegerField =>
      form.yearsOfExperience.Unconvertible? || (form.yearsOfExperience.Value? && form.yearsOfExperience.value < 0)
    case ActiveSchoolField => form.preferredSchool.Some? && form.preferredSchool.value !in activeSchools
    case ActiveJobTitleField => form.preferredJobTitle.Some? && form.preferredJobTitle.value !in activeJobTitles
  }

  /**
   * The fields the admin registration form rejects: a field is in error
   * exactly when it fails the check its declaration implies, and the form is
   * valid exactly when there are none. The lemmas below state each check.
   * The model choices are passed as the sets of active rows.
   */
  function AdminFormErrors(form: AdminInput, activeSchools: set<SchoolNo>, activeJobTitles: set<string>): (r: set<AdminField>)
    ensures forall f :: f in r <==> FieldFails(f, form, activeSchools, activeJobTitles)
  {
    set f: AdminField | FieldFails(f, form, activeSchools, activeJobTitles)
  }

  /** A required text field is in error exactly when, stripped, it is blank or longer than its `max_length`. */
  lemma AdminRequiredCharRule(form: AdminInput, f: AdminField, activeSchools: set<SchoolNo>, activeJobTitles: set<string>)
    requires KindOf(f).RequiredCharField?
    ensures FieldFails(f, form, activeSchools, activeJobTitles) <==>
      Text.Strip(PostedText(f, form)) == "" || |Text.Strip(PostedText(f, form))| > KindOf(f).maxLength
  {
  }

  /** An optional text field is in error exactly when, stripped, it is longer than its `max_length`. */
  lemma AdminOptionalCharRule(form: AdminInput, f: AdminField, activeSchools: set<SchoolNo>, activeJobTitles: set<string>)
    requires KindOf(f).OptionalCharField?
    ensures FieldFails(f, form, activeSchools, activeJobTitles) <==> |Text.Strip(PostedText(f, form))| > KindOf(f).maxLength
  {
  }

  /** A choice field is in error exactly when it holds a non-empty value that is not one of its keys. */
  lemma AdminChoiceRule(form: AdminInput, f: AdminField, activeSchools: set<SchoolNo>, activeJobTitles: set<string>)
    requires KindOf(f).OptionalChoiceField?
    ensures FieldFails(f, form, activeSchools, activeJobTitles) <==>
      PostedText(f, form) != "" && PostedText(f, form) !in KindOf(f).choices
  {
  }

  /**
   * The email is optional: a blank one is never in error, whatever the
   * validator would say; a given one needs "@" and parts the validator accepts.
   */
  lemma AdminEmailRule(form: AdminInput, activeSchools: set<SchoolNo>, activeJobTitles: set<string>)
    ensures FieldFails(Email, form, activeSchools, activeJobTitles) <==>
      !Text.IsBlank(form.email) && ('@' !in Text.Strip(form.email) || !form.emailRestAccepted)
  {
    assert KindOf(Email) == OptionalEmailField && PostedText(Email, form) == form.email;
  }

  /** A non-blank email without "@" is always in error, even when the validator would pass its parts. */
  lemma AdminEmailNeedsAt(form: AdminInput, activeSchools: set<SchoolNo>, activeJobTitles: set<string>)
    requires '@' !in form.email && !Text.IsBlank(form.email)
    ensures FieldFails(Email, form, activeSchools, activeJobTitles)
  {
    AdminEmailRule(form, activeSchools, activeJobTitles);
    Text.StripIsSlice(form.email);
    var t := Text.Strip(form.email);
    var i :| Text.SliceBetweenSpaces(form.email, t, i);
    forall k | 0 <= k < |t| ensures t[k] != '@' {
      assert t[k] == form.email[i + k];
    }
  }

  /** The date field fails exactly when its value cannot be read as a date. */
  lemma AdminDateRule(form: AdminInput, f: AdminField, activeSchools: set<SchoolNo>, activeJobTitles: set<string>)
    requires KindOf(f).OptionalDateField?
    ensures FieldFails(f, form, activeSchools, activeJobTitles) <==> form.dateOfBirth.Unconvertible?
  {
  }

  /** The years-of-experience field fails when it is not a whole number or is negative; blank is accepted. */
  lemma AdminIntegerRule(form: AdminInput, f: AdminField, activeSchools: set<SchoolNo>, activeJobTitles: set<string>)
    requires KindOf(f).NonNegativeIntegerField?
    ensures FieldFails(f, form, activeSchools, activeJobTitles) <==>
      form.yearsOfExperience.Unconvertible? || (form.yearsOfExperience.Value? && form.yearsOfExperience.value < 0)
  {
  }

  /** The preferred school fails exactly when one is chosen and it is not an active school. */
  lemma AdminSchoolRule(form: AdminInput, f: AdminField, activeSchools: set<SchoolNo>, activeJobTitles: set<string>)
    requires KindOf(f).ActiveSchoolField?
    ensures FieldFails(f, form, activeSchools, activeJobTitles) <==>
      form.preferredSchool.Some? && form.preferredSchool.value !in activeSchools
  {
  }

  /** The preferred job title fails exactly when one is chosen and it is not an active title. */
  lemma AdminJobTitleRule(form: AdminInput, f: AdminField, activeSchools: set<SchoolNo>, activeJobTitles: set<string>)
    requires KindOf(f).ActiveJobTitleField?
    ensures FieldFails(f, form, activeSchools, activeJobTitles) <==>
      form.preferredJobTitle.Some? && form.preferredJobTitle.value !in activeJobTitles
  {
  }
}
