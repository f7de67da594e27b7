# Pacific EMIS teacher registration, modelled in Dafny

This project models the access-control and registration core of the Pacific
EMIS teacher-registration Django application. It covers:

- the permission rules in `core/permissions.py`: app access, the six role groups,
  school scoping through active assignments, and who may edit which staff,
  system users, memberships and pending users;
- the view decorators, the school-choice restriction of the membership form,
  the context processor, the user-admin role column and filter, and the
  audit-stamping admin mixin;
- the core views: the dashboard counts and activity feed, the pagination
  window, the permission summary, staff, system-user, membership and
  pending-user views;
- the teacher-registration flow in `teacher_registration/views.py` and
  `forms.py`: create, edit, submit, upload and delete documents, the pending
  list, review (approve or reject), unlinking a teacher;
- the sign-in routing of `accounts/views.py` and the allauth adapters;
- the `seed_groups` and `emis_sync_lookups` management commands;
- the `SchoolStaff`, `SchoolStaffAssignment` and `SystemUser` model logic
  (active assignments, the one-open-assignment constraint, display names).

The database is a `Store.Database` object whose fields are the tables the
views change. Each view is a decision function, which says which branch the
request takes, and a method that takes that branch, modifies the database
and states its new state. Users, profiles and groups are plain
datatypes (`Registry`). Strings are `seq<char>`. The host check
`url_has_allowed_host_and_scheme`, clocks (`timezone.now()`, dates) and the
EMIS HTTP client are parameters of the operations that use them.

The modules, in dependency order:

| module | file | models |
|---|---|---|
| Wrappers | wrappers.dfy | `Option` |
| Text | text.dfy | strip, upper/lower, substring search |
| Sorting | sorting.dfy | the sort behind `sorted` and `order_by` |
| Registry | registry.dfy | users, groups, profiles, assignments (core/models.py) |
| Permissions | permissions.dfy | core/permissions.py |
| Decorators | decorators.dfy | core/decorators.py |
| CoreForms | coreforms.dfy | core/forms.py |
| ContextProcessors | contextprocs.dfy | core/context_processors.py |
| AdminRoles | adminroles.dfy | the role column and filter of core/admin.py |
| AuditMixin | auditmixin.dfy | core/mixins.py |
| Paging | paging.dfy | `_page_window` of both view modules |
| PermissionSummary | permsummary.dfy | `_summarize_permissions` of core/views.py |
| Dashboard | dashboard.dfy | `dashboard` of core/views.py |
| Registrations | registrations.dfy | the `TeacherRegistration` record and its statuses |
| Store | store.dfy | the database the views change |
| ProfileViews | profileviews.dfy | staff, system-user and pending-user views of core/views.py |
| MembershipViews | membershipviews.dfy | membership views of core/views.py |
| RegistrationForms | regforms.dfy | teacher_registration/forms.py |
| RegistrationViews | regviews.dfy | teacher_registration/views.py |
| Accounts | accounts.dfy | accounts/views.py |
| AccountAdapter | adapter.dfy | accounts/account_adapter.py |
| SeedGroups | seedgroups.dfy | the `seed_groups` command |
| LookupSync | lookupsync.dfy | the `emis_sync_lookups` command |

## Model

| member | source | states |
|---|---|---|
| Accounts.CandidateNext | accounts/views.py:26 | a non-empty GET "next" is used; an empty or absent one falls through to the session's "next" |
| Accounts.SafeRedirect | accounts/views.py:20-37 | a URL is offered only when it is non-empty and passes the host check; it is the GET value, or the session value when GET has none; an unsafe GET value yields nothing |
| Accounts.UnsafeGetNextHidesSessionNext | accounts/views.py:26-37 | a non-empty GET "next" that fails the host check is refused without falling back to the session's URL |
| Accounts.TakeSafeRedirect | accounts/views.py:20-37 | returns the safe URL and deletes the session's "next" exactly when a URL is returned; the signed-in user is unchanged |
| Accounts.ActiveRegistrationTarget | accounts/views.py:40-65 | nothing exactly when the user has no draft, submitted, under-review or rejected registration; otherwise the newest such one decides: rejected leads to the history page, any other status to that registration's edit page |
| Accounts.RouteAfterLogin | accounts/views.py:69-103 | app access goes to the safe "next" or the dashboard; then a registration-flow "next"; then the active registration; then an approved teacher's status page; else the no-permissions page |
| Accounts.NoAccessStaysInRegistrationFlow | accounts/views.py:79-91 | a user without app access is only ever redirected to a URL that passes the host check and contains "registration" |
| Accounts.PostLoginRouter | accounts/views.py:68-103 | an anonymous request goes to the login page; a signed-in one gets the route above, and the session's "next" is consumed exactly when a safe URL was found |
| Accounts.SignInDecision | accounts/views.py:114-151 | a signed-in user goes to the GET "next" when it passes the host check and to the dashboard otherwise; a successful login follows the POST "next", else the GET "next", else the dashboard; every other request gets the login page with the GET "next", the registration-flow flag and the failure flag |
| Accounts.SignedInRedirectIsSafe | accounts/views.py:117-125 | a signed-in user is only redirected to URLs that pass the host check |
| Accounts.PasswordLoginSkipsHostCheck | accounts/views.py:131-134 | after a password login a non-empty POST "next" is followed even when it fails the host check |
| Accounts.SignIn | accounts/views.py:114-151 | the outcome is the decision above; the session gains the user on a successful login and keeps a non-empty GET "next" when the login page is shown |
| AccountAdapter.OpenForSignup | accounts/account_adapter.py:8-9 | signup is always open |
| AccountAdapter.AnyDomainMatches | accounts/account_adapter.py:16 | true exactly when the lowercased email ends with "@" and one of the lowercased domains |
| AccountAdapter.DomainAllowed | accounts/account_adapter.py:13-17 | with no domain list or an empty one every email passes; otherwise exactly the emails ("" when unset) ending in "@" and one of the domains, case ignored |
| AccountAdapter.DomainCheckIgnoresCase | accounts/account_adapter.py:15-16 | lowercasing the email first changes nothing |
| AccountAdapter.RestrictedNeedsAt | accounts/account_adapter.py:14-17 | with a non-empty domain list, an email without "@" is refused |
| AccountAdapter.SaveUser | accounts/account_adapter.py:11-20 | permission is denied exactly when the domain test fails; the user is written only when the test passes and `commit` is set; username and email are unchanged |
| AccountAdapter.PopulateUser | accounts/account_adapter.py:31-44 | a non-empty provider email becomes both username and email; otherwise neither changes; nothing is written |
| Decorators.RequireAppAccess | core/decorators.py:55-77 | the view runs exactly when the user has app access; otherwise the user goes to the no-permissions page |
| Decorators.RequireRoleAndGroup | core/decorators.py:80-120 | no app access goes to the no-permissions page; a superuser with app access runs the view; anyone else runs it exactly when in one of the allowed groups, and is denied otherwise |
| Decorators.RoleDecoratorIsNarrower | core/decorators.py:55-120 | the role decorator never admits a user the app-access decorator would turn away |
| CoreForms.SchoolChoices | core/forms.py:27-51 | no choices without a signed-in user; every active school for a superuser or admin; otherwise the schools of the user's active assignments |
| CoreForms.SchoolAdminChoicesAreCreatable | core/forms.py:43-48 | for a non-admin School Admin, a school is offered exactly when the user may create memberships there |
| CoreForms.ChoicesWithoutCreateRight | core/forms.py:43-48 | a non-admin without School Admins is offered schools at none of which it may create memberships |
| ContextProcessors.StaffContextFor | core/context_processors.py:10-45 | the keys start as None and the early returns give exactly `ProfileContext`: a SchoolStaff profile first, then a SystemUser profile, then the admin page for superusers and staff accounts |
| ContextProcessors.AnonymousGetsNothing | core/context_processors.py:16-22 | an anonymous user gets None for all three keys |
| ContextProcessors.SchoolStaffFirst | core/context_processors.py:24-28 | with a SchoolStaff profile the staff key and its detail link are set and the system-user key stays None |
| ContextProcessors.SystemUserSecond | core/context_processors.py:33-37 | without a SchoolStaff profile, a SystemUser profile sets its key and its detail link |
| ContextProcessors.AdminFallback | core/context_processors.py:41-45 | without a profile, the link is the admin user page exactly for superusers and staff accounts, and None otherwise |
| ContextProcessors.ContextShape | core/context_processors.py:10-45 | at most one profile key is set; a set key comes with the link to that profile; a link exists exactly when a signed-in user has a profile or is a superuser or staff account |
| AdminRoles.RoleStatusOf | core/admin.py:79-91 | the status names the SchoolStaff role exactly when the user has that profile, and the SystemUser role exactly when it has that one |
| AdminRoles.RoleLabelsDistinct | core/admin.py:84-91 | the four labels are pairwise different |
| AdminRoles.Keep | core/admin.py:39-45 | keeps exactly the users meeting the condition, in queryset order |
| AdminRoles.NoRoleKeepsUnassigned | core/admin.py:38-39 | "no_role" keeps exactly the users whose role status is "no role" |
| AdminRoles.FilterAgreesWithStatus | core/admin.py:40-45 | "school_staff", "system_user" and "both" keep a user exactly when its role status has that profile, that profile, or both |
| AdminRoles.BothIsIntersection | core/admin.py:40-45 | "both" gives the same sequence as "system_user" applied to the result of "school_staff" |
| AdminRoles.UnknownValueKeepsAll | core/admin.py:46 | any other value, or none, leaves the queryset unchanged |
| AuditMixin.Record.SaveModel | core/mixins.py:10-15 | on create `created_by` is set when unset; `last_updated_by` is set when the model has it; the record is saved once |
| AuditMixin.Record.SaveChild | core/mixins.py:20-25 | each stamp is set only where the child's model has that field, `created_by` only when unset; the child is saved once |
| AuditMixin.SaveFormset | core/mixins.py:17-28 | every instance is stamped as above and saved exactly once; every object marked for deletion is deleted; no other instance is deleted |
| AuditMixin.CreatorKept | core/mixins.py:11-12 | once set, `created_by` survives any later run of saves |
| AuditMixin.CreatorIsFirstSaver | core/mixins.py:10-15 | a record created through the admin and then edited any number of times names its creator |
| AuditMixin.LastEditorRecorded | core/mixins.py:13-14 | on a model with the field, `last_updated_by` names whoever saved last |
| AuditMixin.ChildStampsIdempotent | core/mixins.py:20-24 | stamping a child twice as the same user equals stamping it once |
| Registry.NewSchoolStaff | core/models.py:180-184 | a new SchoolStaff gets the given key and user, the non-teaching staff type and no registration status |
| Registry.ActiveAssignments | core/models.py:350-364 | exactly the person's assignments with no end date or an end date today or later, in their order |
| Registry.ActiveFlagImpliesActiveAssignment | core/models.py:444-460 | an assignment flagged active (no end date) is among the active assignments on any date |
| Registry.SqlConstraintAdmitsDuplicateOpenAssignment | core/models.py:417-433 | under the constraint as the database enforces it (NULL distinct from NULL), a second open-ended assignment of the same person at the same school is admitted and the keys stay distinct, while under the intended reading they are not (see Findings) |
| Registry.AppendAdmittedKeepsDistinct | core/models.py:426-433 | under either reading of the constraint, adding a row with a new id that the constraint admits keeps keys and ids distinct |
| Registry.ReplaceAdmittedKeepsDistinct | core/models.py:426-433 | saving an edited row in place under its own id, when the constraint admits it, keeps keys and ids distinct |
| Registry.RemoveAtKeepsDistinct | core/models.py:426-433 | deleting a row keeps keys and ids distinct |
| Registry.AssignmentIndex | core/views.py:905-910 | finds an assignment with the given id belonging to the given person, or shows that none exists |
| Registry.AssignmentsNotOf | core/models.py:398-400 | keeps exactly the assignments of other people (the cascade of deleting a SchoolStaff row) |
| Registry.WithoutStaff | core/views.py:1194-1196 | deleting a SchoolStaff row removes that profile and only it, and leaves the SystemUser table alone |
| Registry.AssignmentsNotOfKeepsDistinct | core/models.py:426-433 | the cascade keeps the remaining keys and ids distinct |
| Registry.FullName | core/models.py:527 | the full name is empty exactly when both name parts are blank |
| Registry.SystemUserLabel | core/models.py:519-530 | the full name, or the username when it is empty, followed by " (organization)" exactly when the organization is set |
| Registry.SystemUserLabelUsesUsername | core/models.py:527-530 | with blank name parts the label is the username, with the organization appended when set |
| Registry.LatestAssignment | core/views.py:570-576 | none exactly when the person has no assignment; otherwise one of that person's assignments with the highest id |
| Registry.LatestSchoolNo | core/views.py:575 | a school number exactly when the person has an assignment |
| Permissions.RowsAtSchools | core/permissions.py:308-315 | keeps exactly the rows whose latest school is among the allowed ones, in their order |
| Permissions.SignedOutGetsNothing | core/permissions.py:80-540 | a missing or anonymous user passes no check, has no schools and sees no staff |
| Permissions.AppAccessRule | core/permissions.py:161-179 | a superuser has app access; anyone else exactly when it has a SchoolStaff or SystemUser profile and at least one group |
| Permissions.ManagePendingIsAdmin | core/permissions.py:505-522 | managing pending users coincides with `is_admin`; System Staff alone cannot |
| Permissions.SystemUserEditIsAdmin | core/permissions.py:460-503 | editing a system user and editing its groups both coincide with `is_admin` |
| Permissions.AssignAdminsRule | core/permissions.py:525-540 | the Admins group can be handed out exactly by superusers and Admins members; a System Admin cannot, though it may manage pending users |
| Permissions.SchoolGroupsCannotSeeSystemUsers | core/permissions.py:119-144 | a non-superuser whose groups are all school-level cannot reach the system-user pages |
| Permissions.UserSchoolsAreActiveAssignmentSchools | core/permissions.py:205-232 | a school is the user's exactly when the signed-in user has a SchoolStaff profile and an assignment there with no end date |
| Permissions.SchoolAccessIsOverlap | core/permissions.py:253-276 | admins have access to every staff member; anyone else exactly when its active schools meet the staff member's |
| Permissions.ViewStaffRule | core/permissions.py:235-250 | a non-admin views a staff member exactly when it is a School Admin or Teacher with school access to that member |
| Permissions.SchoolAdminMembershipScope | core/permissions.py:317-406 | a non-admin School Admin may create memberships with no target school, and creates, edits and deletes them exactly at its active schools |
| Permissions.OthersCannotTouchMemberships | core/permissions.py:317-406 | a non-admin outside School Admins may not create, edit or delete any membership |
| Permissions.SchoolAdminCannotReachOtherSchool | core/permissions.py:317-347 | a School Admin active only at one school can create memberships there and not at another school |
| Permissions.FilterStaffRule | core/permissions.py:279-315 | admins see every row; non-admins without a school role or without schools see none; School Admins and Teachers see exactly the rows whose latest school is one of their active schools |
| Permissions.StaffEditRule | core/permissions.py:408-458 | editing a staff member and editing its groups are the same rule: admins always, School Admins exactly with school access to that member |
| MembershipViews.NewMembership | core/views.py:711-712 | the new membership gets the next id, belongs to the staff member on the page and names the posted school |
| MembershipViews.EditedMembership | core/views.py:870 | an edited membership keeps its id and its staff member and takes the posted school |
| MembershipViews.AddMembershipDecision | core/views.py:679-729 | refused without app access, or when the caller may not view the staff member; saved exactly when the caller may view the member, the form accepts the posted fields, the caller may create memberships at the posted school and the unique constraint admits the new row; a refused key is one the constraint does not admit, a refused school one the caller may not create at |
| MembershipViews.AddedMembershipInCallerScope | core/views.py:706-720 | a membership saved by a non-admin was saved by a School Admin at one of its own active schools |
| MembershipViews.AsWrittenAddRepeatsOpenKey | core/views.py:706-729 | a membership with a missing date that the intended rule refuses for its key is saved by the view as written, and the table then holds a repeated key (see Findings) |
| MembershipViews.IntendedAddKeepsKeysDistinct | core/views.py:706-729 | under the intended rule, a saved membership keeps the person, school and date keys distinct |
| MembershipViews.AddMembership | core/views.py:706-729 | a saved membership is appended with the next free id and the database stays consistent; under the intended rule distinct keys stay distinct; nothing changes otherwise |
| MembershipViews.EditMembershipDecision | core/views.py:848-885 | refused without app access; not found unless the staff member exists and owns the membership; saved exactly when the caller may edit that membership, the form accepts the fields, the caller may create at the new school and the constraint admits the edited row; a refused key is one it does not admit |
| MembershipViews.EditStaysInCallerScope | core/views.py:860-872 | a non-admin who saves an edit is a School Admin, and both the old and the new school are among its active schools |
| MembershipViews.AsWrittenEditRepeatsOpenKey | core/views.py:860-885 | an edit with a missing date that the intended rule refuses for its key is saved by the view as written, and the table then holds a repeated key |
| MembershipViews.IntendedEditKeepsKeysDistinct | core/views.py:860-885 | under the intended rule, a saved edit keeps the keys distinct |
| MembershipViews.EditMembership | core/views.py:848-885 | a saved edit rewrites that membership in place, keeping the database consistent; under the intended rule distinct keys stay distinct; nothing changes otherwise |
| MembershipViews.WithoutRow | core/views.py:919-920 | the table after deleting one row: one row fewer, every other row kept, exactly that row's occurrence gone |
| MembershipViews.DeleteMembershipDecision | core/views.py:901-927 | refused without app access; deleted exactly when the membership exists, belongs to the staff member, the caller may delete it and the request is a POST |
| MembershipViews.DeleteKeepsConsistent | core/views.py:919-920 | deleting a row keeps every foreign key and the database constraint |
| MembershipViews.DeleteMembership | core/views.py:901-927 | on deletion exactly that membership is removed and all others kept; nothing changes otherwise |
| ProfileViews.ReplaceGroups | core/views.py:808-817 | the result holds every chosen group, keeps every current group outside the scope, and holds nothing else |
| ProfileViews.ReplaceGroupsWithinScope | core/views.py:808-817 | with a choice inside the scope, the scoped part of the result is the choice and the part outside the scope is unchanged |
| ProfileViews.StaffEditDecision | core/views.py:777-836 | refused without app access; not found without the SchoolStaff row; saved exactly when the caller may edit that staff member and a valid form is posted |
| ProfileViews.SchoolAdminEditsOnlyColleagues | core/views.py:798-800 | a non-admin who saves a staff edit is a School Admin sharing an active school with that staff member |
| ProfileViews.StaffEdit | core/views.py:801-822 | a saved edit sets the staff type and, when the caller may edit groups, replaces the member's school-level groups and keeps the others; nothing changes otherwise; the database stays consistent |
| ProfileViews.SystemEditDecision | core/views.py:466-536 | refused without app access; denied without system-user access; saved exactly when the profile exists, the caller may edit it and a valid form is posted |
| ProfileViews.SystemEditNeedsAdmin | core/views.py:478-489 | only admins save system-user edits; a System Staff member reaches the page but is sent back |
| ProfileViews.SystemUserEdit | core/views.py:494-523 | a saved edit sets organisation and position and, when the caller may edit groups, replaces the system-level groups and keeps the others; nothing changes otherwise |
| ProfileViews.PendingUserFilter | core/views.py:976-991 | keeps exactly the accounts with no profile, no superuser flag, no draft, submitted, under-review or rejected registration, matching the search |
| ProfileViews.PendingUsers | core/views.py:976-991 | the same accounts, ordered by sign-up date, newest first |
| ProfileViews.PendingListsPartition | core/views.py:962-982 | a profile-less, non-superuser account is on exactly one list: pending users, or pending registrations |
| ProfileViews.PendingUsersList | core/views.py:939-1009 | refused without app access; listed exactly for callers who may manage pending users, with the stripped search and an allowed page size |
| ProfileViews.AssignDecision | core/views.py:1014-1050 | refused without app access; a user who already has that profile is sent back; assigned exactly for a manager posting a valid form for an existing user without that profile |
| ProfileViews.AssignedUserLeavesPending | core/views.py:1035-1044 | an assigned user is no longer pending, and has app access once it holds any group |
| ProfileViews.AssignSchoolStaff | core/views.py:1014-1062 | on assignment a SchoolStaff row with the chosen staff type is created and the chosen groups are added; nothing changes otherwise |
| ProfileViews.AssignSystemUser | core/views.py:1067-1116 | on assignment a SystemUser row is created, organisation and position defaulting to "", and the chosen groups are added; nothing changes otherwise |
| ProfileViews.DeleteUserDecision | core/views.py:1121-1169 | refused without app access; a profiled, self or superuser target is refused; deleted exactly for a manager's POST on any other existing account |
| ProfileViews.RegistrationsNotOf | core/views.py:1158 | keeps exactly the registrations of other users (the cascade of deleting an account) |
| ProfileViews.RegistrationPksOf | core/views.py:1158 | exactly the primary keys of the user's registrations |
| ProfileViews.DocumentsNotOf | core/views.py:1158 | keeps exactly the documents whose registration is not among the removed ones (the cascade from a deleted registration to its documents) |
| ProfileViews.DeletePendingUser | core/views.py:1155-1160 | on deletion the account goes, and so do its registrations and exactly the documents attached to them; the caller's account stays; nothing changes otherwise |
| ProfileViews.StaffDeleteDecision | core/views.py:1174-1211 | refused without app access; the caller's own profile is refused; deleted exactly for a manager's POST on another existing SchoolStaff row |
| ProfileViews.DeletedStaffBecomesPending | core/views.py:1174-1202 | after its SchoolStaff row is deleted, an account with no other role and no registration in progress is pending again |
| ProfileViews.StaffDelete | core/views.py:1193-1202 | on deletion the SchoolStaff row and its assignments go and the account stays; nothing changes otherwise |
| RegistrationViews.RequiredDocumentsStatus | teacher_registration/views.py:51-91 | one entry per checklist item, in checklist order, with its label, marked uploaded exactly when some document's link-type code equals one of the item's codes, case ignored |
| RegistrationViews.UntypedDocumentIgnored | teacher_registration/views.py:80-82 | a document without a link type ticks no checklist item |
| RegistrationViews.PassportInAnyCase | teacher_registration/views.py:82-88 | a document coded "passport" in lower case ticks the birth-certificate-or-passport item |
| RegistrationViews.Newest | teacher_registration/views.py:191-195 | one of the user's registrations with a wanted status and no other such registration newer, or none exactly when there is no such registration |
| RegistrationViews.MyRegistrationRoute | teacher_registration/views.py:173-227 | anonymous users go to login; managers go to the admin register page; an approved teacher sees the history; else the newest draft is edited; a user with no registration goes to create; anyone else sees the status page, having registrations but no draft |
| RegistrationViews.CreateDecision | teacher_registration/views.py:230-295 | a registration is created, with the next key, exactly for a signed-in user without a SchoolStaff profile and without a draft, submitted or under-review registration; an existing draft is continued; a pending one blocks |
| RegistrationViews.FirstOfUserAppend | teacher_registration/views.py:245-255 | appending a registration changes the first match only when nothing earlier matched |
| RegistrationViews.RejectedDoesNotBlockCreate | teacher_registration/views.py:244-262 | adding a rejected registration leaves the create decision unchanged |
| RegistrationViews.CreateAgainContinuesDraft | teacher_registration/views.py:244-271 | once a draft has been created, asking again continues that draft instead of creating another |
| RegistrationViews.RegistrationCreate | teacher_registration/views.py:264-281 | on creation one initial draft owned, created and last updated by the caller is appended, with one change-log call from "" to draft; nothing changes otherwise |
| RegistrationViews.SubmitNameErrors | teacher_registration/views.py:339-347 | no messages exactly when both stripped names are non-blank; each message appears exactly when its name is blank |
| RegistrationViews.PostedEdit | teacher_registration/views.py:324-412 | invalid forms, or names over 150 characters, show errors; a submission with a blank name shows the name messages; a saved draft returns to its edit page; a submission goes to the pending list for managers and the status page for others |
| RegistrationViews.EditDecision | teacher_registration/views.py:299-458 | not found without the registration; denied exactly to callers who are neither owner nor manager; anything is saved only by an owner or manager, on a valid POST of an editable registration; a submission needs both names |
| RegistrationViews.BlankNameBlocksSubmit | teacher_registration/views.py:339-369 | a submission with a blank first or last name saves nothing |
| RegistrationViews.RegistrationEdit | teacher_registration/views.py:371-410 | a save stores the registration with the caller as last updater and gives the owner the cleaned names; a submission also calls `submit` once; nothing changes otherwise |
| RegistrationViews.SaveEdit | teacher_registration/views.py:371-394 | the registration is stored with the caller as last updater, the owner's names are replaced, and `submit` is called exactly when submitting |
| RegistrationViews.SubmitDecision | teacher_registration/views.py:461-504 | submitted exactly when the owner POSTs for a draft; denied exactly for anyone but the owner; refused as already submitted exactly for the owner's non-draft |
| RegistrationViews.SubmitIsOwnerOnly | teacher_registration/views.py:469-470 | a caller who does not own the registration cannot submit it, manager or not |
| RegistrationViews.RegistrationSubmit | teacher_registration/views.py:477-495 | `submit` is called exactly on a submission; nothing else changes |
| RegistrationViews.UploadDecision | teacher_registration/views.py:507-541 | not found without the registration; denied exactly to callers who are neither owner nor manager; otherwise back to an edit page of that registration |
| RegistrationViews.DocumentUpload | teacher_registration/views.py:526-533 | a permitted POST of an accepted file to an editable registration appends one document for that registration, recording link type, file name and size (at most the upload limit) and the caller as creator and updater; nothing changes otherwise |
| RegistrationViews.FindDocument | teacher_registration/views.py:550 | a document with that key belonging to that registration, or proof that there is none |
| RegistrationViews.RemoveDocument | teacher_registration/views.py:565 | keeps exactly the documents with other keys |
| RegistrationViews.DeleteDocDecision | teacher_registration/views.py:544-570 | both lookups come first: not found exactly when either fails; then denied exactly to callers who are neither owner nor manager; only a manager who is not the owner returns to the admin edit page, and only the owner to the edit page |
| RegistrationViews.DocumentDelete | teacher_registration/views.py:558-570 | a permitted POST on an editable registration removes the addressed document of that registration; nothing changes otherwise |
| RegistrationViews.PerPage | teacher_registration/views.py:828-833 | the page size is always one of 10, 25, 50, 100: the requested one when it is among them, 25 otherwise |
| RegistrationViews.PendingFilter | teacher_registration/views.py:836-855 | keeps exactly the draft, submitted, under-review and rejected registrations matching the status filter and the search |
| RegistrationViews.PendingRegistrations | teacher_registration/views.py:836-869 | the same registrations, none approved, ordered under review, submitted, rejected, draft, and newest first within a status |
| RegistrationViews.ApprovedFilterIsEmpty | teacher_registration/views.py:835-847 | the status filter "approved" lists nothing |
| RegistrationViews.PendingList | teacher_registration/views.py:813-888 | refused without app access; listed exactly for managers, with the stripped filters and an allowed page size |
| RegistrationViews.ReviewDecision | teacher_registration/views.py:891-974 | model methods are called only by a manager on a submitted, under-review or rejected registration; any other status is not reviewable; `start_review` comes first exactly for submitted or rejected ones; approval and rejection end with `approve` or `reject` carrying the reviewing manager and the comments |
| RegistrationViews.RejectionCarriesReason | teacher_registration/views.py:946-947 | a rejection is only recorded when the action is "reject" and the comments are not blank |
| RegistrationViews.RejectWithoutReasonOnlyStartsReview | teacher_registration/views.py:916-922 | a rejection with blank comments calls at most `start_review` and neither approves nor rejects |
| RegistrationViews.InvalidReviewOnlyStartsReview | teacher_registration/views.py:916-922 | a review form that does not validate calls at most `start_review` and neither approves nor rejects |
| RegistrationViews.RegistrationReview | teacher_registration/views.py:916-962 | exactly the decided model calls are recorded, in order; nothing else changes |
| RegistrationViews.UnlinkTeacher | teacher_registration/views.py:1278-1280 | every registration approved into that profile loses the link and every other registration is kept as it was, in order |
| RegistrationViews.TeacherDeleteDecision | teacher_registration/views.py:1250-1298 | deleted exactly for a manager's POST on an existing teaching-staff profile; "not found" only when there is no teaching-staff profile for that user |
| RegistrationViews.UnlinkLeavesNoLink | teacher_registration/views.py:1278-1283 | after the unlink no registration points at the teacher, and every registration keeps its key, owner and status |
| RegistrationViews.DeletedTeacherLosesAccess | teacher_registration/views.py:1283 | a deleted teacher without a SystemUser profile, not a superuser, loses app access |
| RegistrationViews.TeacherDelete | teacher_registration/views.py:1272-1289 | on deletion the approval links are cleared, the profile and its assignments go, and the account stays; nothing changes otherwise |
| Registrations.StatusCodeInjective | teacher_registration/views.py:846-847 | distinct statuses have distinct stored codes, so the status filter selects at most one status |
| Registrations.FindRegistration | teacher_registration/views.py:308 | a registration with that key, or proof that none has it (the 404 branch of `get_object_or_404`) |
| Registrations.FirstOfUser | teacher_registration/views.py:245-255 | a registration of that user with one of the statuses, or none exactly when the user has no such registration |
| Paging.CollectPages | core/views.py:271-285 | the collected set is exactly the pages from 1 to total that are among the first or last `edges` pages or within `radius` of the current page |
| Paging.SortPages | core/views.py:287 | strictly increasing, with exactly the pages of the set |
| Paging.AppendPage | core/views.py:290-293 | one loop turn keeps the window as a prefix, ends it with the new page and adds no other page |
| Paging.AppendPageShape | core/views.py:290-293 | a marker is inserted exactly when there is a previous page and the new page does not follow it |
| Paging.AppendPageKeepsIncreasing | core/views.py:287-294 | a page above every listed page keeps the pages increasing |
| Paging.AppendPageKeepsGaps | core/views.py:289-294 | every marker still sits between two pages more than one apart |
| Paging.AppendPageKeepsConsecutive | core/views.py:289-294 | two adjacent pages with no marker between them are still consecutive |
| Paging.AppendKeepsWindow | core/views.py:289-294 | one turn of the final loop keeps its invariant: the window over the first `i` pages becomes the window over `i + 1` |
| Paging.InsertGaps | core/views.py:288-295 | from increasing pages: a window listing exactly those pages, increasing, consecutive wherever no marker separates them, each marker between pages more than one apart |
| Paging.PageWindow | core/views.py:266-295 | the window lists exactly the pages in the edge and radius ranges, increasing, with a marker exactly at each break in the run |
| Paging.RegistrationPageWindow | teacher_registration/views.py:142-165 | the same with radius 2, edges 2 and marker "…" |
| Paging.CorePageWindow | core/views.py:266-295 | the same with radius 2, edges 2 and marker "&" |
| PermissionSummary.BucketIndex | core/views.py:107 | each bucket's position in the view, add, change, delete, other order |
| PermissionSummary.ActionBucket | core/views.py:83-90 | a permission is filed under the first action whose prefix and underscore start its codename, and under "other" only when none does |
| PermissionSummary.BucketModelsSnoc | core/views.py:82-99 | one more permission adds its model label to its own bucket and to no other |
| PermissionSummary.FilePermissions | core/views.py:71-99 | after the loop each bucket holds exactly the model labels of the permissions filed under it |
| PermissionSummary.HasSectionSnoc | core/views.py:108-118 | appending a section adds exactly its bucket to those with a section |
| PermissionSummary.SummarizePermissions | core/views.py:60-120 | sections come in bucket order, there is one exactly for each non-empty bucket, and each carries its key, its label and its bucket's model labels sorted without repeats |
| Dashboard.CountStatus | core/views.py:160-172 | a status count never exceeds the number of registrations |
| Dashboard.CountInProgress | core/views.py:175-177 | the number of registrations in progress never exceeds the number of registrations |
| Dashboard.PendingTotalCountsInProgress | core/views.py:160-177 | the four status counts add up to the in-progress registrations, and with the approved count to all of them |
| Dashboard.ActionOf | core/views.py:189-194 | "Updated" exactly when both times are set and the update is later; "Activity" exactly without a creation time |
| Dashboard.ByDisplay | core/views.py:200-208 | the full name when there is one, else the email when set, else the username |
| Dashboard.EventOf | core/views.py:183-225 | an event exactly for a row with a time, at that time, with the row's action, an actor exactly when either audit user is set, and a detail link exactly for linked tables |
| Dashboard.EventsFrom | core/views.py:182-225 | the events are exactly those of the timed rows |
| Dashboard.SortedPrefixIsNewest | core/views.py:242 | in newest-first order nothing past the first `n` is newer than anything among them |
| Dashboard.LatestEvents | core/views.py:242 | at most ten events, newest first, a sub-multiset of the input, and an event left out only when ten at least as new are kept |
| Dashboard.NewestPrefix | core/views.py:242 | any prefix of the events sorted newest first is sorted, a sub-multiset of the events, and holds only events at least as new as any it leaves out |
| Dashboard.RecentEvents | core/views.py:229-242 | at most ten events, newest first, a sub-multiset of the events made from the SchoolStaff rows (linked) and the assignment rows (not linked) |
| Dashboard.TimedRowIsShownUnlessCrowdedOut | core/views.py:229-242 | a SchoolStaff row with a time shows in the feed unless ten events at least as new fill it |
| Dashboard.TimedAssignmentRowIsShownUnlessCrowdedOut | core/views.py:229-242 | an assignment row with a time shows in the feed, unlinked, unless ten events at least as new fill it |
| LookupSync.LookupIndex | integrations/management/commands/emis_sync_lookups.py:30-44 | each table's position in the order the command syncs them |
| LookupSync.Key | integrations/management/commands/emis_sync_lookups.py:68-84 | a synced item's code is never empty: items whose code is missing, empty or zero are skipped |
| LookupSync.LabelFor | integrations/management/commands/emis_sync_lookups.py:73-106 | every table but schools gets a non-empty label: the name (or formatted year) when given, else the code |
| LookupSync.CodedCount | integrations/management/commands/emis_sync_lookups.py:67-75 | the items that are synced are at most all the items |
| LookupSync.ApplyRows | integrations/management/commands/emis_sync_lookups.py:67-85 | after the upserts a code has a row exactly when it had one or is among the synced codes; a synced code holds the label of its last item and is active; every other row is as it was |
| LookupSync.CreatedAreNewCodes | integrations/management/commands/emis_sync_lookups.py:71-75 | the "added" count is exactly the number of new codes in the table, and no code is removed |
| LookupSync.SyncIsIdempotent | integrations/management/commands/emis_sync_lookups.py:65-229 | syncing the same payload again leaves the table unchanged and adds nothing |
| LookupSync.LookupStore.SyncTable | integrations/management/commands/emis_sync_lookups.py:67-86 | only that table changes, to its upserted rows; added is the number of new rows and added plus updated the number of coded items |
| LookupSync.LookupStore.SyncAll | integrations/management/commands/emis_sync_lookups.py:26-229 | every table holds its list's upserted rows (a missing list being empty), with its (added, updated) counts |
| RegistrationForms.CleanFile | teacher_registration/forms.py:139-162 | an accepted upload is returned unchanged |
| RegistrationForms.CleanFileRule | teacher_registration/forms.py:142-160 | too large exactly above 10 MiB; wrong type exactly for a file within the limit whose content type is given and not PDF, JPEG, PNG or GIF; a file without a content type within the limit is accepted |
| RegistrationForms.UploadLimitBoundary | teacher_registration/forms.py:144-145 | exactly 10 MiB passes, one byte more is refused, and a text file is refused for its type |
| RegistrationForms.SaveDocument | teacher_registration/forms.py:164-175 | with a file, the document records its name and size and nothing else changes; without one, the document is unchanged |
| RegistrationForms.ReviewClean | teacher_registration/forms.py:303-330 | a valid form carries the stripped comments |
| RegistrationForms.StripIdempotent | teacher_registration/forms.py:323 | stripping stripped comments changes nothing |
| RegistrationForms.ReviewCleanRule | teacher_registration/forms.py:319-330 | a rejection is valid exactly when the comments are not blank; an approval is always valid, with its comments stripped |
| RegistrationForms.SetDefault | teacher_registration/forms.py:87-91 | the key ends up present, keeping its value when it already had one, and no other key changes |
| RegistrationForms.InitialNamesRule | teacher_registration/forms.py:80-94 | explicit initial values always win; both a missing first name and a missing last name come from a saved instance's user, else from the given user; with neither, the initial values are untouched; no other key is added |
| RegistrationForms.SaveRegistrationForm | teacher_registration/forms.py:104-120 | with commit, the owner's first and last names are replaced and the registration stored; without commit, nothing changes |
| RegistrationForms.StoreRegistration | teacher_registration/forms.py:117-118 | the saved registration is present afterwards, every row with another key stays, nothing else is added, and the table grows by one exactly when no row had its key |
| RegistrationForms.StoreRegistrationKeepsPksDistinct | teacher_registration/forms.py:117-118 | on a table with distinct keys, the saved registration is afterwards the only row with its key and keys stay distinct |
| RegistrationForms.AdminFormErrors | teacher_registration/forms.py:178-287 | a field is in error exactly when it fails the check its declaration implies; the rule lemmas below state each check |
| RegistrationForms.AdminRequiredCharRule | teacher_registration/forms.py:186-195 | a first or last name is in error exactly when, stripped, it is blank or longer than 150 characters |
| RegistrationForms.AdminOptionalCharRule | teacher_registration/forms.py:214-257 | an optional text field (nationality, national id, phone, both address lines, city, province, certificate number) is in error exactly when, stripped, it is longer than its declared maximum |
| RegistrationForms.AdminChoiceRule | teacher_registration/forms.py:209-270 | gender and highest qualification are in error exactly when given and not one of the declared choices |
| RegistrationForms.AdminEmailRule | teacher_registration/forms.py:196-204 | the email is in error exactly when, stripped, it is not blank and either has no "@" or its user and domain parts are refused |
| RegistrationForms.AdminEmailNeedsAt | teacher_registration/forms.py:196-204 | a non-blank email without an "@" is always in error |
| RegistrationForms.AdminDateRule | teacher_registration/forms.py:205-208 | the date of birth is in error exactly when it cannot be read as a date; blank is accepted |
| RegistrationForms.AdminIntegerRule | teacher_registration/forms.py:271-275 | years of experience are in error exactly when not a whole number or negative; blank is accepted |
| RegistrationForms.AdminSchoolRule | teacher_registration/forms.py:278-282 | the preferred school is in error exactly when one is chosen that is not active |
| RegistrationForms.AdminJobTitleRule | teacher_registration/forms.py:283-287 | the preferred job title is in error exactly when one is chosen that is not active |
| SeedGroups.IndexOfDot | core/management/commands/seed_groups.py:204-205 | the position of the first dot |
| SeedGroups.ParseRoundTrip | core/management/commands/seed_groups.py:203-208 | a string with a dot is the app label and the codename joined by ".", neither holding a dot; a string without one names a permission of the core app |
| SeedGroups.Parsed | core/management/commands/seed_groups.py:201-208 | each configured string parsed, in order |
| SeedGroups.Wanted | core/management/commands/seed_groups.py:210-218 | a permission is given exactly when a configured string names it and it exists |
| SeedGroups.WantedKeysMembers | core/management/commands/seed_groups.py:210-218 | the permissions kept from a list are exactly those in the list that exist |
| SeedGroups.Missing | core/management/commands/seed_groups.py:223-228 | a permission is reported as not found exactly when a configured string names it and it does not exist |
| SeedGroups.MissingKeysMembers | core/management/commands/seed_groups.py:223-228 | the permissions reported from a list are exactly those in the list that do not exist |
| SeedGroups.ParseConfigEntries | core/management/commands/seed_groups.py:185 | parsing the configuration keeps its group names, distinct and in order |
| SeedGroups.CreatedCount | core/management/commands/seed_groups.py:186-193 | the run creates exactly the configured groups that did not exist before it |
| SeedGroups.SeededGroups | core/management/commands/seed_groups.py:185-221 | each configured group ends holding its starting permissions (none under `--reset` or when new) plus its existing configured ones |
| SeedGroups.SeededUnconfigured | core/management/commands/seed_groups.py:185 | a group the configuration does not name is untouched |
| SeedGroups.SeededConfigured | core/management/commands/seed_groups.py:186 | every configured group exists after the run |
| SeedGroups.ResetLeavesExactlyConfigured | core/management/commands/seed_groups.py:196-221 | after `--reset` each configured group holds exactly its existing configured permissions |
| SeedGroups.RerunChangesNothing | core/management/commands/seed_groups.py:185-228 | a second run without `--reset` leaves every group as the first run left it |
| SeedGroups.RerunAssignsNothing | core/management/commands/seed_groups.py:215-218 | a run over groups that already hold their wanted permissions adds none |
| SeedGroups.SecondRunAssignsNothing | core/management/commands/seed_groups.py:183-218 | the second run reports zero permissions assigned |
| SeedGroups.GrantPermissions | core/management/commands/seed_groups.py:201-228 | the group ends with its starting permissions plus the existing configured ones; the count is how many of those it lacked; the warnings are the missing ones, in order |
| SeedGroups.GrantStep | core/management/commands/seed_groups.py:215-228 | one loop turn keeps the loop invariant in each of its three branches |
| SeedGroups.GroupStore.AssignPermissions | core/management/commands/seed_groups.py:200-228 | only that group's permission set changes, by the existing configured permissions |
| SeedGroups.GroupStore.GetOrCreate | core/management/commands/seed_groups.py:186-198 | created exactly when the name was missing; the group then holds nothing if new or reset, and its old permissions otherwise |
| SeedGroups.GroupStore.SeedGroup | core/management/commands/seed_groups.py:186-228 | one group fetched or created, cleared under `--reset`, and given its permissions, counting those added |
| SeedGroups.GroupStore.SeedNext | core/management/commands/seed_groups.py:185-228 | one turn of the group loop keeps the groups and the three counters equal to those of the groups seeded so far |
| SeedGroups.GroupStore.Seed | core/management/commands/seed_groups.py:181-228 | the groups become the seeded groups; created plus already-existing is the number of configured groups; created is the number of new names; the assigned count is the permissions added |
| Sorting.Insert | core/views.py:242 | inserting into a sorted sequence gives a sorted sequence holding the old elements and the new one, counted with multiplicity |
| Sorting.SortBy | core/views.py:242 | the result is sorted by the key and a permutation of the input |
| Sorting.SortBySameElements | core/views.py:242 | sorting keeps exactly the same elements |
| Sorting.StrLtTotal | core/views.py:111 | the string order compares any two distinct strings |
| Sorting.SortedStrings | core/views.py:111 | `sorted(set)`: strictly increasing, exactly the elements of the set, one each |
| Text.Strip | teacher_registration/views.py:825-826 | `str.strip()`: nothing left exactly when the string is all white space; otherwise neither end is white space |
| Text.StripIsSlice | teacher_registration/views.py:825-826 | what `strip` keeps is a slice of the string with nothing but white space before and after it |
| Text.ContainsIffOccurs | teacher_registration/views.py:849-854 | the substring test used by searches holds exactly when the needle occurs at some position |

## Left out

- The bodies of the registration model methods `submit`, `start_review`, `approve`, `reject`, `is_editable` and `RegistrationChangeLog.log_change`: teacher_registration/models.py is a docstring stub, so each call a view makes is recorded as a `ModelCall` with its arguments, `is_editable` is an input, and no effect of approval (profile creation, record copying, document re-ownership) is asserted.
- The TeacherRegistration model itself is not part of this model's sources: its stored status values are taken to be "draft", "submitted", "under_review", "approved" and "rejected".
- Email notifications and their background threads (core/emails.py, accounts/signals.py): I/O and concurrency.
- The EMIS HTTP client (integrations/emis_client.py): network I/O; the lookup payload is an input to `LookupSync.LookupStore.SyncAll`.
- Template rendering, flash messages, URL reversing (outcomes name the route and its argument instead), Django's `Paginator` and query shaping (`select_related`, `prefetch_related`, `distinct`).
- `url_has_allowed_host_and_scheme`: a library predicate, passed to the account views as a parameter.
- `timezone.now` and "today": parameters (`now`, `today`).
- The random placeholder email made with `uuid` by `admin_register`, and the views that are not guard or routing logic: `admin_register`, `admin_edit`, `registration_history`, `registration_delete`, `teachers_list`, `teacher_detail`, the public pages, `system_user_list`, `system_user_detail` and the rendering side of `staff_list`.
- `transaction.atomic`: nothing in the model fails part-way, so the all-or-nothing blocks of `save_formset`, of the lookup sync and of the views need no separate treatment; concurrent requests are not modelled.
- Database integrity errors: a save the constraint refuses (under `AsWritten`, all four key columns equal with both dates set) is modelled as the refused outcome `AddKeyTaken` or `EditKeyTaken` of the view, not as an exception that ends the request.
- RegistrationForms.AdminFormErrors: the verdict of Django's `EmailValidator` on the user and domain parts of an address, and the parsing of the date and the number, are inputs (`emailRestAccepted` and the `Converted` values); only the "@" test and the checks on the converted values are stated.
- Inline formsets of the registration edit page and `formset.save_m2m`: only their validity reaches the model, as an input.
- Uploaded file storage: a document records its file's name and size only.
- `str.strip`, `lower`, `upper` and `icontains`: white space is Python's ASCII set (tab, line feed, vertical tab, form feed, carriage return, the separators 0x1C–0x1F and space) and case is that of ASCII; non-ASCII white space (such as 0x85, 0xA0 and the Unicode spaces) and Unicode case folding are not modelled.
- Console output of the management commands (progress lines, warnings, the summary line): the model returns the counts and the list of missing permissions the lines report.
- SeedGroups.ParsePermission: requires a permission string with at most one ".", because the command's two-name unpacking raises an uncaught error on a second dot and aborts the run; the configured strings all meet it.
- SeedGroups.GroupStore.Seed: the group configuration is a parameter instead of the command's constant table, so the counts are stated for any configuration with distinct group names.
- AuditMixin.SaveModelStamps: on a model without a `created_by` field the first assignment only sets a plain attribute that is never stored; the model records it in the stamps all the same.
- Registrations.FirstOfUser: `.first()` on a query without an ordering is taken in table order.
- LookupSync.Key: school numbers are stored as the text of the code, as the character primary key converts them; codes that are neither text nor whole numbers are not modelled.
- MembershipViews.AddMembership: an assignment carries no audit fields in the model, so the `created_by` and `last_updated_by` stamps the staff page puts on a new assignment are not stated.
- MembershipViews.EditMembership: likewise, the `last_updated_by` stamp on an edited assignment is not stated.
- Dashboard.RecentEvents: the five newest SchoolStaff and assignment rows are its inputs; the two queries that pick them are not modelled.
- The dashboard's other counts (staff totals, recent additions, unassigned staff, group counts, active schools): plain counting queries with nothing to state beyond their definition.
- Configuration without logic: the URL configurations, integrations/admin.py, teacher_registration/admin.py, integrations/models.py, core/templatetags/form_extras.py, and the printing-only export_group_permissions command.

## Notes on the source

- The docstring of `pending_users_list` (core/views.py:944) names draft, submitted and under-review registrations as the ones that remove a user from the list, while the query also excludes rejected ones; the model follows the query.
- The membership views make no key check of their own: `SchoolStaffAssignmentForm` (core/forms.py:15) leaves the staff member out of its fields, so the form's unique validation cannot apply `uq_school_staff_assignment`, and the database constraint is the only guard. The views take a `Registry.KeyRule`: `AsWritten` is that constraint as the database enforces it, `Intended` the corrected rule (see Findings).

## Findings

| source | as written | input that shows it | evidently intended | confidence | as-written member | corrected member |
|---|---|---|---|---|---|---|
| core/models.py:426-433 | `uq_school_staff_assignment` is a database unique constraint over (school_staff, school, start_date, end_date), two of them nullable; SQL treats NULLs as distinct, so rows with missing dates never collide, and the membership views add and edit such rows unchecked (core/views.py:706-729, 860-885) | two assignments of the same person at the same school, both with no start date and no end date | at most one assignment per person, school and date range, open-ended ones included | not executed | MembershipViews.AsWrittenAddRepeatsOpenKey | MembershipViews.IntendedAddKeepsKeysDistinct |
