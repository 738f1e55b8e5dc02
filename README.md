# ApeVolo.Admin core, modelled in Dafny

This project models the decision logic of six files of the ApeVolo.Admin back end:

- **Job-scheduling administration** (`QuartzNetController`). The controller keeps two stores in step:
  - the job table, from id to job definition;
  - the live scheduler, from a (task name, task group) key to a trigger status.

  Create, Update, Delete, Execute, Pause and Resume each validate their input and then call the job repository and the scheduler center. Query copies the live status into each listed row.
- **The job-definition record** (`CreateUpdateQuartzNetDto`): its required and range annotations, and the `IsEnable` default.
- **User accounts** (`UserService`):
  - uniqueness guards, checked in order;
  - replacement of the user-role and user-job link tables;
  - columns that an update must keep;
  - the ban on deleting your own account;
  - the password, e-mail and profile self-service guards;
  - the avatar file name and relative path;
  - login lookup by e-mail address or user name.
- **E-mail message templates and application secrets**: name-uniqueness and existence guards over a table, the application-id format, and the export projection.
- **Permission queries** (`PermissionService`): each is a three-table join restricted to one user, then grouped, ordered and filtered.

## How it is laid out

Each core file is one module:

| module | file |
|---|---|
| `QuartzNet` | `quartz_controller.dfy` |
| `QuartzDto` | `quartz_dto.dfy` |
| `UserService` | `user_service.dfy` |
| `EmailTemplates` | `email_template_service.dfy` |
| `AppSecrets` | `app_secret_service.dfy` |
| `PermissionService` | `permission_service.dfy` |

Three helper modules support them:

- `Common`: nullable values, the service-level result `OperateResult`, and the string tests.
- `Clock`: calendar readings and the `yyyyMMdd` / `yyyyMMddHHmmss` digit formats.
- `StringOrder`: the ordinal string order, and a de-duplicating sorted insertion.

**Stateful services are classes.** A service that changes tables is a class whose fields are those tables. Each action is a method with a `modifies` clause, and its `ensures` state the whole new state.

**Collaborators are methods with a contract.** The job repository, the scheduler center and the ORM writes are not part of this model. Each collaborator call is a method whose boolean outcome the model leaves open, and whose contract says what the state is on success and on failure. In the scheduling controller, every collaborator call also goes into an ordered ghost trace `calls`. This lets the contracts state which calls an action makes, and in what order.

**Foreign functions and values.**
- These are function fields fixed at construction: `CronExpression.IsValidExpression`, `BCryptHelper.Hash` and `Verify`, `RsaHelper.Decrypt`, `ToHmacsha256String` and `IsEmail`.
- These are parameters: the clock reading, the generated ids, the current user and session token, the cached verification code, and the platform's directory separator.
- Cache removals are recorded in a ghost log `evictions`.

**Pure code.** The permission queries, the annotations and the string building are functions. Lemmas about those functions connect them to independent definitions:
- the permission queries to existential "grants" predicates;
- the path builder to its platform-independent result;
- the guards to the uniqueness invariants they preserve.

## Model

| member | source | states |
|---|---|---|
| QuartzDto.NewDefinition | Ape.Volo.IBusiness/Dto/System/CreateUpdateQuartzNetDto.cs:14-111 | A freshly constructed record has `IsEnable` false, the required strings null, trigger type 0 (simple) and interval 0. |
| QuartzDto.AnnotationsValid | Ape.Volo.IBusiness/Dto/System/CreateUpdateQuartzNetDto.cs:19-90 | Model validation: a record that passes has non-empty task name, group, assembly and class, and a trigger type that is Simple or Cron. |
| QuartzDto.RequiredFieldsAreRequired | Ape.Volo.IBusiness/Dto/System/CreateUpdateQuartzNetDto.cs:19-48 | Any one of the four required strings set to null or blank makes the record invalid. |
| QuartzDto.TriggerTypeOutOfRange | Ape.Volo.IBusiness/Dto/System/CreateUpdateQuartzNetDto.cs:86-90 | A trigger type outside 0..1 never validates. |
| QuartzDto.NewDefinitionIsInvalid | Ape.Volo.IBusiness/Dto/System/CreateUpdateQuartzNetDto.cs:19-48 | The default-constructed record does not validate. |
| QuartzDto.UnannotatedFieldsAreFree | Ape.Volo.IBusiness/Dto/System/CreateUpdateQuartzNetDto.cs:30-105 | Changing Cron, IntervalSecond, CycleRunTimes, RunTimes or IsEnable never changes the validation verdict, because none of them carries an annotation. |
| QuartzNet.StatusOf | Ape.Volo.Api/Controllers/System/QuartzNetController.cs:290-291 | A key with no live registration is neither running nor paused; any other reported status is the registered one. |
| QuartzNet.TriggerError | Ape.Volo.Api/Controllers/System/QuartzNetController.cs:66-84 | Each guard holds if and only if its condition holds: a cron trigger with a null or empty expression fails with "missing", an unparseable one with "invalid", and a simple trigger with an interval of at most 5 s fails. Nothing fails exactly when the trigger is configured. |
| QuartzNet.AdmissionError | Ape.Volo.Api/Controllers/System/QuartzNetController.cs:60-84 | Model validation comes first, then the trigger guard; the input is admitted if and only if the annotations hold and the trigger is configured. |
| QuartzNet.IntervalFloor | Ape.Volo.Api/Controllers/System/QuartzNetController.cs:78-84 | A simple trigger of 5 s is refused and one of 6 s is accepted. |
| QuartzNet.CronJobNeedsValidExpression | Ape.Volo.Api/Controllers/System/QuartzNetController.cs:66-77 | A cron job with no, an empty or an invalid expression is never admitted. |
| QuartzNet.IdsOf | Ape.Volo.Api/Controllers/System/QuartzNetController.cs:167-170 | The ids of a row list are empty exactly when the list is. |
| QuartzNet.Deregistrations | Ape.Volo.Api/Controllers/System/QuartzNetController.cs:173-176 | One scheduler delete per listed job, in list order. |
| QuartzNet.StatusQueries | Ape.Volo.Api/Controllers/System/QuartzNetController.cs:199-202 | One scheduler status query per listed row, in list order. |
| QuartzNet.Message | Ape.Volo.Api/Controllers/System/QuartzNetController.cs:70-301 | The controller's own texts. The empty text is used exactly for a failed save in Execute and for the reasons that carry the framework's or the service's text. |
| QuartzNet.QuartzNetController.CreateJob | Ape.Volo.Api/Controllers/System/QuartzNetController.cs:86 | The repository insert stores the definition under a fresh positive id or stores nothing. |
| QuartzNet.QuartzNetController.UpdateJob | Ape.Volo.Api/Controllers/System/QuartzNetController.cs:136 | The repository update overwrites an existing row or changes nothing; it never succeeds for an id not in the table. |
| QuartzNet.QuartzNetController.FindJob | Ape.Volo.Api/Controllers/System/QuartzNetController.cs:241 | The lookup by id returns the stored row or nothing. |
| QuartzNet.QuartzNetController.FindJobs | Ape.Volo.Api/Controllers/System/QuartzNetController.cs:167 | The rows whose id is in the set: exactly the matching ids, each once, each with its stored row. |
| QuartzNet.QuartzNetController.DeleteJobs | Ape.Volo.Api/Controllers/System/QuartzNetController.cs:170 | The repository delete removes the listed ids or changes nothing. |
| QuartzNet.QuartzNetController.AddScheduleJob | Ape.Volo.Api/Controllers/System/QuartzNetController.cs:92 | A registration makes the key running, or changes nothing. |
| QuartzNet.QuartzNetController.DeleteScheduleJob | Ape.Volo.Api/Controllers/System/QuartzNetController.cs:140 | A deregistration drops the key, or changes nothing. |
| QuartzNet.QuartzNetController.IsExistScheduleJob | Ape.Volo.Api/Controllers/System/QuartzNetController.cs:252 | Reports whether the key is registered. |
| QuartzNet.QuartzNetController.GetTriggerStatus | Ape.Volo.Api/Controllers/System/QuartzNetController.cs:201 | Reports the key's live status. |
| QuartzNet.QuartzNetController.PauseJob | Ape.Volo.Api/Controllers/System/QuartzNetController.cs:295 | Marks the key paused, or changes nothing. |
| QuartzNet.QuartzNetController.ResumeJob | Ape.Volo.Api/Controllers/System/QuartzNetController.cs:330 | Marks the key running, or changes nothing. |
| QuartzNet.QuartzNetController.Create | Ape.Volo.Api/Controllers/System/QuartzNetController.cs:57-97 | A refused input makes no call and changes nothing. Otherwise there is one insert. A key is registered if and only if the insert succeeded and the job is enabled. The result reports whether the insert succeeded. |
| QuartzNet.QuartzNetController.Update | Ape.Volo.Api/Controllers/System/QuartzNetController.cs:107-149 | A refused input makes no call. A failed repository update leaves the scheduler untouched. A successful one deletes the registration under the edited definition's key, then re-adds it if and only if the job is enabled. A successful update requires the row to exist. Every other key is unchanged; in particular, the old key of a renamed job keeps its registration and status. |
| QuartzNet.QuartzNetController.Delete | Ape.Volo.Api/Controllers/System/QuartzNetController.cs:159-183 | A collection that fails model validation is refused with no call. With no matching row the result is an error after the lookup alone. Otherwise the matched rows (each once) are deleted, and only when that delete succeeds is every matched key deregistered, one call per matched row, in order. No key is added or changes status. |
| QuartzNet.QuartzNetController.Deregister | Ape.Volo.Api/Controllers/System/QuartzNetController.cs:173-176 | The loop makes exactly the deregistration calls for the list, and removes only listed keys. |
| QuartzNet.QuartzNetController.Query | Ape.Volo.Api/Controllers/System/QuartzNetController.cs:197-204 | After the page query, one status query per row, in order. Every listed row's status is overwritten with the scheduler's current status for its key; nothing else about the rows changes. |
| QuartzNet.QuartzNetController.Execute | Ape.Volo.Api/Controllers/System/QuartzNetController.cs:234-267 | An empty id or a missing row is refused. Otherwise the row is saved enabled before the scheduler is consulted. An already-registered key gives "already running" and no add. For an unregistered key, the result follows the registration. A failed save gives an error with no scheduler call. |
| QuartzNet.QuartzNetController.Pause | Ape.Volo.Api/Controllers/System/QuartzNetController.cs:277-302 | The call succeeds only from Running, with the key registered and the pause granted; then the key is Paused. Any other state gives an error with no scheduler change. |
| QuartzNet.QuartzNetController.Resume | Ape.Volo.Api/Controllers/System/QuartzNetController.cs:312-337 | The call succeeds only from Paused, with the key registered and the resume granted; then the key is Running. Any other state gives an error with no scheduler change. |
| UserService.NewUser | Ape.Volo.Business/Permission/UserService.cs:71-77 | The inserted row carries the input's columns and the given password hash, no avatar, no reset time and no administrator flag. |
| UserService.Merged | Ape.Volo.Business/Permission/UserService.cs:129-132 | The updated row takes the input's columns, but keeps the stored password, avatar path, administrator flag and password-reset time. |
| UserService.CreateCheck | Ape.Volo.Business/Permission/UserService.cs:53-69 | In order: a taken username, then a taken e-mail, then a taken phone. It passes if and only if none is taken. |
| UserService.UpdateCheck | Ape.Volo.Business/Permission/UserService.cs:98-128 | In order: an unknown id, then a changed username, e-mail or phone that is already in use, then a user with no roles (whose minimum role level does not exist). Each is an if-and-only-if. |
| UserService.SetKeepsUnique | Ape.Volo.Business/Permission/UserService.cs:105-124 | Giving one row a value that is its own already, or that no row uses, keeps that column unique. |
| UserService.InsertKeepsUnique | Ape.Volo.Business/Permission/UserService.cs:53-77 | Inserting a row whose value no row uses keeps that column unique. |
| UserService.CreateKeepsUnique | Ape.Volo.Business/Permission/UserService.cs:53-77 | A passed create check followed by the insert keeps username, e-mail and phone unique. |
| UserService.UpdateKeepsUnique | Ape.Volo.Business/Permission/UserService.cs:105-132 | A passed update check followed by the write keeps username, e-mail and phone unique. |
| UserService.Targets | Ape.Volo.Business/Permission/UserService.cs:127 | A user's linked targets are exactly the targets of the user's rows, and no more than the rows. |
| UserService.Without | Ape.Volo.Business/Permission/UserService.cs:80 | Deleting a user's links leaves exactly the rows of other users. |
| UserService.LinksFor | Ape.Volo.Business/Permission/UserService.cs:81-83 | One new row per target, in order, all for the user. |
| UserService.Relink | Ape.Volo.Business/Permission/UserService.cs:80-89 | After delete-then-insert, the table holds exactly the other users' rows and one row per input target for the user. |
| UserService.TargetsAppend | Ape.Volo.Business/Permission/UserService.cs:80-83 | A user's targets in two concatenated tables are the targets in the first followed by those in the second. |
| UserService.TargetsWithout | Ape.Volo.Business/Permission/UserService.cs:80 | After the delete the user has no targets, and every other user keeps theirs. |
| UserService.TargetsLinksFor | Ape.Volo.Business/Permission/UserService.cs:81-83 | The inserted rows give the user exactly the input targets and no one else any. |
| UserService.RelinkExact | Ape.Volo.Business/Permission/UserService.cs:80-89 | After delete-then-insert, the user is linked to exactly the input's targets (one row each, in order), and every other user's links are unchanged. |
| UserService.LastIndexOf | Ape.Volo.Business/Permission/UserService.cs:377 | The result is -1 exactly when the character is absent; otherwise it is the position of its last occurrence. |
| UserService.Extension | Ape.Volo.Business/Permission/UserService.cs:377 | With no '.', the whole name. Otherwise a suffix of the name that starts with '.' and contains no other '.'. Either way it is a suffix of the name. |
| UserService.AvatarName | Ape.Volo.Business/Permission/UserService.cs:376-377 | The 14-digit timestamp, '_', the generated id in decimal, and then the extension, each at its exact position. |
| UserService.SplitParts | Ape.Volo.Business/Permission/UserService.cs:376-377 | The three parts of the avatar name can be read back from their positions. |
| UserService.Combine | Ape.Volo.Business/Permission/UserService.cs:378-385 | Joining two relative parts: the first part, the separator, then the second part, each at its position. |
| UserService.Slashes | Ape.Volo.Business/Permission/UserService.cs:393 | Replacing backslashes keeps the length and leaves no backslash. |
| UserService.SlashesAt | Ape.Volo.Business/Permission/UserService.cs:393 | Each backslash becomes '/', and every other character stays. |
| UserService.SlashesAppend | Ape.Volo.Business/Permission/UserService.cs:393 | The replacement distributes over concatenation. |
| UserService.SlashesIdentity | Ape.Volo.Business/Permission/UserService.cs:393 | A string with no backslash is unchanged by the replacement. |
| UserService.SlashesCombine | Ape.Volo.Business/Permission/UserService.cs:378-393 | On either platform, a combined path separator becomes '/'. |
| UserService.RelativeAvatarPath | Ape.Volo.Business/Permission/UserService.cs:378-393 | The stored path starts with '/' and contains no backslash. |
| UserService.AvatarPathOnEitherPlatform | Ape.Volo.Business/Permission/UserService.cs:378-393 | With '/' or '\\' as the separator, the stored path is the same: "/uploads/file/avatar/" followed by the file name. |
| UserService.UserKeys | Ape.Volo.Business/Permission/UserService.cs:405-418 | The five cache entries cleared are exactly the per-user entries of that id. |
| UserService.UserService.ClearUserCache | Ape.Volo.Business/Permission/UserService.cs:405-418 | Appends the user's five cache entries to the eviction log. |
| UserService.UserService.Write | Ape.Volo.Business/Permission/UserService.cs:132 | The repository write overwrites the row or changes nothing. |
| UserService.UserService.ValidateCreate | Ape.Volo.Business/Permission/UserService.cs:53-69 | The duplicate queries return exactly the reason the ordered create check gives. |
| UserService.UserService.ValidateUpdate | Ape.Volo.Business/Permission/UserService.cs:98-128 | The lookup, the duplicate queries and the role-level query return exactly the reason the ordered update check gives. |
| UserService.UserService.Create | Ape.Volo.Business/Permission/UserService.cs:51-92 | A failed check changes nothing. Otherwise: the row with the default password's hash is inserted under a fresh id (or not, since the insert's outcome is ignored); both link tables are relinked to the input's roles and jobs; the result is success. Uniqueness is preserved. |
| UserService.UserService.Update | Ape.Volo.Business/Permission/UserService.cs:95-149 | A failed check changes nothing. Otherwise: the merged row is written (or not, since the write's outcome is ignored); both link tables are relinked; the user's cache entries are cleared; the result is success. Uniqueness is preserved. |
| UserService.UserService.Delete | Ape.Volo.Business/Permission/UserService.cs:151-170 | A set holding the caller's own id is refused with no change. Otherwise every matched user's cache is cleared, and the matched rows are deleted. The result is success only when something was deleted. |
| UserService.UserService.ClearUserCaches | Ape.Volo.Business/Permission/UserService.cs:162-166 | The loop appends to the log exactly the per-user entries of the matched users. |
| UserService.UserService.UpdateCenter | Ape.Volo.Business/Permission/UserService.cs:267-288 | An unknown caller is refused, as is a phone that another user holds. Otherwise only the nickname, gender and phone change. Phone uniqueness is preserved. |
| UserService.UserService.UpdatePassword | Ape.Volo.Business/Permission/UserService.cs:290-332 | The guards run in the source's order. Once they pass, the hash of the new password and the reset time are written. The result is success even if the write fails. The caller's info entry and session are cleared only after a successful write. |
| UserService.UserService.PasswordCheck | Ape.Volo.Business/Permission/UserService.cs:297-314 | In order: old equals new, new differs from the confirmation, unknown user, wrong old password. Each is an if-and-only-if. |
| UserService.UserService.UpdateEmail | Ape.Volo.Business/Permission/UserService.cs:339-364 | An unknown caller, a wrong password, and a missing or different cached code are each refused with no change. A success changes only the caller's e-mail. |
| UserService.UserService.UpdateAvatar | Ape.Volo.Business/Permission/UserService.cs:366-399 | An unknown caller is refused. Otherwise the info entry is cleared before the write, and the avatar path becomes the relative path of the generated name. Nothing else changes. |
| UserService.UserService.QueryByName | Ape.Volo.Business/Permission/UserService.cs:235-248 | An e-mail address is looked up by e-mail, and any other name by username. A found row is the stored row; nothing is found only if no row matches. |
| EmailTemplates.UpdateGuard | Ape.Volo.Business/Message/Email/EmailMessageTemplateService.cs:50-63 | As written: an unknown id is refused, and a changed name is always refused, because the stored row matches its own stored name. |
| EmailTemplates.IntendedUpdateGuard | Ape.Volo.Business/Message/Email/EmailMessageTemplateService.cs:58-63 | The evidently intended guard: a rename is refused only when another template carries the new name. |
| EmailTemplates.RenameAlwaysRejected | Ape.Volo.Business/Message/Email/EmailMessageTemplateService.cs:58-63 | Renaming template 1 from "A" to the unused name "B" is refused by the guard as written. |
| EmailTemplates.IntendedRenameAccepted | Ape.Volo.Business/Message/Email/EmailMessageTemplateService.cs:58-63 | The same rename is accepted by the intended guard. |
| EmailTemplates.IntendedGuardKeepsNamesUnique | Ape.Volo.Business/Message/Email/EmailMessageTemplateService.cs:58-67 | The intended guard accepts if and only if the name is unchanged or free, and what it accepts keeps names unique. |
| EmailTemplates.WrittenGuardKeepsNamesUnique | Ape.Volo.Business/Message/Email/EmailMessageTemplateService.cs:58-67 | What the guard as written accepts keeps names unique. |
| EmailTemplates.EmailTemplateService.Add | Ape.Volo.Business/Message/Email/EmailMessageTemplateService.cs:38 | The insert stores the row under a fresh positive id, or stores nothing. |
| EmailTemplates.EmailTemplateService.Overwrite | Ape.Volo.Business/Message/Email/EmailMessageTemplateService.cs:65-66 | The update overwrites the row, or changes nothing. |
| EmailTemplates.EmailTemplateService.LogicDelete | Ape.Volo.Business/Message/Email/EmailMessageTemplateService.cs:83 | Deletes every listed id and reports how many rows matched, or deletes none and reports 0. |
| EmailTemplates.EmailTemplateService.Create | Ape.Volo.Business/Message/Email/EmailMessageTemplateService.cs:28-40 | A name in use is refused with no change; otherwise exactly one row is added, or none when the insert fails. Names stay unique. |
| EmailTemplates.EmailTemplateService.Update | Ape.Volo.Business/Message/Email/EmailMessageTemplateService.cs:47-68 | Follows the guard as written. When it passes, the row is overwritten with the input (or the write fails). Names stay unique. |
| EmailTemplates.EmailTemplateService.Delete | Ape.Volo.Business/Message/Email/EmailMessageTemplateService.cs:75-85 | When no id matches, the result is NotExist with no change. Otherwise every match is deleted and the call succeeds; a failed delete changes nothing. |
| AppSecrets.MakeAppId | Ape.Volo.Business/System/AppSecretService.cs:42-43 | An id exists if and only if the generated id has at least 8 characters. It is then 16 characters: the 8-digit date stamp followed by the id's first 8 characters. |
| AppSecrets.AppIdDeterminesDayAndPrefix | Ape.Volo.Business/System/AppSecretService.cs:43 | Equal application ids come from the same calendar day and the same 8-character prefix. |
| AppSecrets.UpdateCheck | Ape.Volo.Business/System/AppSecretService.cs:53-63 | An unknown id, then a changed name already in use; an unchanged name always passes. |
| AppSecrets.Updated | Ape.Volo.Business/System/AppSecretService.cs:65-66 | The written row carries the input's columns; the creation time is kept, which is an assumption (see Left out). |
| AppSecrets.UpdateKeepsNamesUnique | Ape.Volo.Business/System/AppSecretService.cs:53-66 | What the update guards let through keeps application names unique. |
| AppSecrets.ExportOf | Ape.Volo.Business/System/AppSecretService.cs:94-101 | An export line copies the id, key, name, remark and creation time unchanged. |
| AppSecrets.Download | Ape.Volo.Business/System/AppSecretService.cs:89-103 | One export line per row, in the query's order. |
| AppSecrets.DownloadAppend | Ape.Volo.Business/System/AppSecretService.cs:92-102 | Exporting a concatenation is concatenating the exports. |
| AppSecrets.AppSecretService.Issued | Ape.Volo.Business/System/AppSecretService.cs:44-46 | The inserted row carries the issued id, the key HMAC(app id + id, secret), the input's name and remark, and the creation time. |
| AppSecrets.AppSecretService.AddEntity | Ape.Volo.Business/System/AppSecretService.cs:47 | The insert stores the row under a fresh positive id, or stores nothing. |
| AppSecrets.AppSecretService.Create | Ape.Volo.Business/System/AppSecretService.cs:35-48 | A name in use throws with no change, and so does a generated id too short to cut. Otherwise the issued row is inserted (or the insert fails), and the flag reports which. Names stay unique. |
| AppSecrets.AppSecretService.Update | Ape.Volo.Business/System/AppSecretService.cs:50-67 | An unknown id throws, and so does a changed name already in use. Otherwise the row is overwritten with `Updated` (or the write fails). Names stay unique. |
| AppSecrets.AppSecretService.Delete | Ape.Volo.Business/System/AppSecretService.cs:69-75 | When no id matches, the call throws with no change. Otherwise it returns true exactly when the delete removed the matches. |
| StringOrder.LessIrreflexive | Ape.Volo.Business/Permission/PermissionService.cs:36 | No string sorts before itself. |
| StringOrder.LessTransitive | Ape.Volo.Business/Permission/PermissionService.cs:36 | The ordinal order is transitive. |
| StringOrder.LessTotal | Ape.Volo.Business/Permission/PermissionService.cs:36 | Any two distinct strings are ordered one way or the other. |
| StringOrder.LessAsymmetric | Ape.Volo.Business/Permission/PermissionService.cs:36 | No two strings sort before each other. |
| StringOrder.InsertBy | Ape.Volo.Business/Permission/PermissionService.cs:34-36 | Inserting into a sorted, duplicate-free list keeps it sorted and duplicate-free, and adds exactly the new element. |
| StringOrder.SortDistinctBy | Ape.Volo.Business/Permission/PermissionService.cs:34-36 | The result is sorted by key, has no duplicates, and has exactly the input's members. |
| StringOrder.SortedDistinctIsAscending | Ape.Volo.Business/Permission/PermissionService.cs:34-36 | A sorted, duplicate-free list of strings is strictly ascending. |
| PermissionService.MenuPermissions | Ape.Volo.Business/Permission/PermissionService.cs:33-35 | The identifiers of the non-catalog menus with the given id. |
| PermissionService.RolePermissions | Ape.Volo.Business/Permission/PermissionService.cs:33-35 | The identifiers of the menus linked to the role. |
| PermissionService.JoinedPermissions | Ape.Volo.Business/Permission/PermissionService.cs:32-35 | Exactly the identifiers the user's roles grant through non-catalog menus. |
| PermissionService.NonEmpty | Ape.Volo.Business/Permission/PermissionService.cs:39 | Drops exactly the empty strings, and keeps an ascending list ascending. |
| PermissionService.PermissionIdentifiers | Ape.Volo.Business/Permission/PermissionService.cs:30-41 | Exactly the non-empty identifiers granted to the user, strictly ascending, with no duplicates. |
| PermissionService.CatalogMenusGrantNothing | Ape.Volo.Business/Permission/PermissionService.cs:35 | Catalog menus contribute no identifier. |
| PermissionService.OtherUsersIrrelevant | Ape.Volo.Business/Permission/PermissionService.cs:35 | Adding another user's role link does not change the result. |
| PermissionService.AscendingUnique | Ape.Volo.Business/Permission/PermissionService.cs:34-36 | Two strictly ascending lists with the same members are equal, so the result is determined by the granted set. |
| PermissionService.AscendingHeadNotInTail | Ape.Volo.Business/Permission/PermissionService.cs:34-36 | The first entry of a strictly ascending list does not occur again. |
| PermissionService.ApiEntries | Ape.Volo.Business/Permission/PermissionService.cs:53 | The (url, method) pairs of the APIs with the given id. |
| PermissionService.RoleEntries | Ape.Volo.Business/Permission/PermissionService.cs:53 | The pairs of the APIs linked to the role. |
| PermissionService.JoinedEntries | Ape.Volo.Business/Permission/PermissionService.cs:52-55 | Exactly the pairs the user's roles grant. |
| PermissionService.UrlAccessControls | Ape.Volo.Business/Permission/PermissionService.cs:50-65 | Exactly the distinct (url, method) pairs granted to the user, ordered by url, with no order on the method within equal urls. |
| Clock.Pad | Ape.Volo.Business/System/AppSecretService.cs:43 | A zero-padded field has exactly its width and denotes its number. |
| Clock.Decimal | Ape.Volo.Business/Permission/UserService.cs:376 | The shortest decimal numeral: digits only, no leading zero, and it denotes the number. |
| Clock.DateStamp | Ape.Volo.Business/System/AppSecretService.cs:43 | `yyyyMMdd`: 8 digits denoting the year, month and day. |
| Clock.TimeStamp | Ape.Volo.Business/Permission/UserService.cs:376 | `yyyyMMddHHmmss`: the date stamp followed by the hour, minute and second. |
| Clock.DateStampInjective | Ape.Volo.Business/System/AppSecretService.cs:43 | Equal date stamps mean the same calendar day. |
| Common.IsNullOrWhiteSpace | Ape.Volo.IBusiness/Dto/System/CreateUpdateQuartzNetDto.cs:20 | The test behind `[Required]`: a null or empty string is blank, and a non-blank string has a character that is not white space. |
| Common.ResultOf | Ape.Volo.Business/Message/Email/EmailMessageTemplateService.cs:39 | `OperateResult.Result(flag)` is a success if and only if the flag is set. |

## Left out

- The scheduler center's implementation, the job repository and job execution are not part of this model. Each is a collaborator method that reports success or failure; the model invents no duplicate-registration, pause-after-failure or logging behaviour.
- `CronExpression.IsValidExpression` is an uninterpreted function given at construction.
- HTTP model-state plumbing is the predicate `AnnotationsValid`: the four `[Required]` strings and the `[Range(0, 1)]` trigger type. Error texts produced by the framework are the single reason `ModelInvalid`.
- QuartzNet.QuartzNetController.Delete: the annotations of the id collection are not part of this model, so its model-validation verdict is the parameter `idsValid`.
- QuartzNet.QuartzNetController.Query: the criteria and pagination of the page query are not modelled; the page it returns is the parameter `page`.
- `id.IsNullOrEmpty()` on a `long` is modelled as the id being 0.
- BCrypt, RSA decryption, HMAC-SHA256 and `IsEmail` are opaque functions. BCrypt's random salt is folded into the hash function.
- The MD5 of the cache keys is not modelled; a cache key is its prefix and the user id or the session token.
- Snowflake ids (`IdHelper.GetId`, `IdHelper.NextId`), `DateTime.Now`, the current user (`App.HttpUser`) and the cached e-mail verification code are parameters.
- The cache is a ghost log of removed keys; reads through the `[UseCache]` attribute are not modelled.
- The role-level verification in the role service is not part of this model; it is treated as passing. The one exception is `Min()` over a user with no roles, which raises in the source and is modelled as the reason `NoRoleLevel`.
- In `DeleteAsync` of the user service, the role-level check on the ids is treated as passing.
- `[UseTran]` transactions are not modelled, so a partial run is never rolled back. The ORM's `ClearFilter`, pagination and conditional query models are also left out.
- The order in which a query yields its rows is left open (the `Pick` choice in `FindJobs` and `ClearUserCaches`).
- In `UpdateAvatarAsync`, directory creation and the file copy are left out, as are the web-root prefix and `Path.GetRelativePath`. `Path.Combine` is modelled for relative parts only; a rooted upload name would restart the path, and that is not modelled.
- `DownloadAsync` of the user service (an Excel projection over joined departments, roles and jobs) is not modelled, and neither is Excel generation elsewhere. `user.Dept.Id` is modelled as the input's `deptId`.
- Database ordering in the permission queries is modelled as ordinal string order; a database collation may order differently. SQL grouping is modelled as removing duplicate values.
- PermissionService.UrlAccessControls: the final null filter is the identity, because every entry is a freshly built value. A url or method that is null in the database is modelled as a string.
- `Template.body` stands for the template columns that no guard inspects. Table entities carry only the columns the modelled code reads or writes.
- The creation time of an application secret is assumed to be stamped on insert; it is an input of `Create`.
- AppSecrets.Updated: the update writes a freshly mapped entity, and whether the base repository keeps the stored creation time is not part of this model. The model assumes the creation time is excluded from updates.
- AppSecrets.AppSecretService.Create: one clock reading `now` is used both for the application id's date stamp and for the creation time. In the source these are two readings, which can differ across midnight.
- UserService.NewUser: the mapped entity's `IsAdmin` is taken as false, since the input carries no such column.
- UserService.UserService.Create: the insert's own outcome is ignored, as in the source; the links are written under the new id even when the insert fails.
- EmailTemplates.EmailTemplateService.Update follows the guard as written, defect included. The intended guard is proved separately (see Findings).
- The context files (`Program.cs`, the middleware, the pass-through controllers, the interfaces and the annotation-only records) carry no logic of the core and are not modelled.

## Findings

| source | as written | input that shows it | evidently intended | confidence | as-written member | corrected member |
|---|---|---|---|---|---|---|
| Ape.Volo.Business/Message/Email/EmailMessageTemplateService.cs:58-63 | When the name changes, the duplicate query looks for the stored name, which the stored row itself always carries. Every rename is therefore refused with "name exists". | The table holds template 1 named "A"; an update of template 1 to the unused name "B" is refused. | Refuse a rename only when some template already carries the new name. | not executed | EmailTemplates.RenameAlwaysRejected | EmailTemplates.IntendedGuardKeepsNamesUnique |
