# Madinabonu backend: a Dafny model of the core

This project models the core of the Madinabonu learning-platform backend
(a FastAPI service over SQLAlchemy tables) and proves properties of it.

- **Roles and the gate.** It models the four account roles and their
  permission hierarchy.
- **Authorization chain.** It models the chain that turns a bearer token
  into the current user and the role guards stacked on that chain.
- **Account endpoints.** It models registration by role, password login,
  role inspection and change, and sign-in through Google or Apple. That
  covers linking the provider account and the loop that makes a fresh
  username unique.
- **Teachers and subjects.** It models teacher profiles and subjects with
  their payload bounds, and the routes that create, update, delete, list
  and assign them.
- **Quizzes.** It models quiz scoring and the quiz listing.
- **Username and URL helpers.** It models the username generator for
  provider sign-ins and the rewrite of the `DATABASE_URL` setting.

Every database table the routes change is a class with `rows: seq<Row>` and
an autoincrement counter `nextId`. Its `Valid()` invariant states the
table's primary-key and UNIQUE constraints. Every route keeps that
invariant. Each route states its new table contents and counters exactly:
one row appended, one row replaced, or one row removed on success, and
unchanged on every error. The one exception is an OAuth sign-in refused
by the link's unique constraint, which keeps the new user committed just
before it.

Route handlers are methods that return `Result<T>`. An `Err(reason)` stands
for the `HTTPException` the handler raises. `Http.Status` maps each reason
to its status code. Tables a route only reads are passed as sequences.

Some parts sit behind interfaces the model cannot see, so they are inputs:

- Token decoding is the input `decoded: Option<Claims>`. `None` means the
  token was malformed, forged or expired.
- Password hashing is a parameter `hash: string -> string` and checking is
  a parameter `verify`. A token is represented by the claims it signs.
- The provider's token verification result is an `Option<OAuthUserInfo>`
  input.
- The eight random hex characters of `uuid4().hex[:8]` are a parameter
  constrained by `IsHex8`.

`change_user_role` restricts only GRANTING the superadmin role: an
administrator may still change a superadmin's role to something else. The
model keeps that behaviour (`AuthRoutes.ChangeUserRole`).

## Model

| member | source | states |
|---|---|---|
| `Roles.Parse` | app/models/enums.py:3-8 | the role parsed from a string has that string as its value, and parsing fails exactly on strings outside the four role values |
| `Roles.ValueRoundTrip` | app/models/enums.py:3-8 | parsing a role's value gives the role back |
| `Roles.ValueInjective` | app/models/enums.py:3-8 | two roles with the same stored value are the same role |
| `Roles.HasAdminAccess` | app/models/enums.py:10-23 | admin access coincides with user-management rights, implies teacher access, and is never held by a client |
| `Roles.HasTeacherAccess` | app/models/enums.py:15-28 | teacher access coincides with content-creation rights and holds exactly for every role except client |
| `Users.HasPermission` | app/models/user.py:40-48 | everyone satisfies the client level and their own role; only a superadmin satisfies the superadmin level; a client satisfies only the client level |
| `Users.IsSuperadmin` | app/models/user.py:28-30 | being a superadmin is exactly permission at the superadmin level |
| `Users.IsAdmin` | app/models/user.py:32-34 | being an admin is exactly permission at the admin level, and exactly the role's admin access |
| `Users.IsTeacher` | app/models/user.py:36-38 | being a teacher is exactly permission at the teacher level, matches the role's teacher access, and every admin is a teacher |
| `Users.SatisfiesIsTotalOrder` | app/models/user.py:42-48 | the hierarchy compares every pair of roles, is transitive, and is antisymmetric |
| `Users.FindByUsername` | app/dependencies.py:38 | the user found has the name asked for; none is found exactly when no row has that name |
| `Users.FindByEmail` | app/routes/auth.py:43 | the user found has the email asked for; none is found exactly when no row uses that email |
| `Users.IndexOfId` | app/routes/auth.py:310 | the position found holds the id asked for; none is found exactly when no row has that id |
| `Users.FoundByUsernameIsUnique` | app/models/user.py:12 | with unique usernames, the username lookup returns the one row carrying that name |
| `Users.UserTable.Add` | app/models/user.py:11-17 | an insert with a free username and a free non-empty email appends exactly one active row with the next id, and keeps ids, usernames and emails unique |
| `Users.UserTable.SetRole` | app/routes/auth.py:325-326 | a role change replaces only the role of the one row, and keeps the table valid |
| `Http.Status` | app/dependencies.py:22-50 | every refusal has status 400, 401, 403, 404 or 500, and 401 is sent exactly for an invalid token, malformed claims, an unknown user, bad credentials or failed provider verification |
| `Dependencies.GetCurrentUser` | app/dependencies.py:13-52 | an undecodable token gives 401, a token without a subject gives 401, an unknown name gives 401 exactly when no row has it; an admitted user is the active row named by the token; every refusal is 401 except the 403 for an inactive user |
| `Dependencies.GateResolvesNamedUser` | app/dependencies.py:37-52 | with unique usernames, a token naming an existing user admits exactly that user when active and gives the inactive refusal otherwise |
| `Dependencies.GetCurrentActiveUser` | app/dependencies.py:54-63 | the second activity check never fires: the result equals the first gate's |
| `Dependencies.RequireSuperadmin` | app/dependencies.py:67-76 | the gate's refusal passes through; a user is admitted exactly when the gate admits a superadmin; any other admitted user gets 403 |
| `Dependencies.RequireAdmin` | app/dependencies.py:78-87 | the gate's refusal passes through; a user is admitted exactly when the gate admits an admin or superadmin; any other admitted user gets 403 |
| `Dependencies.RequireTeacher` | app/dependencies.py:89-98 | the gate's refusal passes through; a user is admitted exactly when the gate admits anyone but a client; any other admitted user gets 403 |
| `Dependencies.RequireRole` | app/dependencies.py:100-109 | the gate's refusal passes through; a user is admitted exactly when their rank reaches the required one; otherwise the refusal names the required level |
| `Dependencies.FixedGuardsAreRoleChecks` | app/dependencies.py:67-109 | each fixed guard admits exactly whom the generic checker admits at its level, and the client-level checker is the bare gate |
| `OAuthUtils.LocalName` | app/oauth_utils.py:142-145 | the result is the text before the first `@`, character by character, with `.` and `-` turned into `_` and ASCII letters lower-cased; it holds no `.`, `-`, `@` or upper-case ASCII letter |
| `OAuthUtils.GenerateUsernameFromEmail` | app/oauth_utils.py:131-150 | an empty email gives the provider, `_` and the eight random hex characters; any other email gives the normalised local part, `_` and the provider |
| `Database.RewriteScheme` | app/database.py:11-12 | a set URL starting with `postgres://` gets the `postgresql://` scheme with the rest kept; any other value is unchanged; the result never starts with the old scheme unless nothing was rewritten |
| `Database.AddSslMode` | app/database.py:15-17 | an unset URL, or one already holding `sslmode=`, is unchanged; any other gets `sslmode=require` after `&` when it has a `?`, after `?` otherwise; a set result always holds `sslmode=` |
| `Database.NormaliseIdempotent` | app/database.py:11-17 | normalising an already normalised URL changes nothing |
| `OAuthAccounts.ProviderOf` | app/routes/auth.py:356-362 | a provider name is accepted exactly when its lower-cased form is `google` or `apple`, and the accepted provider's value is that form |
| `OAuthAccounts.MergeInfo` | app/routes/auth.py:391-397 | a returning sign-in overwrites email, full name and picture only with non-empty reported values, and keeps the keys |
| `OAuthAccounts.MergeInfoIdempotent` | app/routes/auth.py:391-397 | refreshing a link twice with the same report equals refreshing it once |
| `OAuthAccounts.FindLink` | app/routes/auth.py:382-385 | the link found has the provider and provider user id asked for; none is found exactly when no link has both |
| `OAuthAccounts.LinksSurviveNewUser` | app/routes/auth.py:433-448 | adding a user keeps every link pointing at an existing user |
| `OAuthAccounts.OAuthTable.Add` | app/models/oauth.py:23 | a new link with a free provider user id is appended with the next id and the reported details, and keeps provider user ids unique |
| `OAuthAccounts.OAuthTable.Refresh` | app/routes/auth.py:391-399 | refreshing replaces only the one link with its merged form, and keeps the table valid |
| `AuthRoutes.AccessRoleReadsBack` | app/routes/auth.py:248-249 | the access token's role claim parses back to the user's role, and the refresh token has no role claim |
| `AuthRoutes.IssuedTokensAdmitHolder` | app/routes/auth.py:248-249 | with unique usernames, both tokens issued to an active user pass the gate as that same user |
| `AuthRoutes.RegistrationCheck` | app/routes/auth.py:33-55 | the first failing check wins: a taken username, then a taken non-empty email, then (client registration only) a password shorter than 6; no refusal exactly when all three pass |
| `AuthRoutes.Register` | app/routes/auth.py:57-71 | a refused registration changes nothing; an accepted one appends exactly one active user with the next id, the given details, the hashed password and the endpoint's role |
| `AuthRoutes.RegisterClient` | app/routes/auth.py:19-71 | public registration runs all three checks and creates a client |
| `AuthRoutes.RegisterTeacher` | app/routes/auth.py:75-119 | only an admin or superadmin passes; no password-length check; the user created is a teacher; a refused call changes nothing |
| `AuthRoutes.RegisterAdmin` | app/routes/auth.py:123-167 | only an admin or superadmin passes; no password-length check; the user created is an admin; a refused call changes nothing |
| `AuthRoutes.RegisterSuperadmin` | app/routes/auth.py:171-216 | only a superadmin passes; no password-length check; the user created is a superadmin; a refused call changes nothing |
| `AuthRoutes.Login` | app/routes/auth.py:218-255 | an unknown name is bad credentials; the only refusals are bad credentials (401) and an inactive user (403); tokens or the inactive refusal mean a row with that name accepted the password, and tokens go only to an active one |
| `AuthRoutes.LoginDecision` | app/routes/auth.py:230-249 | with unique usernames, a known name's outcome depends only on its password check and then its activity flag |
| `AuthRoutes.LoginTokensPassGate` | app/routes/auth.py:248 | with unique usernames, the access token of a successful login passes the gate as the user who logged in |
| `AuthRoutes.CheckUserRole` | app/routes/auth.py:266-280 | the report belongs to the gate's user, and its permission flag holds exactly when the generic role checker admits that user |
| `AuthRoutes.GetAllUsers` | app/routes/auth.py:282-293 | the whole table is returned exactly when the caller passes the admin guard, and the guard's refusal otherwise |
| `AuthRoutes.ChangeUserRole` | app/routes/auth.py:295-334 | the admin guard's refusal passes through; an unknown id is 404; granting superadmin as a non-superadmin is 403; success changes only that user's role, and a superadmin grant succeeds only for a superadmin caller; when every check passes the change succeeds |
| `AuthRoutes.CandidateInjective` | app/routes/auth.py:418-422 | different counters never produce the same candidate name |
| `AuthRoutes.UniqueUsername` | app/routes/auth.py:417-422 | the name returned is the first free candidate in the order base, base+1, base+2, ..., and at most as many are tried as there are users |
| `AuthRoutes.OAuthBaseName` | app/routes/auth.py:412-415 | a missing or empty email gives provider, `_` and random hex; any other email gives the normalised local part, `_` and the provider |
| `AuthRoutes.FindOrCreateOAuthUser` | app/routes/auth.py:401-435 | a user holding the reported non-empty email is reused and nothing changes; otherwise exactly one active client without password is appended, named by the first free candidate |
| `AuthRoutes.OAuthLogin` | app/routes/auth.py:338-466 | an unknown provider is 400 and a failed verification 401, both changing nothing; a known link is only refreshed and signs its user in; a new link is appended for the user found by email or for a new user. That new user is stored with the next id, the reported email and name, no password, the client role and the active flag, under the first free candidate username. A provider user id held under the other provider is refused by the unique constraint after the new user was stored |
| `Catalog.TeacherAt` | app/routes/teachers.py:118 | the position found holds the teacher id asked for; none exactly when no row has it |
| `Catalog.SubjectAt` | app/routes/subjects.py:81 | the position found holds the subject id asked for; none exactly when no row has it |
| `Catalog.AssignmentAt` | app/routes/teachers.py:197-200 | the position found holds the pair asked for; none exactly when the pair is not assigned |
| `Catalog.TeacherTable.Add` | app/models/teacher.py:16 | a profile for a user without one is appended with the next id, rating 0 and zero counters, and keeps one profile per user |
| `Catalog.TeacherTable.Put` | app/routes/teachers.py:133-137 | an update replaces only the one row, keeps its keys, and keeps the table valid |
| `Catalog.TeacherTable.Delete` | app/routes/teachers.py:161-162 | deletion removes exactly that row, and its id is gone |
| `Catalog.SubjectTable.Add` | app/models/subject.py:15 | a subject with a free name is appended active with the next id, and keeps names unique |
| `Catalog.SubjectTable.Put` | app/routes/subjects.py:119-125 | an update with an unchanged or free name replaces only the one row, and keeps names unique |
| `Catalog.SubjectTable.Delete` | app/routes/subjects.py:148-149 | deletion removes exactly that row, and its id is gone |
| `Catalog.AssignmentTable.Add` | app/routes/teachers.py:208-216 | a new pair is appended with the next id, and no pair is stored twice |
| `Catalog.AssignmentTable.Delete` | app/routes/teachers.py:244-245 | deletion removes exactly that row, and its pair is no longer assigned |
| `TeacherSchemas.MinimalTeacherCreate` | app/schemas/teacher.py:7-16 | a payload with only user and name gets no bio, no avatar and zero years, and is valid exactly when the name is 1 to 255 characters |
| `TeacherSchemas.ApplyTeacherUpdate` | app/routes/teachers.py:133-135 | every field the update sets takes the new value, every other field keeps its value, and keys, rating and counters never change |
| `TeacherSchemas.TeacherUpdateKeepsBounds` | app/schemas/teacher.py:18-23 | a valid update keeps a profile's name length and experience within the payload bounds |
| `TeacherSchemas.TeacherUpdateLaws` | app/routes/teachers.py:133-135 | the empty update changes nothing, and applying an update twice equals applying it once |
| `TeacherSchemas.MinimalSubjectCreate` | app/schemas/teacher.py:52-61 | a payload with only a name gets no description, no icon and order 0, and is valid exactly when the name is 1 to 255 characters |
| `TeacherSchemas.ApplySubjectUpdate` | app/routes/subjects.py:120-122 | every field the update sets takes the new value, every other field keeps its value, and the id never changes |
| `TeacherSchemas.SubjectUpdateKeepsBounds` | app/schemas/teacher.py:63-69 | a valid update keeps a subject's name length and order within the payload bounds |
| `TeacherSchemas.SubjectUpdateLaws` | app/routes/subjects.py:120-122 | the empty update changes nothing, and applying an update twice equals applying it once |
| `TeacherRoutes.CreateTeacher` | app/routes/teachers.py:18-60 | the admin guard's refusal passes through; an unknown user is 404; a user with a profile is 400; when every check passes one profile is appended; payload bounds of stored profiles are kept |
| `TeacherRoutes.UpdateTeacher` | app/routes/teachers.py:105-140 | the gate's refusal passes through; an unknown profile is 404; a caller who is neither its owner nor an admin gets 403; an owner or admin editing an existing profile succeeds, and success applies the update to that row only |
| `TeacherRoutes.DeleteTeacher` | app/routes/teachers.py:142-164 | the admin guard's refusal passes through; an unknown profile is 404; a profile some assignment refers to cannot be removed (500, nothing changes), because the default cascade nulls the NOT NULL `teacher_subjects.teacher_id` (app/models/teacher.py:30, app/models/subject.py:41); when every check passes exactly that row goes |
| `TeacherRoutes.AssignTeacherToSubject` | app/routes/teachers.py:168-218 | the admin guard's refusal passes through; then an unknown teacher, an unknown subject, and an existing pair are refused in that order; when every check passes the pair is appended |
| `TeacherRoutes.UnassignTeacherFromSubject` | app/routes/teachers.py:220-247 | the admin guard's refusal passes through; an unassigned pair is 404; an assigned pair is always removed: that row goes, and exactly that pair leaves the set of assignments |
| `TeacherRoutes.PairsAfterDelete` | app/routes/teachers.py:244-245 | with distinct pairs, removing one assignment removes exactly its pair and keeps every other pair |
| `TeacherRoutes.AssignedIffHasSubjects` | app/routes/teachers.py:249-262 | an assignment refers to a teacher exactly when the teacher has a subject to list |
| `TeacherRoutes.GetTeacherSubjects` | app/routes/teachers.py:249-262 | the ids returned are exactly the subjects assigned to the teacher, each once when no pair is stored twice |
| `SubjectRoutes.CreateSubject` | app/routes/subjects.py:15-42 | the admin guard's refusal passes through; a taken name is 400 and changes nothing; a free name always succeeds and one active subject with the payload's fields is appended |
| `SubjectRoutes.GetSubjectById` | app/routes/subjects.py:70-88 | not found exactly when no row has the id; a found subject is in the table with that id |
| `SubjectRoutes.GetSubjectByIdUnique` | app/routes/subjects.py:81 | with unique ids, the lookup returns the one row with that id |
| `SubjectRoutes.UpdateSubject` | app/routes/subjects.py:90-127 | the admin guard's refusal passes through; an unknown id is 404; renaming to another subject's name is 400; every other update of an existing subject succeeds and applies the update to that row only and keeps names unique |
| `SubjectRoutes.DeleteSubject` | app/routes/subjects.py:129-151 | the admin guard's refusal passes through; an unknown id is 404; a subject some assignment refers to cannot be removed (500, nothing changes), for the same cascade reason on `teacher_subjects.subject_id`; when every check passes exactly that row goes |
| `SubjectRoutes.SubjectOrderIsTotalPreorder` | app/routes/subjects.py:65 | ordering by display order and then by name compares every pair and is transitive |
| `SubjectRoutes.ListingCorrect` | app/routes/subjects.py:58-65 | the listing holds exactly the subjects matching the activity filter, each as often as in the table, sorted by order and then name |
| `SubjectRoutes.GetAllSubjects` | app/routes/subjects.py:44-68 | the page is the slice of the sorted, filtered listing starting at the offset, of length the smaller of the limit and what remains |
| `SubjectRoutes.AssignedTeachers` | app/routes/subjects.py:178-180 | a teacher row is listed exactly when an assignment pairs it with the subject, and each such row as often as the table holds it |
| `SubjectRoutes.GetSubjectTeachers` | app/routes/subjects.py:155-181 | not found exactly when no subject has the id; otherwise exactly the page of `AssignedTeachers` that starts at `offset` and holds at most `limit` teachers |
| `TestRoutes.ScoreCountsCorrectPositions` | app/routes/tests.py:92-95 | the score is the number of positions whose answer was given and equals the question's correct answer |
| `TestRoutes.AllCorrectScoresFull` | app/routes/tests.py:92-95 | when every answer is correct the score equals the question count |
| `TestRoutes.NoneCorrectScoresZero` | app/routes/tests.py:92-95 | when no answer is correct the score is 0 |
| `TestRoutes.ScoreAnswers` | app/routes/tests.py:92-95 | the scoring loop computes the score, which never exceeds the question count |
| `TestRoutes.Percentage` | app/routes/tests.py:98 | 0 for no questions; otherwise the largest whole percentage not above the true ratio; at most 100 when the score is within the total; 100 for full marks and 0 for no marks |
| `TestRoutes.ExtremeSubmissions` | app/routes/tests.py:92-98 | a non-empty quiz answered entirely correctly gives 100 percent, one answered entirely wrongly gives 0 |
| `TestRoutes.ResultTable.Add` | app/models/test.py:48-60 | a consistent result is appended with the next id, and every stored result has as many answers as questions, a score within the question count and its derived percentage |
| `TestRoutes.TestAt` | app/routes/tests.py:81 | the position found holds the test id asked for; none exactly when no test has it |
| `TestRoutes.QuestionsOfCorrect` | app/routes/tests.py:86 | the questions scored are exactly those of the test, each as often as stored, sorted by their order |
| `TestRoutes.SubmitTest` | app/routes/tests.py:72-117 | the gate's refusal passes through; an unknown test is 404; a wrong answer count is 400 and stores nothing; a matching count for an existing test always succeeds, and one result is stored with the caller's id, the test id, the computed score, count and percentage, pass exactly when the percentage reaches the passing score, and the answers unchanged |
| `TestRoutes.GetTests` | app/routes/tests.py:45-62 | the listing holds exactly the published tests matching every given filter (non-empty category, non-empty subject, non-zero video id), each as often as stored |

## Definitions without a contract

Some definitions only name a rule of the source. They carry no `ensures`
of their own, because their body is the rule. Each one's meaning is
stated by the contract of the member named beside it.

- `Roles.CanManageUsers`, `Roles.CanCreateContent` (app/models/enums.py:20-28): the contracts of `Roles.HasAdminAccess` and `Roles.HasTeacherAccess` tie them to the two access levels.
- `TeacherSchemas.TeacherCreateValid`, `TeacherSchemas.SubjectCreateValid` (app/schemas/teacher.py:7-16, 52-61): the payload bounds. `TeacherSchemas.MinimalTeacherCreate` and `TeacherSchemas.MinimalSubjectCreate` show the defaults meet them.
- `TeacherSchemas.TeacherUpdateValid`, `TeacherSchemas.SubjectUpdateValid` (app/schemas/teacher.py:18-23, 63-69): the update bounds. `TeacherSchemas.TeacherUpdateKeepsBounds` and `TeacherSchemas.SubjectUpdateKeepsBounds` show a valid update keeps a stored row in bounds.
- `Catalog.TeacherAssigned`, `Catalog.SubjectAssigned`: some assignment refers to the row. `TeacherRoutes.DeleteTeacher` and `SubjectRoutes.DeleteSubject` refuse deletion exactly when it holds, and `TeacherRoutes.AssignedIffHasSubjects` ties the teacher case to the subject listing.
- `TeacherRoutes.MayEdit` (app/routes/teachers.py:126): the edit rule. `TeacherRoutes.UpdateTeacher` refuses exactly the callers it excludes.
- `SubjectRoutes.RenameClashes` (app/routes/subjects.py:111-117): the rename check. `SubjectRoutes.UpdateSubject` refuses exactly the updates it flags.
- `SubjectRoutes.Listing` (app/routes/subjects.py:58-65): the filtered, ordered listing. `SubjectRoutes.ListingCorrect` states its contents and order.
- `TestRoutes.TestMatches` (app/routes/tests.py:53-60): the quiz filters. `TestRoutes.GetTests` lists exactly the tests it admits.
- `TestRoutes.QuestionsOf` (app/routes/tests.py:86): the questions of one test. `TestRoutes.QuestionsOfCorrect` states its contents and order.
- `AuthRoutes.Candidate` (app/routes/auth.py:418-422): the name tried at each counter. `AuthRoutes.CandidateInjective` and `AuthRoutes.UniqueUsername` state what the loop gets from it.
- `AuthRoutes.IssueTokens` (app/routes/auth.py:248-249): the claims signed into both tokens. `AuthRoutes.AccessRoleReadsBack` and `AuthRoutes.IssuedTokensAdmitHolder` state what a holder can read back.

## Left out

- Password hashing and verification, JWT signing, expiry and `decode_token` (app/utils) are not part of this model. They become the parameters `hash` and `verify` and the input `decoded`.
- The provider token checks `verify_google_token` and `verify_apple_token` make network requests and decode JWTs. Their result is the `info` input of `AuthRoutes.OAuthLogin`.
- `AuthRoutes.OAuthLogin`, `AuthRoutes.FindOrCreateOAuthUser`: the eight random hex characters of `uuid4()` are a caller-supplied parameter, not a random draw.
- `TestRoutes.Percentage`: the source computes `int((score / total) * 100)` in floating point. That can be one below the exact floor the model computes (for 29 of 100 the float product is 28.999...). IEEE floats are not modelled.
- `TestRoutes.GetTests`: the listing keeps table order. The source orders by `created_at` descending, and timestamps are not modelled.
- Timestamps (`created_at`, `updated_at`) are not modelled anywhere.
- `TestRoutes.QuestionsOf`: questions with equal `order` keep table order, while SQL leaves their order unspecified.
- `SubjectRoutes.GetSubjectTeachers`: the page is taken from the assigned teachers in table order. The SQL join has no ORDER BY, and a pair stored twice would repeat a teacher.
- `SubjectRoutes.SubjectOrder`: names compare by code point; database collation is not modelled.
- `OAuthUtils.LocalName`: lower-casing covers ASCII letters only. Python's `str.lower` also folds other scripts.
- `TeacherSchemas.ApplyTeacherUpdate`, `TeacherSchemas.ApplySubjectUpdate`: the update payloads accept an explicit `null` for `full_name`, `experience_years`, `name`, `order` and `is_active` (app/schemas/teacher.py:20-23, 65-69), and the handlers copy it onto the row. The model cannot express that explicit `null`: in the model these fields are either absent from the update or given a value. Two cases arise in the source. `full_name` and `Subject.name` are NOT NULL (app/models/teacher.py:17, app/models/subject.py:15), so an explicit `null` there makes the commit fail. `experience_years`, `order` and `is_active` are nullable (app/models/teacher.py:20, app/models/subject.py:18-19), so the `null` is committed and the response model, which requires an integer or a flag, then fails after the write.
- `TeacherSchemas.TeacherUpdateKeepsBounds`: the bound holds only for updates the model can express; an explicit `null` for `experience_years` would leave a stored profile with no experience value, outside the bound, and the lemma does not cover it.
- `TeacherSchemas.SubjectUpdateKeepsBounds`: the bound holds only for updates the model can express; an explicit `null` for `order` or `is_active` would leave a stored subject with no value there, and the lemma does not cover it.
- `Catalog.TeacherTable.Delete`, `Catalog.SubjectTable.Delete`: the table operations do not look at other tables. The refusal while an assignment refers to the row is stated by `TeacherRoutes.DeleteTeacher` and `SubjectRoutes.DeleteSubject`. Videos refer to teachers and subjects through nullable keys, which the delete sets to `NULL`; the videos table is not part of this model.
- `Users.UserTable.Valid`: email uniqueness covers non-empty emails only, as the routes check. The database's own treatment of empty strings is not modelled.
- The `Integer` column type of `Subject.is_active` is modelled as a boolean.
- Ids are natural numbers. A negative id in a path finds nothing in the source as in the model.
- `get_all_teachers`, `get_teacher_by_id`, `/me`, `get_test`, `create_test`, `delete_test` and `get_my_results` are plain reads or inserts with no decision of their own. They are not modelled.
- The video routes, the progress models, the seed scripts, `main.py` and `config.py` are not part of this model.
- Async execution, dependency injection and database sessions are not modelled. Each handler is one atomic step over the tables; there are two commits where `oauth_login` makes two.
