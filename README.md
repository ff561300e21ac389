# A verified model of an assessment platform's core

The system is a web application where teachers publish time-boxed
multiple-choice assessments and students take them. Teacher, student and
authentication state lives in a hosted Postgres store, and the application
uses that store's auth service. This project models in Dafny the parts
that make decisions:

- the student pages: assessment status, the grouping of the list into
  sections, the completed set and latest attempts, feedback, badges and the
  countdown;
- the teacher list page: auto-closing expired assessments, deleting one,
  badges and schedules;
- the teacher routes that create, update and delete assessments and their
  questions, options and answer keys, including the cascade on delete;
- salted password hashing for access passwords;
- the role lookup and profile provisioning, the role guards of the two
  areas and the dashboard redirect;
- the login route and the login form;
- the email-existence check, the development user creation route, the
  auth callback and the password-reset form.

The store is a `Store.Db` object with one `map` per table. Each route is a
method whose `modifies` clause names only the tables that route writes. The
outcome of every store call a route makes is an input: a `Failures` map
from each failing step to its error message. The routes' contracts
therefore cover every failure path as well as the normal one. Calls into
the auth service are function parameters: sign-in, admin lookup, user
creation, code exchange, the reset e-mail and the user-list pages. So are
the clock, the random salt, scrypt and the locale formatters.

Each source file has its own module. Pure computations are functions with
lemmas. The source's loops are methods with loop invariants, proved
against a specification function. Pages holding state are classes:
`TeacherAssessmentsPage`, `LoginForm` and `ForgotForm`.

## Model

| member | source | states |
|---|---|---|
| StudentAssessments.ComputeStatus | src/app/student/assessments/page.tsx:32-43 | UPCOMING exactly when a non-zero start is still ahead; ENDED exactly when not upcoming and a non-zero end has passed; otherwise ONGOING |
| StudentAssessments.ZeroBoundIgnored | src/app/student/assessments/page.tsx:32-43 | a start or end of timestamp 0 is treated as absent (a falsy number) |
| StudentAssessments.OngoingCases | src/app/student/assessments/page.tsx:32-43 | the end instant itself still counts as open, and an assessment with no bounds is always open |
| StudentAssessments.Group | src/app/student/assessments/page.tsx:168-188 | the one-pass push loop fills each section with exactly that section's rows, in list order |
| StudentAssessments.SectionsPartition | src/app/student/assessments/page.tsx:168-188 | the four sections together are a permutation of the list: every row lands in exactly one |
| StudentAssessments.CompletedIsDone | src/app/student/assessments/page.tsx:176-180 | a completed row is in DONE and in no other section, whatever its time status |
| StudentAssessments.SectionOrder | src/app/student/assessments/page.tsx:176-185 | the section of a concatenation is the concatenation of the sections (order is kept) |
| StudentAssessments.LatestAttempts | src/app/student/assessments/page.tsx:127-134 | the `forEach` loop computes the left-to-right reduction that replaces an entry only on a strictly later stamp |
| StudentAssessments.LatestKeys | src/app/student/assessments/page.tsx:127-134 | it has an entry exactly for the assessments that have a completed row |
| StudentAssessments.LatestIsKeptRow | src/app/student/assessments/page.tsx:127-134 | the entry is the first row with the greatest stamp (a missing `updated_at` counts as 0) |
| StudentAssessments.FeedbackByAttempt | src/app/student/assessments/page.tsx:145-148 | the loop builds the map in which later rows overwrite earlier ones |
| StudentAssessments.FeedbackIsLastRow | src/app/student/assessments/page.tsx:145-148 | an attempt has an entry iff some feedback row names it, and the entry is the message of its last row |
| StudentAssessments.FeedbackByAssessment | src/app/student/assessments/page.tsx:150-153 | one entry per latest attempt: that attempt's feedback, or null when it has none |
| StudentAssessments.CompletedIds | src/app/student/assessments/page.tsx:124-125 | the completed set is exactly the non-empty assessment ids of the completed rows |
| StudentAssessments.DeriveCompletion | src/app/student/assessments/page.tsx:84-155 | signed out or an empty list: nothing completed and no feedback; otherwise the completed set and one feedback entry per assessment with a latest attempt |
| StudentAssessments.CardLabel | src/app/student/assessments/page.tsx:280-288 | "Selesai" iff completed; otherwise "Belum dibuka" iff upcoming and "Tutup" iff ended |
| StudentAssessments.ShowsStart | src/app/student/assessments/page.tsx:362-368 | the start link shows iff the card is not completed and is ongoing |
| StudentAssessments.LabelMatchesSection | src/app/student/assessments/page.tsx:176-185 | a card's label names the section the card is grouped in |
| StudentAssessments.FormatSchedule | src/app/student/assessments/page.tsx:25-30 | no bounds gives "Tidak dijadwalkan" |
| StudentAssessments.UnscheduledExactly | src/app/student/assessments/page.tsx:19-30 | with a clock that never prints a bare "-", the unscheduled text appears iff both bounds are missing |
| StudentHome.Countdown | src/app/student/page.tsx:56-65 | hours·3600 + minutes·60 + seconds equals the whole seconds left, with minutes and seconds below 60 |
| StudentHome.FormatRemaining | src/app/student/page.tsx:56-65 | no text without an expiry; an expiry already passed reads "00:00:00" |
| StudentHome.Remaining | src/app/student/page.tsx:56-65 | the fields shown are hours, minutes below 60 and seconds below 60 totalling the whole seconds left, zero once expired |
| StudentHome.RenderSplit | src/app/student/page.tsx:61-64 | the joined text splits at ':' back into exactly its three padded fields |
| StudentHome.CountdownText | src/app/student/page.tsx:56-65 | the text splits at ':' into three digit fields of at least two digits that give back the hours, minutes and seconds |
| StudentHome.FormatSchedule | src/app/student/page.tsx:49-54 | "Fleksibel" iff neither bound is set; a missing bound prints as "-" |
| Seqs.FirstMatchingIsFilterSlice | src/app/student/page.tsx:107-113 | `filter(f).slice(0, n)` is exactly the first `n` elements passing `f`, in their order |
| StudentHome.AvailableList | src/app/student/page.tsx:99-113 | at most five rows, each open now and among the first ten fetched; with fewer than five, every open fetched row is in it; and exactly the first five open rows of the first ten, in fetched order (the front-to-back walk `Seqs.FirstMatching`) |
| StudentHome.DisplayName | src/app/student/page.tsx:73-77 | display name, else name, else the e-mail's local part, else "Student" (`??` chain) |
| StudentHome.CardBadge | src/app/student/page.tsx:232-254 | SELESAI iff the assessment is completed; the join link shows iff the badge is AKTIF |
| StudentHome.BadgeMeansFinished | src/app/student/page.tsx:119-130 | a listed card shows SELESAI iff this student has a SUBMITTED or TIMED_OUT attempt for it |
| TeacherAssessments.Unpublish | src/app/teacher/assessments/page.tsx:55-67 | the update unpublishes exactly the selected rows and changes nothing else |
| TeacherAssessments.ClosedIsFinal | src/app/teacher/assessments/page.tsx:55-67 | a closed row is never selected again; an unselected row is shown as fetched |
| TeacherAssessments.EndInstantDiffers | src/app/teacher/assessments/page.tsx:55-60 | at the end instant this page already closes a row that the student status still calls ongoing |
| TeacherAssessments.Badge | src/app/teacher/assessments/page.tsx:182-187 | ACTIVE iff published |
| TeacherAssessments.ExpiredReadsClosed | src/app/teacher/assessments/page.tsx:55-67 | after auto-close every row whose end has passed reads CLOSED |
| TeacherAssessments.Schedule | src/app/teacher/assessments/page.tsx:24-29 | no bounds gives "Tidak dijadwalkan", and with a clock never printing "-" only then |
| TeacherAssessments.CloseExpired | src/app/teacher/assessments/page.tsx:64-66 | the loop closes each expired row in place and leaves the others |
| TeacherAssessments.TeacherAssessmentsPage.constructor | src/app/teacher/assessments/page.tsx:34-35 | the page starts with an empty list and no error |
| TeacherAssessments.TeacherAssessmentsPage.FetchList | src/app/teacher/assessments/page.tsx:38-75 | signed out: "Unauthorized"; a query error: its message or "Gagal memuat data"; otherwise the closed rows are listed and the table is unpublished for the expired ids unless there are none or the update fails |
| TeacherAssessments.TeacherAssessmentsPage.DeleteAssessment | src/app/teacher/assessments/page.tsx:82-101 | not confirmed: nothing changes; a failed delete shows the reply text; a successful one filters the id out of the list |
| TeacherAssessments.DeleteRemovesOnlyId | src/app/teacher/assessments/page.tsx:95 | the filter keeps exactly the rows with another id, each with its multiplicity |
| TeacherAssessments.UnpublishTargetsSelected | src/app/teacher/assessments/page.tsx:55-67 | every expired fetched row that exists in the table ends up unpublished |
| Password.HexRoundTrip | src/lib/password.ts:3-14 | decoding the hex encoding of bytes gives the bytes back |
| Password.HashPassword | src/lib/password.ts:3-7 | 161 characters: 32 hex digits of the salt, ':', 128 hex digits of scrypt(password, salt text) |
| Password.Segments | src/lib/password.ts:10 | the first segment is the text before the first ':', and there is a second iff a ':' is present |
| Password.VerifyPassword | src/lib/password.ts:9-14 | false without ':', with an empty salt or with an empty hash segment; throws iff the decoded hash and the digest differ in length; otherwise the verdict is exactly whether the decoded hash equals the KDF digest under the salt |
| Password.ExtraSegmentsIgnored | src/lib/password.ts:10 | segments after the second do not change the verdict |
| Password.VerifyHashed | src/lib/password.ts:3-14 | a hash made for a password verifies that password |
| Password.SameAsOtherPassword | src/lib/password.ts:3-14 | another password verifies iff scrypt cannot tell it from the original |
| CreateAssessment.AccessHash | src/app/teacher/assessments/api/create/route.ts:26-27 | no hash iff the trimmed password is empty |
| CreateAssessment.AccessHashVerifies | src/app/teacher/assessments/api/create/route.ts:26-27 | the stored hash is verified by the trimmed password, and by another password iff scrypt agrees |
| Store.Db.FindOrCreateSubject | src/app/teacher/assessments/api/create/route.ts:29-48 | reuses the one subject of the name when the lookup finds exactly one; otherwise inserts a new subject, or fails with the insert's message |
| CreateAssessment.ResolveSubject | src/app/teacher/assessments/api/create/route.ts:29-48 | a blank name gives no subject and no write; otherwise the found or created subject of that name |
| CreateAssessment.Create | src/app/teacher/assessments/api/create/route.ts:26-68 | after the gates: the subject step, then either a 400 with the failing step's message and no new row, or a 200 naming the one new row |
| CreateAssessment.Post | src/app/teacher/assessments/api/create/route.ts:15-68 | 401 and 400 gates change nothing; a 200 reply adds exactly one unpublished row owned by the user with the trimmed title, the access hash and the subject of that name; every failure replies 400 with the store's message, and no row is added |
| UpdateAssessment.PatchColumns | src/app/teacher/assessments/api/update/route.ts:36-66 | each absent field keeps its column, each present one writes its value (null included); the owner never changes |
| UpdateAssessment.EmptyBodyKeepsRow | src/app/teacher/assessments/api/update/route.ts:36-73 | a body with no fields and no clear flag leaves the row unchanged |
| UpdateAssessment.ClearWins | src/app/teacher/assessments/api/update/route.ts:68-73 | `clear_password` clears the hash whatever password is sent |
| UpdateAssessment.PasswordColumn | src/app/teacher/assessments/api/update/route.ts:68-73 | absent keeps the hash, null or blank clears it, non-blank stores a hash its trimmed text verifies |
| UpdateAssessment.Post | src/app/teacher/assessments/api/update/route.ts:18-82 | 401/400/404 gates change nothing; a subject or update failure replies 400 and leaves the row; 200 means the owner's row was patched and nothing else was |
| CreateQuestion.NextPosition | src/app/teacher/assessments/api/questions/create/route.ts:34-42 | one more than the highest position among the assessment's questions, or 1 when there is none or the read fails |
| CreateQuestion.Validate | src/app/teacher/assessments/api/questions/create/route.ts:18-23 | the request passes iff signed in, with an assessment id, a non-blank prompt and at least two options; the gates are tried in that order, replying 401 "Unauthorized", 400 "Missing assessment_id", 400 "Prompt required" or 400 "Options required" |
| CreateQuestion.AddQuestion | src/app/teacher/assessments/api/questions/create/route.ts:44-55 | exactly one question row is added: trimmed prompt, points defaulting to 1, the next position |
| CreateQuestion.InsertChoices | src/app/teacher/assessments/api/questions/create/route.ts:57-79 | the options are inserted as given, then one key to the row at position `correct_index + 1`; no such row or a failed insert replies 400 without a key |
| CreateQuestion.Insert | src/app/teacher/assessments/api/questions/create/route.ts:44-79 | a failed question insert changes nothing; otherwise the question is added and its option and key outcomes hold |
| CreateQuestion.Post | src/app/teacher/assessments/api/questions/create/route.ts:11-80 | the validation and ownership gates change nothing; past them the inserts run in order, each failure stopping with its message and the earlier rows left in place |
| QuestionOptions.IdsGate | src/app/teacher/assessments/api/questions/update/route.ts:20-25 | passes iff signed in with both ids truthy; 401 before 400 |
| QuestionOptions.Rows | src/app/teacher/assessments/api/questions/create/route.ts:57-63 | one row per option with the trimmed text and the given position or its 1-based index |
| QuestionOptions.DefaultPositions | src/app/teacher/assessments/api/questions/create/route.ts:57-63 | without explicit positions the rows are numbered 1, 2, … |
| QuestionOptions.FirstAt | src/app/teacher/assessments/api/questions/create/route.ts:70-72 | the first row at the position, or none when no row has it |
| QuestionOptions.FirstWithOldId | src/app/teacher/assessments/api/questions/update/route.ts:71-79 | the first option sent with the old id, or none |
| QuestionOptions.IndexOfId | src/app/teacher/assessments/api/questions/update/route.ts:71-79 | the first new id equal to the given id, or none |
| QuestionOptions.AddKey | src/app/teacher/assessments/api/questions/create/route.ts:74-79 | exactly one key row for the question and option is added |
| UpdateQuestion.EditTouchesOneRow | src/app/teacher/assessments/api/questions/update/route.ts:34-44 | the update writes at most the one row, and only if it belongs to the assessment |
| UpdateQuestion.EditMissesForeignQuestion | src/app/teacher/assessments/api/questions/update/route.ts:34-44 | a question of another assessment is left as it is |
| UpdateQuestion.CorrectSlot | src/app/teacher/assessments/api/questions/update/route.ts:71-79 | the chosen slot is within the inserted rows |
| UpdateQuestion.NewIdPicksItsRow | src/app/teacher/assessments/api/questions/update/route.ts:71-73 | a `correct_option_id` that is a new row's id picks that row |
| UpdateQuestion.OldIdPicksSameOption | src/app/teacher/assessments/api/questions/update/route.ts:71-79 | with default positions an old id picks the new row of the option that carried it |
| UpdateQuestion.ExplicitPositionsPickOtherOption | src/app/teacher/assessments/api/questions/update/route.ts:71-79 | with explicit positions the old-id fallback can pick a different option than the one that carried the id |
| UpdateQuestion.Refill | src/app/teacher/assessments/api/questions/update/route.ts:58-86 | new option rows, then one key at the chosen slot; a missing slot or failed insert replies 400 without a key |
| UpdateQuestion.Replace | src/app/teacher/assessments/api/questions/update/route.ts:46-86 | the question's keys, then its options, are deleted before the refill; each failure stops with its message |
| UpdateQuestion.Edit | src/app/teacher/assessments/api/questions/update/route.ts:34-86 | after the gates: a failed row update replies 400 with its message and changes nothing; otherwise the row is edited and its options and key replaced |
| UpdateQuestion.Post | src/app/teacher/assessments/api/questions/update/route.ts:14-87 | gates change nothing; otherwise the question row is edited and its options and key replaced, stopping at the first failure |
| UpdateQuestion.ForeignQuestionLosesOptions | src/app/teacher/assessments/api/questions/update/route.ts:25-69 | a question of another assessment keeps its row but loses its old options and keys, keeping only the new rows |
| DeleteQuestion.DropQuestion | src/app/teacher/assessments/api/questions/delete/route.ts:43-48 | removes the row iff it has that id and belongs to the assessment; others stay |
| DeleteQuestion.Post | src/app/teacher/assessments/api/questions/delete/route.ts:8-48 | gates change nothing; then keys, options and the question are deleted in that order, each failure stopping the route |
| DeleteQuestion.DeleteRemovesExactly | src/app/teacher/assessments/api/questions/delete/route.ts:29-48 | after success no key or option of the question remains, the owned row is gone, and all other rows and tables are untouched |
| DeleteQuestion.ForeignQuestionSurvives | src/app/teacher/assessments/api/questions/delete/route.ts:29-48 | a question of another assessment keeps its row but loses its keys and options |
| DeleteAssessment.DropKeysIn | src/app/teacher/assessments/api/delete/route.ts:33-37 | keeps exactly the keys of other questions, unchanged |
| DeleteAssessment.DropOptionsIn | src/app/teacher/assessments/api/delete/route.ts:39-43 | keeps exactly the options of other questions, unchanged |
| DeleteAssessment.DropQuestionsOf | src/app/teacher/assessments/api/delete/route.ts:46-50 | keeps exactly the questions of other assessments |
| DeleteAssessment.DropResponsesIn | src/app/teacher/assessments/api/delete/route.ts:58-64 | keeps exactly the responses of other attempts |
| DeleteAssessment.DropAttemptsOf | src/app/teacher/assessments/api/delete/route.ts:66-70 | keeps exactly the attempts of other assessments |
| DeleteAssessment.DropAssessment | src/app/teacher/assessments/api/delete/route.ts:72-77 | removes the row iff it has that id and that owner |
| DeleteAssessment.DeleteQuestionSide | src/app/teacher/assessments/api/delete/route.ts:26-50 | reads the question ids, deletes their keys and options only when some were read, then the questions; it stops at the first failing delete, as the cascade function specifies |
| DeleteAssessment.DeleteAttemptSide | src/app/teacher/assessments/api/delete/route.ts:52-79 | reads the attempt ids, deletes their responses only when some were read, then the attempts and the owner's row; it stops at the first failing delete, as the cascade function specifies |
| DeleteAssessment.Post | src/app/teacher/assessments/api/delete/route.ts:8-79 | gates change nothing; past them the tables and reply are those of the cascade |
| DeleteAssessment.CascadeStages | src/app/teacher/assessments/api/delete/route.ts:26-79 | the cascade replies 200 or 400; 200 leaves the tables after all six deletes, and 400 leaves them after one of the stages before that |
| DeleteAssessment.CascadeOnlyRemoves | src/app/teacher/assessments/api/delete/route.ts:26-79 | the cascade never adds or changes a row, and never touches subjects or profiles |
| DeleteAssessment.CascadeKeepsOthers | src/app/teacher/assessments/api/delete/route.ts:26-79 | rows tied to other assessments all survive |
| DeleteAssessment.CascadeRemovesAll | src/app/teacher/assessments/api/delete/route.ts:26-79 | on success with no read failing, nothing tied to the assessment remains |
| DeleteAssessment.ChildrenBeforeParents | src/app/teacher/assessments/api/delete/route.ts:26-79 | whenever a parent row is gone its children are gone too |
| DeleteAssessment.EmptyReadsSkipDeletes | src/app/teacher/assessments/api/delete/route.ts:26-64 | with no questions or no attempts read, the child deletes are skipped and their failures are never seen |
| DeleteAssessment.FailedReadLeavesOrphanKey | src/app/teacher/assessments/api/delete/route.ts:26-39 | a failing question read leaves the keys of deleted questions behind |
| GetRole.RoleOf | src/app/auth/getRole.ts:47-49 | "INACTIVE" for an inactive profile, otherwise its role |
| GetRole.ProvisionName | src/app/auth/getRole.ts:20-24 | display name, else name, else the non-empty e-mail local part, else "Student" (`||` chain); never empty |
| GetRole.EmptyDisplayNameDiffers | src/app/auth/getRole.ts:20-24 | for an empty display name the greeting's `??` chain gives "" while provisioning falls through |
| GetRole.GetUserRole | src/app/auth/getRole.ts:4-50 | no user: no role; an existing profile gives its role; a missing one is provisioned as an active STUDENT; a failed insert falls back to re-reading; a role implies the stored profile has it |
| Guards.StudentLayout | src/app/student/layout.tsx:7-11 | renders iff the role is STUDENT; no role to login, INACTIVE to pending, any other role to the teacher area |
| Guards.TeacherLayout | src/app/teacher/layout.tsx:7-11 | renders iff the role is TEACHER; no role to login, INACTIVE to pending, any other role to the student area |
| Guards.LayoutsPartition | src/app/student/layout.tsx:7-11 | no role is rendered by both layouts; a TEACHER in the student area is sent to the teacher area, which renders, and a STUDENT the other way round |
| Guards.Dashboard | src/app/dashboard/page.tsx:7-19 | no user, a failed read or no profile to login; TEACHER to the teacher area, anything else to the student area |
| Guards.DashboardIgnoresActive | src/app/dashboard/page.tsx:7-19 | the dashboard ignores the active flag: an inactive teacher is sent to the teacher area, whose guard then sends it to pending |
| LoginRoute.Email | src/app/api/auth/login/route.ts:47-48 | the trimmed e-mail |
| LoginRoute.SpacesPasswordPasses | src/app/api/auth/login/route.ts:47-51 | an all-space password passes validation (only the e-mail is trimmed) |
| LoginRoute.ThrownReply | src/app/api/auth/login/route.ts:53-76 | a timeout message gives 503; an "Unexpected token" gives 502 with the gateway text; any other message gives 502 |
| LoginRoute.ThrownIsGatewayFailure | src/app/api/auth/login/route.ts:53-76 | every thrown error replies 502 or 503, and a message containing "timeout" in any case replies 503 |
| LoginRoute.ProvisionName | src/app/api/auth/login/route.ts:93-110 | display name, else name, else the e-mail local part, else none (`??` chain) |
| LoginRoute.ProvisionNamesDiffer | src/app/api/auth/login/route.ts:93-110 | the login route and the role lookup provision different names for the same user |
| LoginRoute.SignedIn | src/app/api/auth/login/route.ts:83-127 | read failure: 400; an existing profile: 200 with its role and flag; otherwise an active STUDENT profile is inserted, or 400 on a failed insert |
| LoginRoute.Post | src/app/api/auth/login/route.ts:36-128 | invalid JSON or missing fields: 400 and no write; sign-in thrown, refused or anonymous: the matching error and no write; a 200 reply carries the stored profile's role and flag |
| LoginPage.Extracted | src/app/auth/login/page.tsx:57-69 | a JSON reply gives error, else message, else the default; other replies give the trimmed text, or the default when blank |
| LoginPage.ThrownMessage | src/app/auth/login/page.tsx:99-108 | "failed to fetch" gives the throttling text, else "timeout" gives the timeout text, else the message or the default |
| LoginPage.TimeoutsReadTimeout | src/app/auth/login/page.tsx:99-108 | a message containing "timeout" (and no 'h' to spell "failed to fetch") reads as a timeout |
| LoginPage.TimerReadsTimeout | src/app/auth/login/page.tsx:28 | the page's own request timer fires with a message the handler shows as a timeout |
| LoginPage.Translate | src/app/auth/login/page.tsx:71-76 | a message with the credentials phrase reads as wrong credentials, even when it also says "email not confirmed"; otherwise that phrase reads as unconfirmed; any other message is kept |
| LoginPage.Landing | src/app/auth/login/page.tsx:82-98 | inactive to pending, TEACHER to the teacher area, anything else to the student area |
| LoginPage.LandingRenders | src/app/auth/login/page.tsx:82-98 | an active TEACHER or STUDENT lands in the area whose guard renders it |
| LoginPage.OtherRoleBounces | src/app/auth/login/page.tsx:82-98 | any other active role lands in the student area, whose guard sends it to the teacher area |
| LoginPage.LoginForm.constructor | src/app/auth/login/page.tsx:19-23 | the form starts with the missing-configuration error iff the environment is absent |
| LoginPage.LoginForm.Submit | src/app/auth/login/page.tsx:42-112 | loading ends; a refused call shows the translated message, a thrown one its mapped text, an accepted one routes to its landing |
| CheckEmail.Query | src/app/auth/api/check-email/route.ts:10-11 | the trimmed, lower-cased address |
| CheckEmail.UsersOf | src/app/auth/api/check-email/route.ts:37 | the `users` field, or the array itself, or nothing |
| CheckEmail.ScanFinds | src/app/auth/api/check-email/route.ts:21-46 | 200 with true iff some page reached holds the address |
| CheckEmail.ScanRefused | src/app/auth/api/check-email/route.ts:21-46 | 400 iff some page reached answers not ok; the status is always 200 or 400 |
| CheckEmail.OnlyFirstPages | src/app/auth/api/check-email/route.ts:21-25 | only pages 1 to 50 are read: lists that agree on them give the same answer |
| CheckEmail.PaddedNeverMatches | src/app/auth/api/check-email/route.ts:38 | a stored address with a leading or a trailing space never matches a non-empty query, since only the query is trimmed; a missing address never matches either |
| CheckEmail.Upto | src/app/auth/api/check-email/route.ts:21-43 | the page numbers 1, 2, … n |
| CheckEmail.Post | src/app/auth/api/check-email/route.ts:8-47 | a blank address: 400; otherwise the reply of the page scan, asking pages 1, 2, … in order and at most 50 |
| CreateUser.Trimmed | src/app/dev/create-user/route.ts:25-28 | the trimmed value, none when absent |
| CreateUser.Request | src/app/dev/create-user/route.ts:36-41 | the trimmed e-mail, the password as sent, and display metadata only for a non-blank name |
| CreateUser.NewProfile | src/app/dev/create-user/route.ts:47-58 | the requested role, active, named by the display name or else the e-mail, never empty |
| CreateUser.Post | src/app/dev/create-user/route.ts:12-59 | outside development: 404; invalid JSON or missing fields: 400; create or profile failure: 400; 200 means exactly the new active profile was added |
| Common.BadJson | src/app/api/auth/login/route.ts:39-45 | 400 with the parser's message, or "Invalid JSON" |
| Callback.EncodeComponent | src/app/auth/callback/route.ts:20-24 | every output character is unreserved, '%' or an upper-case hex digit; text of unreserved characters is returned unchanged |
| Callback.Callback | src/app/auth/callback/route.ts:4-27 | no code to the no-code login error; a failed exchange to the recovery error with the encoded message; otherwise `next` or the reset page |
| Callback.FailureMessageStaysInParameter | src/app/auth/callback/route.ts:20-24 | the encoded message cannot open another query parameter or a fragment |
| Callback.NextNotValidated | src/app/auth/callback/route.ts:4-27 | after a successful exchange any `next`, another site's included, is followed |
| Forgot.StripSlash | src/app/auth/forgot/page.tsx:18 | exactly one trailing slash is removed |
| Forgot.OneSlashOnly | src/app/auth/forgot/page.tsx:18 | a doubled trailing slash keeps one |
| Forgot.AuthOrigin | src/app/auth/forgot/page.tsx:16-21 | in production a non-empty site URL wins; otherwise the runtime origin, the site URL, then localhost; never empty |
| Forgot.SlashAloneFallsThrough | src/app/auth/forgot/page.tsx:16-21 | a site URL of "/" strips to "", so the production branch is skipped |
| Forgot.LinkNamesDefaultNext | src/app/auth/forgot/page.tsx:48-50 | the emailed link names the page the callback would pick without `next` |
| Forgot.ForgotForm.constructor | src/app/auth/forgot/page.tsx:11-14 | no message, no error, not loading |
| Forgot.ForgotForm.Submit | src/app/auth/forgot/page.tsx:23-61 | a not-ok check shows its text; an unknown address shows "Email tidak terdaftar."; otherwise the reset is requested with the origin's callback link, and its error or the success message is shown; loading ends |

## Left out

- The attempt lifecycle (joining, answering, submitting, scoring and the result pages) is not part of this model.
- The hosted store's own behaviour is not modelled: foreign keys, cascades, row-level security and ordering. Each call is modelled as its effect on the maps plus a possible failure.
- Fresh ids are any unused ids. An id that was deleted earlier may be reused.
- The teacher routes read their bodies with `req.json()`, which throws on invalid JSON. That exception path, and field values of the wrong JSON type, are not modelled.
- The question update route throws at `body.options.map` or `o.text.trim()` (questions/update/route.ts:58-60) when `options` is missing or an option has no text. The throw comes after the question's keys and options were already deleted. Bodies are modelled with an options list and texts always present, so this path is not modelled.
- The question create route throws in the same way (questions/create/route.ts:57-60) on an option without text, after the question row was inserted. That path is not modelled either.
- The login and create-user routes throw at `body.email` (login/route.ts:47, create-user/route.ts:25) when the JSON body parses to `null` or another non-object. Only a parse failure, or an object with missing fields, is modelled.
- In the question update route a missing `prompt` makes `trim()` throw. The model takes the prompt as a string, so that path is not modelled.
- Lower-casing is ASCII only; Unicode case mapping is not modelled.
- Dates and times are milliseconds. Locale formatting (`toLocaleString`) and ISO parsing are function parameters.
- The login page's `withTimeout` timer, and the time it takes for the timer to fire, are not modelled; only the message it throws is.
- React rendering, effects and router navigation are modelled only as the values and the routes they choose.
- Console logging and the environment-logging flag are left out.
- The form-only pages (register, reset-password, new assessment, edit), the logout button and the health route are not part of this model.
- The subject-name and teacher-name labels of the student list are left out. They are display only.
- Network errors of `fetch` in the pages are not modelled.
- Forgot.ForgotForm.Submit: `exists` is read as a boolean; the truthiness of other JSON values there is not modelled.
- CheckEmail.Post: a non-JSON page body (`res.json()` throws) is not modelled.
- Callback.EncodeComponent: lone UTF-16 surrogates, for which `encodeURIComponent` throws `URIError`, are not modelled.
- Callback.Callback: it returns the redirect path. URL resolution against the request origin is left out.
- UpdateAssessment.Post: `is_published: null` is treated as absent, not as writing null.
- Sending the reset e-mail is the auth service's concern. The model records only the request made.
- LoginRoute.SignedIn: the admin lookup's error is not read. The lookup is a function returning the user, or none.
- GetRole.GetUserRole: a concurrent insert of the same profile is represented by a failing insert or an id present before the call.
