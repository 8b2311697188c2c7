# Course app core, modelled in Dafny

A Dafny model of the logic inside a small Android course-management app (students, teachers,
courses, enrollments with a score on the 0..20 scale). The model covers:

- the **authentication repository**: the user table, the student and teacher profile tables, the
  session kept in the preferences file, the current-user-id flow, and `register`, `login`,
  `logout`, `isSessionExpired` (30-minute inactivity timeout, strict comparison),
  `updateLastActivity`, `getCurrentUserId`, `saveSession`, `clearSession` and `getCurrentUserRole`;
- the **authentication view-model**: the four-state machine `Loading | LoggedIn(user, role) |
  LoggedOut | Error(message)`, driven by startup reconciliation, the user-id watcher, the periodic
  expiry sweep and the login, register and logout actions. Each handler is one atomic transition
  that returns the new view-model and the sequence of states it assigned;
- **weighted-grade aggregation** `calculateWeightedGrade`: Σ(score·ects)/Σ(ects) over the
  enrollments whose course resolves, null when there are none or the weight is 0;
- `PasswordHasher.hash` and `verify`: lower-case `%02x` hex encoding of the SHA-256 digest
  (section 6.2 of FIPS 180-4), with the digest function as a parameter;
- `Role` and `Role.from`;
- `findSubscribe`, the first-match lookup of an enrollment by (student, course);
- the Save handlers of the teacher grade-entry screen (prefill, 0..20 check, update-or-insert),
  the enrollment form (role-dependent checks, non-short-circuit error reporting, the inserted row)
  and the course form (blank name, positive credits, trimmed name, default level P1).

Tables are sequences in row-id order with an auto-increment counter; a `LIMIT 1` query or a
Kotlin `find` is the first match in that order (`Lookup.Find`). The clock, the digest function,
`toFloatOrNull` (its result is an `Option<real>` input) and storage failures (`fault`) are
parameters. Scores and credits are `real`.

Files: `lookup.dfy` (Option, first-match search, filter), `entities.dfy` (the records),
`role.dfy`, `password_hasher.dfy`, `auth_repository.dfy`, `auth_view_model.dfy`, `grades.dfy`,
`subscribe_list.dfy`, `teacher_grade_entry.dfy`, `subscribe_form.dfy`, `course_form.dfy`.

## Model

| member | source | states |
|---|---|---|
| Roles.Value | II3510_CourseAPP_2526/app/scrudstudents/src/main/java/com/tumme/scrudstudents/data/local/model/Role.kt:6-8 | STUDENT is stored as "STUDENT" and TEACHER as "TEACHER", both seven upper-case letters |
| Roles.From | II3510_CourseAPP_2526/app/scrudstudents/src/main/java/com/tumme/scrudstudents/data/local/model/Role.kt:11 | total parse: TEACHER exactly for the string "TEACHER", STUDENT for every other string |
| Roles.FromValue | II3510_CourseAPP_2526/app/scrudstudents/src/main/java/com/tumme/scrudstudents/data/local/model/Role.kt:6-11 | storing a role and parsing it back gives the same role |
| Roles.ValueInjective | II3510_CourseAPP_2526/app/scrudstudents/src/main/java/com/tumme/scrudstudents/data/local/model/Role.kt:6-8 | distinct roles have distinct stored strings |
| Roles.UnknownIsStudent | II3510_CourseAPP_2526/app/scrudstudents/src/main/java/com/tumme/scrudstudents/data/local/model/Role.kt:11 | any string other than the two stored names, "" included, falls back to STUDENT |
| Roles.LowerCaseTeacherIsStudent | II3510_CourseAPP_2526/app/scrudstudents/src/main/java/com/tumme/scrudstudents/data/local/model/Role.kt:11 | the comparison is case-sensitive: "teacher" parses as STUDENT |
| Lookup.Find | Labwork1_MiniApp/app/scrudstudents/src/main/java/com/tumme/scrudstudents/ui/subscribe/SubscribeListViewModel.kt:125 | Kotlin `find`: the result satisfies the predicate and no earlier element does; null iff no element does |
| Lookup.FindInFilter | Labwork1_MiniApp/app/scrudstudents/src/main/java/com/tumme/scrudstudents/ui/teacher/TeacherGradeEntryScreen.kt:77-78 | searching a filtered list for q is searching the whole list for p-and-q |
| Lookup.FindWithout | Labwork1_MiniApp/app/scrudstudents/src/main/java/com/tumme/scrudstudents/ui/teacher/TeacherGradeEntryScreen.kt:78 | removing an element that does not match, or that follows a match, leaves find's result unchanged |
| PasswordHasher.HexEncode | II3510_CourseAPP_2526/app/scrudstudents/src/main/java/com/tumme/scrudstudents/util/PasswordHasher.kt:26 | two characters per byte, byte k's `%02x` text at positions 2k and 2k+1, no separator |
| PasswordHasher.ByteRoundTrip | II3510_CourseAPP_2526/app/scrudstudents/src/main/java/com/tumme/scrudstudents/util/PasswordHasher.kt:26 | a signed byte's two hex digits are lower-case and read back as that byte |
| PasswordHasher.EncodeIsLowerHex | II3510_CourseAPP_2526/app/scrudstudents/src/main/java/com/tumme/scrudstudents/util/PasswordHasher.kt:26 | every character of an encoding is in 0-9a-f |
| PasswordHasher.DecodeEncode | II3510_CourseAPP_2526/app/scrudstudents/src/main/java/com/tumme/scrudstudents/util/PasswordHasher.kt:26 | the hex text decodes back to the digest bytes |
| PasswordHasher.EncodeDecode | II3510_CourseAPP_2526/app/scrudstudents/src/main/java/com/tumme/scrudstudents/util/PasswordHasher.kt:26 | a decodable string is the encoding of what it decodes to, so the encoding is the only spelling of its bytes |
| PasswordHasher.HashShape | II3510_CourseAPP_2526/app/scrudstudents/src/main/java/com/tumme/scrudstudents/util/PasswordHasher.kt:23-27 | a hash is 64 lower-case hex digits that decode to the password's 32-byte digest |
| PasswordHasher.VerifyOwnHash | II3510_CourseAPP_2526/app/scrudstudents/src/main/java/com/tumme/scrudstudents/util/PasswordHasher.kt:36-38 | every password verifies against its own hash |
| PasswordHasher.VerifyIffDecodes | II3510_CourseAPP_2526/app/scrudstudents/src/main/java/com/tumme/scrudstudents/util/PasswordHasher.kt:37 | a stored hash verifies iff it decodes to the password's digest |
| PasswordHasher.UpperCaseRejected | II3510_CourseAPP_2526/app/scrudstudents/src/main/java/com/tumme/scrudstudents/util/PasswordHasher.kt:37 | a hash with an upper-case hex digit never verifies, even if it spells the right digest |
| PasswordHasher.Hash | II3510_CourseAPP_2526/app/scrudstudents/src/main/java/com/tumme/scrudstudents/util/PasswordHasher.kt:23-27 | the hash is 64 characters and hex-decodes back to exactly the password's digest |
| PasswordHasher.Verify | II3510_CourseAPP_2526/app/scrudstudents/src/main/java/com/tumme/scrudstudents/util/PasswordHasher.kt:36-38 | a hash that verifies is 64 characters and decodes to the password's digest |
| AuthRepository.CurrentUserId | Labwork1_MiniApp/app/scrudstudents/src/main/java/com/tumme/scrudstudents/data/repository/AuthRepository.kt:185-188 | no stored id, or the stored value -1, reads as "no user"; any other stored id is returned |
| AuthRepository.LastActivity | Labwork1_MiniApp/app/scrudstudents/src/main/java/com/tumme/scrudstudents/data/repository/AuthRepository.kt:221 | the stored timestamp when present, and 0 exactly when absent or stored as 0 |
| AuthRepository.IsSessionExpired | Labwork1_MiniApp/app/scrudstudents/src/main/java/com/tumme/scrudstudents/data/repository/AuthRepository.kt:217-227 | no user id, or no or zero activity stamp: expired; otherwise expired iff more than 1 800 000 ms have elapsed |
| AuthRepository.Open | Labwork1_MiniApp/app/scrudstudents/src/main/java/com/tumme/scrudstudents/data/repository/AuthRepository.kt:39-40 | the id flow starts from the user id stored in the preferences; the three tables, the three id counters and the preferences are as given |
| AuthRepository.SaveSession | Labwork1_MiniApp/app/scrudstudents/src/main/java/com/tumme/scrudstudents/data/repository/AuthRepository.kt:193-201 | the saved session stores the user's id, email and role with the activity stamped at the saving instant, so it is alive then |
| AuthRepository.UpdateLastActivity | Labwork1_MiniApp/app/scrudstudents/src/main/java/com/tumme/scrudstudents/data/repository/AuthRepository.kt:207-211 | only the timestamp changes, and only when a user id is stored; otherwise nothing changes |
| AuthRepository.CurrentUserRole | Labwork1_MiniApp/app/scrudstudents/src/main/java/com/tumme/scrudstudents/data/repository/AuthRepository.kt:240-243 | null iff no role is stored, otherwise the parsed stored role |
| AuthRepository.CurrentUser | Labwork1_MiniApp/app/scrudstudents/src/main/java/com/tumme/scrudstudents/data/repository/AuthRepository.kt:173-180 | no session id means no user; with a session id, a user is found iff some row has that id, and a found user is such a row |
| AuthRepository.FindByEmail | Labwork1_MiniApp/app/scrudstudents/src/main/java/com/tumme/scrudstudents/data/repository/AuthRepository.kt:78 | a row with that email, null iff there is none |
| AuthRepository.FindById | Labwork1_MiniApp/app/scrudstudents/src/main/java/com/tumme/scrudstudents/data/local/dao/UserDao.kt:19-20 | a found user is a row with the id; none is found iff no row has it |
| AuthRepository.Register | Labwork1_MiniApp/app/scrudstudents/src/main/java/com/tumme/scrudstudents/data/repository/AuthRepository.kt:67-125 | taken email: null, nothing changes; success: one user row with the next id, the hash and the role string, one profile of that role with the next profile id and the registration's names (and birth date, gender and level for a student), both counters advanced, a full session for the new user and nothing else changed; a student missing level, birth date or gender: the user row is inserted, no profile, no session, "Failed requirement." is thrown |
| AuthRepository.Login | Labwork1_MiniApp/app/scrudstudents/src/main/java/com/tumme/scrudstudents/data/repository/AuthRepository.kt:134-144 | succeeds iff the email's row exists and the password verifies against its hash; success saves that user's session; failure changes nothing |
| AuthRepository.Logout | Labwork1_MiniApp/app/scrudstudents/src/main/java/com/tumme/scrudstudents/data/repository/AuthRepository.kt:149-152 | every session key is cleared, the id flow is null, the session reads expired at every instant; tables and id counters untouched |
| AuthRepository.ExpiryBoundary | Labwork1_MiniApp/app/scrudstudents/src/main/java/com/tumme/scrudstudents/data/repository/AuthRepository.kt:217-227 | exactly 30 minutes after the last activity the session is alive; one millisecond later it is expired |
| AuthRepository.ExpiryIsMonotonic | Labwork1_MiniApp/app/scrudstudents/src/main/java/com/tumme/scrudstudents/data/repository/AuthRepository.kt:217-227 | once expired, a session stays expired as the clock advances |
| AuthRepository.UpdateLastActivityIdempotent | Labwork1_MiniApp/app/scrudstudents/src/main/java/com/tumme/scrudstudents/data/repository/AuthRepository.kt:207-211 | refreshing twice at one instant equals refreshing once |
| AuthRepository.RefreshKeepsAlive | Labwork1_MiniApp/app/scrudstudents/src/main/java/com/tumme/scrudstudents/data/repository/AuthRepository.kt:207-227 | a refreshed session of a stored user is not expired at the refresh instant |
| AuthRepository.FindUnique | Labwork1_MiniApp/app/scrudstudents/src/main/java/com/tumme/scrudstudents/data/repository/AuthRepository.kt:78 | with unique emails and ids, the lookup by a row's email or id finds that row |
| AuthRepository.LoginIff | Labwork1_MiniApp/app/scrudstudents/src/main/java/com/tumme/scrudstudents/data/repository/AuthRepository.kt:134-144 | login succeeds exactly when some user has the email and the password verifies against that user's hash |
| AuthRepository.RegisterTakenEmail | Labwork1_MiniApp/app/scrudstudents/src/main/java/com/tumme/scrudstudents/data/repository/AuthRepository.kt:78-80 | registering an existing email returns null and leaves users, profiles and session unchanged |
| AuthRepository.FailedStudentRegistrationTakesEmail | Labwork1_MiniApp/app/scrudstudents/src/main/java/com/tumme/scrudstudents/data/repository/AuthRepository.kt:78-96 | a student registration failing the field requirement throws but keeps its user row, without profile or session, so a retry with the same email returns null |
| AuthRepository.RegisterKeepsValid | Labwork1_MiniApp/app/scrudstudents/src/main/java/com/tumme/scrudstudents/data/repository/AuthRepository.kt:78-124 | every register path, the failed requirement included, keeps ids increasing, emails unique and profiles pointing at users |
| AuthRepository.LoginLogoutKeepValid | Labwork1_MiniApp/app/scrudstudents/src/main/java/com/tumme/scrudstudents/data/repository/AuthRepository.kt:134-152 | login and logout keep the tables valid |
| AuthRepository.RegisterThenLogin | Labwork1_MiniApp/app/scrudstudents/src/main/java/com/tumme/scrudstudents/data/repository/AuthRepository.kt:83-140 | a freshly registered user logs in with the same password as the same row |
| AuthViewModel.Create | II3510_CourseAPP_2526/app/scrudstudents/src/main/java/com/tumme/scrudstudents/viewmodel/AuthViewModel.kt:38 | the initial state is Loading |
| AuthViewModel.Startup | II3510_CourseAPP_2526/app/scrudstudents/src/main/java/com/tumme/scrudstudents/viewmodel/AuthViewModel.kt:43-64 | expired: repository logout and LoggedOut; unexpired with a found user: LoggedIn with the parsed role and activity refreshed, unless the second expiry check fails, which logs out to LoggedOut; missing row: LoggedOut; one state assigned |
| AuthViewModel.Watch | II3510_CourseAPP_2526/app/scrudstudents/src/main/java/com/tumme/scrudstudents/viewmodel/AuthViewModel.kt:69-87 | null id: LoggedOut, not reassigned when already so; found unexpired user: LoggedIn, not reassigned when the same id is logged in; else LoggedOut; repository untouched |
| AuthViewModel.Sweep | II3510_CourseAPP_2526/app/scrudstudents/src/main/java/com/tumme/scrudstudents/viewmodel/AuthViewModel.kt:95-98 | logged in and expired: logout and LoggedOut; any other tick changes nothing |
| AuthViewModel.Login | II3510_CourseAPP_2526/app/scrudstudents/src/main/java/com/tumme/scrudstudents/viewmodel/AuthViewModel.kt:109-124 | Loading first; then LoggedIn (activity refreshed), "Invalid email or password", or "Login failed: " and the exception message |
| AuthViewModel.Register | II3510_CourseAPP_2526/app/scrudstudents/src/main/java/com/tumme/scrudstudents/viewmodel/AuthViewModel.kt:147-169 | Loading first; then LoggedIn as the new user, "Email already exists", or "Registration failed: " and the message, the failed requirement included; the repository is exactly the repository register's result, with the activity refreshed on success |
| AuthViewModel.Logout | II3510_CourseAPP_2526/app/scrudstudents/src/main/java/com/tumme/scrudstudents/viewmodel/AuthViewModel.kt:176-181 | always LoggedOut, and the repository is exactly the repository logout's result: session cleared, tables and counters untouched |
| AuthViewModel.StepKeepsInv | II3510_CourseAPP_2526/app/scrudstudents/src/main/java/com/tumme/scrudstudents/viewmodel/AuthViewModel.kt:57-58 | every handler keeps the tables valid and every LoggedIn state a row of the table with role == Role.from(its role string) |
| AuthViewModel.RunKeepsInv | II3510_CourseAPP_2526/app/scrudstudents/src/main/java/com/tumme/scrudstudents/viewmodel/AuthViewModel.kt:79-82 | over any sequence of events, every LoggedIn state carries the role parsed from its user's row |
| AuthViewModel.CreateSatisfiesInv | II3510_CourseAPP_2526/app/scrudstudents/src/main/java/com/tumme/scrudstudents/viewmodel/AuthViewModel.kt:38 | the initial view-model over valid tables satisfies the invariant |
| AuthViewModel.LoginThenQuiet | II3510_CourseAPP_2526/app/scrudstudents/src/main/java/com/tumme/scrudstudents/viewmodel/AuthViewModel.kt:80-98 | after a login, sweeps within 30 minutes change nothing and the watcher does not reassign the state |
| AuthViewModel.LogoutThenQuiet | II3510_CourseAPP_2526/app/scrudstudents/src/main/java/com/tumme/scrudstudents/viewmodel/AuthViewModel.kt:70-74 | after a logout, sweeps change nothing and the watcher does not reassign LoggedOut |
| Grades.FindCourse | II3510_CourseAPP_2526/app/scrudstudents/src/main/java/com/tumme/scrudstudents/data/repository/SubscribeRepository.kt:60 | the first course in list order with the id; null iff none |
| Grades.WeightedGrade | II3510_CourseAPP_2526/app/scrudstudents/src/main/java/com/tumme/scrudstudents/data/repository/SubscribeRepository.kt:50-73 | null for no enrollments; a grade iff the resolved weight is positive, and then grade · weight = points |
| Grades.TotalsAreResolvedSums | II3510_CourseAPP_2526/app/scrudstudents/src/main/java/com/tumme/scrudstudents/data/repository/SubscribeRepository.kt:56-65 | the loop's running sums equal the sums over the (score, ects) pairs of exactly the resolved enrollments |
| Grades.WeightedGradeIsMean | II3510_CourseAPP_2526/app/scrudstudents/src/main/java/com/tumme/scrudstudents/data/repository/SubscribeRepository.kt:44 | with positive resolved weight the grade is Σ(score·ects)/Σ(ects) over the resolved enrollments |
| Grades.NothingResolvedNoGrade | II3510_CourseAPP_2526/app/scrudstudents/src/main/java/com/tumme/scrudstudents/data/repository/SubscribeRepository.kt:59-72 | no resolved course: both sums are 0 and the result is null, no division |
| Grades.AppendUnresolved | II3510_CourseAPP_2526/app/scrudstudents/src/main/java/com/tumme/scrudstudents/data/repository/SubscribeRepository.kt:60-64 | appending an enrollment whose course is not found never changes the result |
| Grades.FirstCourseWins | II3510_CourseAPP_2526/app/scrudstudents/src/main/java/com/tumme/scrudstudents/data/repository/SubscribeRepository.kt:60 | for any enrollments, dropping a course that repeats an earlier course's id changes neither the sums nor the grade: the first one supplies the weight |
| Grades.LaterDuplicateIgnored | II3510_CourseAPP_2526/app/scrudstudents/src/main/java/com/tumme/scrudstudents/data/repository/SubscribeRepository.kt:60 | dropping a course that repeats an earlier id changes no course lookup |
| Grades.TotalsBounded | II3510_CourseAPP_2526/app/scrudstudents/src/main/java/com/tumme/scrudstudents/data/repository/SubscribeRepository.kt:59-65 | with positive weights and scores in 0..20, 0 <= points <= 20 · weight |
| Grades.GradeInRange | II3510_CourseAPP_2526/app/scrudstudents/src/main/java/com/tumme/scrudstudents/data/repository/SubscribeRepository.kt:48 | with positive weights and scores in 0..20, the grade lies in 0..20 |
| Grades.TwoCourseExample | II3510_CourseAPP_2526/app/scrudstudents/src/main/java/com/tumme/scrudstudents/data/repository/SubscribeRepository.kt:44 | 16 on 4 credits and 10 on 6 credits give 12.4 |
| SubscribeList.FindSubscribe | Labwork1_MiniApp/app/scrudstudents/src/main/java/com/tumme/scrudstudents/ui/subscribe/SubscribeListViewModel.kt:123-126 | a result has both ids equal to the arguments and is the first such row; null iff no row matches both |
| SubscribeList.FirstOfDuplicates | Labwork1_MiniApp/app/scrudstudents/src/main/java/com/tumme/scrudstudents/ui/subscribe/SubscribeListViewModel.kt:125 | of two matching rows the earlier is returned |
| TeacherGradeEntry.ExistingIsFindSubscribe | Labwork1_MiniApp/app/scrudstudents/src/main/java/com/tumme/scrudstudents/ui/teacher/TeacherGradeEntryScreen.kt:32-33 | the enrollment the screen acts on is the first row linking the student to the course |
| TeacherGradeEntry.Prefill | Labwork1_MiniApp/app/scrudstudents/src/main/java/com/tumme/scrudstudents/ui/teacher/TeacherGradeEntryScreen.kt:31-36 | the field starts with a linking row's score, and empty iff no row links the pair |
| TeacherGradeEntry.SaveGrade | Labwork1_MiniApp/app/scrudstudents/src/main/java/com/tumme/scrudstudents/ui/teacher/TeacherGradeEntryScreen.kt:72-95 | rejected with "Score must be between 0 and 20" iff unparsed or outside 0..20, nothing written; else update of the existing row with only the score replaced, or insert of one new row for the pair under the next key, which advances by one |
| TeacherGradeEntry.UpdateRow | Labwork1_MiniApp/app/scrudstudents/src/main/java/com/tumme/scrudstudents/ui/teacher/TeacherGradeEntryScreen.kt:80-84 | the row with the updated row's id is replaced, every other row and the next key are kept |
| TeacherGradeEntry.InsertRow | Labwork1_MiniApp/app/scrudstudents/src/main/java/com/tumme/scrudstudents/ui/teacher/TeacherGradeEntryScreen.kt:85-93 | the row is appended with the next auto-generated id, and the next key advances by one |
| TeacherGradeEntry.BoundsInclusive | Labwork1_MiniApp/app/scrudstudents/src/main/java/com/tumme/scrudstudents/ui/teacher/TeacherGradeEntryScreen.kt:73 | 0 and 20 are accepted, 20.5 and -0.5 rejected |
| TeacherGradeEntry.UpdateTouchesOneRow | Labwork1_MiniApp/app/scrudstudents/src/main/java/com/tumme/scrudstudents/ui/teacher/TeacherGradeEntryScreen.kt:78-84 | only the first matching row changes, and only its score; other rows, duplicates included, are kept |
| TeacherGradeEntry.SaveThenPrefill | Labwork1_MiniApp/app/scrudstudents/src/main/java/com/tumme/scrudstudents/ui/teacher/TeacherGradeEntryScreen.kt:31-93 | after an accepted save, reopening the screen prefills the saved score |
| TeacherGradeEntry.SaveKeepsValid | Labwork1_MiniApp/app/scrudstudents/src/main/java/com/tumme/scrudstudents/ui/teacher/TeacherGradeEntryScreen.kt:80-93 | saving keeps primary keys distinct |
| SubscribeForm.Save | II3510_CourseAPP_2526/app/scrudstudents/src/main/java/com/tumme/scrudstudents/ui/subscribe/SubscribeFormScreen.kt:234-281 | each failing check sets its own message and the others are untouched; a row is inserted iff no check fails, with the student's own id or the selected one, the course's id, and score 0 or the entered score |
| SubscribeForm.SaveEnabled | II3510_CourseAPP_2526/app/scrudstudents/src/main/java/com/tumme/scrudstudents/ui/subscribe/SubscribeFormScreen.kt:281 | enabled iff a teacher is logged in, or a student is logged in and their profile is loaded |
| SubscribeForm.SelectStudent | II3510_CourseAPP_2526/app/scrudstudents/src/main/java/com/tumme/scrudstudents/ui/subscribe/SubscribeFormScreen.kt:140-143 | picking a student sets it and clears only the student error; course, score, login state and profile are kept |
| SubscribeForm.SelectCourse | II3510_CourseAPP_2526/app/scrudstudents/src/main/java/com/tumme/scrudstudents/ui/subscribe/SubscribeFormScreen.kt:187-190 | picking a course sets it and clears only the course error; student, score, login state and profile are kept |
| SubscribeForm.EditScore | II3510_CourseAPP_2526/app/scrudstudents/src/main/java/com/tumme/scrudstudents/ui/subscribe/SubscribeFormScreen.kt:203-206 | typing a score sets it and clears only the score error; both selections, login state and profile are kept |
| SubscribeForm.InsertedScoreInRange | II3510_CourseAPP_2526/app/scrudstudents/src/main/java/com/tumme/scrudstudents/ui/subscribe/SubscribeFormScreen.kt:251-262 | every inserted enrollment has a score in 0..20, for either role |
| SubscribeForm.StudentEnrollsSelf | II3510_CourseAPP_2526/app/scrudstudents/src/main/java/com/tumme/scrudstudents/ui/subscribe/SubscribeFormScreen.kt:239-270 | a student never gets the student or score error, enrolls iff a course is picked, with their own id and score 0 |
| SubscribeForm.AllErrorsTogether | II3510_CourseAPP_2526/app/scrudstudents/src/main/java/com/tumme/scrudstudents/ui/subscribe/SubscribeFormScreen.kt:237-262 | a teacher with nothing filled in sees all three errors from one click |
| SubscribeForm.RejectedKeepsOrSets | II3510_CourseAPP_2526/app/scrudstudents/src/main/java/com/tumme/scrudstudents/ui/subscribe/SubscribeFormScreen.kt:237-262 | Save only ever sets an error to its own message; it never clears one |
| SubscribeForm.FixThenSave | II3510_CourseAPP_2526/app/scrudstudents/src/main/java/com/tumme/scrudstudents/ui/subscribe/SubscribeFormScreen.kt:140-278 | a teacher who picks a student and a course and types a valid score saves that row and sees no error |
| CourseForm.LeadingBlanks | II3510_CourseAPP_2526/app/scrudstudents/src/main/java/com/tumme/scrudstudents/ui/course/CourseFormScreen.kt:164 | the count of leading whitespace, followed by a non-whitespace character or the end |
| CourseForm.TrailingBlanks | II3510_CourseAPP_2526/app/scrudstudents/src/main/java/com/tumme/scrudstudents/ui/course/CourseFormScreen.kt:164 | the count of trailing whitespace, preceded by a non-whitespace character or the start |
| CourseForm.Trim | II3510_CourseAPP_2526/app/scrudstudents/src/main/java/com/tumme/scrudstudents/ui/course/CourseFormScreen.kt:164 | a slice that drops only whitespace at both ends, and starts and ends with non-whitespace when not empty |
| CourseForm.TrimEmptyIffBlank | II3510_CourseAPP_2526/app/scrudstudents/src/main/java/com/tumme/scrudstudents/ui/course/CourseFormScreen.kt:151-164 | a name trims to "" exactly when it is blank |
| CourseForm.TrimIdempotent | II3510_CourseAPP_2526/app/scrudstudents/src/main/java/com/tumme/scrudstudents/ui/course/CourseFormScreen.kt:164 | trimming twice is trimming once |
| CourseForm.Initial | II3510_CourseAPP_2526/app/scrudstudents/src/main/java/com/tumme/scrudstudents/ui/course/CourseFormScreen.kt:55-61 | the form starts empty, without errors, at level P1 |
| CourseForm.Save | II3510_CourseAPP_2526/app/scrudstudents/src/main/java/com/tumme/scrudstudents/ui/course/CourseFormScreen.kt:147-172 | blank name: "Course name is required"; unparsed or non-positive credits: "ECTS must be a positive number"; a course iff neither, with the trimmed name, the credits, the level and the teacher's id or 0 |
| CourseForm.SavedCourseWellFormed | II3510_CourseAPP_2526/app/scrudstudents/src/main/java/com/tumme/scrudstudents/ui/course/CourseFormScreen.kt:151-168 | a saved course has a non-empty name without surrounding whitespace and positive credits |
| CourseForm.BothErrorsTogether | II3510_CourseAPP_2526/app/scrudstudents/src/main/java/com/tumme/scrudstudents/ui/course/CourseFormScreen.kt:149-160 | a blank name and zero credits are both reported in one click |
| CourseForm.DefaultLevelIsP1 | II3510_CourseAPP_2526/app/scrudstudents/src/main/java/com/tumme/scrudstudents/ui/course/CourseFormScreen.kt:57 | a course saved without picking a level has level P1 |
| CourseForm.TrimExample | II3510_CourseAPP_2526/app/scrudstudents/src/main/java/com/tumme/scrudstudents/ui/course/CourseFormScreen.kt:164 | "  Algo 1 " is saved as "Algo 1" |

## Left out

- Compose rendering and navigation (every screen's layout, the nav host, splash and routes): UI plumbing with no decision logic.
- Coroutines and flows: each handler is one atomic transition, the minute loop of the sweep is one `SweepTick` event, and interleavings between the watcher, the sweep and user actions are not modelled.
- Room, the preferences file and dependency injection: tables are in-memory sequences, the session a record of optional keys; the REPLACE conflict strategies and the foreign-key cascades are not modelled.
- The pass-through repositories and view-models (course, student, teacher, list view-models' insert and delete), and the view-model's own `updateLastActivity` wrapper: they only forward calls.
- The SHA-256 compression function: the digest is a parameter of every hashing member; only the hex encoding and `verify` are modelled. Text is taken to map to the digest directly, so the UTF-8 encoding step is part of that parameter.
- Float semantics: scores and credits are `real`, so IEEE rounding of the accumulation in `calculateWeightedGrade`, `%.2f` display rounding and NaN or infinite values that `toFloatOrNull` can produce are not modelled; parsing itself is an `Option<real>` input.
- Date parsing and random ids of other screens: foreign library code outside the core.
- Integer widths: ids and timestamps are unbounded integers, so a 32-bit id truncation (`toInt()` of the inserted row id) and 64-bit clock overflow are not modelled.
- Storage failures: a `fault` parameter makes the first table lookup of login or register throw; failures of later writes are not modelled.
- `LevelCourse.kt` and `Gender.kt` are not part of this model: only level P1 is named and other levels are distinguished by name; gender has the three values the student form uses.
- AuthViewModel.Startup: the two expiry checks read the clock at `now` and `later`, and the activity refresh uses `later`; register and login stamp the session and refresh the activity at the same instant.
- AuthViewModel.Watch: it reacts to one observed value of the id flow; which values the flow delivers (it conflates repeated values) is not modelled.
- SubscribeForm.Save: requires the Save button to be enabled (a logged-in teacher, or a student whose profile has loaded), since a disabled button cannot be clicked; the handler would otherwise dereference a missing profile.
- TeacherGradeEntry.SaveGrade: the navigation back after a write is not modelled; the screen's rows are read from the table at the click, as the handler re-reads them.
- TeacherGradeEntry.SaveGrade: a NaN score is outside the model. `"NaN".toFloatOrNull()` yields a value that fails both comparisons of TeacherGradeEntryScreen.kt line 73, so the source saves it. The model's rejection condition therefore holds only for finite parses.
- SubscribeForm.InsertedScoreInRange: holds only for finite parses. A NaN score passes the range check of SubscribeFormScreen.kt line 253 and is inserted.
- CourseForm.SavedCourseWellFormed: holds only for finite parses. A NaN credit value passes the check of CourseFormScreen.kt line 157.
- AuthViewModel.Login: the `fault` parameter carries the exception message as Kotlin prints it, so a null message is the string "null" (the state reads "Login failed: null"); the same holds for AuthViewModel.Register.
- TeacherGradeEntry.Prefill: the field text is `score.toString()` of a Float ("15.0", "1.0E-5"); the model returns the score as an `Option<real>` and leaves Kotlin's float-to-text formatting out.
