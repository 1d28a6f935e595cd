# School API core in Dafny

A functional model of the decision logic of the `school` REST API, an
academic-records service written in Go. It has five parts.

- **Value functions** (`util.dfy`, `decimal.dfy`, `request_parser.dfy`):
  - grade bands, gender, weekday and trimester mapping, and year codes;
  - the decimal and zero-padded renderings behind the student and room codes;
  - sort-direction normalisation and the HTML escaping of request bodies.
- **The soft-delete record store** (`store.dfy`, `enroll_model.dfy`,
  `result_model.dfy`, `attendance_model.dfy`):
  - the database is one immutable `Db` value holding row sequences and an id generator;
  - every SQL statement of the model files is a function from store to store or to a result;
  - every WHERE clause is copied as a predicate, including which queries ignore `is_delete`
    and which filters are skipped for the nil id.
- **The enrolment engine and the attendance fan-out** (`student_enroll_api.dfy`,
  `class_api.dfy`, `result_api.dfy`):
  - handlers run their checks in the source order, and the first failure wins;
  - there is no transaction, so a failure in the middle keeps the earlier writes.
- **Sessions and access control** (`errors.dfy`, `session.dfy`,
  `middleware.dfy`, `router.dfy`):
  - the session cache is a map from key to entry with a time-to-live;
  - the middlewares are decision functions;
  - the route table maps every route to its guard;
  - the response envelope shows only the user-facing message of an error.
- **Accounts, intakes and classrooms** (`accounts.dfy`, `intake_api.dfy`,
  `classroom_api.dfy`):
  - login and password change for students, lecturers and admins;
  - student and lecturer creation;
  - intake month validation;
  - room-code construction.

Outside effects are parameters:
- Time is integer seconds, and a day is 86400 seconds.
- A UUID is a natural number, and the nil UUID is 0.
- A freshly generated UUID is an argument.
- bcrypt is an uninterpreted `matches(hash, password)` plus a given hash.
- The random source is a sequence of draws.
- Every driver or cache failure is an explicit fault argument: `Option<Cause>`, or
  `FailAt(k, cause)` for the `k`-th statement of a loop.

Errors follow `helpers.ErrorWrap`:
- The cause is wrapped structurally as `Wrapped("prefix/suffix", inner)`.
- `errors.Wrapf(nil)` stays nil.
- Comparisons with `sql.ErrNoRows` and `redis.ErrNil` are by identity, so a wrapped
  `ErrNil` is not `ErrNil`.

## Model

| member | source | states |
|---|---|---|
| Util.GetGrade | util/util.go:55-68 | "A" exactly for 75..100, "B" for 60..74, "C" for 47..59, "D" for 40..46, and "F" for everything else, including marks above 100 and negative marks |
| Util.GradeIsLetter | util/util.go:55-68 | every mark gets one of the five letters |
| Util.GradeMonotone | util/util.go:57-67 | on 0..100, more marks never give a worse letter |
| Util.GradeAbove100IsF | util/util.go:57-67 | 100 is an A, but 101 is an F |
| Util.GetGender | util/util.go:21-31 | 0 is "Male", 1 is "Female", and any other value gives the empty string with an error |
| Util.ModelsGender | models/util.go:9-19 | the models-package `Gender` agrees with `util.GetGender` on every input |
| Util.GetDay | util/util.go:70-86 | 1..5 name Monday to Friday; every other value, 0, 6 and 7 included, is "Invalid" |
| Util.GetTrimester | util/util.go:88-101 | 4, 7 and 11 map to 1, 2 and 3; the result is non-zero exactly for those months |
| Util.TrimesterRoundTrip | util/util.go:88-101 | the trimester of an intake month gives the month back, and the reverse also holds |
| Util.GetYearCode | util/util.go:37-53 | the code is the number written by characters 2 and 3 of the year, in 0..99; a year of fewer than four characters has none |
| Util.YearCodeOfFourDigitYear | util/util.go:37-53 | for a four-digit year the code is the year mod 100 |
| Util.YearCode2005 | util/util.go:37-53 | 2005 gives 5, so the leading zero is lost |
| Util.RandomString | util/util.go:11-19 | exactly n characters, each the alphabet letter its draw selects, all from [a-zA-Z0-9] |
| Errors.ErrorWrap | helpers/error.go:17-24 | message and status are exactly the arguments; a nil cause stays nil; any other cause is tagged "prefix/suffix" around the same root |
| Errors.Wording | helpers/error.go:26-29 | the two generic messages read "Internal Server Error" and "Bad Request" |
| Errors.CauseNeverShown | helpers/error.go:13-15 | `Error()` shows the message alone, so two errors with different causes or tags look the same |
| Errors.Internal | helpers/error.go:17-24 | the common 500 wrapper keeps the root cause and shows "Internal Server Error" |
| RequestParser.NormalizeDir | helpers/request_parser.go:80-82 | the result is always asc or desc in some casing; a direction is kept exactly when it already was one; anything else becomes "ASC" |
| RequestParser.NormalizeDirIdempotent | helpers/request_parser.go:80-82 | normalising twice is normalising once |
| RequestParser.MixedCaseDirKept | helpers/request_parser.go:80-84 | an acceptable direction keeps its own casing |
| RequestParser.ParseFilter | helpers/request_parser.go:71-85 | never returns an error; after a decode failure the filter is returned without direction normalisation |
| RequestParser.Escape | helpers/request_parser.go:54 | escaped text contains no `<`, `>`, `"` or `'`; text with no special character is unchanged |
| RequestParser.EscapeRoundTrip | helpers/request_parser.go:54 | unescaping the escaped text gives the original back |
| RequestParser.ParseBodyRequestData | helpers/request_parser.go:41-69 | every string field is escaped and every other field is untouched; the result is nil exactly when validation passes, the validator's error otherwise, and "Invalid data" for a plain failure |
| Store.Select | models/model.student.enroll.go:235-293 | a listing returns matching rows of the table, at most `limit` of them; with offset 0 and a small table it returns every match; a negative window is a driver error |
| Store.SelectFormatted | models/model.attendance.go:133-150 | a listing with caller text formatted into its SQL fails with a syntax error when the text does not parse, and otherwise behaves as `Select` |
| Store.NormalizedDirParses | helpers/request_parser.go:80-84 | a direction that `ParseFilter` normalised always parses in an ORDER BY |
| Store.LikeAnyTail | models/model.result.go:115 | a trailing `%` matches any remaining text |
| Store.LikePrefix | models/model.result.go:115 | a plain text followed by `%` matches exactly the texts starting with it |
| Store.LikeLeading | models/model.result.go:115 | a leading `%` matches when the rest matches some suffix |
| Store.LikeIsContains | models/model.result.go:115 | `LIKE '%needle%'` with a plain needle is the substring test |
| Store.Lookup | models/model.student.enroll.go:315-350 | `QueryRow` by key gives the row, or `sql.ErrNoRows` when there is none |
| Store.SelectOne | models/model.student.enroll.go:76-111 | `QueryRow(…).Scan` gives a row satisfying the WHERE clause, and `sql.ErrNoRows` exactly when no row does |
| EnrollModel.Insert | models/model.student.enroll.go:151-174 | one row is appended with the given session, student and creator, not deleted, under a fresh non-nil id; nothing else changes |
| EnrollModel.Delete | models/model.student.enroll.go:295-313 | exactly the rows with the id get `is_delete` and `updated_by`; no other row or field changes, and a missing id is no error |
| EnrollModel.GetOne | models/model.student.enroll.go:76-111 | a row is found only when its id matches and it is not deleted |
| EnrollModel.GetOneBySessionAndStudent | models/model.student.enroll.go:315-350 | matches on session and student whether or not the row is deleted |
| EnrollModel.GetAllBySession | models/model.student.enroll.go:235-293 | filters by session only when the id is not nil, never drops deleted rows, and applies LIMIT/OFFSET |
| EnrollModel.GetAllByStudent | models/model.student.enroll.go:352-411 | always drops deleted rows and filters by student only when the id is not nil |
| EnrollModel.GetAllByOneStudentAsWritten | models/model.student.enroll.go:176-233 | as written, the student column is compared with the session id of the filter; at most `limit` rows, every such row when the window takes them all, and a syntax error when the direction does not parse |
| EnrollModel.OneStudentQueryMissesOwnRows | models/model.student.enroll.go:180-184 | a store where the as-written query returns nothing for a student, while the corrected one returns that student's row |
| EnrollModel.GetAllByOneStudent | models/model.student.enroll.go:176-233 | corrected: the rows of the student whose session exists, filtered only when the student id is not nil; a direction that does not parse fails the statement |
| EnrollModel.InsertThenGetOne | models/model.student.enroll.go:76-174 | a row just inserted is found by its id |
| EnrollModel.DeleteHidesOnlyFromLiveLookup | models/model.student.enroll.go:76-111 | after a delete, the id lookup fails but the session-and-student lookup still finds the row |
| EnrollModel.DeleteIdempotent | models/model.student.enroll.go:295-313 | deleting twice is deleting once |
| EnrollModel.SessionListingKeepsWithdrawn | models/model.student.enroll.go:235-293 | a withdrawn enrolment is still listed for its session |
| ResultModel.Insert | models/model.result.go:304-328 | one row is appended with the given enrolment, grade, marks and creator under a fresh id |
| ResultModel.RegradeWhere | models/model.result.go:330-378 | the shared UPDATE rewrites grade, marks and updater of exactly the rows its WHERE clause matches, and is `sql.ErrNoRows` when none matches |
| ResultModel.Update | models/model.result.go:355-378 | grade, marks and updater of the rows with the id change and nothing else does; no matching row is `sql.ErrNoRows` |
| ResultModel.UpdateByStudentEnroll | models/model.result.go:330-353 | the same for every row of the enrolment |
| ResultModel.Delete | models/model.result.go:380-398 | exactly the rows with the id are marked deleted with the updater |
| ResultModel.GetOne | models/model.result.go:67-104 | finds the row with the id whether or not it is deleted |
| ResultModel.GetAllByStudentEnroll | models/model.result.go:177-234 | filters by enrolment only when the id is not nil, and keeps deleted rows |
| ResultModel.GetAll | models/model.result.go:106-175 | only live results whose enrolment, student and session exist, narrowed by student, subject and name search when given; every such row when the window takes them all; a syntax error when the direction or the search text breaks the statement |
| ResultModel.DeleteHidesOnlyFromGetAll | models/model.result.go:106-144 | a deleted result leaves the general listing (which, for a window taking every row, answers exactly when its statement parses) but is still found by id and listed for its enrolment |
| ResultModel.SearchIsNameContains | models/model.result.go:114-116 | for a search free of quotes and LIKE pattern characters, the search condition holds exactly when the lower-cased name contains the lower-cased search |
| ResultModel.QuotedSearchFails | models/model.result.go:114-116 | a search text holding a quote breaks the statement, so the listing fails |
| ResultModel.UpdateThenGetOne | models/model.result.go:355-378 | after an update the row reads back with the new grade and marks |
| ResultModel.InsertThenListByStudentEnroll | models/model.result.go:177-234 | an inserted result is listed for its enrolment |
| AttendanceModel.Insert | models/model.attendance.go:233-256 | student, class and creator as given; `is_attend` is the column default; the id is fresh |
| AttendanceModel.Update | models/model.attendance.go:258-280 | only `is_attend` and `updated_by` of the rows with the id change; a missing id is `sql.ErrNoRows` |
| AttendanceModel.GetAllByClass | models/model.attendance.go:176-231 | filters by class only when the id is not nil |
| AttendanceModel.GetAll | models/model.attendance.go:113-174 | the conjunction of the optional class and student conditions; every such row when the window takes them all; a direction that does not parse fails the statement |
| AttendanceModel.NoFilterListsEverything | models/model.attendance.go:113-231 | with both ids nil, and a table that fits the window, the class listing returns the whole table, and so does the general listing when its direction parses (a syntax error otherwise) |
| AttendanceModel.ByClassIsGetAllWithoutStudent | models/model.attendance.go:113-231 | with the student id cleared, the general listing succeeds exactly when the class listing does and the direction parses, and when the window takes every match both hold the same rows |
| AttendanceModel.UpdateThenList | models/model.attendance.go:258-280 | an updated row reads back with the new flag and the same student and class |
| AttendanceModel.UndecodedDirFailsListing | helpers/request_parser.go:71-78 | after a failed decode the direction "foo" reaches the general listing's ORDER BY and fails it, while the class listing still answers |
| StudentEnrollApi.Screen | api/api.student.enroll.go:76-137 | the checks pass exactly when no lookup fails and the request is eligible; every refusal is a 500 "Internal Server Error"; one clause per step gives the exact error of the first failing step, in the order student lookup, session lookup, enrolment lookup, duplicate, intake lookup, window, program |
| StudentEnrollApi.ScreenReportsFirstFailingStep | api/api.student.enroll.go:76-137 | the tag of the reported error names the first failing check, as an independent step-by-step account of the order gives it |
| StudentEnrollApi.Add | api/api.student.enroll.go:73-169 | accepted exactly when nothing fails and the request is eligible; a refusal writes nothing; on success one enrolment of the caller and one placeholder result are appended |
| StudentEnrollApi.WithdrawnEnrollmentStillBlocks | api/api.student.enroll.go:90-102 | a deleted enrolment of the caller in the session still refuses re-enrolment as a duplicate |
| StudentEnrollApi.NilSessionIsAlwaysDuplicate | api/api.student.enroll.go:90-102 | with no row found, the zero row's nil session equals a nil request, so that request is refused as a duplicate |
| StudentEnrollApi.WindowReportedBeforeProgram | api/api.student.enroll.go:115-137 | when both the window and the program check fail, the window error is reported |
| StudentEnrollApi.OtherProgramRefused | api/api.student.enroll.go:132-137 | a session of another program is refused inside the window |
| StudentEnrollApi.WindowIsInclusive | api/api.student.enroll.go:115-130 | accepted exactly for start minus 5 days through start minus 1 second, both ends included |
| StudentEnrollApi.PlaceholderPointsAtNewEnrollment | api/api.student.enroll.go:139-160 | the placeholder result refers to the new enrolment, whose id is fresh |
| StudentEnrollApi.LateFailureKeepsEnrollment | api/api.student.enroll.go:151-160 | a failing result insert reports an error but keeps the enrolment |
| StudentEnrollApi.Delete | api/api.student.enroll.go:257-305 | the enrolment is deleted, then each listed result in turn; the first failure stops the loop and the earlier deletions stay |
| StudentEnrollApi.Targets | api/api.student.enroll.go:273-280 | the listing the cascade walks: at most 999 results, each of the enrolment unless the id is nil, deleted ones included, and every such result when the table holds at most 999 |
| StudentEnrollApi.DeleteResults | api/api.student.enroll.go:287-301 | the loop's deletions mark exactly the results whose id was listed, with the caller as updater, and change nothing else |
| StudentEnrollApi.CascadeDeletesEveryResult | api/api.student.enroll.go:273-303 | with at most 999 results, every result of the enrolment ends up deleted, and none of them is listed by `GetAllResult` afterwards |
| StudentEnrollApi.NilIdDeletesAllResults | api/api.student.enroll.go:257-303 | the nil id deletes no enrolment but skips the listing filter, so every result is deleted |
| ResultApi.Record | api/api.result.go:113-138 | the shared insert appends one row with the marks as given and the grade they earn |
| ResultApi.Add | api/api.result.go:113-138 | grade = GetGrade(marks), stored with the marks and the caller as creator |
| ResultApi.LecturerAddResult | api/api.result.go:190-214 | the creator is a freshly generated id, not the caller |
| ResultApi.Update | api/api.result.go:140-168 | grade and marks of the row with the id are rewritten together; a missing id is an error |
| ResultApi.LecturerUpdateResult | api/api.result.go:216-243 | every result of the enrolment is regraded from the marks |
| ResultApi.Delete | api/api.result.go:170-188 | soft-deletes by id and returns no data |
| ResultApi.OutOfRangeMarksStoredAsF | api/api.result.go:113-122 | marks outside 0..100 are stored as given and graded "F" |
| ResultApi.WritesKeepGrades | api/api.result.go:113-243 | all five handlers keep every stored grade equal to the grade of its marks |
| ResultApi.RecordKeepsGrades | api/api.result.go:113-138 | the insert both adding handlers share keeps every stored grade equal to the grade of its marks |
| ResultApi.LecturerAddIgnoresCaller | api/api.result.go:190-214 | the lecturer's add leaves the same store and reply whoever calls it |
| ResultApi.UpdateThenDetail | api/api.result.go:140-154 | after an update the result reads back with the grade of the new marks |
| ClassApi.InsertClass | models/model.class.go:157-179 | one class appended with session, date and creator under a fresh id |
| ClassApi.Roster | api/api.class.go:105-117 | the enrolments the loop walks: at most 999, all of the session, deleted ones included, and all of them when the table is small |
| ClassApi.FanOut | api/api.class.go:119-131 | exactly one attendance row per enrolment, appended in order, each for that student, the class and the caller |
| ClassApi.InsertAttendances | api/api.class.go:119-131 | the loop stops at the first failing insert; the rows of the inserts that completed are exactly the fan-out of that prefix of the roster |
| ClassApi.Add | api/api.class.go:91-140 | a class-insert failure writes nothing; a query failure leaves the bare class; the k-th attendance failure keeps the class and the first k rows |
| ClassApi.FanOutKeepsValid | api/api.class.go:119-131 | the rows the fan-out adds take fresh ids |
| ClassApi.OneAttendancePerEnrollment | api/api.class.go:105-131 | every enrolment row of the session gets an attendance row in the new class |
| ClassApi.FanOutCovers | api/api.class.go:119-131 | every enrolment handed to the loop has an attendance row for its student in the class, created by the caller |
| ClassApi.FanOutOnlyForRoster | api/api.class.go:105-131 | every added row belongs to the new class and to an enrolment of the session; the count is the listing's, at most 999 |
| ClassApi.WithdrawnStudentsAttend | api/api.class.go:105-131 | a withdrawn enrolment still receives an attendance row |
| Sessions.KeyFor | api/api.student.go:173 | the key is "USER_SESSION:" followed by the digits that read back as the fresh id |
| Sessions.KeyForInjective | api/api.student.go:173 | distinct ids give distinct keys |
| Sessions.SetWithExpiry | helpers/cache.go:75-89 | a successful SETEX binds the key with deadline now + ttl; a non-positive ttl or a failure changes nothing |
| Sessions.GetFromCache | helpers/cache.go:91-105 | a missing or expired key is `redis.ErrNil` |
| Sessions.Store | session/session.go:34-54 | only user id and role are written, under the session key, with the expiry as time-to-live; other keys are untouched |
| Sessions.Get | session/session.go:56-72 | the cache error comes back unchanged, and a payload that does not decode is an error |
| Sessions.StoreThenGet | session/session.go:34-72 | a stored session reads back as the same user and role until its time-to-live runs out, then is `redis.ErrNil` |
| Sessions.StoreIsolated | session/session.go:34-54 | storing a session changes what no other key reads |
| Sessions.RolesDistinct | session/session.go:14-18 | the three role names are pairwise distinct |
| Middleware.Token | middleware/middleware.go:33 | the token is the "session" header, and empty when the header is absent |
| Middleware.Refusal | middleware/middleware.go:41-48 | `redis.ErrNil` itself is 401; every other error is 500 |
| Middleware.SessionMiddleware | middleware/middleware.go:27-55 | passes exactly when the session resolves, setting `user_id` to its user; an absent key is 401 |
| Middleware.RolesMiddleware | middleware/middleware.go:57-97 | passes the request unchanged exactly when the role is listed; an unlisted role is 403; lookup errors split into 401 and 500 |
| Middleware.Listed | middleware/middleware.go:81-87 | the role loop finds the role exactly when it is in the list |
| Middleware.BasicAuthMiddleware | middleware/middleware.go:11-25 | no user is 401; otherwise `user_id` is the user's id |
| Middleware.EmptyRolesForbid | middleware/middleware.go:81-93 | an empty role list refuses every resolvable session with 403 |
| Middleware.StoredSessionPasses | middleware/middleware.go:27-55 | a session just stored under the token passes with its user id while it lives |
| Middleware.WrappedNilIsInternal | middleware/middleware.go:41-48 | a wrapped `ErrNil` is reported as 500, not 401 |
| Router.ServeHTTP | routers/handlers.go:16-34 | on an error, the envelope carries its status and only its message; otherwise status 200, the data and no errors |
| Router.EnvelopeHidesCause | routers/handlers.go:16-34 | two errors differing only in cause or tag give the same envelope |
| Router.Crud | routers/handlers.go:87-163 | each entity's GET routes need only a session, and its POST, PUT and DELETE routes are admin-only |
| Router.EntityRoutes | routers/handlers.go:87-163 | the seven CRUD blocks with the result and classroom routes between them, in registration order |
| Router.Routes | routers/handlers.go:36-170 | the role-specific routes first, then the entity routes, then the three logins |
| Router.GuardOf | routers/handlers.go:36-170 | a route is found exactly when one is registered for the verb and path, and the guard is that of a registered route |
| Router.GuardOfFirst | routers/handlers.go:36-170 | the first route registered for a path decides its guard |
| Router.Guarded | routers/handlers.go:44-45 | the session wrapper is outermost, so the role check runs only for a resolved session |
| Router.OnlyLoginIsOpen | routers/handlers.go:165-167 | a route is unguarded exactly when it is one of the three login routes |
| Router.UnknownTokenIs401 | routers/handlers.go:44-45 | on any guarded route an unknown token gets 401 before any role check |
| Router.CoreRouteGuards | routers/handlers.go:76-85 | POST /student-enrolls is student-only; DELETE /student-enrolls/{id} and POST /classes are admin-only; GET /attendances allows admin and lecturer |
| Router.AttendanceListingRoles | routers/handlers.go:76-77 | lecturers and admins pass the attendance listing, and students get 403 |
| Accounts.ByLogin | models/model.student.go:206-254 | the login lookup returns a row with the login, and for students only an active one, choosing the first in table order; `sql.ErrNoRows` exactly when no row matches |
| Accounts.InactiveStudentCannotLogIn | models/model.student.go:206-230 | a student code whose rows are all inactive is refused as an unknown code whatever the password; lecturer and admin lookups ignore the flag |
| Accounts.ById | models/model.student.go:91-135 | the id lookup of `GetOneStudent`, `GetOneLecturer` and `GetOneAdmin` finds a row with the id, and `sql.ErrNoRows` exactly when there is none |
| Accounts.ScannedHash | models/model.student.go:91-135 | the password the id lookup scans: empty for a student, since `GetOneStudent` does not select the column, and the stored hash otherwise |
| Accounts.Login | api/api.student.go:151-193 | succeeds exactly when the lookup finds a row, bcrypt accepts the password and no response step fails; an unknown login gets the kind's message; a mismatch gets the incorrect-password message; all errors are 500; success returns the row's id and "USER_SESSION:<fresh id>" |
| Accounts.LoginSession | api/api.lecturer.go:220-225 | the stored session binds the account id, the kind's role and an expiry of 86400 |
| Accounts.LoginOutcome | api/api.admin.go:58-74 | with no failure, a found account logs in exactly when bcrypt accepts the password |
| Accounts.LoginGrantsAccess | api/api.student.go:171-178 | the returned key passes the session check as the account for a day, and passes exactly the role checks that list the kind's role |
| Accounts.LoginKeepsOtherSessions | api/api.student.go:171-178 | a new login leaves every other session, earlier ones of the same account included, as it was |
| Accounts.StoreFailureNeverSurfaces | api/api.lecturer.go:227-229 | the reply is the same whether or not the cache write failed |
| Accounts.LostSessionKeyIsRefused | api/api.admin.go:83-90 | after a failed cache write the login still returns a key, and that key gets 401 |
| Accounts.FailedResponseLeavesLiveSession | api/api.student.go:178-185 | a failing response step reports an error after the session is already stored |
| Accounts.PasswordUpdate | api/api.lecturer.go:245-296 | succeeds exactly when the lookup succeeds, the current password matches the stored hash, the new one differs and is confirmed, and the write succeeds; the first failing check decides the error; nothing is written before all pass; success says "Password Successfully Changed"; for students this is the corrected behaviour |
| Accounts.ChangeWith | api/api.admin.go:94-145 | the shared password change against a given scanned hash: the same outcome, table and error as above, with that hash in the comparison |
| Accounts.PasswordUpdateAsWritten | api/api.student.go:196-246 | as written: lecturers and admins get exactly `PasswordUpdate`; a found student is refused as an incorrect password unless bcrypt accepts the current password against the empty hash |
| Accounts.StudentPasswordChangeRefused | api/api.student.go:204-211 | a student whose stored hash accepts the current password is refused as written and served by the corrected handler |
| Accounts.SetPassword | models/model.lecturer.go:302-324 | only the hash and the updater of the rows with the id change |
| Accounts.WrongCurrentPasswordReportedFirst | api/api.admin.go:102-121 | the incorrect-password message appears exactly when the current password is wrong, whatever the new and confirmed ones are |
| Accounts.PasswordChangeThenLogin | api/api.lecturer.go:253-296 | after the write, the new password logs in and the old one is refused |
| Accounts.InitialPassword | api/api.lecturer.go:120 | the initial password has 12 characters from [a-zA-Z0-9] |
| Accounts.StudentCode | api/api.student.go:317 | the code is "1", then the year code, then the program code, "0", the faculty code, and "000" |
| Decimal.IntToDec | api/api.student.go:317 | `%d` gives at least one character, a leading '-' exactly for negative numbers, and digits after it |
| Decimal.ParseIntOfIntToDec | api/api.student.go:317 | the `%d` rendering reads back as the same number |
| Accounts.StudentCodeAmbiguous | api/api.student.go:317 | year code 5 with program 12 gives the same code as year code 51 with program 2 |
| Accounts.AddStudent | api/api.student.go:287-345 | a failing program or faculty lookup writes nothing; otherwise one row with the code and the hash is appended, created by the caller, with `is_active` the column default |
| Accounts.SameProgramSameCode | api/api.student.go:298-317 | two students added in the same year to the same program get identical codes |
| Accounts.SecondStudentLogsInAsFirst | api/api.student.go:153-162 | the first and the second student's rows both match the shared code, so the code lookup cannot tell them apart; in table order it finds the first student's row, and the second student can only log in as the first |
| Accounts.AddedStudentCanLogIn | api/api.student.go:151-193 | a new student whose code is not taken logs in with the generated password |
| Accounts.AddLecturer | api/api.lecturer.go:118-147 | one row keyed by the e-mail address with the hash, created by the caller; only a failing insert writes nothing |
| Accounts.AddedLecturerCanLogIn | api/api.lecturer.go:200-242 | a new lecturer whose address is not taken logs in with the generated password |
| IntakeApi.NewIntake | api/api.intake.go:92-101 | year, month, start and end date as given, trimester derived from the month |
| IntakeApi.Add | api/api.intake.go:84-110 | any month other than 4, 7 and 11 is 400 with the incorrect-month message before any write; the trimester is 1..3 and gives the month back; the creator is the generated id |
| IntakeApi.Update | api/api.intake.go:112-140 | the same month check before any write; the row's fields are replaced and the caller becomes the updater; a missing id is an error |
| IntakeApi.AddKeepsConsistent | api/api.intake.go:84-110 | adding keeps every stored intake in an intake month with that month's trimester |
| IntakeApi.UpdateKeepsConsistent | api/api.intake.go:112-140 | so does updating |
| IntakeApi.AddThenLookup | api/api.intake.go:84-110 | the intake lookup of the enrolment window finds the added intake with its start date |
| IntakeApi.UpdateThenLookup | api/api.intake.go:112-140 | after an update the lookup answers the new start date, and no other intake changes |
| ClassroomApi.RoomCode | api/api.classroom.go:69-73 | the code is the abbreviation, then the floor in decimal, then the room number padded to three characters; both numbers read back |
| Decimal.Pad3 | api/api.classroom.go:69-73 | `%03d` gives at least three characters |
| Decimal.Pad3RoundTrip | api/api.classroom.go:69-73 | the `%03d` rendering reads back as the same number |
| ClassroomApi.RoomCodeInjective | api/api.classroom.go:69-73 | within a faculty, rooms 0..999 give distinct codes |
| ClassroomApi.RoomCodeCollides | api/api.classroom.go:69-73 | room 1234 on floor 1 and room 234 on floor 11 share a code |
| ClassroomApi.Add | api/api.classroom.go:60-98 | a faculty-lookup failure writes nothing; otherwise the row stores floor, number, the computed code and the caller |
| ClassroomApi.AddedCodesDistinct | api/api.classroom.go:60-98 | two rooms of one faculty with numbers 0..999 get the same code only when floor and number agree |

## Left out

- SQL text, `database/sql` scanning, connection pools and the Redis commands. Each query is
  modelled only by its WHERE clause, its LIMIT/OFFSET window and its effect on the rows.
- ORDER BY. Every listing returns its matches in table order, and every `QueryRow` takes the
  first match in table order. Where the source sorts (for example `GetAllAttendance` by `class_id`,
  `GetAllResult` by session and name, `GetAllStudentEnrollByOneStudent` by day and time), a
  window that cuts the matches may hold different rows in the source than in the model.
  Where the source does not sort, the database's order is unspecified. The listing contracts
  (bound, matching rows, completeness of a window that takes every match) hold in any order.
- AttendanceModel.ByClassIsGetAllWithoutStudent: states equal rows only when the window takes
  every match, because the general listing sorts by `class_id` and the class listing does not.
- Accounts.ByLogin: picks the first matching row in table order. The login queries have no
  ORDER BY, so with duplicate logins the source promises only some matching row.
- Accounts.SecondStudentLogsInAsFirst: the claim that the login reaches the first student's
  row relies on that table order. The order-independent part is that both rows match the code.
- Every `created_at`/`updated_at` timestamp. None of them affects a modelled decision.
- SQL text formatted into a statement. A sort direction parses only when it is empty or ASC
  or DESC in any letter case, and a search text only when it holds no quote; anything else is
  taken to be a syntax error. Postgres also accepts some other texts (`asc nulls first`, a
  doubled quote, injected SQL), and what such a statement would return is not represented.
- AttendanceModel.GetAll: a direction Postgres parses beyond empty, ASC and DESC is modelled
  as a syntax error (see the line above).
- ResultModel.GetAll: the same for its direction and search text; `LOWER` and the `LIKE`
  comparison are modelled on ASCII letters only.
- EnrollModel.GetAllByOneStudent: the same for its direction.
- EnrollModel.GetAllByOneStudentAsWritten: the same for its direction.
- The nested `Response()` builders. Only their failure is modelled, as a fault argument on the
  handlers that check it.
- The check-then-act race between concurrent duplicate enrolments. A sequential model cannot
  express it.
- `AddDate(0, 0, -5)` is five days of 86400 seconds each. Calendar and time-zone effects are
  not modelled.
- `strings.ToLower` and SQL `LOWER` are modelled on ASCII letters only.
- JSON encoding of the session payload is abstracted as what it decodes to (`Payload` or
  `Undecodable`).
- gorilla/mux path matching is exact comparison of the route template strings.
- The `basicAuth` user lookup behind `BasicAuthMiddleware` is outside this model; its result
  is an argument.
- bcrypt hashing and comparison are parameters, and so are UUID generation, the clock and
  the random source.
- A failing `GenerateFromPassword` in a password change is folded into the given hash, because
  the source ignores that error.
- `util.GetAge` and `models.Age` use floating point.
- The plain list, detail, update and delete handlers of the other entities are not modelled,
  nor their model files beyond the columns the modelled handlers read.
- Student, lecturer and admin rows keep only the columns login needs. Name, address,
  e-mail of students, phone and the other columns are not modelled.
- ClassroomApi.Add: models/model.classroom.go defines no `Insert` method, although the
  handler calls `classroom.Insert`. The model takes it to store the struct it is given
  (faculty, floor, number, code, creator) under a fresh id, as the other `Insert` methods do.
- EnrollModel.Insert: the INSERT leaves `is_delete` to the column default, which is not part
  of the source. The model takes it to be false, as every live-row filter presumes, and
  EnrollModel.InsertThenGetOne relies on that.
- ResultModel.Insert: the same `is_delete` default is taken to be false.
- ClassApi.InsertClass: the same `is_delete` default is taken to be false.
- models/model.student.go defines no `PasswordUpdate` method, although the student handler
  calls one. The student password write is modelled like the lecturer's and admin's
  (models/model.lecturer.go:302-324).
- Accounts.AddStudent: the value of the `is_active` column default is not part of the source,
  so it is the parameter `activeDefault`. The student login lemmas assume the default makes
  new rows active.
- Accounts.AddStudent: requires a clock year of at least four characters. With a shorter
  year, `GetYearCode` slices out of range and panics, which the model does not represent.
- Accounts.PasswordUpdateAsWritten: bcrypt is a parameter, so its refusal of every password
  against an empty hash (`ErrHashTooShort`) enters the student clause as the hypothesis
  that `matches` rejects the current password against "".
- Accounts.PasswordChangeThenLogin: stated for the write a successful change performs
  (`SetPassword`), not through the handler itself.
- ClassApi.OneAttendancePerEnrollment: covers stores with at most 999 enrolments. Past that,
  the listing cap leaves rows out, which ClassApi.FanOutOnlyForRoster bounds.
- StudentEnrollApi.CascadeDeletesEveryResult: covers stores with at most 999 results, for
  the same reason.

## Findings

| source | as written | input that shows it | evidently intended | confidence | as-written member | corrected member |
|---|---|---|---|---|---|---|
| models/model.student.enroll.go:180-184 | `GetAllStudentEnrollByOneStudent` tests `StudentID` for nil but compares `student_id` with `filter.SessionID` | a student with one enrolment and a filter naming that student but no session: no rows come back | compare `student_id` with `filter.StudentID` | not executed | EnrollModel.GetAllByOneStudentAsWritten, EnrollModel.OneStudentQueryMissesOwnRows | EnrollModel.GetAllByOneStudent |
| api/api.student.go:196-211 | the current password is compared with the `Password` of the row `GetOneStudent` returns, but that query does not select `password`, so the hash is empty | any existing student, whose stored hash accepts the current password, with a confirmed new password: refused as "Current Password Is Incorrect!" | compare with the stored hash, as the lecturer and admin handlers do | not executed | Accounts.PasswordUpdateAsWritten, Accounts.StudentPasswordChangeRefused | Accounts.PasswordUpdate |
