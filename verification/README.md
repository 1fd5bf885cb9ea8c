# Student Course Advisor: the request handlers and their tables

This project models the back end of the Student Course Advisor: the Express handlers in
`server.js` and the SQLite schema that `backend/database/setup.js` creates. The system
keeps three tables. `users` holds student accounts and a seeded advisor account.
`student_profiles` holds one profile per student: academic data plus the recommendation
that a Prolog rule engine produced. `advisor_feedback` is an append-only log of advisor
comments.

The model is an in-memory `Database` class (module `Server`). It has one `seq` field per
table, one AUTOINCREMENT sequence value per table, and an abstract clock `now` that stands
in for `CURRENT_TIMESTAMP`. Each handler is a method on it:

- `Signup` and `Login` (`/api/signup`, `/api/login`);
- `Recommend` (`/api/recommend`): the fallback choice, then the check-then-write upsert;
- `ListStudents` (`/api/students`);
- `GetFeedback` and `SaveFeedback` (`GET /api/feedback/:username`, `POST /api/feedback`).

The table-level writes `InsertUser`, `InsertOrIgnoreUser`, `InsertProfile`, `UpdateProfiles`
and `InsertFeedback` enforce what `setup.js` declares: the UNIQUE username, the 'student'
role default, the NOT NULL columns and AUTOINCREMENT ids. The constructor is `setup.js` run
on a new file. `Setup` is `setup.js` run again on an existing database.

Each table's AUTOINCREMENT sequence (`userSeq`, `profileSeq`, `feedbackSeq`) stands for its
`sqlite_sequence` entry. A plain INSERT that fails a constraint is rolled back together with
its sequence update, so it leaves no gap. The advisor seed's INSERT OR IGNORE is different.
SQLite allocates the new rowid before it checks UNIQUE, and an ignored row does not roll the
statement back. So every rerun of `setup.js` advances the users sequence by one, and the
next signup after it skips an id. The model follows this reading of SQLite's insert code.

Module `Schema` holds the row types, the table constraints and the queries as pure
functions. The upsert is `Upserted`, the LEFT JOIN listing is `Roster`, and the
latest-by-date lookup is `IsLatestFeedback`. The lemmas about these functions carry the
properties. Module `Text` models JavaScript's `String.prototype.trim`, which the server
applies to the rule engine's output.

Request fields that may be missing from the JSON body are `Option` values. A missing value
is bound as SQL NULL. `username = NULL` matches no row, and a NULL in a NOT NULL column
makes the statement fail. The rule engine (`backend/prolog/advisor.pl`) is not part of
this model. It is a parameter `engine: Goal -> string` of `Recommend`. A `Goal` carries
what the server interpolates into the Prolog goal: stream, interest and `gpa || 0`.

## Model

| member | source | states |
|---|---|---|
| `Text.TrimShape` | server.js:97 | the result of `trim` has no white space at either end, and it is empty exactly when the input is all JavaScript white space or line terminators |
| `Text.TrimIsInfix` | server.js:97 | `trim` returns a contiguous part of its input and cuts off only white space |
| `Text.TrimIdempotent` | server.js:97 | trimming twice is the same as trimming once |
| `Text.TrimIgnoresPadding` | server.js:88-97 | white space around the engine's output, such as a trailing newline, does not change the trimmed text |
| `Server.ChooseRecommendation` | server.js:97 | the recommendation is never empty; it is the trimmed engine output when that is non-empty, and exactly "General Studies / Design & Multimedia" otherwise |
| `Server.ChooseIgnoresPadding` | server.js:96-97 | white space around the engine's output does not change the recommendation |
| `Schema.UserIdOf` | server.js:70 | the lookup by username finds nothing exactly when the name is NULL or no row has it; otherwise it returns the id of a row with that name |
| `Schema.UserIdOfUnique` | backend/database/setup.js:23 | under unique usernames the lookup returns the id of the one row with that name |
| `Server.Database.FindUserId` | server.js:70 | the scan of `users` returns what `UserIdOf` specifies |
| `Server.Database.HasProfileRow` | server.js:100-102 | the scan of `student_profiles` finds a row exactly when the user has a profile row |
| `Server.Database.constructor` | backend/database/setup.js:17-71 | a new database holds empty profile and feedback tables and exactly one user: the advisor, with id 1 |
| `Server.Database.Setup` | backend/database/setup.js:20-67 | rerunning setup removes and alters nothing; it adds the advisor row only when no row has the username 'advisor', and an existing 'advisor' row keeps its password and role; the users sequence advances by one either way; afterwards an 'advisor' row exists |
| `Server.Database.InsertOrIgnoreUser` | backend/database/setup.js:64-67 | the row is added, with the next id, exactly when no row has its username; otherwise the users table is unchanged; the sequence advances by one in both cases |
| `Server.SetupTwice` | backend/database/setup.js:64-67 | two runs of setup leave the users table exactly as one run does: unchanged when 'advisor' existed, otherwise with the one seeded row; the users sequence advances by two; the other tables, their sequences and the clock are unchanged |
| `Server.Database.InsertUser` | backend/database/setup.js:20-28 | a NULL username or password is a NOT NULL failure; a duplicate username is a UNIQUE failure; either failure changes nothing; otherwise one row is appended with the next id, which exceeds every earlier id, and with role 'student' when none is given |
| `Server.Database.InsertProfile` | backend/database/setup.js:31-49 | a NULL user_id, stream or interest rejects the row and changes nothing; otherwise one row is appended with the next id and with both timestamps `now` |
| `Server.Database.UpdateProfiles` | server.js:104-113 | a NULL stream or interest changes no row, and the statement fails exactly when the user has a row; otherwise every row of the user gets the submitted columns and `updated_at = now`, and no other row changes |
| `Server.Database.InsertFeedback` | backend/database/setup.js:52-61 | a NULL advisor_username rejects the row; otherwise exactly one row is appended with the next id and date `now` |
| `Server.Database.Signup` | server.js:32-47 | the role is always 'student'; a NULL username or password fails with 'Signup failed'; a taken username fails with 'Username already exists'; a failure leaves every table unchanged; success returns the new row's id |
| `Server.Database.Login` | server.js:50-63 | succeeds exactly when some row matches username, password and role; the reply carries that row's id, username and role and has no password field; otherwise 'Invalid credentials' |
| `Server.Database.Recommend` | server.js:66-132 | an unknown username fails with 'User not found' and changes nothing; otherwise the reply is the recommendation chosen from the engine's answer to the stream, the interest and the gpa (0 when missing); the profiles become `Upserted` of the old ones with the raw gpa, or stay as they were when stream or interest is NULL; users and feedback do not change; one profile per user is preserved |
| `Server.UpsertStoresRequest` | server.js:99-123 | the profile write fails exactly when stream or interest is missing; otherwise the user is left with exactly one profile row, holding the stream, interest, first three subjects and results (NULL for a missing slot), the gpa as sent and the recommendation |
| `Schema.UpsertOnlyTouchesUser` | server.js:100-123 | the upsert leaves the profile rows of every other user exactly as they were |
| `Schema.UpsertLeavesOneRow` | server.js:100-123 | with at most one row for the user before, exactly one row holds the submitted columns after; an update keeps the row's id and `created_at` and sets `updated_at = now`; an insert has the new id and `now` for both times |
| `Schema.UpsertKeepsOnePerUser` | server.js:100-123 | the check-then-write keeps at most one profile row per user |
| `Schema.RowsOfUpdateWhere` | server.js:104-113 | after the UPDATE, the rows of any user are that user's rows before it, updated; a user other than the target keeps them unchanged |
| `Schema.RowsOfEmpty` | server.js:100-102 | the filter on `user_id` is empty exactly when the user has no profile row |
| `Schema.RowsOfAtMostOne` | server.js:100-123 | under one profile per user, a user has at most one profile row |
| `Schema.ProfileTableAllowsTwoRowsPerUser` | backend/database/setup.js:34 | the schema allows two profile rows for one user, so only the handler's check-then-write keeps profiles unique |
| `Schema.UpdateKeepsTable` | backend/database/setup.js:31-49 | an in-place update keeps the profile table's id and timestamp constraints |
| `Server.Database.ListStudents` | server.js:135-150 | the scan returns exactly the `Roster` LEFT JOIN of users and profiles, filtered on role 'student' |
| `Schema.RosterOnlyStudents` | server.js:136-141 | every listed entry has the username of a user whose role is 'student' |
| `Schema.RosterExcludesOtherRoles` | server.js:140 | with unique usernames, no entry carries the username of a non-student account such as the advisor |
| `Schema.RosterListsEveryStudent` | server.js:136-141 | every student is listed with all of their joined entries; a student without a profile is listed with NULL stream, interest, recommendation and gpa |
| `Schema.RosterSize` | server.js:136-141 | when every student has at most one profile row, the listing has exactly one entry per student |
| `Server.Database.GetFeedback` | server.js:153-172 | the reply is the text of a row for that username with the greatest date, or '' when there is none |
| `Schema.WrittenForById` | server.js:156-160 | under unique usernames the join on username selects exactly the rows whose `student_id` is that user's id |
| `Schema.LatestOfStudent` | server.js:156-163 | the latest row by `student_id` answers the join query |
| `Schema.LatestAfterLaterAppend` | server.js:161-162 | after a row for the user is appended later than every earlier row for them, its text is the only valid reply |
| `Schema.LatestIgnoresOtherStudents` | server.js:156-162 | appending feedback for someone else does not change the valid replies for a user |
| `Server.Database.SaveFeedback` | server.js:175-193 | an unknown student fails with 'Student not found' and inserts nothing; a NULL advisor name fails with 'Error saving feedback' and inserts nothing; otherwise exactly one row is appended for that user's id |

## Notes on the code

- Stream and interest are not checked against any list of values. A NULL stream or
  interest makes the profile write fail; any string is stored.
- The choice among courses is made by `backend/prolog/advisor.pl`, which is not part of
  this model. The engine's answer is an opaque string.
- `updated_at` is `CURRENT_TIMESTAMP`, which has one-second resolution, so two upserts can
  share a timestamp. The model stamps writes with `now`, which only `Elapse` advances.
- /api/recommend replies with success and the recommendation before the profile write
  runs, so a failed write is never reported to the client. `Recommend` models the reply
  and the tables. What happens to the server process after a failed write is listed under
  "Left out".
- Saving feedback looks the target up among all users, advisors included, not only
  students.

## Left out

- Express routing, CORS, body parsing, static files, `app.listen` and logging: plumbing.
- The `swipl` child process, its output and error streams and the textual Prolog goal.
  Only the goal's values (`Goal`) and the engine's final output are modelled. The exit
  code and stderr are ignored, as in the code.
- Database error callbacks (`err` in each handler: 'Login error', 'Error fetching
  students', the feedback reader's `success: false`, a 'Signup failed' that is not a
  NOT NULL violation). Storage failure is not modelled; only constraint violations are.
- Concurrency: SQLite callback ordering and the lost-update race between two overlapping
  recommend requests for one user. Each handler is modelled as one atomic step.
- Server.Database.Recommend: a failed profile write is not modelled past its effect on the
  tables. The UPDATE and INSERT (server.js:111, server.js:121) are run without a callback.
  node-sqlite3 then raises the NOT NULL error as an `'error'` event that nothing listens
  for, which would end the server process after the success reply has been sent. The
  model keeps the database and carries on.
- A request without a `subjects` or `results` array. The code then throws inside the write
  callback after it has replied. Shorter arrays are modelled: a missing slot binds NULL.
- JSON values other than strings for the text fields. GPA is a `real` that is carried,
  never computed with. NaN and other falsy values of `gpa || 0` besides a missing
  gpa are not modelled.
- Real timestamps: the clock is an abstract natural number.
- Foreign keys: SQLite does not enforce them by default.
- Listing order: SQLite does not promise an order without ORDER BY. `Roster` fixes the
  nested-scan order (users, then their profile rows).
- The constant success messages ('Signup successful', 'Login successful', 'Feedback
  saved'). Success is `Success(...)` or `Pass`.
- Plaintext password storage as a security concern.
