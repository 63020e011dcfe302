# Persistence facade of a small learning platform, modelled in Dafny

The platform keeps three tables behind one facade, `src/lib/store.ts`:

- `users`: accounts with a unique username, a stored password hash and a role
  (teacher or student);
- `student_progress`: one record per (student, unit, round) with the score,
  the ordered list of attempts, a completion flag and a timestamp, written by
  an insert-or-update on that key;
- `offline_scores`: an append-only ledger of grades 2 to 5 that teachers give
  in offline tests, each row with a server-assigned id and date, read back
  newest first.

Each SQL statement the facade sends is modelled as one atomic step on
in-memory tables. A table is a sequence of rows in storage order, so the
unique constraints (one progress row per key, unique usernames, unique ids)
are invariants that every write is proved to preserve (`Facade.Store.Valid`).
Whether the database runs a statement or fails is the `db: Connection`
parameter of every operation: reads turn a failure into an absent or empty
result, writes report it and leave every table unchanged.

Files:

- `results.dfy` (`Results`): `Option`, `Result`, `Outcome`, the storage error
  kinds and `Connection`.
- `types.dfy` (`Types`): the records of `src/lib/types.ts`, and `NullIfEmpty`
  for JavaScript's `s || null`.
- `rows.dfy` (`Rows`): the meaning of `WHERE` filters, of `rows[0]` and of
  `rows.map`.
- `progress.dfy` (`ProgressTable`), `scores.dfy` (`ScoreLedger`),
  `users.dfy` (`UserTable`): each table's rows, lookups and write steps, with
  lemmas about them.
- `store.dfy` (`Facade`): class `Store` holding the three tables. Writes are
  methods with `modifies this`. Reads are functions over the tables.

Two behaviours one might expect of such a store are absent from the code,
and the model follows the code:

- A progress score is a percentage, but nothing in the store bounds it to
  0..100. The model stores any integer.
- `getUserByUsernameForAuth` returns null both for an unknown username and
  for a failed query, so callers cannot tell the two apart. The model does
  the same.

## Model

| member | source | states |
|---|---|---|
| Types.NullIfEmpty | src/lib/store.ts:236 | the `or null` defaults for notes and email: absent and empty strings both become null, and any other value is kept |
| Rows.Where | src/lib/store.ts:137-140 | a WHERE filter keeps every row satisfying the condition as often as it is stored, and no other row |
| Rows.Project | src/lib/store.ts:142-150 | `rows.map` yields one projected record per row, in the same order |
| Rows.FirstWhere | src/lib/store.ts:12-16 | `rows[0]` of a filtered query is a stored row satisfying the condition, and it is absent exactly when no row does |
| ProgressTable.Lookup | src/lib/store.ts:102-108 | the key lookup returns a stored row carrying that key, and returns absent exactly when no row has the key |
| ProgressTable.RowsOfStudent | src/lib/store.ts:137-140 | the per-student query returns every stored row with that studentId as often as it is stored, and no other row |
| ProgressTable.Upsert | src/lib/store.ts:165-173 | the insert-or-update stores the new record, adds at most one row, and every row of the result is either the record or a row that was already stored |
| ProgressTable.FindAfterUpsert | src/lib/store.ts:165-168 | an upsert leaves its key at the position where it was found, or appends it at the end |
| ProgressTable.SaveThenGet | src/lib/store.ts:165-173 | after saving a record, reading its (studentId, unitId, roundId) returns exactly that record, every field included |
| ProgressTable.SaveKeepsOtherKeys | src/lib/store.ts:166-173 | a save changes only its own key: every other key reads back as before, present or absent |
| ProgressTable.UpsertKeepsKeysUnique | src/lib/store.ts:168 | the unique (student_id, unit_id, round_id) constraint holds after every save |
| ProgressTable.UpsertSize | src/lib/store.ts:165-169 | a save adds a row exactly when its key was absent, and otherwise keeps the row count |
| ProgressTable.LastWriteWins | src/lib/store.ts:169-173 | two saves to one key leave exactly the second record: score, attempts, completed and timestamp are replaced wholesale, never merged |
| ProgressTable.UpsertIdempotent | src/lib/store.ts:165-173 | saving the same record twice is the same as saving it once |
| ScoreLedger.Insert | src/lib/store.ts:191 | placing a row into a newest-first list keeps it newest first and adds exactly that row |
| ScoreLedger.NewestFirst | src/lib/store.ts:213 | `ORDER BY date DESC` returns a permutation of the rows in which every row is at least as recent as the rows after it |
| ScoreLedger.AppendKeepsWellFormed | src/lib/store.ts:234-237 | a row appended with the next id keeps ledger ids unique |
| ScoreLedger.NewRow | src/lib/store.ts:235-236 | the inserted row carries the given student, teacher and score, the server's id and date, and notes that are null exactly when the given note is absent or empty, and otherwise the given note |
| ScoreLedger.NewestIsLastAdded | src/lib/store.ts:232-237 | when every addition got a later date, any newest-first listing starts with the row added last |
| ScoreLedger.IncreasingDatesListLatestFirst | src/lib/store.ts:211-213 | when every addition got a later date than the one before, every listing `ORDER BY date DESC` may return is the order of addition reversed |
| UserTable.ByUsername | src/lib/store.ts:9-16 | the username query returns a stored row whose username equals the argument exactly, and returns null exactly when none does |
| UserTable.ById | src/lib/store.ts:62-64 | the id query returns a stored row with that id, and returns undefined exactly when none has it |
| UserTable.Students | src/lib/store.ts:81 | `WHERE role = 'student'` keeps every student row as often as it is stored, and no other row |
| UserTable.PublicView | src/lib/store.ts:65-71 | the public record of a row keeps the id and username that find the row again, the role that makes it a student, and the stored name and email |
| UserTable.InsertedView | src/lib/store.ts:48-51 | the record `RETURNING` gives back keeps the row's id, username, hash, role, name and email, and includes its creation time |
| UserTable.AuthView | src/lib/store.ts:17-25 | the record built for authentication equals the inserted record except that created_at is undefined, because the SELECT does not name that column |
| UserTable.StudentViews | src/lib/store.ts:82-88 | the student listing has exactly one public record per student row, in the same order |
| UserTable.StudentViewsCoverStudents | src/lib/store.ts:81-88 | the student listing holds the public record of every student and of no user of another role |
| UserTable.ByUsernameFindsTheRow | src/lib/store.ts:9-16 | with unique usernames, looking up a stored user's username finds that very user |
| UserTable.ByIdFindsTheRow | src/lib/store.ts:62-64 | with unique ids, looking up a stored user's id finds that very user |
| UserTable.AppendKeepsWellFormed | src/lib/store.ts:45-49 | inserting a user with a fresh id and an unused username keeps ids and usernames unique |
| Facade.Store.GetUserByUsernameForAuth | src/lib/store.ts:7-31 | returns the user whose username equals the argument exactly, with its hash and no created_at; returns null when none matches or the query fails |
| Facade.Store.FindUserById | src/lib/store.ts:60-76 | returns the public view of the user with that id; returns undefined when none has it or the query fails |
| Facade.Store.GetAllStudents | src/lib/store.ts:79-93 | returns one public view per student row and no view of any other user; returns [] when the query fails |
| Facade.Store.CreateUserInDb | src/lib/store.ts:34-57 | appends one user with the next id, the given fields, email defaulted to null when empty and the creation time, and returns it, after which the username lookup finds that user; a taken username is a rethrown constraint violation, and a failure changes nothing |
| Facade.Store.GetStudentRoundProgress | src/lib/store.ts:98-122 | returns the stored record with that key; returns undefined when there is none or the query fails |
| Facade.Store.GetAllStudentProgress | src/lib/store.ts:124-155 | the empty id returns every record; any other id returns each of that student's records as often as it is stored, and no other record; returns [] when the query fails |
| Facade.Store.SaveStudentRoundProgress | src/lib/store.ts:158-179 | the new table is the upsert of the old one: the key reads back as the record, other keys are unchanged and keys stay unique; a failure is rethrown and changes nothing |
| Facade.Store.GetOfflineScoresForStudent | src/lib/store.ts:185-205 | returns exactly that student's rows, each once, newest first; returns [] when the query fails |
| Facade.Store.GetAllOfflineScores | src/lib/store.ts:207-227 | returns every row exactly once, newest first; returns [] when the query fails |
| Facade.Store.AddOfflineScore | src/lib/store.ts:229-252 | appends exactly one row with the given studentId, teacherId, score and notes defaulted to null when empty, a fresh id and the current date, and returns it, after which the row appears in that student's listing; earlier rows are untouched and a failure is rethrown and changes nothing |

## Left out

- The `@vercel/postgres` client and the SQL text: each statement is one atomic step on the tables, and the client's success or failure is the `db` parameter.
- Concurrent writers: `ON CONFLICT` leaves atomicity to the database; the model is sequential.
- `JSON.stringify` of attempts and their JSONB round trip: attempts are stored as the sequence itself.
- Date handling: `new Date(...).getTime()` normalisation of a timestamp given as a string, and `toISOString()` of the current date. Timestamps and dates are integers, and the current time is the `now` parameter.
- Ids are modelled as a counter that yields a fresh id for every insert. The source's string ids and the database's id generator are not modelled.
- FindUserById: takes an id of the model's type. The source accepts any string, and for a string that is not a valid id it returns undefined; the model cannot express that input.
- bcrypt hashing in `createUserInDb`: a foreign library with random salts. The method receives the hash, and a failure of the hash itself is not modelled.
- `console.warn` and `console.error` logging, and the no-op `resetStore`.
- Ordering of rows with equal dates: `ORDER BY date DESC` leaves it open, and `ScoreLedger.NewestFirst` fixes one order.
- Ordering of unsorted queries (`getAllStudentProgress`, `getAllStudents`): the model returns storage order, which the database does not promise.
- Casts such as `row.role as 'teacher' | 'student'` and `row.score as 2 | 3 | 4 | 5` are not checks. The writers' declared parameter types admit only these values; nothing checks them at run time, and rows holding other values are not modelled.
- Credential verification, session tokens, the login form and the browser-side context: src/components/auth/LoginForm.tsx, src/context/AuthContext.tsx and the authentication route are not part of this model.
