# Worker roster: a Dafny model

This project models the worker and shift roster served by `app.js`, together
with the two tables `database.js` declares for it.

- A `workers` table holds an integer primary key and a `UNIQUE` name.
- A `shifts` table holds an integer primary key, `worker_id`, `shift_date`,
  `shift_start` and `shift_end`. It declares `UNIQUE(worker_id, shift_date)`
  and a foreign key to `workers`.

The model has six modules:

- `Outcomes` (outcomes.dfy): `Option`, `Result` and the error kinds.
  - `InvalidInput` answers 400.
  - `NotFound` answers 404.
  - `Conflict` answers 400 for a second shift on one day.
  - `StorageError` answers 500 when the storage engine refuses a statement.
- `JsText` (js_text.dfy): the JavaScript string operations the handlers use.
  - `trim`, with the ECMAScript white-space and line-terminator set.
  - `String(n)` of an integral number.
  - `padStart`.
- `ShiftRules` (shift_rules.dfy): the pure rules.
  - `[0, 8, 16].includes(shift_start)`, on a JSON request value.
  - `(shift_start + 8) % 24`.
  - The `YYYY-MM-DD` stamp built from `getFullYear`, `getMonth() + 1` and
    `getDate`.
- `Tables` (tables.dfy): both tables as maps keyed by primary key.
  - The constraints and the store invariant `Valid`.
  - How SQLite assigns a rowid: one more than the largest, or 1 in an empty
    table.
  - The order in which `SELECT` lists rows.
- `Handlers` (handlers.dfy): one function per route handler on a snapshot of
  the tables. Each returns the new tables and the answer. Lemmas there show
  that every handler keeps `Valid`.
- `Store` (store.dfy): class `Roster` with `workers` and `shifts` map fields.
  - Each SQL statement that writes a table is a method. It enforces the
    constraints the storage engine enforces.
  - The `SELECT` lookups read the two map fields directly: `Tables.ShiftOn`,
    `Tables.OtherShiftOn`, key membership and `Tables.ShiftViewsOf`.
  - Each route handler is a method that runs the lookups and the writing
    statements in the source's order. It is proved to leave exactly the tables, and give
    exactly the answer, of the matching `Handlers` function.
  - `ListWithWorkers` runs the per-worker query in a loop, as `workers.map`
    does.
- `RosterProperties` (properties.dfy): what the handlers promise across
  requests, stated through what the read handlers answer afterwards.

Points of the code the model follows closely:

- A duplicate worker name is refused by the storage engine, and the handler
  answers 500 (app.js:25-27). So the model gives `StorageError`.
- `PUT /workers/update/:id` makes no blank-name check. A missing `name` is
  stored as SQL `NULL`. So names are `Option<string>`, and `UNIQUE(name)`
  ignores `NULL`s as SQLite does.
- Updating an absent worker id touches no row. It succeeds even when the name
  is taken.
- The foreign key is declared, but SQLite does not enforce it:
  `PRAGMA foreign_keys` is never set. So the statement methods do not check
  it. `Valid` carries it instead, and every handler is proved to keep it.
- No query has an `ORDER BY`. For `SELECT * FROM <table>` the model fixes the
  listing order as ascending rowid, the order of a full table scan, which is
  insertion order here because rowids are assigned as one more than the
  largest. For the per-worker query the model fixes no order: every property
  of a worker's shift list is stated without one.

## Model

| member | source | states |
|---|---|---|
| JsText.Trim | app.js:18 | `name.trim()` neither starts nor ends with white space, and it is empty exactly when the name is all white space |
| JsText.TrimIsSlice | app.js:18 | `name.trim()` is the name with only white space cut off its two ends |
| JsText.Digits | app.js:65 | `String(n)` of a natural number is decimal digits with no leading zero |
| JsText.ParseDigitsOfDigits | app.js:65 | reading back the digits `String(n)` writes gives `n` again |
| JsText.DigitsInjective | app.js:65 | two different numbers never print alike |
| JsText.NumberToString | app.js:65 | `String(n)` is never empty and starts with `-` exactly when `n` is negative |
| JsText.NumberToStringReadsBack | app.js:65 | the digits `String(n)` writes read back as the magnitude of `n` |
| JsText.PadStart | app.js:65 | `padStart(width, fill)` keeps the string as the suffix and fills in front up to `width` |
| ShiftRules.StartHour | app.js:67-70 | `shift_start` is accepted exactly when it is the JSON number 0, 8 or 16; strings, fractions and every other value are refused |
| ShiftRules.ShiftEnd | app.js:72-73 | `(shift_start + 8) % 24` lies in 0..23, and maps 0 to 8, 8 to 16 and 16 to 0, so the end is an allowed hour too |
| ShiftRules.TwoDigits | app.js:65 | a two-character digit string that reads back as `n` |
| ShiftRules.FormatDate | app.js:64-65 | for a clock reading, the stamp is the year's digits, `-`, the month counted from one in two digits, `-`, the day in two digits |
| ShiftRules.FormatDateInjective | app.js:65 | distinct calendar days get distinct stamps |
| ShiftRules.StampInjective | app.js:65 | the year, month and day can be read back from a stamp |
| Tables.UniqueNames | database.js:18 | `UNIQUE(name)`: no two workers hold the same non-NULL name |
| Tables.OneShiftPerDay | database.js:30 | `UNIQUE(worker_id, shift_date)`: no two shifts of one worker share a date |
| Tables.WellTimed | app.js:67-73 | a shift starts at 0, 8 or 16 and ends eight hours later, modulo 24 |
| Tables.Valid | database.js:15-33 | the store invariant: both uniqueness constraints, well-timed shifts, and the foreign key that SQLite leaves unchecked |
| Tables.ShiftOn | app.js:85 | `SELECT * FROM shifts WHERE worker_id = ? AND shift_date = ?` finds a row exactly when some shift of that worker has that date |
| Tables.OtherShiftOn | app.js:184 | the same lookup with `AND id != ?`: it finds a row exactly when a shift other than the one being changed belongs to that worker and has that date |
| Tables.NextRowId | database.js:17 | the rowid an insert gets is unused and above every rowid in use, and is 1 in an empty table (ids are unbounded; see "Left out") |
| Tables.AllRows | app.js:49 | `SELECT * FROM workers` lists rows of the table, each with its own columns, in strictly increasing id order, so no id twice |
| Tables.AllRowsCovers | app.js:207 | `SELECT * FROM shifts` (and of workers) misses no row |
| Tables.AllRowsAppend | app.js:94 | a row inserted under the next rowid is listed last |
| Tables.ShiftViewsOf | app.js:144 | the per-worker query lists as many entries as the worker has shifts, in an order no property depends on |
| Tables.ShiftViewsOnlyOwn | app.js:144 | every entry it lists is the date, start and end of a shift of that worker |
| Tables.ShiftViewsCover | app.js:114 | every shift of the worker appears in the list |
| Tables.ShiftViewsAfterInsert | app.js:94 | inserting a shift of `w` adds exactly its view to the multiset of `w`'s entries and leaves every other worker's list as it was |
| Handlers.BlankName | app.js:18 | a name is blank exactly when it is missing or all white space |
| Handlers.EffectiveDate | app.js:181 | the date is the one sent when it is non-empty, and the stored one when it is missing or empty |
| Handlers.CreateWorker | app.js:14-31 | a refused creation leaves both tables unchanged |
| Handlers.UpdateWorker | app.js:34-44 | a refused rename leaves both tables unchanged |
| Handlers.AddShift | app.js:59-102 | a refused shift leaves both tables unchanged |
| Handlers.UpdateShift | app.js:158-203 | a refused change leaves both tables unchanged |
| Handlers.DeleteShift | app.js:216-225 | deleting a shift always succeeds |
| Handlers.ShiftsNotOf | app.js:231 | the shifts left are exactly those of other workers, unchanged |
| Handlers.DeleteWorker | app.js:227-244 | deleting a worker always succeeds |
| Handlers.GetByWorker | app.js:133-151 | found exactly when the worker exists, else `NotFound`; the answer carries the worker's name |
| Handlers.EntriesFor | app.js:112-123 | `workers.map` gives one entry per listed row, entry `i` built from row `i` |
| Handlers.ListWithWorkers | app.js:106-129 | `GET /shiftsWithWorkers` answers one entry per worker |
| Handlers.CreateWorkerKeepsValid | database.js:18 | creating a worker keeps unique names, one shift per worker and day, well-timed shifts and the foreign key |
| Handlers.UpdateWorkerKeepsValid | database.js:18 | renaming keeps the store invariant |
| Handlers.AddShiftKeepsValid | app.js:76-99 | adding a shift keeps the store invariant; the worker check keeps the foreign key |
| Handlers.UpdateShiftKeepsValid | app.js:172-200 | changing a shift keeps the store invariant; `worker_id` is never rewritten |
| Handlers.DeleteShiftKeepsValid | app.js:219 | deleting a shift keeps the store invariant |
| Handlers.DeleteWorkerKeepsValid | app.js:231-237 | deleting the shifts before the worker keeps the foreign key |
| Store.Roster.constructor | database.js:15-33 | on a new database file both tables start empty, and the store invariant holds |
| Store.Roster.InsertWorker | database.js:18 | the insert fails with `StorageError` and changes nothing when the name is taken; otherwise it adds the row under the next rowid and reports that id |
| Store.Roster.SetWorkerName | app.js:38 | the update touches no row for an absent id, fails when another worker holds the name, and otherwise sets only that row's name |
| Store.Roster.InsertShift | database.js:30 | the insert fails when the worker already has a shift on that date; otherwise it adds the row under the next rowid, with no foreign-key check |
| Store.Roster.SetShiftTimes | app.js:194-195 | the update touches no row for an absent id, fails when another shift of the same worker has the date, and otherwise rewrites date, start and end and keeps `worker_id` |
| Store.Roster.DeleteShiftRow | app.js:219 | removes the row with that id, if any |
| Store.Roster.DeleteShiftsOf | app.js:231 | removes exactly the rows of that worker |
| Store.Roster.DeleteWorkerRow | app.js:237 | removes the worker row and nothing else |
| Store.Roster.CreateWorker | app.js:14-31 | keeps the store invariant; its tables and answer are those of `Handlers.CreateWorker` |
| Store.Roster.UpdateWorker | app.js:34-44 | keeps the store invariant; its tables and answer are those of `Handlers.UpdateWorker` |
| Store.Roster.AddShift | app.js:59-102 | stamps the clock reading, then behaves as `Handlers.AddShift` on that stamp, keeping the store invariant |
| Store.Roster.AddShiftOn | app.js:67-101 | checks the start, the worker and the day in that order and inserts; tables and answer as `Handlers.AddShift` |
| Store.Roster.UpdateShift | app.js:158-203 | keeps the store invariant; its tables and answer are those of `Handlers.UpdateShift` |
| Store.Roster.DeleteShift | app.js:216-225 | keeps the store invariant; its tables and answer are those of `Handlers.DeleteShift` |
| Store.Roster.DeleteWorker | app.js:227-244 | deletes the shifts, then the worker; the invariant holds after each statement, and the result is that of `Handlers.DeleteWorker` |
| Store.Roster.ListWorkers | app.js:48-55 | answers every worker row once, with its name, in increasing id order |
| Store.Roster.ListShifts | app.js:206-213 | answers every shift row once, with its columns, in increasing id order |
| Store.Roster.GetByWorker | app.js:133-151 | `NotFound` exactly when the worker is absent; otherwise its name and one entry per shift it owns, as `Handlers.GetByWorker` |
| Store.Roster.ListWithWorkers | app.js:106-129 | the loop over the listed workers collects, for each, its name and its shifts: the answer is `Handlers.ListWithWorkers` |
| RosterProperties.BlankNameRefused | app.js:17-20 | creation is refused with `InvalidInput` exactly when the name is missing or all white space, and then nothing changes |
| RosterProperties.CreateWorkerAdds | app.js:23-29 | a free name adds exactly one worker under a fresh id it answers with; that worker reads back with its name and no shifts, and every other worker reads back as before |
| RosterProperties.AddedWorkerReadsBack | app.js:136-148 | a worker added under an id not in use reads back with no shifts, and the others as before |
| RosterProperties.NoShiftsOfAbsentWorker | database.js:31 | in a valid store an id that is not a worker owns no shift |
| RosterProperties.CreateWorkerTakenName | database.js:18 | a name some worker holds makes creation fail with `StorageError`, with nothing changed |
| RosterProperties.CreateSameNameTwice | app.js:24-27 | creating a second worker with the same name fails |
| RosterProperties.UpdateWorkerOutcomes | app.js:38-42 | renaming an absent id succeeds with nothing changed; a name held by another worker fails with nothing changed; otherwise the worker reads back with the new name, blank or missing included, and its shifts, and the others as before |
| RosterProperties.InvalidStartWins | app.js:161-164 | any start other than the numbers 0, 8, 16 is refused with `InvalidInput` before any lookup, by both shift handlers |
| RosterProperties.AddShiftOutcomes | app.js:63-99 | absent worker: `NotFound`; a shift already that day: `Conflict`; otherwise exactly one shift is added under a fresh id, dated that day and ending eight hours after its start; the worker's answer gains exactly that shift, and no other worker's answer changes |
| RosterProperties.SecondShiftSameDayConflicts | app.js:85-91 | after one shift is added, a second on the same day conflicts whatever its valid start |
| RosterProperties.UpdateShiftOutcomes | app.js:172-199 | absent id: `NotFound`; the effective date is the one sent when non-empty, else the stored one; `Conflict` only from another shift of the same worker on that date; otherwise the shift keeps id and worker and takes the new date, start and end |
| RosterProperties.UpdateShiftOwnDate | app.js:184 | in a valid store, re-sending a shift's own date, or no date, succeeds, and with no date the stored date stays |
| RosterProperties.DeleteWorkerRemoves | app.js:227-244 | the worker and exactly its shifts go; it is no longer found, every other worker reads back as before, and deleting it again changes nothing |
| RosterProperties.DeleteAbsentWorker | app.js:231-237 | in a valid store deleting an absent worker succeeds and changes nothing |
| RosterProperties.DeleteShiftRemoves | app.js:219 | at most the row with that id goes, every other row stays as it was, and deleting again or deleting an absent id changes nothing |
| RosterProperties.GetByWorkerListsEveryShift | app.js:144-148 | every shift of the worker appears in its answer |
| RosterProperties.ListedDatesDistinct | database.js:30 | in a valid store the shifts listed for one worker fall on distinct dates |
| RosterProperties.ListWithWorkersMatchesGetByWorker | app.js:112-126 | one entry per worker, in the order `GET /workers` lists them, each what `GET /shifts/:idWorker` answers for that worker |
| RosterProperties.FirstWorkerFirstShift | app.js:14-99 | on a fresh database, creating a worker answers id 1, and adding a shift at 8 makes it read back with that name and the one shift from 8 to 16 on that day |

## Left out

- The HTTP layer is not modelled: Express routing, body parsing, `app.listen`, response texts and exact status codes. Each answer is reduced to an `Outcomes.Error` kind or a value.
- The sqlite3 connection, `closeDB` and logging are not modelled. Tables are maps. Each statement that writes a table is one method that runs atomically. The lookups read the tables directly.
- The clock is not modelled: `new Date()` becomes a `LocalDate` parameter of `Store.Roster.AddShift`, and only the formatting is modelled.
- Requests run one at a time: the asynchronous callbacks are flattened, and the `Promise.all` fan-out of `GET /shiftsWithWorkers` becomes a loop. Check-then-insert races between concurrent requests are out of scope.
- Route ids are taken as integers: `parseInt` and SQLite's type affinity for string ids are not modelled.
- Request values that `trim`, `||` or the SQL binding would treat in other ways are not modelled. A `name` is a string or missing, and `shift_date` is a string or missing. A non-string name that makes `.trim()` throw is one such case.
- Storage failures other than the uniqueness constraints are not modelled: I/O errors, a locked database, a full disk.
- The pure `Handlers.AddShift` takes the date stamp as a parameter. `Store.Roster.AddShift` computes it from the clock reading.
- The listing order of `SELECT * FROM <table>` without `ORDER BY` is fixed as ascending id; SQLite does not promise it.
- The order of the per-worker query `SELECT ... FROM shifts WHERE worker_id = ?` is not modelled. SQLite may answer it through the index behind `UNIQUE(worker_id, shift_date)`, in date order. `Tables.ShiftViewsOf` lists rowid order only to be a function, and every property of a worker's list is stated without an order: counts, membership, distinct dates, and the multiset after an insert.
- The database file is persistent: `CREATE TABLE IF NOT EXISTS` keeps the rows of earlier runs. The model starts from a new file, with empty tables. Rows already in an old file are not modelled, and the store invariant is not established for them: SQLite checks neither the foreign key nor the shift hours.
- Row ids are unbounded integers. SQLite rowids are 64-bit, and once the largest rowid is 9223372036854775807 SQLite stops using one more than the largest. `Tables.NextRowId` does not model that case.
