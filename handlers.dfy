/** One function per route handler: the answer it gives and the tables it
    leaves behind, stated on a snapshot of both tables. The `Roster` class
    in module `Store` carries out the same handlers statement by statement
    and is proved to agree with these functions. */
module Handlers {
  import opened Outcomes
  import opened JsText
  import opened ShiftRules
  import opened Tables

  /** The tables after a request, and its answer. */
  datatype Step<T> = Step(next: Db, result: Result<T>)

  /** `{ name, shifts }` as the worker read handlers send it. */
  datatype WorkerShifts = WorkerShifts(name: Name, shifts: seq<ShiftView>)

  /** `!name || name.trim().length === 0` for a name sent as a string or
      left out of the body. */
  function BlankName(name: Option<string>): (blank: bool)
    ensures blank <==> name.None? || AllWhiteSpace(name.value)
  {
    name.None? || |Trim(name.value)| == 0
  }

  /** `shift_date || shift.shift_date`: the date sent in the body unless it is
      missing or empty, in which case the shift keeps its stored date. */
  function EffectiveDate(supplied: Option<string>, current: string): (d: string)
    ensures supplied.None? || supplied == Some("") ==> d == current
    ensures supplied.Some? && supplied.value != "" ==> d == supplied.value
  {
    if supplied.Some? && supplied.value != "" then supplied.value else current
  }

  /** POST /workers/create: a blank name is refused; otherwise the row is
      inserted, which the storage engine refuses when the name is taken. */
  function CreateWorker(db: Db, name: Option<string>): (s: Step<int>)
    ensures s.result.Err? ==> s.next == db
  {
    if BlankName(name) then Step(db, Err(InvalidInput))
    else if NameInUse(db.workers, name.value) then Step(db, Err(StorageError))
    else
      var id := NextRowId(db.workers.Keys);
      Step(db.(workers := db.workers[id := name]), Ok(id))
  }

  /** PUT /workers/update/:id: `UPDATE workers SET name = ? WHERE id = ?`.
      No name check is made; an absent id touches no row and succeeds, and a
      name another worker holds is refused by the storage engine. */
  function UpdateWorker(db: Db, id: int, name: Name): (s: Step<()>)
    ensures s.result.Err? ==> s.next == db
  {
    if id !in db.workers then Step(db, Ok(()))
    else if name.Some? && NameHeldByOther(db.workers, id, name.value) then Step(db, Err(StorageError))
    else Step(db.(workers := db.workers[id := name]), Ok(()))
  }

  /** POST /shifts/add/:idWorker, given the stamp `date` of the day the
      request arrives: the start is checked first, then that the worker
      exists, then that it has no shift on that date; the new shift takes
      the date and ends eight hours after its start. */
  function AddShift(db: Db, w: int, start: JsonValue, date: string): (s: Step<()>)
    ensures s.result.Err? ==> s.next == db
  {
    var hour := StartHour(start);
    if hour.None? then Step(db, Err(InvalidInput))
    else if w !in db.workers then Step(db, Err(NotFound))
    else if ShiftOn(db.shifts, w, date) then Step(db, Err(Conflict))
    else
      var id := NextRowId(db.shifts.Keys);
      Step(db.(shifts := db.shifts[id := ShiftRow(w, date, hour.value, ShiftEnd(hour.value))]), Ok(()))
  }

  /** PUT /shifts/update/:id: the start is checked first, then that the shift
      exists, then that no other shift of its worker has the new date; the
      shift keeps its worker and takes the new date, start and end. */
  function UpdateShift(db: Db, id: int, date: Option<string>, start: JsonValue): (s: Step<()>)
    ensures s.result.Err? ==> s.next == db
  {
    var hour := StartHour(start);
    if hour.None? then Step(db, Err(InvalidInput))
    else if id !in db.shifts then Step(db, Err(NotFound))
    else
      var row := db.shifts[id];
      var d := EffectiveDate(date, row.date);
      if OtherShiftOn(db.shifts, id, row.workerId, d) then Step(db, Err(Conflict))
      else Step(db.(shifts := db.shifts[id := ShiftRow(row.workerId, d, hour.value, ShiftEnd(hour.value))]), Ok(()))
  }

  /** DELETE /shifts/delete/:id: removes that shift, if there is one. */
  function DeleteShift(db: Db, id: int): (s: Step<()>)
    ensures s.result.Ok?
  {
    Step(db.(shifts := db.shifts - {id}), Ok(()))
  }

  /** The shifts of every worker but `w`: what `DELETE FROM shifts WHERE
      worker_id = ?` leaves. */
  function ShiftsNotOf(shifts: map<int, ShiftRow>, w: int): (rest: map<int, ShiftRow>)
    ensures forall id :: id in rest <==> id in shifts && shifts[id].workerId != w
    ensures forall id :: id in rest ==> rest[id] == shifts[id]
  {
    map id | id in shifts && shifts[id].workerId != w :: shifts[id]
  }

  /** DELETE /workers/delete/:id: removes the worker's shifts, then the
      worker, so no shift is left pointing at a missing worker. */
  function DeleteWorker(db: Db, w: int): (s: Step<()>)
    ensures s.result.Ok?
  {
    Step(Db(db.workers - {w}, ShiftsNotOf(db.shifts, w)), Ok(()))
  }

  /** GET /shifts/:idWorker: the worker's name and the date, start and end of
      each of its shifts, or not found. */
  function GetByWorker(db: Db, w: int): (r: Result<WorkerShifts>)
    ensures r.Ok? <==> w in db.workers
    ensures r.Err? ==> r.error == NotFound
    ensures r.Ok? ==> r.value.name == db.workers[w]
  {
    if w !in db.workers then Err(NotFound)
    else Ok(WorkerShifts(db.workers[w], ShiftViewsOf(db.shifts, w)))
  }

  /** The `{ name, shifts }` entry the handler builds for one listed worker
      row, from the shifts table `shifts`. */
  function EntryOf(shifts: map<int, ShiftRow>): Record<Name> -> WorkerShifts {
    (row: Record<Name>) => WorkerShifts(row.row, ShiftViewsOf(shifts, row.id))
  }

  /** `rows.map(entry)`: the entry of each listed worker row, in order. */
  function EntriesFor(entry: Record<Name> -> WorkerShifts, rows: seq<Record<Name>>): (entries: seq<WorkerShifts>)
    ensures |entries| == |rows|
    ensures forall i :: 0 <= i < |rows| ==> entries[i] == entry(rows[i])
  {
    if rows == [] then [] else EntriesFor(entry, rows[..|rows| - 1]) + [entry(rows[|rows| - 1])]
  }

  /** Listing one more row adds its entry at the end. */
  lemma EntriesForSnoc(entry: Record<Name> -> WorkerShifts, rows: seq<Record<Name>>, i: int)
    requires 0 <= i < |rows|
    ensures EntriesFor(entry, rows[..i + 1]) == EntriesFor(entry, rows[..i]) + [entry(rows[i])]
  {
    assert rows[..i + 1][..i] == rows[..i];
  }

  /** GET /shiftsWithWorkers: the entry of every worker, in the order
      `SELECT * FROM workers` lists them. */
  function ListWithWorkers(db: Db): (entries: seq<WorkerShifts>)
    ensures |entries| == |db.workers.Keys|
  {
    EntriesFor(EntryOf(db.shifts), AllRows(db.workers))
  }

  // ---------------------------------------------------------------------
  // Every handler keeps the store invariant

  lemma CreateWorkerKeepsValid(db: Db, name: Option<string>)
    requires Valid(db)
    ensures Valid(CreateWorker(db, name).next)
  {
  }

  lemma UpdateWorkerKeepsValid(db: Db, id: int, name: Name)
    requires Valid(db)
    ensures Valid(UpdateWorker(db, id, name).next)
  {
  }

  lemma AddShiftKeepsValid(db: Db, w: int, start: JsonValue, date: string)
    requires Valid(db)
    ensures Valid(AddShift(db, w, start, date).next)
  {
  }

  lemma UpdateShiftKeepsValid(db: Db, id: int, date: Option<string>, start: JsonValue)
    requires Valid(db)
    ensures Valid(UpdateShift(db, id, date, start).next)
  {
  }

  lemma DeleteShiftKeepsValid(db: Db, id: int)
    requires Valid(db)
    ensures Valid(DeleteShift(db, id).next)
  {
  }

  lemma DeleteWorkerKeepsValid(db: Db, w: int)
    requires Valid(db)
    ensures Valid(DeleteWorker(db, w).next)
  {
  }
}
