/** The server's database connection: the `workers` and `shifts` tables,
    changed one SQL statement at a time by the route handlers. */
module Store {
  import opened Outcomes
  import opened ShiftRules
  import opened Tables
  import Handlers

  class Roster {
    var workers: map<int, Name>
    var shifts: map<int, ShiftRow>

    /** A snapshot of both tables. */
    function State(): Db
      reads this
    {
      Db(workers, shifts)
    }

    ghost predicate Valid()
      reads this
    {
      Tables.Valid(State())
    }

    /** `initDB` on a new database file: both tables exist and are empty. */
    constructor ()
      ensures Valid()
      ensures workers == map[] && shifts == map[]
    {
      workers := map[];
      shifts := map[];
    }

    // -------------------------------------------------------------------
    // SQL statements, with the constraints the storage engine enforces

    /** `INSERT INTO workers(name) VALUES (?)`: refused when `UNIQUE(name)`
        would be broken; otherwise the row gets the next rowid, which is
        reported back as `lastID`. */
    method InsertWorker(name: Name) returns (r: Result<int>)
      requires TablesValid(State())
      modifies this
      ensures TablesValid(State())
      ensures shifts == old(shifts)
      ensures name.Some? && NameInUse(old(workers), name.value) ==>
        r == Err(StorageError) && workers == old(workers)
      ensures !(name.Some? && NameInUse(old(workers), name.value)) ==>
        var id := NextRowId(old(workers).Keys);
        r == Ok(id) && workers == old(workers)[id := name]
    {
      if name.Some? && NameInUse(workers, name.value) {
        return Err(StorageError);
      }
      var id := NextRowId(workers.Keys);
      workers := workers[id := name];
      r := Ok(id);
    }

    /** `UPDATE workers SET name = ? WHERE id = ?`: touches no row when `id`
        is absent; refused when another worker holds the name. */
    method SetWorkerName(id: int, name: Name) returns (r: Result<()>)
      requires TablesValid(State())
      modifies this
      ensures TablesValid(State())
      ensures shifts == old(shifts)
      ensures id !in old(workers) ==> r == Ok(()) && workers == old(workers)
      ensures id in old(workers) && name.Some? && NameHeldByOther(old(workers), id, name.value) ==>
        r == Err(StorageError) && workers == old(workers)
      ensures id in old(workers) && !(name.Some? && NameHeldByOther(old(workers), id, name.value)) ==>
        r == Ok(()) && workers == old(workers)[id := name]
    {
      if id !in workers {
        return Ok(());
      }
      if name.Some? && NameHeldByOther(workers, id, name.value) {
        return Err(StorageError);
      }
      workers := workers[id := name];
      r := Ok(());
    }

    /** `INSERT INTO shifts(worker_id, shift_date, shift_start, shift_end)
        VALUES (?, ?, ?, ?)`: refused when `UNIQUE(worker_id, shift_date)`
        would be broken; the foreign key is not checked. */
    method InsertShift(row: ShiftRow) returns (r: Result<int>)
      requires TablesValid(State())
      modifies this
      ensures TablesValid(State())
      ensures workers == old(workers)
      ensures ShiftOn(old(shifts), row.workerId, row.date) ==>
        r == Err(StorageError) && shifts == old(shifts)
      ensures !ShiftOn(old(shifts), row.workerId, row.date) ==>
        var id := NextRowId(old(shifts).Keys);
        r == Ok(id) && shifts == old(shifts)[id := row]
    {
      if ShiftOn(shifts, row.workerId, row.date) {
        return Err(StorageError);
      }
      var id := NextRowId(shifts.Keys);
      shifts := shifts[id := row];
      r := Ok(id);
    }

    /** `UPDATE shifts SET shift_date = ?, shift_start = ?, shift_end = ?
        WHERE id = ?`: touches no row when `id` is absent; refused when
        another shift of the same worker has that date. */
    method SetShiftTimes(id: int, date: string, start: int, end: int) returns (r: Result<()>)
      requires TablesValid(State())
      modifies this
      ensures TablesValid(State())
      ensures workers == old(workers)
      ensures id !in old(shifts) ==> r == Ok(()) && shifts == old(shifts)
      ensures id in old(shifts) && OtherShiftOn(old(shifts), id, old(shifts)[id].workerId, date) ==>
        r == Err(StorageError) && shifts == old(shifts)
      ensures id in old(shifts) && !OtherShiftOn(old(shifts), id, old(shifts)[id].workerId, date) ==>
        r == Ok(()) && shifts == old(shifts)[id := ShiftRow(old(shifts)[id].workerId, date, start, end)]
    {
      if id !in shifts {
        return Ok(());
      }
      var w := shifts[id].workerId;
      if OtherShiftOn(shifts, id, w, date) {
        return Err(StorageError);
      }
      shifts := shifts[id := ShiftRow(w, date, start, end)];
      r := Ok(());
    }

    /** `DELETE FROM shifts WHERE id = ?` */
    method DeleteShiftRow(id: int)
      requires TablesValid(State())
      modifies this
      ensures TablesValid(State())
      ensures workers == old(workers) && shifts == old(shifts) - {id}
    {
      shifts := shifts - {id};
    }

    /** `DELETE FROM shifts WHERE worker_id = ?` */
    method DeleteShiftsOf(w: int)
      requires TablesValid(State())
      modifies this
      ensures TablesValid(State())
      ensures workers == old(workers) && shifts == Handlers.ShiftsNotOf(old(shifts), w)
    {
      shifts := Handlers.ShiftsNotOf(shifts, w);
    }

    /** `DELETE FROM workers WHERE id = ?`; nothing else changes, since the
        foreign key is not enforced. */
    method DeleteWorkerRow(id: int)
      requires TablesValid(State())
      modifies this
      ensures TablesValid(State())
      ensures workers == old(workers) - {id} && shifts == old(shifts)
    {
      workers := workers - {id};
    }

    // -------------------------------------------------------------------
    // Route handlers

    /** POST /workers/create */
    method CreateWorker(name: Option<string>) returns (r: Result<int>)
      requires Valid()
      modifies this
      ensures Valid()
      ensures Handlers.CreateWorker(old(State()), name) == Handlers.Step(State(), r)
    {
      Handlers.CreateWorkerKeepsValid(State(), name);
      if Handlers.BlankName(name) {
        return Err(InvalidInput);
      }
      r := InsertWorker(name);
    }

    /** PUT /workers/update/:id */
    method UpdateWorker(id: int, name: Name) returns (r: Result<()>)
      requires Valid()
      modifies this
      ensures Valid()
      ensures Handlers.UpdateWorker(old(State()), id, name) == Handlers.Step(State(), r)
    {
      Handlers.UpdateWorkerKeepsValid(State(), id, name);
      r := SetWorkerName(id, name);
    }

    /** POST /shifts/add/:idWorker, on the day `today` reads from the clock:
        the date stamp is written first, then the request is handled. */
    method AddShift(w: int, start: JsonValue, today: LocalDate) returns (r: Result<()>)
      requires Valid()
      modifies this
      ensures Valid()
      ensures Handlers.AddShift(old(State()), w, start, FormatDate(today)) == Handlers.Step(State(), r)
    {
      var date := FormatDate(today);
      r := AddShiftOn(w, start, date);
    }

    /** POST /shifts/add/:idWorker once the date stamp `date` is written. */
    method AddShiftOn(w: int, start: JsonValue, date: string) returns (r: Result<()>)
      requires Valid()
      modifies this
      ensures Valid()
      ensures Handlers.AddShift(old(State()), w, start, date) == Handlers.Step(State(), r)
    {
      Handlers.AddShiftKeepsValid(State(), w, start, date);
      var hour := StartHour(start);
      if hour.None? {
        return Err(InvalidInput);
      }
      var end := ShiftEnd(hour.value);
      if w !in workers {
        return Err(NotFound);
      }
      if ShiftOn(shifts, w, date) {
        return Err(Conflict);
      }
      var inserted := InsertShift(ShiftRow(w, date, hour.value, end));
      r := if inserted.Ok? then Ok(()) else Err(StorageError);
    }

    /** PUT /shifts/update/:id */
    method UpdateShift(id: int, date: Option<string>, start: JsonValue) returns (r: Result<()>)
      requires Valid()
      modifies this
      ensures Valid()
      ensures Handlers.UpdateShift(old(State()), id, date, start) == Handlers.Step(State(), r)
    {
      Handlers.UpdateShiftKeepsValid(State(), id, date, start);
      var hour := StartHour(start);
      if hour.None? {
        return Err(InvalidInput);
      }
      var end := ShiftEnd(hour.value);
      if id !in shifts {
        return Err(NotFound);
      }
      var row := shifts[id];
      var updatedDate := Handlers.EffectiveDate(date, row.date);
      if OtherShiftOn(shifts, id, row.workerId, updatedDate) {
        return Err(Conflict);
      }
      r := SetShiftTimes(id, updatedDate, hour.value, end);
    }

    /** DELETE /shifts/delete/:id */
    method DeleteShift(id: int) returns (r: Result<()>)
      requires Valid()
      modifies this
      ensures Valid()
      ensures Handlers.DeleteShift(old(State()), id) == Handlers.Step(State(), r)
    {
      Handlers.DeleteShiftKeepsValid(State(), id);
      DeleteShiftRow(id);
      r := Ok(());
    }

    /** DELETE /workers/delete/:id: the worker's shifts go first, so the
        foreign key holds after each of the two statements. */
    method DeleteWorker(w: int) returns (r: Result<()>)
      requires Valid()
      modifies this
      ensures Valid()
      ensures Handlers.DeleteWorker(old(State()), w) == Handlers.Step(State(), r)
    {
      Handlers.DeleteWorkerKeepsValid(State(), w);
      DeleteShiftsOf(w);
      assert Valid();
      DeleteWorkerRow(w);
      r := Ok(());
    }

    /** GET /workers: every worker row once, with its name, in increasing
        id order. */
    method ListWorkers() returns (rows: seq<Record<Name>>)
      ensures rows == AllRows(workers)
      ensures |rows| == |workers.Keys|
      ensures forall i :: 0 <= i < |rows| ==> rows[i].id in workers && rows[i].row == workers[rows[i].id]
      ensures forall i, j :: 0 <= i < j < |rows| ==> rows[i].id < rows[j].id
      ensures forall id :: id in workers ==> exists i :: 0 <= i < |rows| && rows[i] == Record(id, workers[id])
    {
      rows := AllRows(workers);
      forall id | id in workers ensures exists i :: 0 <= i < |rows| && rows[i] == Record(id, workers[id]) {
        AllRowsCovers(workers, id);
      }
    }

    /** GET /shifts: every shift row once, with its columns, in increasing
        id order. */
    method ListShifts() returns (rows: seq<Record<ShiftRow>>)
      ensures rows == AllRows(shifts)
      ensures |rows| == |shifts.Keys|
      ensures forall i :: 0 <= i < |rows| ==> rows[i].id in shifts && rows[i].row == shifts[rows[i].id]
      ensures forall i, j :: 0 <= i < j < |rows| ==> rows[i].id < rows[j].id
      ensures forall id :: id in shifts ==> exists i :: 0 <= i < |rows| && rows[i] == Record(id, shifts[id])
    {
      rows := AllRows(shifts);
      forall id | id in shifts ensures exists i :: 0 <= i < |rows| && rows[i] == Record(id, shifts[id]) {
        AllRowsCovers(shifts, id);
      }
    }

    /** GET /shifts/:idWorker: not found for an absent worker; otherwise its
        name and one entry per shift it owns. */
    method GetByWorker(w: int) returns (r: Result<Handlers.WorkerShifts>)
      ensures r == Handlers.GetByWorker(State(), w)
      ensures r.Err? <==> w !in workers
      ensures r.Err? ==> r.error == NotFound
      ensures r.Ok? ==> r.value.name == workers[w] && |r.value.shifts| == |OwnedBy(shifts, w).Keys|
    {
      if w !in workers {
        return Err(NotFound);
      }
      var views := ShiftViewsOf(shifts, w);
      r := Ok(Handlers.WorkerShifts(workers[w], views));
    }

    /** GET /shiftsWithWorkers: lists the workers, then asks for the shifts
        of each in turn and collects the `{ name, shifts }` entries. */
    method ListWithWorkers() returns (entries: seq<Handlers.WorkerShifts>)
      ensures entries == Handlers.ListWithWorkers(State())
    {
      var entry := Handlers.EntryOf(shifts);
      var table := shifts;
      var rows := AllRows(workers);
      entries := [];
      var i := 0;
      while i < |rows|
        invariant 0 <= i <= |rows|
        invariant entries == Handlers.EntriesFor(entry, rows[..i])
      {
        var views := ShiftViewsOf(table, rows[i].id);
        Handlers.EntriesForSnoc(entry, rows, i);
        entries := entries + [Handlers.WorkerShifts(rows[i].row, views)];
        i := i + 1;
      }
      assert rows[..i] == rows;
    }
  }
}
