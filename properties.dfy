/** What the route handlers promise, stated across requests and in terms of
    what the read handlers answer afterwards. */
module RosterProperties {
  import opened Outcomes
  import opened JsText
  import opened ShiftRules
  import opened Tables
  import opened Handlers

  // ---------------------------------------------------------------------
  // Workers

  /** A worker name is refused exactly when it is missing or consists of
      whitespace only, and a refused request changes nothing. */
  lemma BlankNameRefused(db: Db, name: Option<string>)
    ensures CreateWorker(db, name).result == Err(InvalidInput) <==> name.None? || AllWhiteSpace(name.value)
    ensures CreateWorker(db, name).result == Err(InvalidInput) ==> CreateWorker(db, name).next == db
  {
  }

  /** Creating a worker under a free name adds exactly that worker, under a
      fresh id it answers with, with no shifts; every other worker reads back
      as before. */
  lemma CreateWorkerAdds(db: Db, name: string)
    requires Valid(db)
    requires !AllWhiteSpace(name) && !NameInUse(db.workers, name)
    ensures var s := CreateWorker(db, Some(name));
      && s.result.Ok?
      && s.result.value !in db.workers
      && s.next.workers.Keys == db.workers.Keys + {s.result.value}
      && s.next.shifts == db.shifts
      && GetByWorker(s.next, s.result.value) == Ok(WorkerShifts(Some(name), []))
      && (forall w :: w in db.workers ==> GetByWorker(s.next, w) == GetByWorker(db, w))
  {
    var id := NextRowId(db.workers.Keys);
    AddedWorkerReadsBack(db, id, Some(name));
    assert CreateWorker(db, Some(name)) == Step(db.(workers := db.workers[id := Some(name)]), Ok(id));
  }

  /** A worker row added under a fresh id reads back with its name and no
      shifts, and every other worker reads back as before. */
  lemma AddedWorkerReadsBack(db: Db, id: int, name: Name)
    requires Valid(db) && id !in db.workers
    ensures var next := db.(workers := db.workers[id := name]);
      && next.workers.Keys == db.workers.Keys + {id}
      && GetByWorker(next, id) == Ok(WorkerShifts(name, []))
      && (forall w :: w in db.workers ==> GetByWorker(next, w) == GetByWorker(db, w))
  {
    var next := db.(workers := db.workers[id := name]);
    NoShiftsOfAbsentWorker(db, id);
    assert next.workers.Keys == db.workers.Keys + {id} by {
      assert forall k :: k in next.workers.Keys <==> k in db.workers.Keys + {id};
    }
  }

  /** In a valid store a worker id not in use owns no shift. */
  lemma NoShiftsOfAbsentWorker(db: Db, w: int)
    requires Valid(db) && w !in db.workers
    ensures ShiftViewsOf(db.shifts, w) == []
  {
    assert OwnedBy(db.shifts, w).Keys == {} by {
      assert forall k :: k !in OwnedBy(db.shifts, w);
    }
  }

  /** A name some worker already holds makes the insert fail in storage,
      and nothing changes. */
  lemma CreateWorkerTakenName(db: Db, name: string, holder: int)
    requires !AllWhiteSpace(name)
    requires holder in db.workers && db.workers[holder] == Some(name)
    ensures CreateWorker(db, Some(name)) == Step(db, Err(StorageError))
  {
  }

  /** Creating two workers with one name: the second request fails. */
  lemma CreateSameNameTwice(db: Db, name: string)
    ensures var s := CreateWorker(db, Some(name));
      s.result.Ok? ==> CreateWorker(s.next, Some(name)) == Step(s.next, Err(StorageError))
  {
    var s := CreateWorker(db, Some(name));
    if s.result.Ok? {
      var id := s.result.value;
      assert s.next.workers[id] == Some(name);
      CreateWorkerTakenName(s.next, name, id);
    }
  }

  /** Renaming: an absent id succeeds and changes nothing; a name another
      worker holds fails in storage and changes nothing; otherwise the
      worker reads back with the new name, blank or missing names included,
      and its shifts, while every other worker reads back as before. */
  lemma UpdateWorkerOutcomes(db: Db, id: int, name: Name)
    ensures id !in db.workers ==> UpdateWorker(db, id, name) == Step(db, Ok(()))
    ensures id in db.workers && name.Some? && NameHeldByOther(db.workers, id, name.value) ==>
      UpdateWorker(db, id, name) == Step(db, Err(StorageError))
    ensures id in db.workers && !(name.Some? && NameHeldByOther(db.workers, id, name.value)) ==>
      var s := UpdateWorker(db, id, name);
      && s.result.Ok?
      && GetByWorker(s.next, id) == Ok(WorkerShifts(name, GetByWorker(db, id).value.shifts))
      && s.next.workers.Keys == db.workers.Keys
      && (forall w :: w != id ==> GetByWorker(s.next, w) == GetByWorker(db, w))
  {
  }

  // ---------------------------------------------------------------------
  // Adding and changing shifts

  /** A start other than the numbers 0, 8 and 16 is refused before any
      lookup: whether the worker or the shift exists makes no difference. */
  lemma InvalidStartWins(db: Db, w: int, id: int, today: string, date: Option<string>, start: JsonValue)
    requires start != Number(0.0) && start != Number(8.0) && start != Number(16.0)
    ensures AddShift(db, w, start, today) == Step(db, Err(InvalidInput))
    ensures UpdateShift(db, id, date, start) == Step(db, Err(InvalidInput))
  {
  }

  /** Adding a shift: a missing worker is not found; a second shift on the
      same day conflicts; otherwise one shift is added under a fresh id,
      dated `today` and ending eight hours after its start; the worker's
      answer gains exactly that shift, and nothing else changes. */
  lemma AddShiftOutcomes(db: Db, w: int, start: JsonValue, today: string)
    requires Valid(db)
    requires StartHour(start).Some?
    ensures w !in db.workers ==> AddShift(db, w, start, today) == Step(db, Err(NotFound))
    ensures w in db.workers && ShiftOn(db.shifts, w, today) ==>
      AddShift(db, w, start, today) == Step(db, Err(Conflict))
    ensures w in db.workers && !ShiftOn(db.shifts, w, today) ==>
      var h := StartHour(start).value;
      var row := ShiftRow(w, today, h, ShiftEnd(h));
      var s := AddShift(db, w, start, today);
      && s.result.Ok?
      && s.next.workers == db.workers
      && (exists id :: id !in db.shifts && s.next.shifts == db.shifts[id := row])
      && GetByWorker(s.next, w).Ok?
      && GetByWorker(s.next, w).value.name == db.workers[w]
      && multiset(GetByWorker(s.next, w).value.shifts) == multiset(GetByWorker(db, w).value.shifts) + multiset{View(row)}
      && (forall v :: v != w ==> GetByWorker(s.next, v) == GetByWorker(db, v))
  {
    if w in db.workers && !ShiftOn(db.shifts, w, today) {
      var h := StartHour(start).value;
      var row := ShiftRow(w, today, h, ShiftEnd(h));
      var id := NextRowId(db.shifts.Keys);
      var s := AddShift(db, w, start, today);
      assert s.next.shifts == db.shifts[id := row];
      ShiftViewsAfterInsert(db.shifts, id, row, w);
      forall v | v != w ensures GetByWorker(s.next, v) == GetByWorker(db, v) {
        ShiftViewsAfterInsert(db.shifts, id, row, v);
      }
    }
  }

  /** A worker gets at most one shift a day: once a shift is added, a second
      request on the same day conflicts, whatever its valid start. */
  lemma SecondShiftSameDayConflicts(db: Db, w: int, start: JsonValue, again: JsonValue, today: string)
    requires StartHour(again).Some?
    ensures var s := AddShift(db, w, start, today);
      s.result.Ok? ==> AddShift(s.next, w, again, today) == Step(s.next, Err(Conflict))
  {
    var s := AddShift(db, w, start, today);
    if s.result.Ok? {
      var id := NextRowId(db.shifts.Keys);
      assert s.next.shifts[id].workerId == w && s.next.shifts[id].date == today;
    }
  }

  /** Changing a shift: a missing id is not found; the date is the one sent
      unless it is missing or empty; a conflict arises only from another
      shift of the same worker on that date; otherwise the shift keeps its
      id and worker and takes the date, the start and its end. */
  lemma UpdateShiftOutcomes(db: Db, id: int, date: Option<string>, start: JsonValue)
    requires StartHour(start).Some?
    ensures id !in db.shifts ==> UpdateShift(db, id, date, start) == Step(db, Err(NotFound))
    ensures id in db.shifts ==>
      var cur := db.shifts[id];
      var d := EffectiveDate(date, cur.date);
      var h := StartHour(start).value;
      && (date.None? || date == Some("") ==> d == cur.date)
      && (date.Some? && date.value != "" ==> d == date.value)
      && (OtherShiftOn(db.shifts, id, cur.workerId, d) ==>
            UpdateShift(db, id, date, start) == Step(db, Err(Conflict)))
      && (!OtherShiftOn(db.shifts, id, cur.workerId, d) ==>
            UpdateShift(db, id, date, start)
              == Step(db.(shifts := db.shifts[id := ShiftRow(cur.workerId, d, h, ShiftEnd(h))]), Ok(())))
  {
  }

  /** Re-sending a shift's own date, or no date, never conflicts in a valid
      store: the shift itself does not count against it. */
  lemma UpdateShiftOwnDate(db: Db, id: int, start: JsonValue)
    requires Valid(db)
    requires id in db.shifts && StartHour(start).Some?
    ensures UpdateShift(db, id, Some(db.shifts[id].date), start).result == Ok(())
    ensures UpdateShift(db, id, None, start).result == Ok(())
    ensures UpdateShift(db, id, None, start).next.shifts[id].date == db.shifts[id].date
  {
  }

  // ---------------------------------------------------------------------
  // Deleting

  /** Deleting a worker removes it and exactly its shifts: it is no longer
      found, every other worker reads back as before, and deleting it again
      changes nothing. */
  lemma DeleteWorkerRemoves(db: Db, w: int)
    requires Valid(db)
    ensures var s := DeleteWorker(db, w);
      && s.next.workers == db.workers - {w}
      && (forall id :: id in s.next.shifts <==> id in db.shifts && db.shifts[id].workerId != w)
      && GetByWorker(s.next, w) == Err(NotFound)
      && (forall v :: v != w ==> GetByWorker(s.next, v) == GetByWorker(db, v))
      && DeleteWorker(s.next, w) == Step(s.next, Ok(()))
  {
    var s := DeleteWorker(db, w);
    forall v | v != w ensures GetByWorker(s.next, v) == GetByWorker(db, v) {
      assert OwnedBy(s.next.shifts, v) == OwnedBy(db.shifts, v) by {
        assert forall k :: k in OwnedBy(s.next.shifts, v) <==> k in OwnedBy(db.shifts, v);
      }
    }
    DeleteAbsentWorker(s.next, w);
  }

  /** In a valid store, deleting a worker that does not exist changes
      nothing: no shift can belong to it. */
  lemma DeleteAbsentWorker(db: Db, w: int)
    requires Valid(db) && w !in db.workers
    ensures DeleteWorker(db, w) == Step(db, Ok(()))
  {
    var rest := ShiftsNotOf(db.shifts, w);
    assert rest == db.shifts by {
      assert forall k :: k in rest <==> k in db.shifts;
    }
    assert db.workers - {w} == db.workers;
  }

  /** Deleting a shift removes at most that row; deleting it again, or
      deleting an absent id, changes nothing. */
  lemma DeleteShiftRemoves(db: Db, id: int)
    ensures var s := DeleteShift(db, id);
      && s.result == Ok(())
      && s.next.workers == db.workers
      && id !in s.next.shifts
      && (forall k :: k != id ==> (k in s.next.shifts <==> k in db.shifts))
      && (forall k :: k in s.next.shifts ==> s.next.shifts[k] == db.shifts[k])
      && DeleteShift(s.next, id) == s
    ensures id !in db.shifts ==> DeleteShift(db, id) == Step(db, Ok(()))
  {
    var s := DeleteShift(db, id);
    assert s.next.shifts - {id} == s.next.shifts;
    if id !in db.shifts {
      assert db.shifts - {id} == db.shifts;
    }
  }

  // ---------------------------------------------------------------------
  // Reading

  /** The worker read handler lists every shift of the worker. */
  lemma GetByWorkerListsEveryShift(db: Db, w: int, id: int)
    requires w in db.workers && id in db.shifts && db.shifts[id].workerId == w
    ensures GetByWorker(db, w).Ok?
    ensures View(db.shifts[id]) in GetByWorker(db, w).value.shifts
  {
    ShiftViewsCover(db.shifts, w, id);
  }

  /** In a valid store the shifts listed for a worker fall on distinct dates. */
  lemma ListedDatesDistinct(db: Db, w: int)
    requires Valid(db) && w in db.workers
    ensures var views := GetByWorker(db, w).value.shifts;
      forall i, j :: 0 <= i < j < |views| ==> views[i].date != views[j].date
  {
    var own := OwnedBy(db.shifts, w);
    var rows := AllRows(own);
    var views := Views(rows);
    forall i, j | 0 <= i < j < |views| ensures views[i].date != views[j].date {
      assert rows[i].id < rows[j].id;
      assert rows[i].id in db.shifts && rows[j].id in db.shifts;
    }
  }

  /** GET /shiftsWithWorkers has one entry per worker, in the order GET
      /workers lists them, each what GET /shifts/:idWorker answers. */
  lemma ListWithWorkersMatchesGetByWorker(db: Db)
    ensures |ListWithWorkers(db)| == |AllRows(db.workers)| == |db.workers.Keys|
    ensures forall i :: 0 <= i < |ListWithWorkers(db)| ==>
      GetByWorker(db, AllRows(db.workers)[i].id) == Ok(ListWithWorkers(db)[i])
  {
  }

  // ---------------------------------------------------------------------
  // A session

  /** On a fresh database: creating a worker answers id 1, adding a shift at
      8 on `today` succeeds, and reading the worker back gives its name and
      that one shift, from 8 to 16. */
  lemma FirstWorkerFirstShift(name: string, today: string)
    requires !AllWhiteSpace(name)
    ensures var s1 := CreateWorker(Db(map[], map[]), Some(name));
      && s1.result == Ok(1)
      && var s2 := AddShift(s1.next, 1, Number(8.0), today);
      && s2.result == Ok(())
      && GetByWorker(s2.next, 1) == Ok(WorkerShifts(Some(name), [ShiftView(today, 8, 16)]))
  {
    var empty := Db(map[], map[]);
    var s1 := CreateWorker(empty, Some(name));
    assert s1 == Step(Db(map[1 := Some(name)], map[]), Ok(1));
    var start := Number(8.0);
    assert StartHour(start) == Some(8);
    var row := ShiftRow(1, today, 8, 16);
    var s2 := AddShift(s1.next, 1, start, today);
    assert s2 == Step(Db(map[1 := Some(name)], map[1 := row]), Ok(()));
    var none: map<int, ShiftRow> := map[];
    assert ShiftViewsOf(none, 1) == [] by {
      assert OwnedBy(none, 1).Keys == {};
    }
    ShiftViewsAfterInsert(none, 1, row, 1);
    assert none[1 := row] == s2.next.shifts;
    var views := ShiftViewsOf(s2.next.shifts, 1);
    assert multiset(views) == multiset{View(row)};
    assert |views| == 1 && views[0] in multiset(views);
    assert views == [View(row)];
  }
}
