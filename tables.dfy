/** The `workers` and `shifts` tables, the constraints declared on them, and
    the order in which their rows are read back. */
module Tables {
  import opened Outcomes
  import opened ShiftRules

  /** A `name TEXT UNIQUE` cell; `None` is SQL NULL. */
  type Name = Option<string>

  /** A `shifts` row without its primary key. */
  datatype ShiftRow = ShiftRow(workerId: int, date: string, start: int, end: int)

  /** Both tables, each keyed by its `INTEGER PRIMARY KEY`, so that no two
      rows of one table share an id. */
  datatype Db = Db(workers: map<int, Name>, shifts: map<int, ShiftRow>)

  /** A row of `SELECT * FROM <table>`: the primary key and the other columns. */
  datatype Record<V> = Record(id: int, row: V)

  /** A row of `SELECT shift_date, shift_start, shift_end FROM shifts`. */
  datatype ShiftView = ShiftView(date: string, start: int, end: int)

  function View(row: ShiftRow): ShiftView {
    ShiftView(row.date, row.start, row.end)
  }

  // ---------------------------------------------------------------------
  // Constraints

  /** `UNIQUE(name)`: no two workers carry the same non-NULL name. */
  ghost predicate UniqueNames(workers: map<int, Name>) {
    forall a, b :: a in workers && b in workers && a != b && workers[a].Some? ==> workers[a] != workers[b]
  }

  /** `UNIQUE(worker_id, shift_date)`: at most one shift per worker and day. */
  ghost predicate OneShiftPerDay(shifts: map<int, ShiftRow>) {
    forall a, b :: a in shifts && b in shifts && a != b && shifts[a].workerId == shifts[b].workerId ==>
      shifts[a].date != shifts[b].date
  }

  /** What the storage engine itself enforces. */
  ghost predicate TablesValid(db: Db) {
    UniqueNames(db.workers) && OneShiftPerDay(db.shifts)
  }

  /** A shift starts at an allowed hour and ends eight hours later. */
  predicate WellTimed(row: ShiftRow) {
    IsShiftHour(row.start) && row.end == ShiftEnd(row.start)
  }

  /** The store invariant: the storage constraints, well-timed shifts, and
      the `FOREIGN KEY (worker_id)`, which SQLite leaves unchecked without
      `PRAGMA foreign_keys` and which the handlers maintain instead. */
  ghost predicate Valid(db: Db) {
    && TablesValid(db)
    && (forall id :: id in db.shifts ==> WellTimed(db.shifts[id]))
    && (forall id :: id in db.shifts ==> db.shifts[id].workerId in db.workers)
  }

  /** Some worker already holds `name`. */
  predicate NameInUse(workers: map<int, Name>, name: string) {
    exists id :: id in workers && workers[id] == Some(name)
  }

  /** Some other worker already holds `name`. */
  predicate NameHeldByOther(workers: map<int, Name>, id: int, name: string) {
    exists other :: other in workers && other != id && workers[other] == Some(name)
  }

  /** Worker `w` has a shift dated `date`. */
  predicate ShiftOn(shifts: map<int, ShiftRow>, w: int, date: string) {
    exists id :: id in shifts && shifts[id].workerId == w && shifts[id].date == date
  }

  /** Some shift other than `id` belongs to worker `w` and is dated `date`. */
  predicate OtherShiftOn(shifts: map<int, ShiftRow>, id: int, w: int, date: string) {
    exists other :: other in shifts && other != id && shifts[other].workerId == w && shifts[other].date == date
  }

  // ---------------------------------------------------------------------
  // Row ids

  lemma NoElementMeansEmpty(ids: set<int>)
    requires forall y :: y !in ids
    ensures ids == {}
  {
    assert forall y :: y in ids <==> y in {};
  }

  lemma {:induction false} HasMaximum(ids: set<int>)
    requires ids != {}
    ensures exists m :: m in ids && forall k :: k in ids ==> k <= m
  {
    if forall y :: y !in ids {
      NoElementMeansEmpty(ids);
      assert false;
    }
    var x :| x in ids;
    var rest := ids - {x};
    if rest != {} {
      HasMaximum(rest);
      var m :| m in rest && forall k :: k in rest ==> k <= m;
      var top := if x > m then x else m;
      forall k | k in ids ensures k <= top {
        if k != x { assert k in rest; }
      }
    } else {
      forall k | k in ids ensures k <= x {
        assert k !in rest;
      }
    }
  }

  lemma {:induction false} HasMinimum(ids: set<int>)
    requires ids != {}
    ensures exists m :: m in ids && forall k :: k in ids ==> m <= k
  {
    if forall y :: y !in ids {
      NoElementMeansEmpty(ids);
      assert false;
    }
    var x :| x in ids;
    var rest := ids - {x};
    if rest != {} {
      HasMinimum(rest);
      var m :| m in rest && forall k :: k in rest ==> m <= k;
      var bottom := if x < m then x else m;
      forall k | k in ids ensures bottom <= k {
        if k != x { assert k in rest; }
      }
    } else {
      forall k | k in ids ensures x <= k {
        assert k !in rest;
      }
    }
  }

  function MaxOf(ids: set<int>): (m: int)
    requires ids != {}
    ensures m in ids && forall k :: k in ids ==> k <= m
  {
    HasMaximum(ids);
    var m :| m in ids && forall k :: k in ids ==> k <= m;
    m
  }

  function MinOf(ids: set<int>): (m: int)
    requires ids != {}
    ensures m in ids && forall k :: k in ids ==> m <= k
  {
    HasMinimum(ids);
    var m :| m in ids && forall k :: k in ids ==> m <= k;
    m
  }

  /** The least element is the one below all others. */
  lemma MinOfIs(ids: set<int>, m: int)
    requires m in ids && forall k :: k in ids ==> m <= k
    ensures MinOf(ids) == m
  {
  }

  /** The rowid SQLite gives a row inserted without one, reported as
      `lastID`: one more than the largest rowid in the table, or 1 in an
      empty table. It is never in use and exceeds every id in use. */
  function NextRowId(ids: set<int>): (id: int)
    ensures id !in ids
    ensures forall k :: k in ids ==> k < id
    ensures ids == {} ==> id == 1
  {
    if ids == {} then 1 else MaxOf(ids) + 1
  }

  // ---------------------------------------------------------------------
  // Reading rows back

  /** The ids of a table in rowid order. */
  function SortedIds(ids: set<int>): (r: seq<int>)
    ensures |r| == |ids|
    decreases |ids|
  {
    if ids == {} then []
    else
      var m := MinOf(ids);
      [m] + SortedIds(ids - {m})
  }

  /** `SortedIds` lists only the given ids. */
  lemma {:induction false} SortedIdsWithin(ids: set<int>)
    ensures forall i :: 0 <= i < |SortedIds(ids)| ==> SortedIds(ids)[i] in ids
    decreases |ids|
  {
    if ids != {} {
      var m := MinOf(ids);
      var rest := ids - {m};
      SortedIdsWithin(rest);
      var r := SortedIds(ids);
      forall i | 0 <= i < |r| ensures r[i] in ids {
        if i > 0 { assert r[i] == SortedIds(rest)[i - 1]; }
      }
    }
  }

  /** `SortedIds` lists every given id. */
  lemma {:induction false} SortedIdsCovers(ids: set<int>, k: int)
    requires k in ids
    ensures exists i :: 0 <= i < |SortedIds(ids)| && SortedIds(ids)[i] == k
    decreases |ids|
  {
    var m := MinOf(ids);
    var rest := ids - {m};
    var r := SortedIds(ids);
    if k == m {
      assert r[0] == k;
    } else {
      SortedIdsCovers(rest, k);
      var i :| 0 <= i < |SortedIds(rest)| && SortedIds(rest)[i] == k;
      assert r[i + 1] == k;
    }
  }

  /** `SortedIds` is strictly increasing, so it lists each id once. */
  lemma {:induction false} SortedIdsIncreasing(ids: set<int>)
    ensures forall i, j :: 0 <= i < j < |SortedIds(ids)| ==> SortedIds(ids)[i] < SortedIds(ids)[j]
    decreases |ids|
  {
    if ids != {} {
      var m := MinOf(ids);
      var rest := ids - {m};
      var tail := SortedIds(rest);
      SortedIdsIncreasing(rest);
      SortedIdsWithin(rest);
      var r := SortedIds(ids);
      forall i, j | 0 <= i < j < |r| ensures r[i] < r[j] {
        assert r[j] == tail[j - 1] && tail[j - 1] in rest;
        if i > 0 { assert r[i] == tail[i - 1]; }
      }
    }
  }

  /** `SortedIds` lists exactly the given ids, each once, in increasing order. */
  lemma SortedIdsOrdered(ids: set<int>)
    ensures var r := SortedIds(ids);
      && (forall i :: 0 <= i < |r| ==> r[i] in ids)
      && (forall k :: k in ids ==> exists i :: 0 <= i < |r| && r[i] == k)
      && (forall i, j :: 0 <= i < j < |r| ==> r[i] < r[j])
  {
    SortedIdsWithin(ids);
    SortedIdsIncreasing(ids);
    forall k | k in ids ensures exists i :: 0 <= i < |SortedIds(ids)| && SortedIds(ids)[i] == k {
      SortedIdsCovers(ids, k);
    }
  }

  /** Adding an id above all others keeps the least id, and removing that
      least id commutes with the addition. */
  lemma MinAfterAppend(ids: set<int>, id: int)
    requires ids != {} && forall k :: k in ids ==> k < id
    ensures MinOf(ids + {id}) == MinOf(ids)
    ensures (ids + {id}) - {MinOf(ids)} == (ids - {MinOf(ids)}) + {id}
  {
    var m := MinOf(ids);
    MinOfIs(ids + {id}, m);
    assert forall k :: k in (ids + {id}) - {m} <==> k in (ids - {m}) + {id};
  }

  /** Adding an id above all others appends it to the rowid order. */
  lemma {:induction false} SortedIdsAppend(ids: set<int>, id: int)
    requires forall k :: k in ids ==> k < id
    ensures SortedIds(ids + {id}) == SortedIds(ids) + [id]
    decreases |ids|
  {
    var more := ids + {id};
    if ids == {} {
      MinOfIs(more, id);
      assert more - {id} == {} by {
        assert forall k :: k in more - {id} <==> k in {};
      }
    } else {
      var m := MinOf(ids);
      var rest := ids - {m};
      MinAfterAppend(ids, id);
      SortedIdsAppend(rest, id);
      var tail := SortedIds(rest);
      calc {
        SortedIds(more);
        [m] + SortedIds(rest + {id});
        [m] + (tail + [id]);
        { assert [m] + (tail + [id]) == ([m] + tail) + [id]; }
        ([m] + tail) + [id];
        SortedIds(ids) + [id];
      }
    }
  }

  /** The rows stored under `ids`, in that order. */
  function RecordsAt<V>(ids: seq<int>, table: map<int, V>): (rows: seq<Record<V>>)
    requires forall i :: 0 <= i < |ids| ==> ids[i] in table
    ensures |rows| == |ids|
    ensures forall i :: 0 <= i < |rows| ==> rows[i] == Record(ids[i], table[ids[i]])
  {
    if ids == [] then [] else [Record(ids[0], table[ids[0]])] + RecordsAt(ids[1..], table)
  }

  /** `SELECT * FROM <table>`: rows of the table, in strictly increasing
      rowid order, one per id; `AllRowsCovers` shows none is missing. */
  function AllRows<V>(table: map<int, V>): (rows: seq<Record<V>>)
    ensures |rows| == |table.Keys|
    ensures forall i :: 0 <= i < |rows| ==> rows[i].id in table && rows[i].row == table[rows[i].id]
    ensures forall i, j :: 0 <= i < j < |rows| ==> rows[i].id < rows[j].id
  {
    SortedIdsOrdered(table.Keys);
    RecordsAt(SortedIds(table.Keys), table)
  }

  /** Every row of the table is listed by `SELECT * FROM <table>`. */
  lemma AllRowsCovers<V>(table: map<int, V>, id: int)
    requires id in table
    ensures exists i :: 0 <= i < |AllRows(table)| && AllRows(table)[i] == Record(id, table[id])
  {
    var ids := SortedIds(table.Keys);
    SortedIdsOrdered(table.Keys);
    var i :| 0 <= i < |ids| && ids[i] == id;
    assert AllRows(table)[i] == Record(id, table[id]);
  }

  /** The rows of `WHERE worker_id = w`. */
  function OwnedBy(shifts: map<int, ShiftRow>, w: int): map<int, ShiftRow> {
    map id | id in shifts && shifts[id].workerId == w :: shifts[id]
  }

  function Views(rows: seq<Record<ShiftRow>>): (views: seq<ShiftView>)
    ensures |views| == |rows|
    ensures forall i :: 0 <= i < |views| ==> views[i] == View(rows[i].row)
  {
    if rows == [] then [] else [View(rows[0].row)] + Views(rows[1..])
  }

  /** `SELECT shift_date, shift_start, shift_end FROM shifts WHERE worker_id = ?`:
      one entry per shift of `w`; `ShiftViewsOnlyOwn` and `ShiftViewsCover`
      show they are exactly the shifts of `w`. The query has no `ORDER BY`,
      and no property below depends on the order of the entries: the model
      lists them by rowid only to have some fixed order. */
  function ShiftViewsOf(shifts: map<int, ShiftRow>, w: int): (views: seq<ShiftView>)
    ensures |views| == |OwnedBy(shifts, w).Keys|
  {
    Views(AllRows(OwnedBy(shifts, w)))
  }

  /** The query for `w`'s shifts lists shifts of `w` only. */
  lemma ShiftViewsOnlyOwn(shifts: map<int, ShiftRow>, w: int)
    ensures var views := ShiftViewsOf(shifts, w);
      forall i :: 0 <= i < |views| ==>
        exists id :: id in shifts && shifts[id].workerId == w && views[i] == View(shifts[id])
  {
    var own := OwnedBy(shifts, w);
    var rows := AllRows(own);
    forall i | 0 <= i < |rows| ensures rows[i].id in shifts && shifts[rows[i].id].workerId == w {
      assert rows[i].id in own;
    }
  }

  /** Every shift of `w` is listed by the query for `w`'s shifts. */
  lemma ShiftViewsCover(shifts: map<int, ShiftRow>, w: int, id: int)
    requires id in shifts && shifts[id].workerId == w
    ensures View(shifts[id]) in ShiftViewsOf(shifts, w)
  {
    var own := OwnedBy(shifts, w);
    AllRowsCovers(own, id);
    var i :| 0 <= i < |AllRows(own)| && AllRows(own)[i] == Record(id, own[id]);
    assert ShiftViewsOf(shifts, w)[i] == View(shifts[id]);
  }

  /** A row inserted above every rowid in use is listed last. */
  lemma AllRowsAppend<V>(table: map<int, V>, id: int, v: V)
    requires forall k :: k in table ==> k < id
    ensures AllRows(table[id := v]) == AllRows(table) + [Record(id, v)]
  {
    var more := table[id := v];
    assert more.Keys == table.Keys + {id} by {
      assert forall k :: k in more.Keys <==> k in table.Keys + {id};
    }
    SortedIdsAppend(table.Keys, id);
    SortedIdsWithin(table.Keys);
    RecordsAtAppend(SortedIds(table.Keys), table, id, v);
  }

  lemma RecordsAtAppend<V>(ids: seq<int>, table: map<int, V>, id: int, v: V)
    requires forall i :: 0 <= i < |ids| ==> ids[i] in table
    requires id !in table
    ensures RecordsAt(ids + [id], table[id := v]) == RecordsAt(ids, table) + [Record(id, v)]
  {
    var a := RecordsAt(ids + [id], table[id := v]);
    var b := RecordsAt(ids, table) + [Record(id, v)];
    forall i | 0 <= i < |a| ensures a[i] == b[i] {
      if i < |ids| {
        assert (ids + [id])[i] == ids[i] && ids[i] != id;
      }
    }
  }

  /** The shifts of `w` after inserting `row` under a fresh id. */
  lemma OwnedByInsert(shifts: map<int, ShiftRow>, id: int, row: ShiftRow, w: int)
    requires id !in shifts
    ensures row.workerId == w ==> OwnedBy(shifts[id := row], w) == OwnedBy(shifts, w)[id := row]
    ensures row.workerId != w ==> OwnedBy(shifts[id := row], w) == OwnedBy(shifts, w)
  {
    var own := OwnedBy(shifts, w);
    var after := OwnedBy(shifts[id := row], w);
    if row.workerId == w {
      assert forall k :: k in after <==> k in own[id := row];
    } else {
      assert forall k :: k in after <==> k in own;
    }
  }

  lemma ViewsAppend(rows: seq<Record<ShiftRow>>, r: Record<ShiftRow>)
    ensures Views(rows + [r]) == Views(rows) + [View(r.row)]
  {
    var a := Views(rows + [r]);
    var b := Views(rows) + [View(r.row)];
    forall i | 0 <= i < |a| ensures a[i] == b[i] {
      if i < |rows| {
        assert (rows + [r])[i] == rows[i];
      }
    }
  }

  /** Inserting a shift of `w` under the next rowid adds its view to `w`'s
      answer, whatever order the answer comes in, and leaves every other
      worker's answer as it was. */
  lemma ShiftViewsAfterInsert(shifts: map<int, ShiftRow>, id: int, row: ShiftRow, w: int)
    requires forall k :: k in shifts ==> k < id
    ensures row.workerId == w ==>
      multiset(ShiftViewsOf(shifts[id := row], w)) == multiset(ShiftViewsOf(shifts, w)) + multiset{View(row)}
    ensures row.workerId != w ==> ShiftViewsOf(shifts[id := row], w) == ShiftViewsOf(shifts, w)
  {
    OwnedByInsert(shifts, id, row, w);
    if row.workerId == w {
      var own := OwnedBy(shifts, w);
      AllRowsAppend(own, id, row);
      ViewsAppend(AllRows(own), Record(id, row));
      assert ShiftViewsOf(shifts[id := row], w) == ShiftViewsOf(shifts, w) + [View(row)];
    }
  }
}
