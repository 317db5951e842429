/** The reclamation sweep of job/file_cleanup.go: one pass of
    deleteExpiredFiles, and StartFileCleanup's guard around it. */
module Cleanup {
  import opened Model
  import opened Paths
  import opened Stores

  /** The WHERE clause of the sweep's SELECT: expired strictly before now,
      and not the zero-time "no expiration" value. */
  predicate Expired(f: File, now: int) {
    f.expiration < now && f.expiration != ZeroTime
  }

  /** One result row of the sweep's SELECT id, local_path. */
  datatype Row = Row(id: int, localPath: string)

  /** The ids the sweep's SELECT returns, in row order. */
  function ExpiredIds(db: DbState, now: int): seq<int>
    requires WellFormed(db)
  {
    Select(db.table, db.order, f => Expired(f, now))
  }

  /** The rows the sweep's SELECT returns, in row order. */
  function ExpiredRows(db: DbState, now: int): seq<Row>
    requires WellFormed(db)
  {
    var ids := ExpiredIds(db, now);
    seq(|ids|, i requires 0 <= i < |ids| => Row(ids[i], db.table[ids[i]].localPath))
  }

  lemma ExpiredIdsSpec(db: DbState, now: int)
    requires WellFormed(db)
    ensures var ids := ExpiredIds(db, now);
      && (forall i :: 0 <= i < |ids| ==> ids[i] in db.table && Expired(db.table[ids[i]], now))
      && Distinct(ids)
      && (forall id :: id in db.table && Expired(db.table[id], now) ==> id in ids)
      && ((forall id :: id in db.table ==> !Expired(db.table[id], now)) ==> ids == [])
  {
    var ids := ExpiredIds(db, now);
    SelectDistinct(db.table, db.order, f => Expired(f, now));
    if forall id :: id in db.table ==> !Expired(db.table[id], now) {
      SelectNone(db.table, db.order, f => Expired(f, now));
    }
    forall id | id in db.table && Expired(db.table[id], now) ensures id in ids {
      var k :| 0 <= k < |db.order| && db.order[k] == id;
    }
  }

  /** The SELECT returns each expired row exactly once, with its stored
      local_path, and nothing else. */
  lemma ExpiredRowsSpec(db: DbState, now: int)
    requires WellFormed(db)
    ensures var rows := ExpiredRows(db, now);
      && (forall i :: 0 <= i < |rows| ==> rows[i].id in db.table)
      && (forall i :: 0 <= i < |rows| ==> Expired(db.table[rows[i].id], now))
      && (forall i :: 0 <= i < |rows| ==> rows[i].localPath == db.table[rows[i].id].localPath)
      && (forall i, j :: 0 <= i < j < |rows| ==> rows[i].id != rows[j].id)
      && (forall id :: id in db.table && Expired(db.table[id], now) ==>
            exists i :: 0 <= i < |rows| && rows[i].id == id)
      && ((forall id :: id in db.table ==> !Expired(db.table[id], now)) ==> rows == [])
  {
    var ids := ExpiredIds(db, now);
    var rows := ExpiredRows(db, now);
    ExpiredIdsSpec(db, now);
    assert |rows| == |ids|;
    assert forall i :: 0 <= i < |rows| ==> rows[i].id == ids[i];
    forall id | id in db.table && Expired(db.table[id], now)
      ensures exists i :: 0 <= i < |rows| && rows[i].id == id
    {
      var k :| 0 <= k < |ids| && ids[k] == id;
      assert rows[k].id == id;
    }
  }

  /** What each external call of one sweep does: the SELECT, and per row
      (named by its id) the scan, the file removal, the DELETE and the
      RowsAffected call; iterationFailsAfter says that rows.Next stopped
      with an error after that many rows. */
  datatype SweepFaults = SweepFaults(
    queryFails: bool,
    scanFails: set<int>,
    removeFails: set<int>,
    deleteFails: set<int>,
    rowsAffectedFails: set<int>,
    iterationFailsAfter: Option<nat>)

  const NoFaults: SweepFaults := SweepFaults(false, {}, {}, {}, {}, None)

  /** What the sweep reads and writes: the database and the files on disk. */
  datatype SweepState = SweepState(db: DbState, blobs: set<string>)

  datatype SweepResult = SweepResult(state: SweepState, count: nat, failed: bool)

  /** The rows the loop body runs on. */
  function Processed(db: DbState, now: int, f: SweepFaults): (rows: seq<Row>)
    requires WellFormed(db)
  {
    var rows := ExpiredRows(db, now);
    rows[..Delivered(|rows|, f.iterationFailsAfter)]
  }

  /** One pass of the loop body: the state after the row and whether it
      is counted as deleted. */
  function Step(st: SweepState, r: Row, f: SweepFaults): (next: (SweepState, nat))
    requires WellFormed(st.db)
    ensures WellFormed(next.0.db)
  {
    if r.id in f.scanFails then (st, 0)
    else
      var path := Normalize(r.localPath);
      var blobs :=
        if path !in st.blobs then st.blobs          // missing: logged, row still deleted
        else if r.id in f.removeFails then st.blobs // remove failed: logged, row still deleted
        else st.blobs - {path};
      if r.id in f.deleteFails then (SweepState(st.db, blobs), 0)
      else
        var affected := if r.id in st.db.table && r.id !in f.rowsAffectedFails then 1 else 0;
        (SweepState(DeleteRow(st.db, r.id), blobs), affected)
  }

  /** The loop body run on rows, left to right. */
  function Fold(st: SweepState, rows: seq<Row>, f: SweepFaults): (r: (SweepState, nat))
    requires WellFormed(st.db)
    ensures WellFormed(r.0.db) && r.0.db.users == st.db.users
    decreases |rows|
  {
    if rows == [] then (st, 0)
    else
      var mid := Fold(st, rows[..|rows| - 1], f);
      var next := Step(mid.0, rows[|rows| - 1], f);
      (next.0, mid.1 + next.1)
  }

  /** One call of deleteExpiredFiles. */
  function Sweep(st: SweepState, now: int, f: SweepFaults): SweepResult
    requires WellFormed(st.db)
  {
    if f.queryFails then SweepResult(st, 0, true)
    else
      var done := Fold(st, Processed(st.db, now, f), f);
      SweepResult(done.0, done.1, f.iterationFailsAfter.Some?)
  }

  // ---------------------------------------------------------------------
  // What a run of the loop body does, independent of the order of rows

  /** The rows whose metadata DELETE is issued and succeeds. */
  predicate Deletes(r: Row, f: SweepFaults) {
    r.id !in f.scanFails && r.id !in f.deleteFails
  }

  /** The rows the counter counts. */
  predicate Counted(r: Row, f: SweepFaults) {
    Deletes(r, f) && r.id !in f.rowsAffectedFails
  }

  function DeletedIds(rows: seq<Row>, f: SweepFaults): set<int> {
    set i | 0 <= i < |rows| && Deletes(rows[i], f) :: rows[i].id
  }

  function CountedIds(rows: seq<Row>, f: SweepFaults): set<int> {
    set i | 0 <= i < |rows| && Counted(rows[i], f) :: rows[i].id
  }

  /** The local paths whose removal is attempted and succeeds. */
  function RemovedPaths(rows: seq<Row>, f: SweepFaults): set<string> {
    set i | 0 <= i < |rows| && rows[i].id !in f.scanFails && rows[i].id !in f.removeFails :: Normalize(rows[i].localPath)
  }

  lemma LastRowSets(rows: seq<Row>, f: SweepFaults)
    requires rows != []
    ensures var init, last := rows[..|rows| - 1], rows[|rows| - 1];
      && DeletedIds(rows, f) == DeletedIds(init, f) + (if Deletes(last, f) then {last.id} else {})
      && CountedIds(rows, f) == CountedIds(init, f) + (if Counted(last, f) then {last.id} else {})
      && RemovedPaths(rows, f) == RemovedPaths(init, f) +
           (if last.id !in f.scanFails && last.id !in f.removeFails then {Normalize(last.localPath)} else {})
  {
    var init := rows[..|rows| - 1];
    assert forall i :: 0 <= i < |init| ==> init[i] == rows[i];
  }

  /** One row's pass removes its metadata row when its DELETE succeeds
      and its file when that removal succeeds. */
  lemma StepEffect(st: SweepState, r: Row, f: SweepFaults)
    requires WellFormed(st.db)
    ensures Step(st, r, f).0.db.table == st.db.table - (if Deletes(r, f) then {r.id} else {})
    ensures Step(st, r, f).0.blobs == st.blobs -
      (if r.id !in f.scanFails && r.id !in f.removeFails then {Normalize(r.localPath)} else {})
    ensures Step(st, r, f).1 == if Counted(r, f) && r.id in st.db.table then 1 else 0
  {
    if !Deletes(r, f) {
      assert st.db.table - {} == st.db.table;
    }
    if r.id in f.scanFails || r.id in f.removeFails {
      assert st.blobs - {} == st.blobs;
    }
  }

  lemma SubtractTwice<K, V>(m: map<K, V>, a: set<K>, b: set<K>)
    ensures (m - a) - b == m - (a + b)
  {
  }

  lemma SubtractTwiceSet<T>(s: set<T>, a: set<T>, b: set<T>)
    ensures (s - a) - b == s - (a + b)
  {
  }

  /** The metadata rows removed are exactly those of the rows whose DELETE
      succeeded, whatever happened to their files; the files removed are
      exactly the normalised paths whose removal succeeded. */
  lemma {:induction false} FoldEffect(st: SweepState, rows: seq<Row>, f: SweepFaults)
    requires WellFormed(st.db)
    ensures Fold(st, rows, f).0.db.table == st.db.table - DeletedIds(rows, f)
    ensures Fold(st, rows, f).0.blobs == st.blobs - RemovedPaths(rows, f)
    decreases |rows|
  {
    if rows == [] {
      assert st.db.table - {} == st.db.table;
      assert st.blobs - {} == st.blobs;
    } else {
      var init, last := rows[..|rows| - 1], rows[|rows| - 1];
      FoldEffect(st, init, f);
      LastRowSets(rows, f);
      var mid := Fold(st, init, f);
      StepEffect(mid.0, last, f);
      SubtractTwice(st.db.table, DeletedIds(init, f), if Deletes(last, f) then {last.id} else {});
      SubtractTwiceSet(st.blobs, RemovedPaths(init, f),
        if last.id !in f.scanFails && last.id !in f.removeFails then {Normalize(last.localPath)} else {});
    }
  }

  /** With every row of the table once, the counter counts exactly the
      rows whose DELETE succeeded and whose RowsAffected reported the row. */
  lemma {:induction false} FoldCount(st: SweepState, rows: seq<Row>, f: SweepFaults)
    requires WellFormed(st.db)
    requires forall i :: 0 <= i < |rows| ==> rows[i].id in st.db.table
    requires forall i, j :: 0 <= i < j < |rows| ==> rows[i].id != rows[j].id
    ensures Fold(st, rows, f).1 == |CountedIds(rows, f)|
    ensures Fold(st, rows, f).1 <= |rows|
    decreases |rows|
  {
    if rows == [] {
      assert CountedIds(rows, f) == {};
    } else {
      var init := rows[..|rows| - 1];
      assert forall i :: 0 <= i < |init| ==> init[i] == rows[i];
      FoldCount(st, init, f);
      FoldCountLast(st, rows, f);
    }
  }

  /** The inductive step of FoldCount: the last row is counted once when
      its DELETE and RowsAffected succeed, since no earlier row has its id. */
  lemma FoldCountLast(st: SweepState, rows: seq<Row>, f: SweepFaults)
    requires WellFormed(st.db) && rows != []
    requires forall i :: 0 <= i < |rows| ==> rows[i].id in st.db.table
    requires forall i, j :: 0 <= i < j < |rows| ==> rows[i].id != rows[j].id
    requires var init := rows[..|rows| - 1];
      Fold(st, init, f).1 == |CountedIds(init, f)| && Fold(st, init, f).1 <= |init|
    ensures Fold(st, rows, f).1 == |CountedIds(rows, f)|
    ensures Fold(st, rows, f).1 <= |rows|
  {
    var init, last := rows[..|rows| - 1], rows[|rows| - 1];
    FoldEffect(st, init, f);
    var mid := Fold(st, init, f);
    LastIdIsNew(rows, f);
    assert last.id in mid.0.db.table;
    StepEffect(mid.0, last, f);
    var counted := Step(mid.0, last, f).1;
    assert counted == if Counted(last, f) then 1 else 0;
    LastRowSets(rows, f);
    AddNewId(CountedIds(init, f), last.id, Counted(last, f));
    assert Fold(st, rows, f).1 == mid.1 + counted;
  }

  lemma AddNewId(s: set<int>, x: int, b: bool)
    requires x !in s
    ensures |s + (if b then {x} else {})| == |s| + (if b then 1 else 0)
  {
    if !b {
      assert s + {} == s;
    }
  }

  /** With distinct ids, the last row's id is not among the earlier rows'. */
  lemma LastIdIsNew(rows: seq<Row>, f: SweepFaults)
    requires rows != []
    requires forall i, j :: 0 <= i < j < |rows| ==> rows[i].id != rows[j].id
    ensures var init, last := rows[..|rows| - 1], rows[|rows| - 1];
      last.id !in DeletedIds(init, f) && last.id !in CountedIds(init, f)
  {
    var init, last := rows[..|rows| - 1], rows[|rows| - 1];
    assert forall i :: 0 <= i < |init| ==> init[i] == rows[i];
    assert forall i :: 0 <= i < |init| ==> init[i].id != last.id;
    CountedAreDeleted(init, f);
  }

  lemma CountedAreDeleted(rows: seq<Row>, f: SweepFaults)
    ensures CountedIds(rows, f) <= DeletedIds(rows, f)
  {
  }

  // ---------------------------------------------------------------------
  // Properties of one sweep

  /** A failing SELECT returns (0, err) and changes nothing. */
  lemma SweepQueryFailure(st: SweepState, now: int, f: SweepFaults)
    requires WellFormed(st.db) && f.queryFails
    ensures Sweep(st, now, f) == SweepResult(st, 0, true)
  {
  }

  /** The effect of one sweep: the table loses the rows whose DELETE
      succeeded, the disk loses the files whose removal succeeded, the
      count is the number of rows counted, at most the number selected, and
      an error is reported exactly when the SELECT or the iteration failed. */
  lemma SweepEffect(st: SweepState, now: int, f: SweepFaults)
    requires WellFormed(st.db) && !f.queryFails
    ensures var r, rows := Sweep(st, now, f), Processed(st.db, now, f);
      && r.state.db.table == st.db.table - DeletedIds(rows, f)
      && r.state.db.users == st.db.users
      && r.state.blobs == st.blobs - RemovedPaths(rows, f)
      && r.count == |CountedIds(rows, f)|
      && CountedIds(rows, f) <= DeletedIds(rows, f)
      && 0 <= r.count <= |ExpiredRows(st.db, now)|
      && r.failed == f.iterationFailsAfter.Some?
  {
    var rows := Processed(st.db, now, f);
    var all := ExpiredRows(st.db, now);
    ExpiredRowsSpec(st.db, now);
    assert forall i :: 0 <= i < |rows| ==> rows[i] == all[i];
    FoldEffect(st, rows, f);
    FoldCount(st, rows, f);
    CountedAreDeleted(rows, f);
  }

  /** A row that is not expired (a future expiry, or the zero-time
      sentinel) is never removed or changed. */
  lemma SweepKeepsUnexpired(st: SweepState, now: int, f: SweepFaults, id: int)
    requires WellFormed(st.db)
    requires id in st.db.table && !Expired(st.db.table[id], now)
    ensures id in Sweep(st, now, f).state.db.table
    ensures Sweep(st, now, f).state.db.table[id] == st.db.table[id]
  {
    if !f.queryFails {
      SweepEffect(st, now, f);
      var rows := Processed(st.db, now, f);
      assert id !in DeletedIds(rows, f);
    }
  }

  /** Only files named by a selected, successfully scanned row are removed:
      removal never reaches a file on any other ground. */
  lemma SweepRemovesOnlySelectedFiles(st: SweepState, now: int, f: SweepFaults, p: string)
    requires WellFormed(st.db)
    requires p in st.blobs && p !in Sweep(st, now, f).state.blobs
    ensures exists i :: (0 <= i < |ExpiredRows(st.db, now)|
      && ExpiredRows(st.db, now)[i].id !in f.scanFails
      && Normalize(ExpiredRows(st.db, now)[i].localPath) == p)
  {
    SweepEffect(st, now, f);
    var rows := Processed(st.db, now, f);
    var i :| 0 <= i < |rows| && rows[i].id !in f.scanFails && rows[i].id !in f.removeFails
      && Normalize(rows[i].localPath) == p;
    assert rows[i] == ExpiredRows(st.db, now)[i];
  }

  /** A delivered row loses its metadata exactly when it scanned and its
      DELETE succeeded: a missing file or a failed removal never prevents
      the DELETE, and a row whose scan failed is skipped. */
  lemma SweepMetadataDelete(st: SweepState, now: int, f: SweepFaults, i: nat)
    requires WellFormed(st.db) && !f.queryFails
    requires i < |Processed(st.db, now, f)|
    ensures var r := Processed(st.db, now, f)[i];
      r.id !in Sweep(st, now, f).state.db.table <==> r.id !in f.scanFails && r.id !in f.deleteFails
  {
    var rows := Processed(st.db, now, f);
    SweepEffect(st, now, f);
    var r := rows[i];
    ExpiredRowsSpec(st.db, now);
    if r.id in DeletedIds(rows, f) {
      var j :| 0 <= j < |rows| && Deletes(rows[j], f) && rows[j].id == r.id;
      assert rows[j] == ExpiredRows(st.db, now)[j];
      assert rows[i] == ExpiredRows(st.db, now)[i];
      assert j == i;
    }
  }

  /** A selected row whose scan failed keeps its metadata unchanged. */
  lemma SweepSkipsUnscannedRow(st: SweepState, now: int, f: SweepFaults, id: int)
    requires WellFormed(st.db)
    requires id in st.db.table && id in f.scanFails
    ensures id in Sweep(st, now, f).state.db.table
    ensures Sweep(st, now, f).state.db.table[id] == st.db.table[id]
  {
    if !f.queryFails {
      SweepEffect(st, now, f);
      assert id !in DeletedIds(Processed(st.db, now, f), f);
    }
  }

  lemma {:induction false} DistinctIdsCount(rows: seq<Row>, f: SweepFaults)
    requires forall i, j :: 0 <= i < j < |rows| ==> rows[i].id != rows[j].id
    requires forall i :: 0 <= i < |rows| ==> Counted(rows[i], f)
    ensures |CountedIds(rows, f)| == |rows|
    decreases |rows|
  {
    if rows == [] {
      assert CountedIds(rows, f) == {};
    } else {
      var init, last := rows[..|rows| - 1], rows[|rows| - 1];
      assert forall i :: 0 <= i < |init| ==> init[i] == rows[i];
      DistinctIdsCount(init, f);
      LastRowSets(rows, f);
      assert forall i :: 0 <= i < |init| ==> init[i].id != last.id;
      assert last.id !in CountedIds(init, f);
    }
  }

  /** With no faults every row's DELETE and file removal are attempted
      and succeed, and every row is counted. */
  lemma NoFaultsSets(rows: seq<Row>)
    ensures forall i :: 0 <= i < |rows| ==> Counted(rows[i], NoFaults)
    ensures forall i :: 0 <= i < |rows| ==> rows[i].id in DeletedIds(rows, NoFaults)
    ensures forall i :: 0 <= i < |rows| ==> Normalize(rows[i].localPath) in RemovedPaths(rows, NoFaults)
  {
  }

  /** With every call succeeding, no expired row is left and no error is
      reported ... */
  lemma SweepWithoutFaults(st: SweepState, now: int)
    requires WellFormed(st.db)
    ensures var r := Sweep(st, now, NoFaults);
      && (forall id :: id in r.state.db.table ==> !Expired(r.state.db.table[id], now))
      && !r.failed
  {
    var rows := ExpiredRows(st.db, now);
    ExpiredRowsSpec(st.db, now);
    assert Processed(st.db, now, NoFaults) == rows;
    SweepEffect(st, now, NoFaults);
    NoFaultsSets(rows);
    var r := Sweep(st, now, NoFaults);
    forall id | id in st.db.table && Expired(st.db.table[id], now)
      ensures id in DeletedIds(rows, NoFaults)
    {
      var i :| 0 <= i < |rows| && rows[i].id == id;
    }
    assert forall id :: id in r.state.db.table ==> r.state.db.table[id] == st.db.table[id];
  }

  /** ... every selected row is counted, and none of their files is left
      on disk. */
  lemma SweepWithoutFaultsCount(st: SweepState, now: int)
    requires WellFormed(st.db)
    ensures var r := Sweep(st, now, NoFaults);
      && r.count == |ExpiredRows(st.db, now)|
      && (forall i :: 0 <= i < |ExpiredRows(st.db, now)| ==>
            Normalize(ExpiredRows(st.db, now)[i].localPath) !in r.state.blobs)
  {
    var rows := ExpiredRows(st.db, now);
    ExpiredRowsSpec(st.db, now);
    assert Processed(st.db, now, NoFaults) == rows;
    SweepEffect(st, now, NoFaults);
    NoFaultsSets(rows);
    DistinctIdsCount(rows, NoFaults);
  }

  /** A second sweep at the same time with every call succeeding finds
      nothing: it returns 0 and changes nothing. */
  lemma SweepIdempotent(st: SweepState, now: int)
    requires WellFormed(st.db)
    ensures var once := Sweep(st, now, NoFaults).state;
      Sweep(once, now, NoFaults) == SweepResult(once, 0, false)
  {
    SweepWithoutFaults(st, now);
    var once := Sweep(st, now, NoFaults).state;
    ExpiredRowsSpec(once.db, now);
    assert ExpiredRows(once.db, now) == [];
    assert Processed(once.db, now, NoFaults) == [];
  }

  // ---------------------------------------------------------------------
  // The imperative sweep over the live handles

  /** Running the loop body on one more row. */
  lemma FoldSnoc(st: SweepState, rows: seq<Row>, i: nat, f: SweepFaults,
                 mid: SweepState, count: nat, next: SweepState, counted: nat)
    requires WellFormed(st.db) && i < |rows|
    requires Fold(st, rows[..i], f) == (mid, count)
    requires WellFormed(mid.db) && Step(mid, rows[i], f) == (next, counted)
    ensures Fold(st, rows[..i + 1], f) == (next, count + counted)
  {
    var pre := rows[..i + 1];
    assert pre[..|pre| - 1] == rows[..i];
    assert pre[|pre| - 1] == rows[i];
  }

  /** The body of the loop in deleteExpiredFiles for one scanned row:
      normalise its path, remove the file if it is there, then issue the
      DELETE; returns 1 when RowsAffected reported the row. */
  method SweepRow(db: Database, disk: Disk, row: Row, f: SweepFaults) returns (counted: nat)
    requires db.Valid()
    modifies db, disk
    ensures db.Valid()
    ensures Step(old(SweepState(db.Value(), disk.blobs)), row, f)
      == (SweepState(db.Value(), disk.blobs), counted)
  {
    if row.id in f.scanFails {
      return 0;
    }
    var localPath := row.localPath;
    if !IsAbs(localPath) && localPath != "" {
      if HasPrefix(localPath, "http://") || HasPrefix(localPath, "https://") {
        localPath := Join(UploadDir, Base(localPath));
      } else {
        localPath := Join(UploadDir, localPath);
      }
    }
    if localPath in disk.blobs {
      var err := disk.Remove(localPath, row.id in f.removeFails);
    }
    if row.id in f.deleteFails {
      return 0;
    }
    var rowsAffected := db.DeleteById(row.id);
    if row.id in f.rowsAffectedFails {
      rowsAffected := 0;
    }
    counted := if rowsAffected > 0 then 1 else 0;
  }

  /** The loop of deleteExpiredFiles over the rows the iteration
      delivers, counting the deleted rows. */
  method SweepRows(db: Database, disk: Disk, rows: seq<Row>, f: SweepFaults) returns (deletedFiles: nat)
    requires db.Valid()
    modifies db, disk
    ensures db.Valid()
    ensures Fold(old(SweepState(db.Value(), disk.blobs)), rows, f)
      == (SweepState(db.Value(), disk.blobs), deletedFiles)
  {
    ghost var start := SweepState(db.Value(), disk.blobs);
    deletedFiles := 0;
    var i := 0;
    assert rows[..i] == [];
    while i < |rows|
      invariant db.Valid() && FoldedUpTo(start, rows, i, f, SweepState(db.Value(), disk.blobs), deletedFiles)
    {
      var counted := SweepNext(db, disk, start, rows, i, f, deletedFiles);
      deletedFiles := deletedFiles + counted;
      i := i + 1;
    }
    assert rows[..i] == rows;
  }

  /** The loop has run over the first i rows, reaching st with count n. */
  ghost predicate FoldedUpTo(start: SweepState, rows: seq<Row>, i: nat, f: SweepFaults, st: SweepState, n: nat) {
    WellFormed(start.db) && i <= |rows| && Fold(start, rows[..i], f) == (st, n)
  }

  /** One turn of that loop: the loop body on the next row extends the
      fold over the rows done so far by that row. */
  method SweepNext(db: Database, disk: Disk, ghost start: SweepState, rows: seq<Row>, i: nat,
                   f: SweepFaults, ghost count: nat) returns (counted: nat)
    requires db.Valid() && i < |rows| && FoldedUpTo(start, rows, i, f, SweepState(db.Value(), disk.blobs), count)
    modifies db, disk
    ensures db.Valid() && FoldedUpTo(start, rows, i + 1, f, SweepState(db.Value(), disk.blobs), count + counted)
  {
    ghost var mid := SweepState(db.Value(), disk.blobs);
    counted := SweepRow(db, disk, rows[i], f);
    FoldSnoc(start, rows, i, f, mid, count, SweepState(db.Value(), disk.blobs), counted);
  }

  /** deleteExpiredFiles: one SELECT of the expired rows, then the loop;
      an iteration error after the loop is returned along with the count. */
  method DeleteExpiredFiles(db: Database, disk: Disk, now: int, f: SweepFaults)
    returns (deletedFiles: nat, failed: bool)
    requires db.Valid()
    modifies db, disk
    ensures db.Valid()
    ensures Sweep(old(SweepState(db.Value(), disk.blobs)), now, f)
      == SweepResult(SweepState(db.Value(), disk.blobs), deletedFiles, failed)
  {
    if f.queryFails {
      return 0, true;
    }
    var rows := Processed(db.Value(), now, f);
    deletedFiles := SweepRows(db, disk, rows, f);
    failed := f.iterationFailsAfter.Some?;
  }

  /** What StartFileCleanup logs for its first cycle. */
  datatype CycleLog = NotStarted | Completed(filesDeleted: nat) | CycleError(filesDeleted: nat)

  /** StartFileCleanup up to the end of its first cycle: a nil database
      stops it before any sweep; otherwise one sweep runs, and its error
      is logged rather than stopping the service. */
  method StartFileCleanup(db: Database?, disk: Disk, now: int, f: SweepFaults) returns (log: CycleLog)
    requires db != null ==> db.Valid()
    modifies db, disk
    ensures db == null ==> log == NotStarted && disk.blobs == old(disk.blobs)
    ensures db != null ==> db.Valid()
    ensures db != null ==>
      var r := Sweep(old(SweepState(db.Value(), disk.blobs)), now, f);
      && SweepState(db.Value(), disk.blobs) == r.state
      && log == (if r.failed then CycleError(r.count) else Completed(r.count))
  {
    if db == null {
      return NotStarted;
    }
    var filesDeleted, failed := DeleteExpiredFiles(db, disk, now, f);
    log := if failed then CycleError(filesDeleted) else Completed(filesDeleted);
  }
}
