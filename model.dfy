/** The records the handlers exchange (models/structure.go), the value of
    the files database, the cache entries and the HTTP responses. */
module Model {

  /** The zero time.Time{}: "no expiration". Times are integers (seconds). */
  const ZeroTime: int := 0

  /** One row of the files table (models/structure.go:5-17). */
  datatype File = File(
    id: int,
    userId: int,
    fileName: string,
    uploadDate: int,
    size: int,
    localPath: string,
    fileType: string,
    s3Url: string,
    description: string,
    isShared: bool,
    expiration: int)

  /** The files table keyed by id, the order in which the database returns
      its rows, and the ids of the users table. */
  datatype DbState = DbState(table: map<int, File>, order: seq<int>, users: set<int>)

  predicate Distinct(ids: seq<int>) {
    forall i, j :: 0 <= i < j < |ids| ==> ids[i] != ids[j]
  }

  /** The row order lists every row of the table exactly once, and each row
      carries its own key as its id. */
  predicate WellFormed(db: DbState) {
    && Distinct(db.order)
    && (forall i :: 0 <= i < |db.order| ==> db.order[i] in db.table)
    && (forall id :: id in db.table ==> id in db.order)
    && (forall id :: id in db.table ==> db.table[id].id == id)
  }

  datatype Option<T> = None | Some(value: T)

  /** The row order with one id taken out. */
  function Without(order: seq<int>, id: int): (r: seq<int>)
    ensures forall x :: x in r <==> x in order && x != id
    ensures Distinct(order) ==> Distinct(r)
    decreases |order|
  {
    if order == [] then []
    else if order[0] == id then Without(order[1..], id)
    else
      var rest := Without(order[1..], id);
      assert Distinct(order) ==> order[0] !in rest;
      [order[0]] + rest
  }

  /** The database after an INSERT that the store numbered newId. */
  function InsertRow(db: DbState, f: File, newId: int): (r: DbState)
    requires WellFormed(db) && newId !in db.table
    ensures WellFormed(r)
    ensures r.table == db.table[newId := f.(id := newId)] && r.users == db.users
    ensures r.order == db.order + [newId]
  {
    DbState(db.table[newId := f.(id := newId)], db.order + [newId], db.users)
  }

  /** The database after DELETE FROM files WHERE id = $1. */
  function DeleteRow(db: DbState, id: int): (r: DbState)
    requires WellFormed(db)
    ensures WellFormed(r)
    ensures r.table == db.table - {id} && r.users == db.users
    ensures r.order == Without(db.order, id)
  {
    var order := Without(db.order, id);
    assert forall i :: 0 <= i < |order| ==> order[i] in order;
    DbState(db.table - {id}, order, db.users)
  }

  /** a is b with some elements left out, the rest kept in order. */
  predicate Subsequence(a: seq<int>, b: seq<int>)
    decreases |b|
  {
    if a == [] then true
    else if b == [] then false
    else (a[0] == b[0] && Subsequence(a[1..], b[1..])) || Subsequence(a, b[1..])
  }

  /** The ids of the rows satisfying p, in row order: what a database
      SELECT with that WHERE clause returns. */
  function Select(table: map<int, File>, order: seq<int>, p: File -> bool): (ids: seq<int>)
    requires forall i :: 0 <= i < |order| ==> order[i] in table
    ensures |ids| <= |order|
    ensures forall i :: 0 <= i < |ids| ==> ids[i] in table && p(table[ids[i]])
    ensures forall i :: 0 <= i < |ids| ==> ids[i] in order
    ensures forall i :: 0 <= i < |order| && p(table[order[i]]) ==> order[i] in ids
    ensures Subsequence(ids, order)
    decreases |order|
  {
    if order == [] then []
    else
      var tail := order[1..];
      var rest := Select(table, tail, p);
      assert forall i :: 0 <= i < |rest| ==> rest[i] in tail;
      assert forall i :: 0 < i < |order| ==> order[i] == tail[i - 1];
      if p(table[order[0]]) then
        var ids := [order[0]] + rest;
        assert ids[0] == order[0] && ids[1..] == rest;
        ids
      else rest
  }

  /** From rows listed once, a SELECT lists each row once. */
  lemma {:induction false} SelectDistinct(table: map<int, File>, order: seq<int>, p: File -> bool)
    requires forall i :: 0 <= i < |order| ==> order[i] in table
    requires Distinct(order)
    ensures Distinct(Select(table, order, p))
    decreases |order|
  {
    if order != [] {
      var tail := order[1..];
      DistinctTail(order);
      SelectDistinct(table, tail, p);
      if p(table[order[0]]) {
        var rest := Select(table, tail, p);
        assert order[0] !in tail;
        DistinctCons(order[0], rest);
      }
    }
  }

  lemma DistinctTail(s: seq<int>)
    requires s != [] && Distinct(s)
    ensures Distinct(s[1..]) && s[0] !in s[1..]
  {
    assert forall i :: 0 < i < |s| ==> s[1..][i - 1] == s[i];
  }

  lemma DistinctCons(x: int, s: seq<int>)
    requires x !in s && Distinct(s)
    ensures Distinct([x] + s)
  {
    var t := [x] + s;
    assert forall i :: 0 < i < |t| ==> t[i] == s[i - 1];
  }

  /** A condition no row satisfies selects nothing. */
  lemma {:induction false} SelectNone(table: map<int, File>, order: seq<int>, p: File -> bool)
    requires forall i :: 0 <= i < |order| ==> order[i] in table
    requires forall i :: 0 <= i < |order| ==> !p(table[order[i]])
    ensures Select(table, order, p) == []
    decreases |order|
  {
    if order != [] {
      SelectNone(table, order[1..], p);
    }
  }

  /** Two equivalent conditions select the same rows. */
  lemma {:induction false} SelectEquivalent(table: map<int, File>, order: seq<int>, p: File -> bool, q: File -> bool)
    requires forall i :: 0 <= i < |order| ==> order[i] in table
    requires forall i :: 0 <= i < |order| ==> (p(table[order[i]]) <==> q(table[order[i]]))
    ensures Select(table, order, p) == Select(table, order, q)
    decreases |order|
  {
    if order != [] {
      SelectEquivalent(table, order[1..], p, q);
    }
  }

  /** How many of n result rows a rows.Next() loop sees when the
      iteration fails after the given number of rows (None: it does not). */
  function Delivered(n: nat, failsAfter: Option<nat>): (k: nat)
    ensures k <= n
    ensures failsAfter.None? ==> k == n
  {
    match failsAfter
    case None => n
    case Some(after) => if after < n then after else n
  }

  /** Some row among ids fails to Scan. */
  predicate ScanFailsOn(ids: seq<int>, failing: set<int>) {
    exists i :: 0 <= i < |ids| && ids[i] in failing
  }

  /** The rows of the given ids, each passed through a column projection. */
  function Rows(table: map<int, File>, ids: seq<int>, columns: File -> File): (rows: seq<File>)
    requires forall i :: 0 <= i < |ids| ==> ids[i] in table
    ensures |rows| == |ids|
    ensures forall i :: 0 <= i < |ids| ==> rows[i] == columns(table[ids[i]])
  {
    seq(|ids|, i requires 0 <= i < |ids| => columns(table[ids[i]]))
  }

  /** A row listed from a SELECT is the projection of some row satisfying
      its condition, and every such row is listed. */
  lemma SelectedRows(db: DbState, p: File -> bool, columns: File -> File, x: File)
    requires WellFormed(db)
    ensures x in Rows(db.table, Select(db.table, db.order, p), columns) <==>
      exists id :: id in db.table && p(db.table[id]) && x == columns(db.table[id])
  {
    if x in Rows(db.table, Select(db.table, db.order, p), columns) {
      SelectedRowSound(db, p, columns, x);
    }
    if exists id :: id in db.table && p(db.table[id]) && x == columns(db.table[id]) {
      var id :| id in db.table && p(db.table[id]) && x == columns(db.table[id]);
      SelectedRowListed(db, p, columns, id);
    }
  }

  lemma SelectedRowSound(db: DbState, p: File -> bool, columns: File -> File, x: File)
    requires WellFormed(db)
    requires x in Rows(db.table, Select(db.table, db.order, p), columns)
    ensures exists id :: id in db.table && p(db.table[id]) && x == columns(db.table[id])
  {
    var ids := Select(db.table, db.order, p);
    var rows := Rows(db.table, ids, columns);
    var i :| 0 <= i < |rows| && rows[i] == x;
    assert ids[i] in db.table && p(db.table[ids[i]]);
  }

  lemma SelectedRowListed(db: DbState, p: File -> bool, columns: File -> File, id: int)
    requires WellFormed(db)
    requires id in db.table && p(db.table[id])
    ensures columns(db.table[id]) in Rows(db.table, Select(db.table, db.order, p), columns)
  {
    var ids := Select(db.table, db.order, p);
    var k :| 0 <= k < |db.order| && db.order[k] == id;
    assert id in ids;
    var j :| 0 <= j < |ids| && ids[j] == id;
    assert Rows(db.table, ids, columns)[j] == columns(db.table[id]);
  }

  /** What a body carries. Serialisation is left abstract: each payload
      kind is its own constructor, so distinct values never encode alike. */
  datatype Payload =
    | Listing(files: seq<File>)     // a JSON array of file records
    | Metadata(file: File)          // one JSON file record
    | FileUrl(url: string)          // the JSON object {"file_url": url}
    | Text(text: string)            // a plain-text body
    | Message(message: string)      // an http.Error message

  /** A cache value with the TTL argument it was set with (a
      time.Duration count, 0 meaning no expiry). */
  datatype Entry = Entry(value: Payload, ttl: int)

  /** Everything the handlers read and write: the database, the files on
      disk and the Redis keyspace. */
  datatype World = World(db: DbState, blobs: set<string>, cache: map<string, Entry>)

  /** An HTTP reply, or a handler that panicked before replying. */
  datatype Response = Response(status: int, body: Payload) | Panicked

  const StatusOK: int := 200
  const StatusBadRequest: int := 400
  const StatusNotFound: int := 404
  const StatusInternalServerError: int := 500
}
