/** The three handles the handlers are given: the SQL database (*sql.DB),
    the local disk under the working directory, and the Redis client. */
module Stores {
  import opened Model

  /** The files and users tables behind *sql.DB. */
  class Database {
    var table: map<int, File>
    var order: seq<int>
    var users: set<int>

    function Value(): DbState
      reads this
    {
      DbState(table, order, users)
    }

    ghost predicate Valid()
      reads this
    {
      WellFormed(Value())
    }

    constructor (users: set<int>)
      ensures Valid() && Value() == DbState(map[], [], users)
    {
      this.table := map[];
      this.order := [];
      this.users := users;
    }

    /** INSERT ... RETURNING id, the store numbering the row newId. */
    method InsertReturningId(f: File, newId: int)
      requires Valid() && newId !in table
      modifies this
      ensures Valid() && Value() == InsertRow(old(Value()), f, newId)
    {
      table := table[newId := f.(id := newId)];
      order := order + [newId];
    }

    /** DELETE FROM files WHERE id = $1, reporting the rows affected. */
    method DeleteById(id: int) returns (affected: nat)
      requires Valid()
      modifies this
      ensures Valid() && Value() == DeleteRow(old(Value()), id)
      ensures affected == if id in old(table) then 1 else 0
    {
      affected := if id in table then 1 else 0;
      var r := DeleteRow(Value(), id);
      table, order := r.table, r.order;
    }

    /** The rows.Next() loop of a listing query: Scan the given rows into
        files through the scanned columns, appending each one, and stop
        at the first Scan error. */
    method ScanRows(ids: seq<int>, failing: set<int>, columns: File -> File)
      returns (files: seq<File>, scanFailed: bool)
      requires forall i :: 0 <= i < |ids| ==> ids[i] in table
      ensures scanFailed == ScanFailsOn(ids, failing)
      ensures !scanFailed ==> files == Rows(table, ids, columns)
    {
      files := [];
      var i := 0;
      while i < |ids|
        invariant 0 <= i <= |ids|
        invariant files == Rows(table, ids[..i], columns)
        invariant !ScanFailsOn(ids[..i], failing)
      {
        if ids[i] in failing {
          return [], true;
        }
        var file := columns(table[ids[i]]);
        files := files + [file];
        assert ids[..i + 1] == ids[..i] + [ids[i]];
        i := i + 1;
      }
      assert ids[..i] == ids;
      scanFailed := false;
    }
  }

  /** The local files on disk, by path. */
  class Disk {
    var blobs: set<string>

    constructor ()
      ensures blobs == {}
    {
      blobs := {};
    }

    /** os.Create followed by a copy that got at least the file created. */
    method Create(path: string)
      modifies this
      ensures blobs == old(blobs) + {path}
    {
      blobs := blobs + {path};
    }

    /** os.Remove; fails says the call reported an error. */
    method Remove(path: string, fails: bool) returns (err: bool)
      modifies this
      ensures err == fails
      ensures blobs == if fails then old(blobs) else old(blobs) - {path}
    {
      err := fails;
      if !fails {
        blobs := blobs - {path};
      }
    }
  }

  /** The Redis keyspace. */
  class Cache {
    var entries: map<string, Entry>

    constructor ()
      ensures entries == map[]
    {
      entries := map[];
    }

    /** GET key: a value, or None for a missing key or a failed call. */
    method Get(key: string, fails: bool) returns (v: Option<Payload>)
      ensures v == if !fails && key in entries then Some(entries[key].value) else None
    {
      v := if !fails && key in entries then Some(entries[key].value) else None;
    }

    /** SET key value ttl; a failed call leaves the keyspace as it was. */
    method Set(key: string, value: Payload, ttl: int, fails: bool)
      modifies this
      ensures entries == if fails then old(entries) else old(entries)[key := Entry(value, ttl)]
    {
      if !fails {
        entries := entries[key := Entry(value, ttl)];
      }
    }
  }

  /** The keyspace seen through a possibly nil client. */
  function Keyspace(c: Cache?): map<string, Entry>
    reads c
  {
    if c == null then map[] else c.entries
  }
}
