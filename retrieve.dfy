/** The listing and sharing handlers (fileupload/retrieve.go): both read
    the cache first and fall back to the database. */
module Retrieve {
  import opened Model
  import opened Paths
  import opened Keys
  import opened Stores

  /** The user whose files are listed (fileupload/retrieve.go:15). */
  const ListingUser: int := 3

  /** Which external calls of one listing fail: the GET, the query, the
      Scan of given rows, the row iteration after some rows (an error
      the handler does not check: the loop just ends), and the SET. */
  datatype ListFaults = ListFaults(
    getFails: bool,
    queryFails: bool,
    scanFails: set<int>,
    rowsEndAfter: Option<nat>,
    setFails: bool)

  /** The columns RetrieveFiles scans: all but user_id, which stays 0. */
  function Listed(f: File): File {
    f.(userId := 0)
  }

  /** The ids of the owner's rows, in row order. */
  function OwnedIds(db: DbState, owner: int): seq<int>
    requires WellFormed(db)
  {
    Select(db.table, db.order, (r: File) => r.userId == owner)
  }

  /** The owned rows the iteration delivers. */
  function DeliveredIds(db: DbState, owner: int, f: ListFaults): seq<int>
    requires WellFormed(db)
  {
    var ids := OwnedIds(db, owner);
    ids[..Delivered(|ids|, f.rowsEndAfter)]
  }

  function Error(status: int, message: string): Response {
    Response(status, Message(message))
  }

  /** One RetrieveFiles call for owner on the database db: the keyspace
      afterwards and the reply. The database is only read. */
  function RetrieveSpec(db: DbState, cache: map<string, Entry>, hasCache: bool, owner: int, f: ListFaults)
    : (map<string, Entry>, Response)
    requires WellFormed(db)
  {
    var key := ListingKey(owner);
    if hasCache && !f.getFails && key in cache then
      (cache, Response(StatusOK, cache[key].value))
    else if f.queryFails then
      (cache, Error(StatusInternalServerError, "Failed to retrieve files"))
    else
      var ids := DeliveredIds(db, owner, f);
      if ScanFailsOn(ids, f.scanFails) then
        (cache, Error(StatusInternalServerError, "Failed to scan file"))
      else
        var files := Rows(db.table, ids, Listed);
        var cache' := if hasCache && !f.setFails then cache[key := Entry(Listing(files), 0)] else cache;
        (cache', Response(StatusOK, Listing(files)))
  }

  /** Which external calls of one share fail. */
  datatype ShareFaults = ShareFaults(getFails: bool, queryFails: bool, setFails: bool)

  /** How long a share URL is cached: the untyped constant 3600 passed as
      a time.Duration, that is 3600 nanoseconds. */
  const ShareTtl: int := 3600

  /** One ShareFile call for fileId on the database db: the keyspace
      afterwards and the reply. The database is only read. */
  function ShareSpec(db: DbState, cache: map<string, Entry>, hasCache: bool, fileId: int, f: ShareFaults)
    : (map<string, Entry>, Response)
  {
    var key := ShareKey(fileId);
    if hasCache && !f.getFails && key in cache then
      (cache, Response(StatusOK, cache[key].value))
    else if f.queryFails || fileId !in db.table then
      (cache, Error(StatusNotFound, "File not found"))
    else
      var url := PublicPrefix + db.table[fileId].localPath;
      var cache' := if hasCache && !f.setFails then cache[key := Entry(Text(url), ShareTtl)] else cache;
      (cache', Response(StatusOK, Text(url)))
  }

  // ---------------------------------------------------------------------
  // What the listing does

  /** The owner's rows are exactly the rows with that user_id, each once,
      in row order. */
  lemma OwnedIdsSpec(db: DbState, owner: int)
    requires WellFormed(db)
    ensures var ids := OwnedIds(db, owner);
      && (forall id :: id in ids <==> id in db.table && db.table[id].userId == owner)
      && Distinct(ids)
      && Subsequence(ids, db.order)
  {
    var ids := OwnedIds(db, owner);
    SelectDistinct(db.table, db.order, (r: File) => r.userId == owner);
    forall id | id in db.table && db.table[id].userId == owner ensures id in ids {
      var k :| 0 <= k < |db.order| && db.order[k] == id;
    }
  }

  /** A cached listing is returned as it is, whatever the table holds, and
      nothing changes. */
  lemma RetrieveHit(db: DbState, other: DbState, cache: map<string, Entry>, owner: int, f: ListFaults)
    requires WellFormed(db) && WellFormed(other)
    requires !f.getFails && ListingKey(owner) in cache
    ensures RetrieveSpec(db, cache, true, owner, f) == (cache, Response(StatusOK, cache[ListingKey(owner)].value))
    ensures RetrieveSpec(db, cache, true, owner, f) == RetrieveSpec(other, cache, true, owner, f)
  {
  }

  /** On a miss with every call succeeding, the reply lists the owner's
      rows in row order with user_id left at 0, and the listing is cached
      with no TTL. */
  lemma RetrieveMiss(db: DbState, cache: map<string, Entry>, owner: int, f: ListFaults)
    requires WellFormed(db)
    requires (f.getFails || ListingKey(owner) !in cache) && !f.queryFails
    requires f.rowsEndAfter.None? && f.scanFails == {} && !f.setFails
    ensures var ids := OwnedIds(db, owner);
      var files := seq(|ids|, i requires 0 <= i < |ids| => db.table[ids[i]].(userId := 0));
      RetrieveSpec(db, cache, true, owner, f)
        == (cache[ListingKey(owner) := Entry(Listing(files), 0)], Response(StatusOK, Listing(files)))
  {
    var ids := OwnedIds(db, owner);
    assert DeliveredIds(db, owner, f) == ids;
    var files := seq(|ids|, i requires 0 <= i < |ids| => db.table[ids[i]].(userId := 0));
    assert Rows(db.table, ids, Listed) == files;
  }

  /** The files listed all belong to the owner (before user_id is
      dropped), and every file of the owner is listed. */
  lemma RetrieveListsOwnedFiles(db: DbState, cache: map<string, Entry>, hasCache: bool, owner: int,
                                f: ListFaults, file: File)
    requires WellFormed(db)
    requires (!hasCache || f.getFails || ListingKey(owner) !in cache) && !f.queryFails
    requires f.rowsEndAfter.None? && f.scanFails == {}
    ensures var resp := RetrieveSpec(db, cache, hasCache, owner, f).1;
      && resp.Response? && resp.body.Listing?
      && (file in resp.body.files <==>
            exists id :: id in db.table && db.table[id].userId == owner && file == db.table[id].(userId := 0))
  {
    var ids := OwnedIds(db, owner);
    assert DeliveredIds(db, owner, f) == ids;
    assert !ScanFailsOn(ids, f.scanFails);
    var files := Rows(db.table, ids, Listed);
    assert RetrieveSpec(db, cache, hasCache, owner, f).1 == Response(StatusOK, Listing(files));
    ListedIff(db, owner, file);
  }

  lemma ListedIff(db: DbState, owner: int, file: File)
    requires WellFormed(db)
    ensures var ids := OwnedIds(db, owner);
      file in Rows(db.table, ids, Listed) <==>
        exists id :: id in db.table && db.table[id].userId == owner && file == db.table[id].(userId := 0)
  {
    SelectedRows(db, (r: File) => r.userId == owner, Listed, file);
  }

  /** A listing that was just cached is what the next call returns, without
      reading the table again. */
  lemma RetrieveTwice(db: DbState, later: DbState, cache: map<string, Entry>, owner: int,
                      f: ListFaults, g: ListFaults)
    requires WellFormed(db) && WellFormed(later)
    requires var (_, resp) := RetrieveSpec(db, cache, true, owner, f);
      resp.Response? && resp.status == StatusOK
    requires !f.setFails && !g.getFails
    ensures var (cache', resp) := RetrieveSpec(db, cache, true, owner, f);
      RetrieveSpec(later, cache', true, owner, g) == (cache', resp)
  {
  }

  /** Without a cache client the table is always read and the keyspace is
      never written; a failed query or scan gives 500 and writes nothing. */
  lemma RetrieveWithoutCacheOrOnError(db: DbState, cache: map<string, Entry>, other: map<string, Entry>,
                                      hasCache: bool, owner: int, f: ListFaults)
    requires WellFormed(db)
    ensures RetrieveSpec(db, cache, false, owner, f).0 == cache
    ensures RetrieveSpec(db, cache, false, owner, f).1 == RetrieveSpec(db, other, false, owner, f).1
    ensures (!hasCache || f.getFails || ListingKey(owner) !in cache) &&
            (f.queryFails || ScanFailsOn(DeliveredIds(db, owner, f), f.scanFails)) ==>
      var (cache', resp) := RetrieveSpec(db, cache, hasCache, owner, f);
      cache' == cache && resp.Response? && resp.status == StatusInternalServerError
  {
  }

  /** An iteration error is not noticed: the rows read before it are
      replied and cached as if they were the whole listing. */
  lemma RetrieveTruncatedListing(db: DbState, cache: map<string, Entry>, owner: int, f: ListFaults)
    requires WellFormed(db)
    requires (f.getFails || ListingKey(owner) !in cache) && !f.queryFails && !f.setFails
    requires f.scanFails == {} && f.rowsEndAfter.Some? && f.rowsEndAfter.value < |OwnedIds(db, owner)|
    ensures var (cache', resp) := RetrieveSpec(db, cache, true, owner, f);
      && resp.Response? && resp.status == StatusOK && resp.body.Listing?
      && |resp.body.files| == f.rowsEndAfter.value < |OwnedIds(db, owner)|
      && cache'[ListingKey(owner)] == Entry(resp.body, 0)
  {
  }

  // ---------------------------------------------------------------------
  // What sharing does

  /** A cached share URL is returned as it is, whatever the table holds. */
  lemma ShareHit(db: DbState, other: DbState, cache: map<string, Entry>, fileId: int, f: ShareFaults)
    requires !f.getFails && ShareKey(fileId) in cache
    ensures ShareSpec(db, cache, true, fileId, f) == (cache, Response(StatusOK, cache[ShareKey(fileId)].value))
    ensures ShareSpec(db, cache, true, fileId, f) == ShareSpec(other, cache, true, fileId, f)
  {
  }

  /** On a miss, an unknown id or a failed lookup gives 404 and writes
      nothing; a known id gives the public prefix followed by the stored
      local path, cached under shared_file:<id> with the 3600 TTL. */
  lemma ShareMiss(db: DbState, cache: map<string, Entry>, hasCache: bool, fileId: int, f: ShareFaults)
    requires !hasCache || f.getFails || ShareKey(fileId) !in cache
    ensures var (cache', resp) := ShareSpec(db, cache, hasCache, fileId, f);
      if f.queryFails || fileId !in db.table then
        cache' == cache && resp == Response(StatusNotFound, Message("File not found"))
      else
        var url := "http://localhost:8080/" + db.table[fileId].localPath;
        && resp == Response(StatusOK, Text(url))
        && cache' == (if hasCache && !f.setFails then cache[ShareKey(fileId) := Entry(Text(url), 3600)] else cache)
  {
  }

  /** Sharing checks neither owner, nor is_shared, nor expiration: only the
      stored local path of the row decides the URL. */
  lemma ShareIgnoresOwnership(db: DbState, other: DbState, cache: map<string, Entry>, hasCache: bool,
                              fileId: int, f: ShareFaults)
    requires fileId in db.table && fileId in other.table
    requires db.table[fileId].localPath == other.table[fileId].localPath
    ensures ShareSpec(db, cache, hasCache, fileId, f) == ShareSpec(other, cache, hasCache, fileId, f)
  {
  }

  /** A URL that was just cached is what the next share returns, even once
      the row is gone. */
  lemma ShareTwice(db: DbState, later: DbState, cache: map<string, Entry>, fileId: int,
                   f: ShareFaults, g: ShareFaults)
    requires var (_, resp) := ShareSpec(db, cache, true, fileId, f);
      resp.Response? && resp.status == StatusOK
    requires !f.setFails && !g.getFails
    ensures var (cache', resp) := ShareSpec(db, cache, true, fileId, f);
      ShareSpec(later, cache', true, fileId, g) == (cache', resp)
  {
  }

  // ---------------------------------------------------------------------
  // The imperative handlers over the live handles

  /** RetrieveFiles for the hard-coded user. */
  method RetrieveFiles(db: Database, redisClient: Cache?, f: ListFaults) returns (resp: Response)
    requires db.Valid()
    modifies redisClient
    ensures (Keyspace(redisClient), resp)
      == RetrieveSpec(db.Value(), old(Keyspace(redisClient)), redisClient != null, ListingUser, f)
  {
    var userId := ListingUser;
    var cacheKey := ListingKey(userId);
    if redisClient != null {
      var cachedFiles := redisClient.Get(cacheKey, f.getFails);
      if cachedFiles.Some? {
        return Response(StatusOK, cachedFiles.value);
      }
    }
    if f.queryFails {
      return Error(StatusInternalServerError, "Failed to retrieve files");
    }
    var rows := DeliveredIds(db.Value(), userId, f);
    var files, scanFailed := db.ScanRows(rows, f.scanFails, Listed);
    if scanFailed {
      return Error(StatusInternalServerError, "Failed to scan file");
    }
    if redisClient != null {
      redisClient.Set(cacheKey, Listing(files), 0, f.setFails);
    }
    resp := Response(StatusOK, Listing(files));
  }

  /** ShareFile for one file id. */
  method ShareFile(db: Database, redisClient: Cache?, fileId: int, f: ShareFaults) returns (resp: Response)
    modifies redisClient
    ensures (Keyspace(redisClient), resp)
      == ShareSpec(db.Value(), old(Keyspace(redisClient)), redisClient != null, fileId, f)
  {
    var cacheKey := ShareKey(fileId);
    if redisClient != null {
      var cachedUrl := redisClient.Get(cacheKey, f.getFails);
      if cachedUrl.Some? {
        return Response(StatusOK, cachedUrl.value);
      }
    }
    if f.queryFails || fileId !in db.table {
      return Error(StatusNotFound, "File not found");
    }
    var localPath := db.table[fileId].localPath;
    var publicUrl := PublicPrefix + localPath;
    if redisClient != null {
      redisClient.Set(cacheKey, Text(publicUrl), ShareTtl, f.setFails);
    }
    resp := Response(StatusOK, Text(publicUrl));
  }
}
