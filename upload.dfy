/** The upload handler (fileupload/upload.go): store the bytes under a
    fresh name, check the owner, insert the metadata row, cache it. */
module Upload {
  import opened Model
  import opened Paths
  import opened Decimal
  import opened Keys
  import opened Stores

  /** The owner every upload is recorded under (fileupload/upload.go:51). */
  const UploadUser: int := 14

  /** What the multipart parsing of the request yields. */
  datatype Form =
    | ParseFails                                  // ParseMultipartForm failed
    | NoFilePart                                  // no "file" part
    | FilePart(filename: string, size: int)       // the part's header

  /** How the three filesystem calls of saveFileLocally end. */
  datatype WriteOutcome =
    | WriteOk
    | MkdirFails    // os.MkdirAll fails: nothing is created
    | CreateFails   // os.Create fails: nothing is created
    | CopyFails     // io.Copy fails after os.Create: the file stays, partly written

  /** Which external calls of one upload fail. */
  datatype UploadFaults = UploadFaults(
    write: WriteOutcome,
    ownerQueryFails: bool,
    insertFails: bool,
    cacheSetFails: bool)

  predicate IsHexLower(c: char) {
    '0' <= c <= '9' || 'a' <= c <= 'f'
  }

  /** The text of uuid.New().String(): 36 characters, lower-case hex in
      groups of 8-4-4-4-12 separated by '-'. */
  predicate IsUuidText(u: string) {
    && |u| == 36
    && (forall i :: 0 <= i < 36 ==> (u[i] == '-' <==> i in {8, 13, 18, 23}))
    && (forall i :: 0 <= i < 36 && u[i] != '-' ==> IsHexLower(u[i]))
  }

  /** The name the bytes are stored under: the fresh identifier followed
      by the extension of the client's filename. */
  function StoredName(uuid: string, filename: string): string {
    uuid + Ext(filename)
  }

  /** The stored name is one plain path element ... */
  lemma StoredNameIsSegment(uuid: string, filename: string)
    requires IsUuidText(uuid)
    ensures IsSegment(StoredName(uuid, filename))
  {
    var name := StoredName(uuid, filename);
    var e := Ext(filename);
    forall i | 0 <= i < |name| ensures name[i] != '/' {
      if i < 36 {
        assert name[i] == uuid[i];
      } else {
        assert name[i] == e[i - 36];
      }
    }
  }

  /** ... whose extension is the extension of the client's filename. */
  lemma StoredNameExt(uuid: string, filename: string)
    requires IsUuidText(uuid)
    ensures Ext(StoredName(uuid, filename)) == Ext(filename)
  {
    var e := Ext(filename);
    if e == "" {
      assert StoredName(uuid, filename) == uuid;
      ExtOfPlain(uuid);
    } else {
      ExtOfSuffix(uuid, e);
    }
  }

  /** What saveFileLocally does to the files on disk, and the public URL
      it returns when every call succeeds. */
  function SaveSpec(blobs: set<string>, name: string, outcome: WriteOutcome): (r: (set<string>, Option<string>))
  {
    match outcome
    case MkdirFails => (blobs, None)
    case CreateFails => (blobs, None)
    case CopyFails => (blobs + {LocalFilePath(name)}, None)
    case WriteOk => (blobs + {LocalFilePath(name)}, Some(PublicUrl(name)))
  }

  /** The metadata row an upload inserts (fileupload/upload.go:67-78). */
  function NewRecord(owner: int, name: string, filename: string, size: int, url: string, now: int): File {
    File(0, owner, name, now, size, url, Ext(filename), "", "", false, ZeroTime)
  }

  function Error(status: int, message: string): Response {
    Response(status, Message(message))
  }

  /** One upload by owner: the new state and the reply. newId is the id the
      database assigns to the inserted row, now the time.Now() value. */
  function UploadSpec(w: World, hasCache: bool, owner: int, form: Form, uuid: string,
                      now: int, newId: int, f: UploadFaults): (World, Response)
    requires WellFormed(w.db) && newId !in w.db.table
  {
    match form
    case ParseFails => (w, Error(StatusBadRequest, "Failed to parse form"))
    case NoFilePart => (w, Error(StatusBadRequest, "Unable to get file"))
    case FilePart(filename, size) =>
      var name := StoredName(uuid, filename);
      var (blobs, url) := SaveSpec(w.blobs, name, f.write);
      if url.None? then
        (w.(blobs := blobs), Error(StatusInternalServerError, "Failed to save file locally"))
      else
        RecordSpec(w.(blobs := blobs), hasCache, owner, NewRecord(owner, name, filename, size, url.value, now), newId, f)
  }

  /** The part of an upload after the bytes are saved: the owner check,
      the INSERT of the metadata row and its cache entry. */
  function RecordSpec(w: World, hasCache: bool, owner: int, record: File, newId: int, f: UploadFaults): (World, Response)
    requires WellFormed(w.db) && newId !in w.db.table
  {
    if f.ownerQueryFails then
      (w, Error(StatusInternalServerError, "Failed to check user existence"))
    else if owner !in w.db.users then
      (w, Error(StatusNotFound, "User  not found"))
    else if f.insertFails then
      (w, Error(StatusInternalServerError, "Failed to save file metadata"))
    else
      var db := InsertRow(w.db, record, newId);
      if !hasCache then
        (w.(db := db), Panicked)   // Set on a nil *redis.Client
      else
        var cache :=
          if f.cacheSetFails then w.cache
          else w.cache[MetadataKey(newId) := Entry(Metadata(record.(id := newId)), 0)];
        (World(db, w.blobs, cache), Response(StatusOK, FileUrl(record.localPath)))
  }

  // ---------------------------------------------------------------------
  // What one upload does, case by case

  /** A form that does not parse, or has no "file" part, is refused with
      400 before anything is written. */
  lemma UploadRejectsBadForm(w: World, hasCache: bool, owner: int, form: Form, uuid: string,
                             now: int, newId: int, f: UploadFaults)
    requires WellFormed(w.db) && newId !in w.db.table
    requires !form.FilePart?
    ensures var (w', resp) := UploadSpec(w, hasCache, owner, form, uuid, now, newId, f);
      w' == w && resp.Response? && resp.status == StatusBadRequest
  {
  }

  /** A failed write is reported as 500 before the database or the cache is
      used; only a failed copy leaves a (partial) file behind. */
  lemma UploadWriteFailure(w: World, hasCache: bool, owner: int, form: Form, uuid: string,
                           now: int, newId: int, f: UploadFaults)
    requires WellFormed(w.db) && newId !in w.db.table
    requires form.FilePart? && f.write != WriteOk
    ensures var (w', resp) := UploadSpec(w, hasCache, owner, form, uuid, now, newId, f);
      var path := LocalFilePath(StoredName(uuid, form.filename));
      && resp == Error(StatusInternalServerError, "Failed to save file locally")
      && w'.db == w.db && w'.cache == w.cache
      && w'.blobs == (if f.write == CopyFails then w.blobs + {path} else w.blobs)
  {
  }

  /** An unknown owner gets 404 and no row, but the bytes written first
      stay on disk under uploads/<name>. */
  lemma UploadOwnerMissing(w: World, hasCache: bool, owner: int, form: Form, uuid: string,
                           now: int, newId: int, f: UploadFaults)
    requires WellFormed(w.db) && newId !in w.db.table && IsUuidText(uuid)
    requires form.FilePart? && f.write == WriteOk && !f.ownerQueryFails && owner !in w.db.users
    ensures var (w', resp) := UploadSpec(w, hasCache, owner, form, uuid, now, newId, f);
      && resp == Error(StatusNotFound, "User  not found")
      && w'.db == w.db && w'.cache == w.cache
      && w'.blobs == w.blobs + {UploadDir + "/" + StoredName(uuid, form.filename)}
  {
    StoredNameIsSegment(uuid, form.filename);
    LocalFilePathOfSegment(StoredName(uuid, form.filename));
  }

  /** A failed owner check or a failed insert gives 500 and no row, and the
      written file is not removed. */
  lemma UploadDatabaseFailure(w: World, hasCache: bool, owner: int, form: Form, uuid: string,
                              now: int, newId: int, f: UploadFaults)
    requires WellFormed(w.db) && newId !in w.db.table
    requires form.FilePart? && f.write == WriteOk
    requires f.ownerQueryFails || (owner in w.db.users && f.insertFails)
    ensures var (w', resp) := UploadSpec(w, hasCache, owner, form, uuid, now, newId, f);
      && resp.Response? && resp.status == StatusInternalServerError
      && resp.body == Message(if f.ownerQueryFails then "Failed to check user existence"
                              else "Failed to save file metadata")
      && w'.db == w.db && w'.cache == w.cache
      && w'.blobs == w.blobs + {LocalFilePath(StoredName(uuid, form.filename))}
  {
  }

  /** A successful upload replies 200 with the public URL of the stored
      name and inserts a row owned by owner, with the stored name, the
      client's extension as its type, not shared, with no expiration and
      that same URL as its local path ... */
  lemma UploadSuccess(w: World, owner: int, form: Form, uuid: string,
                      now: int, newId: int, f: UploadFaults)
    requires WellFormed(w.db) && newId !in w.db.table
    requires form.FilePart? && f.write == WriteOk && !f.ownerQueryFails
    requires owner in w.db.users && !f.insertFails
    ensures var (w', resp) := UploadSpec(w, true, owner, form, uuid, now, newId, f);
      var name := StoredName(uuid, form.filename);
      var url := "http://localhost:8080/uploads/" + name;
      && resp == Response(StatusOK, FileUrl(url))
      && newId in w'.db.table
      && w'.db.table[newId] == File(newId, owner, name, now, form.size, url, Ext(form.filename), "", "", false, ZeroTime)
  {
    var name := StoredName(uuid, form.filename);
    var url := PublicUrl(name);
    PublicUrlText(name);
    var record := NewRecord(owner, name, form.filename, form.size, url, now);
    var cache := if f.cacheSetFails then w.cache
      else w.cache[MetadataKey(newId) := Entry(Metadata(record.(id := newId)), 0)];
    assert UploadSpec(w, true, owner, form, uuid, now, newId, f) ==
      (World(InsertRow(w.db, record, newId), w.blobs + {LocalFilePath(name)}, cache), Response(StatusOK, FileUrl(url)));
  }

  /** ... the bytes are written to uploads/<name>, a name whose extension
      is the row's file type ... */
  lemma UploadWritesStoredName(w: World, hasCache: bool, owner: int, form: Form, uuid: string,
                               now: int, newId: int, f: UploadFaults)
    requires WellFormed(w.db) && newId !in w.db.table && IsUuidText(uuid)
    requires form.FilePart? && f.write == WriteOk
    ensures var (w', resp) := UploadSpec(w, hasCache, owner, form, uuid, now, newId, f);
      var name := StoredName(uuid, form.filename);
      && w'.blobs == w.blobs + {"uploads/" + name}
      && Ext(name) == Ext(form.filename)
  {
    var name := StoredName(uuid, form.filename);
    StoredNameIsSegment(uuid, form.filename);
    StoredNameExt(uuid, form.filename);
    LocalFilePathOfSegment(name);
    var (w', resp) := UploadSpec(w, hasCache, owner, form, uuid, now, newId, f);
    assert w'.blobs == w.blobs + {LocalFilePath(name)};
    assert UploadDir + "/" + name == "uploads/" + name;
  }

  /** ... leaving every other row as it was ... */
  lemma UploadInsertsOneRow(w: World, hasCache: bool, owner: int, form: Form, uuid: string,
                            now: int, newId: int, f: UploadFaults)
    requires WellFormed(w.db) && newId !in w.db.table
    requires form.FilePart? && f.write == WriteOk && !f.ownerQueryFails
    requires owner in w.db.users && !f.insertFails
    ensures var (w', resp) := UploadSpec(w, hasCache, owner, form, uuid, now, newId, f);
      && w'.db.table.Keys == w.db.table.Keys + {newId}
      && (forall id :: id in w.db.table ==> w'.db.table[id] == w.db.table[id])
      && w'.db.order == w.db.order + [newId]
      && w'.db.users == w.db.users
  {
    var name := StoredName(uuid, form.filename);
    var record := NewRecord(owner, name, form.filename, form.size, PublicUrl(name), now);
    var (w', resp) := UploadSpec(w, hasCache, owner, form, uuid, now, newId, f);
    assert w'.db == InsertRow(w.db, record, newId);
  }

  /** ... and caches the inserted row under file_metadata:<id> with no
      TTL, unless that SET fails. */
  lemma UploadSuccessCache(w: World, owner: int, form: Form, uuid: string,
                           now: int, newId: int, f: UploadFaults)
    requires WellFormed(w.db) && newId !in w.db.table
    requires form.FilePart? && f.write == WriteOk && !f.ownerQueryFails
    requires owner in w.db.users && !f.insertFails
    ensures var (w', resp) := UploadSpec(w, true, owner, form, uuid, now, newId, f);
      w'.cache == (if f.cacheSetFails then w.cache
                   else w.cache[MetadataKey(newId) := Entry(Metadata(w'.db.table[newId]), 0)])
  {
    var name := StoredName(uuid, form.filename);
    var record := NewRecord(owner, name, form.filename, form.size, PublicUrl(name), now);
    var (w', resp) := UploadSpec(w, true, owner, form, uuid, now, newId, f);
    assert w'.db == InsertRow(w.db, record, newId);
    assert w'.db.table[newId] == record.(id := newId);
  }

  /** An upload writes at most the metadata key of the new row, and no
      other key of the keyspace. */
  lemma UploadWritesOnlyMetadata(w: World, hasCache: bool, owner: int, form: Form, uuid: string,
                                 now: int, newId: int, f: UploadFaults)
    requires WellFormed(w.db) && newId !in w.db.table
    ensures var (w', _) := UploadSpec(w, hasCache, owner, form, uuid, now, newId, f);
      && w'.cache.Keys <= w.cache.Keys + {MetadataKey(newId)}
      && (forall k :: k in w.cache && k != MetadataKey(newId) ==> k in w'.cache && w'.cache[k] == w.cache[k])
  {
    var (w', _) := UploadSpec(w, hasCache, owner, form, uuid, now, newId, f);
    if form.FilePart? && f.write == WriteOk && !f.ownerQueryFails && owner in w.db.users && !f.insertFails
       && hasCache && !f.cacheSetFails {
      var name := StoredName(uuid, form.filename);
      var record := NewRecord(owner, name, form.filename, form.size, PublicUrl(name), now);
      assert w'.cache == w.cache[MetadataKey(newId) := Entry(Metadata(record.(id := newId)), 0)];
    } else {
      assert w'.cache == w.cache;
    }
  }

  /** The listing caches are never written by an upload, so a cached
      listing of the owner does not show the new file. */
  lemma UploadLeavesListingCache(w: World, hasCache: bool, owner: int, form: Form, uuid: string,
                                 now: int, newId: int, f: UploadFaults, user: int)
    requires WellFormed(w.db) && newId !in w.db.table
    ensures var (w', _) := UploadSpec(w, hasCache, owner, form, uuid, now, newId, f);
      && (ListingKey(user) in w'.cache <==> ListingKey(user) in w.cache)
      && (ListingKey(user) in w.cache ==> w'.cache[ListingKey(user)] == w.cache[ListingKey(user)])
  {
    KeysDistinct(newId, user);
    UploadWritesOnlyMetadata(w, hasCache, owner, form, uuid, now, newId, f);
  }

  /** Without a cache client the row is inserted and the handler then
      panics on the cache write, before replying. */
  lemma UploadWithoutCache(w: World, owner: int, form: Form, uuid: string,
                           now: int, newId: int, f: UploadFaults)
    requires WellFormed(w.db) && newId !in w.db.table
    requires form.FilePart? && f.write == WriteOk && !f.ownerQueryFails
    requires owner in w.db.users && !f.insertFails
    ensures var (w', resp) := UploadSpec(w, false, owner, form, uuid, now, newId, f);
      && resp == Panicked
      && newId in w'.db.table && w'.cache == w.cache
  {
  }

  // ---------------------------------------------------------------------
  // The imperative handler over the live handles

  /** saveFileLocally: create the uploads directory, create the file, copy
      the bytes, and return the public URL; "" and an error on failure. */
  method SaveFileLocally(disk: Disk, fileName: string, outcome: WriteOutcome)
    returns (publicUrl: string, err: bool)
    modifies disk
    ensures (disk.blobs, if err then None else Some(publicUrl)) == SaveSpec(old(disk.blobs), fileName, outcome)
    ensures err ==> publicUrl == ""
  {
    var uploadDir := UploadDir;
    if outcome == MkdirFails {
      return "", true;
    }
    var localFilePath := Join(uploadDir, fileName);
    if outcome == CreateFails {
      return "", true;
    }
    disk.Create(localFilePath);
    if outcome == CopyFails {
      return "", true;
    }
    publicUrl := PublicPrefix + uploadDir + "/" + fileName;
    err := false;
  }

  /** UploadFile for the hard-coded owner. */
  method UploadFile(db: Database, disk: Disk, redisClient: Cache?, form: Form, uuid: string,
                    now: int, newId: int, f: UploadFaults) returns (resp: Response)
    requires db.Valid() && newId !in db.table
    modifies db, disk, redisClient
    ensures db.Valid()
    ensures (World(db.Value(), disk.blobs, Keyspace(redisClient)), resp)
      == UploadSpec(old(World(db.Value(), disk.blobs, Keyspace(redisClient))), redisClient != null,
                    UploadUser, form, uuid, now, newId, f)
  {
    if form == ParseFails {
      return Error(StatusBadRequest, "Failed to parse form");
    }
    if form == NoFilePart {
      return Error(StatusBadRequest, "Unable to get file");
    }
    var fileName := uuid + Ext(form.filename);
    var publicUrl, err := SaveFileLocally(disk, fileName, f.write);
    if err {
      return Error(StatusInternalServerError, "Failed to save file locally");
    }
    var fileMetadata := NewRecord(UploadUser, fileName, form.filename, form.size, publicUrl, now);
    resp := RecordUpload(db, disk, redisClient, fileMetadata, newId, f);
  }

  /** The rest of UploadFile once the file is saved. */
  method RecordUpload(db: Database, disk: Disk, redisClient: Cache?, fileMetadata: File,
                      newId: int, f: UploadFaults) returns (resp: Response)
    requires db.Valid() && newId !in db.table
    modifies db, redisClient
    ensures db.Valid()
    ensures (World(db.Value(), disk.blobs, Keyspace(redisClient)), resp)
      == RecordSpec(old(World(db.Value(), disk.blobs, Keyspace(redisClient))), redisClient != null,
                    fileMetadata.userId, fileMetadata, newId, f)
  {
    var userId := fileMetadata.userId;
    if f.ownerQueryFails {
      return Error(StatusInternalServerError, "Failed to check user existence");
    }
    var userExists := userId in db.users;
    if !userExists {
      return Error(StatusNotFound, "User  not found");
    }
    if f.insertFails {
      return Error(StatusInternalServerError, "Failed to save file metadata");
    }
    db.InsertReturningId(fileMetadata, newId);
    var stored := fileMetadata.(id := newId);
    if redisClient == null {
      return Panicked;
    }
    redisClient.Set(MetadataKey(stored.id), Metadata(stored), 0, f.cacheSetFails);
    resp := Response(StatusOK, FileUrl(fileMetadata.localPath));
  }
}
