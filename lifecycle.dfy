/** How the handlers and the sweep act on one another's data: an uploaded
    file as the listing, the search, the share handler and the sweep see
    it afterwards. */
module Lifecycle {
  import opened Model
  import opened Paths
  import opened Keys
  import opened Upload
  import opened Retrieve
  import opened Search
  import opened Cleanup

  /** The conditions under which an upload inserts its row: a file part,
      the write succeeds, the owner exists and the INSERT succeeds. */
  predicate Inserts(w: World, owner: int, form: Form, f: UploadFaults) {
    form.FilePart? && f.write == WriteOk && !f.ownerQueryFails && owner in w.db.users && !f.insertFails
  }

  // ---------------------------------------------------------------------
  // Rows that a condition rejects do not change a SELECT

  /** Appending a row the condition rejects leaves the selection alone. */
  lemma {:induction false} SelectSnocRejected(t: map<int, File>, t': map<int, File>, o: seq<int>, n: int,
                                              p: File -> bool)
    requires forall i :: 0 <= i < |o| ==> o[i] in t && o[i] in t' && t'[o[i]] == t[o[i]]
    requires n in t' && !p(t'[n])
    ensures Select(t', o + [n], p) == Select(t, o, p)
    decreases |o|
  {
    if o == [] {
      assert [] + [n] == [n];
      assert Select(t', [n], p) == Select(t', [], p);
    } else {
      assert (o + [n])[0] == o[0] && (o + [n])[1..] == o[1..] + [n];
      SelectSnocRejected(t, t', o[1..], n, p);
    }
  }

  /** A row inserted under another owner is not among a user's rows, and
      the user's rows are read back unchanged. */
  lemma OwnedIdsAfterInsert(db: DbState, rec: File, newId: int, user: int)
    requires WellFormed(db) && newId !in db.table && rec.userId != user
    ensures OwnedIds(InsertRow(db, rec, newId), user) == OwnedIds(db, user)
    ensures var ids := OwnedIds(db, user);
      Rows(InsertRow(db, rec, newId).table, ids, Listed) == Rows(db.table, ids, Listed)
  {
    var db' := InsertRow(db, rec, newId);
    SelectSnocRejected(db.table, db'.table, db.order, newId, (r: File) => r.userId == user);
  }

  /** Rows read from two tables that agree on the ids are the same. */
  lemma RowsAgree(t: map<int, File>, t': map<int, File>, ids: seq<int>, columns: File -> File)
    requires forall i :: 0 <= i < |ids| ==> ids[i] in t && ids[i] in t' && t'[ids[i]] == t[ids[i]]
    ensures Rows(t', ids, columns) == Rows(t, ids, columns)
  {
  }

  /** The same for the search's selection of a user's matching rows. */
  lemma SearchIdsAfterInsert(db: DbState, rec: File, newId: int, user: int, cs: seq<Clause>)
    requires WellFormed(db) && newId !in db.table && rec.userId != user
    ensures var db' := InsertRow(db, rec, newId);
      Select(db'.table, db'.order, (r: File) => Matches(r, user, cs))
        == Select(db.table, db.order, (r: File) => Matches(r, user, cs))
    ensures var ids := Select(db.table, db.order, (r: File) => Matches(r, user, cs));
      Rows(InsertRow(db, rec, newId).table, ids, Scanned) == Rows(db.table, ids, Scanned)
  {
    var db' := InsertRow(db, rec, newId);
    SelectSnocRejected(db.table, db'.table, db.order, newId, (r: File) => Matches(r, user, cs));
  }

  // ---------------------------------------------------------------------
  // Upload, then list

  /** After an upload, a listing of the same owner that misses the cache
      shows the new file: its stored name, its size, user_id left at 0. */
  lemma UploadThenList(w: World, owner: int, form: Form, uuid: string, now: int, newId: int,
                       f: UploadFaults, lf: ListFaults)
    requires WellFormed(w.db) && newId !in w.db.table && Inserts(w, owner, form, f)
    requires (lf.getFails || ListingKey(owner) !in w.cache) && !lf.queryFails
    requires lf.rowsEndAfter.None? && lf.scanFails == {}
    ensures var w' := UploadSpec(w, true, owner, form, uuid, now, newId, f).0;
      var resp := RetrieveSpec(w'.db, w'.cache, true, owner, lf).1;
      && resp.Response? && resp.body.Listing?
      && w'.db.table[newId].(userId := 0) in resp.body.files
      && w'.db.table[newId].fileName == StoredName(uuid, form.filename)
      && w'.db.table[newId].size == form.size
  {
    UploadSuccess(w, owner, form, uuid, now, newId, f);
    UploadLeavesListingCache(w, true, owner, form, uuid, now, newId, f, owner);
    var w' := UploadSpec(w, true, owner, form, uuid, now, newId, f).0;
    RetrieveListsOwnedFiles(w'.db, w'.cache, true, owner, lf, w'.db.table[newId].(userId := 0));
  }

  /** A listing cached before the upload is still what the owner gets:
      the upload does not invalidate it. */
  lemma UploadLeavesListingStale(w: World, hasCache: bool, owner: int, form: Form, uuid: string, now: int,
                                 newId: int, f: UploadFaults, lf: ListFaults)
    requires WellFormed(w.db) && newId !in w.db.table
    requires ListingKey(owner) in w.cache && !lf.getFails
    ensures var w' := UploadSpec(w, hasCache, owner, form, uuid, now, newId, f).0;
      RetrieveSpec(w'.db, w'.cache, true, owner, lf).1 == Response(StatusOK, w.cache[ListingKey(owner)].value)
  {
    UploadLeavesListingCache(w, hasCache, owner, form, uuid, now, newId, f, owner);
  }

  /** The database after an upload: the new row exactly when the upload
      gets as far as its INSERT. */
  lemma UploadDb(w: World, hasCache: bool, owner: int, form: Form, uuid: string, now: int, newId: int,
                 f: UploadFaults)
    requires WellFormed(w.db) && newId !in w.db.table
    ensures var w' := UploadSpec(w, hasCache, owner, form, uuid, now, newId, f).0;
      w'.db == if Inserts(w, owner, form, f) then
        var name := StoredName(uuid, form.filename);
        InsertRow(w.db, NewRecord(owner, name, form.filename, form.size, PublicUrl(name), now), newId)
      else w.db
  {
  }

  /** A row inserted under another owner changes nothing a user's listing
      returns or caches. */
  lemma ListingIgnoresInsert(db: DbState, rec: File, newId: int, user: int, cache: map<string, Entry>,
                             hasCache: bool, lf: ListFaults)
    requires WellFormed(db) && newId !in db.table && rec.userId != user
    ensures RetrieveSpec(InsertRow(db, rec, newId), cache, hasCache, user, lf)
      == RetrieveSpec(db, cache, hasCache, user, lf)
  {
    var db' := InsertRow(db, rec, newId);
    OwnedIdsAfterInsert(db, rec, newId, user);
    var ids := DeliveredIds(db, user, lf);
    assert DeliveredIds(db', user, lf) == ids;
    RowsAgree(db.table, db'.table, ids, Listed);
  }

  /** A row inserted under another owner changes nothing a user's search
      returns. */
  lemma SearchIgnoresInsert(db: DbState, rec: File, newId: int, user: int, name: string, uploadDate: string,
                            fileType: string, sf: SearchFaults)
    requires WellFormed(db) && newId !in db.table && rec.userId != user
    ensures SearchSpec(InsertRow(db, rec, newId), user, name, uploadDate, fileType, sf)
      == SearchSpec(db, user, name, uploadDate, fileType, sf)
  {
    var db' := InsertRow(db, rec, newId);
    var cs := SearchClauses(name, uploadDate, fileType);
    SearchIdsAfterInsert(db, rec, newId, user, cs);
    var all := Select(db.table, db.order, (r: File) => Matches(r, user, cs));
    var ids := all[..Delivered(|all|, sf.rowsEndAfter)];
    RowsAgree(db.table, db'.table, ids, Scanned);
  }

  /** An upload under one owner changes nothing another user's listing
      returns or caches. */
  lemma UploadInvisibleToOtherListing(w: World, owner: int, form: Form, uuid: string, now: int, newId: int,
                                      f: UploadFaults, user: int, cache: map<string, Entry>, hasCache: bool,
                                      lf: ListFaults)
    requires WellFormed(w.db) && newId !in w.db.table && owner != user
    ensures var w' := UploadSpec(w, true, owner, form, uuid, now, newId, f).0;
      RetrieveSpec(w'.db, cache, hasCache, user, lf) == RetrieveSpec(w.db, cache, hasCache, user, lf)
  {
    UploadDb(w, true, owner, form, uuid, now, newId, f);
    if Inserts(w, owner, form, f) {
      var name := StoredName(uuid, form.filename);
      var rec := NewRecord(owner, name, form.filename, form.size, PublicUrl(name), now);
      ListingIgnoresInsert(w.db, rec, newId, user, cache, hasCache, lf);
    }
  }

  /** An upload under one owner changes nothing another user's search
      returns. */
  lemma UploadInvisibleToOtherSearch(w: World, owner: int, form: Form, uuid: string, now: int, newId: int,
                                     f: UploadFaults, user: int, name: string, uploadDate: string,
                                     fileType: string, sf: SearchFaults)
    requires WellFormed(w.db) && newId !in w.db.table && owner != user
    ensures var w' := UploadSpec(w, true, owner, form, uuid, now, newId, f).0;
      SearchSpec(w'.db, user, name, uploadDate, fileType, sf) == SearchSpec(w.db, user, name, uploadDate, fileType, sf)
  {
    UploadDb(w, true, owner, form, uuid, now, newId, f);
    if Inserts(w, owner, form, f) {
      var stored := StoredName(uuid, form.filename);
      var rec := NewRecord(owner, stored, form.filename, form.size, PublicUrl(stored), now);
      SearchIgnoresInsert(w.db, rec, newId, user, name, uploadDate, fileType, sf);
    }
  }

  /** With the owners as the handlers hard-code them, a file uploaded by
      UploadFile never reaches RetrieveFiles or SearchFiles. */
  lemma HardCodedOwnersDisagree(w: World, form: Form, uuid: string, now: int, newId: int, f: UploadFaults,
                                cache: map<string, Entry>, hasCache: bool, lf: ListFaults,
                                name: string, uploadDate: string, fileType: string, sf: SearchFaults)
    requires WellFormed(w.db) && newId !in w.db.table
    ensures var w' := UploadSpec(w, true, UploadUser, form, uuid, now, newId, f).0;
      && RetrieveSpec(w'.db, cache, hasCache, ListingUser, lf) == RetrieveSpec(w.db, cache, hasCache, ListingUser, lf)
      && SearchSpec(w'.db, SearchUser, name, uploadDate, fileType, sf)
           == SearchSpec(w.db, SearchUser, name, uploadDate, fileType, sf)
  {
    UploadInvisibleToOtherListing(w, UploadUser, form, uuid, now, newId, f, ListingUser, cache, hasCache, lf);
    UploadInvisibleToOtherSearch(w, UploadUser, form, uuid, now, newId, f, SearchUser,
                                 name, uploadDate, fileType, sf);
  }

  // ---------------------------------------------------------------------
  // Upload, then share

  /** Sharing an uploaded file that is not cached yields its stored URL
      behind the public prefix a second time. */
  lemma UploadThenShare(w: World, owner: int, form: Form, uuid: string, now: int, newId: int,
                        f: UploadFaults, sf: ShareFaults)
    requires WellFormed(w.db) && newId !in w.db.table && Inserts(w, owner, form, f)
    requires (sf.getFails || ShareKey(newId) !in w.cache) && !sf.queryFails
    ensures var w' := UploadSpec(w, true, owner, form, uuid, now, newId, f).0;
      var url := "http://localhost:8080/" + ("http://localhost:8080/uploads/" + StoredName(uuid, form.filename));
      ShareSpec(w'.db, w'.cache, true, newId, sf).1 == Response(StatusOK, Text(url))
  {
    UploadSuccess(w, owner, form, uuid, now, newId, f);
    UploadSuccessCache(w, owner, form, uuid, now, newId, f);
    KeysDistinct(newId, newId);
    var w' := UploadSpec(w, true, owner, form, uuid, now, newId, f).0;
    assert ShareKey(newId) !in w'.cache || sf.getFails;
    ShareMiss(w'.db, w'.cache, true, newId, sf);
  }

  // ---------------------------------------------------------------------
  // Upload, then sweep

  /** An uploaded row has no expiration, so no sweep at any time, with any
      faults, removes or changes it. */
  lemma UploadedRowNeverSwept(w: World, owner: int, form: Form, uuid: string, now: int, newId: int,
                              f: UploadFaults, later: int, cf: SweepFaults)
    requires WellFormed(w.db) && newId !in w.db.table && Inserts(w, owner, form, f)
    ensures var w' := UploadSpec(w, true, owner, form, uuid, now, newId, f).0;
      var swept := Sweep(SweepState(w'.db, w'.blobs), later, cf).state;
      newId in swept.db.table && swept.db.table[newId] == w'.db.table[newId]
  {
    UploadSuccess(w, owner, form, uuid, now, newId, f);
    var w' := UploadSpec(w, true, owner, form, uuid, now, newId, f).0;
    SweepKeepsUnexpired(SweepState(w'.db, w'.blobs), later, cf, newId);
  }

  /** The local path an upload records names, once the sweep normalises
      it, exactly the file the upload wrote: a sweep of that row would
      remove the upload's own file. */
  lemma UploadedPathIsSweepable(w: World, owner: int, form: Form, uuid: string, now: int, newId: int,
                                f: UploadFaults)
    requires WellFormed(w.db) && newId !in w.db.table && Inserts(w, owner, form, f) && IsUuidText(uuid)
    ensures var w' := UploadSpec(w, true, owner, form, uuid, now, newId, f).0;
      var path := Normalize(w'.db.table[newId].localPath);
      && path == "uploads/" + StoredName(uuid, form.filename)
      && path in w'.blobs
  {
    UploadSuccess(w, owner, form, uuid, now, newId, f);
    UploadWritesStoredName(w, true, owner, form, uuid, now, newId, f);
    var name := StoredName(uuid, form.filename);
    var w' := UploadSpec(w, true, owner, form, uuid, now, newId, f).0;
    PublicUrlText(name);
    assert w'.db.table[newId].localPath == PublicUrl(name);
    StoredNameIsSegment(uuid, form.filename);
    NormalizePublicUrl(name);
    assert UploadDir + "/" + name == "uploads/" + name by {
      assert UploadDir + "/" == "uploads/";
    }
  }

  /** A share link cached before a fault-free sweep keeps being served for
      a row the sweep deleted, while a reply without the cache is 404. */
  lemma ShareOutlivesSweep(st: SweepState, now: int, cache: map<string, Entry>, id: int, sf: ShareFaults)
    requires WellFormed(st.db)
    requires id in st.db.table && Expired(st.db.table[id], now)
    requires ShareKey(id) in cache && !sf.getFails
    ensures var swept := Sweep(st, now, NoFaults).state;
      && id !in swept.db.table
      && ShareSpec(swept.db, cache, true, id, sf).1 == Response(StatusOK, cache[ShareKey(id)].value)
      && ShareSpec(swept.db, cache, false, id, sf).1 == Response(StatusNotFound, Message("File not found"))
  {
    SweepWithoutFaults(st, now);
    var swept := Sweep(st, now, NoFaults).state;
    SweepEffect(st, now, NoFaults);
    assert forall k :: k in swept.db.table ==> k in st.db.table && swept.db.table[k] == st.db.table[k];
    assert id !in swept.db.table;
  }
}
