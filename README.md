# File lifecycle of the legacy file-sharing backend, in Dafny

This project models the core of a Go HTTP backend that stores uploaded files
on local disk, records their metadata in PostgreSQL, and caches listings and
share links in Redis. The model covers four handlers and one background job:

- **UploadFile** (`fileupload/upload.go`) parses the multipart form and
  stores the bytes as `uploads/<uuid><ext>` (`saveFileLocally`). It then
  checks the hard-coded owner (14), inserts the metadata row whose
  `local_path` is the public URL, caches the row under
  `file_metadata:<id>` with no TTL, and replies with `{"file_url": …}`.
- **RetrieveFiles** (`fileupload/retrieve.go`) reads `user_files:3` from the
  cache. On a miss it lists the rows of user 3, caches that listing with
  no TTL, and returns it.
- **ShareFile** (`fileupload/retrieve.go`) reads `shared_file:<id>` from the
  cache. On a miss it looks the row up and replies with
  `"http://localhost:8080/" + local_path`, cached with TTL argument 3600.
- **SearchFiles** (`fileupload/search.go`) builds a parameterised query from
  three optional filters (`name`, `upload_date`, `file_type`) for the
  hard-coded user 3, and lists five columns of the rows it selects.
- **deleteExpiredFiles / StartFileCleanup** (`job/file_cleanup.go`) selects
  expired rows, normalises each stored path to a local path, removes the
  file, deletes the row and counts the rows deleted. The job does nothing
  when the database handle is nil.

Each handler is an imperative method over three mutable handles (classes in
`stores.dfy`): `Database` (the files and users tables, plus the row order),
`Disk` (the set of file paths) and `Cache` (the Redis keyspace). Each method
is proved equal to a pure specification function of the old state:
`UploadSpec`, `RetrieveSpec`, `ShareSpec`, `SearchSpec` and `Sweep`. The
properties are lemmas about those functions.

External failures are parameters. Every database, disk and cache call that
can fail has a flag, or a set of row ids, in a `…Faults` value. Every error
branch of the source is therefore a reachable case of the model.

The search is modelled down to the query text. The handler builds a string
and an argument list. `Search.Execute` is a small interpreter of that query
family: it parses `$n` placeholders, binds arguments, and evaluates `ILIKE`
(`like.dfy`) and `::date =` (`dates.dfy`). The proofs show that the text
the handler builds means what its filters say.

The other files model library behaviour the handlers rely on:

- `paths.dfy` models `path/filepath` (`Clean`, `Join`, `Base`, `Ext`,
  `IsAbs`).
- `decimal.dfy` models `strconv.Itoa`.
- `keys.dfy` defines the three cache key families.
- `dates.dfy` models `time.Parse("2006-01-02", …)` and calendar days.

`lifecycle.dfy` relates the operations to one another.

Where the code's own comments say one thing and the code does another,
the model follows the code:

- **Share TTL.** The comment at `fileupload/retrieve.go:86` says "Cache for
  1 hour". The code passes the untyped constant `3600` as a
  `time.Duration`, which is 3600 ns. The model keeps the TTL argument as the
  integer 3600.
- **Share URL.** `fileupload/upload.go:72` stores the public URL as
  `local_path` ("Store the public URL instead of local path").
  `fileupload/retrieve.go:82` then adds the public prefix a second time, so
  the code produces
  `http://localhost:8080/http://localhost:8080/uploads/<name>`
  (`Lifecycle.UploadThenShare`).
- **Owners.** `fileupload/upload.go:50-51`, `fileupload/retrieve.go:15`
  and `fileupload/search.go:16` mark their hard-coded user ids as stand-ins
  for the user from the request context. As written, uploads go to user 14
  and listing and search read user 3, so an upload is never visible to
  either (`Lifecycle.HardCodedOwnersDisagree`).
- **Iteration errors.** The listing and search handlers never call
  `rows.Err()`. An iteration error silently truncates the reply, and the
  truncated listing is cached (`Retrieve.RetrieveTruncatedListing`,
  `Search.SearchTruncated`).

## Model

| member | source | states |
|---|---|---|
| Model.Select | job/file_cleanup.go:42 | A SELECT returns the ids of exactly the rows satisfying its condition, in row order (a subsequence of it) |
| Model.SelectDistinct | job/file_cleanup.go:42 | When the row order lists each row once, a SELECT returns each selected row once |
| Model.SelectNone | job/file_cleanup.go:42 | A condition that no row satisfies selects nothing |
| Model.Rows | fileupload/retrieve.go:38-48 | The scanned rows are the column projection of the selected rows, position by position |
| Model.Delivered | fileupload/retrieve.go:39 | A rows.Next loop that stops early sees a prefix of the rows, and sees all of them when the iteration does not fail |
| Model.InsertRow | fileupload/upload.go:81-85 | An INSERT adds exactly the new row under its returned id, after all earlier rows, and keeps the table well formed |
| Model.DeleteRow | job/file_cleanup.go:91 | DELETE … WHERE id = $1 removes exactly that row, keeps the other rows in their order and keeps the table well formed |
| Model.SelectedRows | fileupload/retrieve.go:30-48 | A listed record is the projection of some row satisfying the condition, and every such row is listed |
| Model.SelectEquivalent | fileupload/search.go:41 | Two conditions equivalent on every row select the same ids |
| Stores.Database.InsertReturningId | fileupload/upload.go:81-85 | The database after the INSERT … RETURNING id is InsertRow of the old one |
| Stores.Database.DeleteById | job/file_cleanup.go:91-97 | The database after the DELETE is DeleteRow of the old one, and RowsAffected is 1 exactly when the row existed |
| Stores.Database.ScanRows | fileupload/retrieve.go:39-48 | The Scan loop reports an error exactly when some row fails to scan; otherwise it returns the projection of every row in order |
| Stores.Disk.Create | fileupload/upload.go:115 | os.Create adds the path to the disk |
| Stores.Disk.Remove | job/file_cleanup.go:82 | os.Remove removes the path unless it fails, and reports the failure |
| Stores.Cache.Get | fileupload/retrieve.go:20 | GET returns the stored value exactly when the key is present and the call succeeds |
| Stores.Cache.Set | fileupload/retrieve.go:53 | SET stores the value with its TTL argument, or leaves the keyspace alone when it fails |
| Decimal.NatToStringInjective | fileupload/retrieve.go:16 | Different user or file ids never produce the same decimal text |
| Decimal.IntToStringInjective | fileupload/retrieve.go:63 | strconv.Itoa is injective over all integers, negative ones included |
| Decimal.ParseNatToString | fileupload/search.go:26 | Reading the digits of strconv.Itoa back gives the number |
| Keys.KeysDistinct | fileupload/upload.go:98 | Each key family names one id, and the listing, metadata and share keys never collide |
| Paths.Ext | fileupload/upload.go:40 | filepath.Ext is empty or a dot-led suffix of the name with no further dot or slash |
| Paths.CleanUnder | fileupload/upload.go:114 | filepath.Join of a plain directory name and a clean relative path is their concatenation with a slash |
| Paths.BaseOfPath | job/file_cleanup.go:69 | The base of dir/name is name |
| Paths.ExtOfSuffix | fileupload/upload.go:40 | The extension of a name ending in a dot-led suffix with no other dot is that suffix |
| Paths.NormalizeUrl | job/file_cleanup.go:66-70 | A relative path starting with http:// or https:// normalises to uploads/ joined with its last element |
| Paths.NormalizeRelative | job/file_cleanup.go:71-74 | Any other non-empty relative path normalises to uploads/ joined with the path |
| Paths.NormalizeAbsoluteOrEmpty | job/file_cleanup.go:66 | Absolute and empty paths are left as stored |
| Paths.NormalizePublicUrl | fileupload/upload.go:127 | Normalising the public URL of a stored name gives exactly the local path the upload wrote, uploads/name |
| Paths.Clean | job/file_cleanup.go:69-73 | filepath.Clean on a relative path: empty and "." segments dropped, ".." cancelling the segment before it (kept when there is none), or "." when nothing remains; the Join lemmas (CleanUnder) state what it yields for the paths the handlers build |
| Paths.Join | job/file_cleanup.go:69-73 | filepath.Join of a relative directory and an element: Clean of the two joined by a slash; CleanUnder states that joining a clean relative path under "uploads" is plain concatenation |
| Paths.Base | job/file_cleanup.go:69 | filepath.Base: the last element once trailing slashes are stripped, "." for the empty path and "/" for a path of slashes; BaseOfPath states that Base of dir/name is name |
| Paths.Normalize | job/file_cleanup.go:64-75 | The path the sweep removes for a stored local_path: an http(s) URL becomes Join("uploads", Base(p)), another non-empty relative path Join("uploads", p), an absolute or empty path stays; NormalizeUrl, NormalizeRelative, NormalizeAbsoluteOrEmpty and NormalizePublicUrl state each case |
| Cleanup.ExpiredIdsSpec | job/file_cleanup.go:42 | The sweep's SELECT returns only expired rows, each once, and every expired row; it returns nothing when no row is expired |
| Cleanup.ExpiredRowsSpec | job/file_cleanup.go:42 | The sweep selects every row whose expiration is before now and is not the zero time, each once with its local path, and nothing else |
| Cleanup.Expired | job/file_cleanup.go:42 | The WHERE clause of the sweep: the expiration is before now and is not the zero time; ExpiredIdsSpec and SweepKeepsUnexpired state what it selects and spares |
| Cleanup.Step | job/file_cleanup.go:53-104 | One pass of the loop body: a row that fails to scan is skipped; otherwise its normalised path is stat-ed and removed (a missing file or failed removal only logs), then its DELETE is issued and counted when it affects a row; WellFormed is kept; StepEffect states the effect |
| Cleanup.Fold | job/file_cleanup.go:53-104 | The loop body over the delivered rows left to right, summing the counts; it keeps WellFormed and the users table; FoldEffect and FoldCount state its result |
| Cleanup.Sweep | job/file_cleanup.go:40-113 | One call of deleteExpiredFiles: a failed SELECT returns (0, error) and changes nothing; otherwise the fold over the delivered expired rows, with an error exactly when the iteration failed; SweepEffect, SweepIdempotent and the other Sweep lemmas state its properties |
| Cleanup.StepEffect | job/file_cleanup.go:57-103 | One row's pass: a failed scan skips the row; otherwise the file goes unless its removal fails, the row goes unless its DELETE fails, and it is counted when RowsAffected reports it |
| Cleanup.FoldEffect | job/file_cleanup.go:53-104 | Over a run of rows, the rows removed are exactly those whose DELETE was issued and succeeded, and the files removed are exactly the normalised paths whose removal succeeded |
| Cleanup.FoldCount | job/file_cleanup.go:97-103 | The counter equals the number of rows counted and never exceeds the rows processed |
| Cleanup.SweepQueryFailure | job/file_cleanup.go:43-46 | A failing SELECT returns 0 with an error and changes nothing |
| Cleanup.SweepEffect | job/file_cleanup.go:40-113 | One sweep removes exactly the rows whose DELETE succeeded and the files whose removal succeeded; the count is at most the number selected; an error is reported exactly when the iteration failed |
| Cleanup.SweepKeepsUnexpired | job/file_cleanup.go:42 | A row with a future expiry or the zero time is never removed or changed, whatever fails |
| Cleanup.SweepRemovesOnlySelectedFiles | job/file_cleanup.go:77-88 | A file disappears only if it is the normalised path of a selected, scanned row |
| Cleanup.SweepMetadataDelete | job/file_cleanup.go:77-95 | A delivered row loses its metadata exactly when it scanned and its DELETE succeeded; a missing file or failed removal never prevents the DELETE |
| Cleanup.SweepSkipsUnscannedRow | job/file_cleanup.go:57-60 | A row whose scan fails keeps its metadata unchanged |
| Cleanup.SweepWithoutFaults | job/file_cleanup.go:53-112 | With every call succeeding, no expired row is left and no error is reported |
| Cleanup.SweepWithoutFaultsCount | job/file_cleanup.go:97-103 | With every call succeeding, every selected row is counted and none of their files is left |
| Cleanup.SweepIdempotent | job/file_cleanup.go:40-113 | A second fault-free sweep at the same time returns 0, reports nothing and changes nothing |
| Cleanup.SweepRow | job/file_cleanup.go:57-103 | The loop body on the live handles equals Step on the old state |
| Cleanup.SweepNext | job/file_cleanup.go:53-104 | One turn of the rows.Next loop extends the fold over the rows done so far by the next row |
| Cleanup.SweepRows | job/file_cleanup.go:53-104 | The rows.Next loop on the live handles equals Fold over the delivered rows |
| Cleanup.DeleteExpiredFiles | job/file_cleanup.go:40-113 | deleteExpiredFiles on the live handles equals Sweep of the old state, count and error included |
| Cleanup.StartFileCleanup | job/file_cleanup.go:14-30 | A nil database logs and stops before sweeping; otherwise the first cycle runs one sweep and logs its count or its error |
| Upload.StoredNameIsSegment | fileupload/upload.go:40 | A stored name (uuid + extension) is a single path element that cleaning leaves alone |
| Upload.StoredNameExt | fileupload/upload.go:40 | The stored name keeps the extension of the client's file name |
| Upload.StoredName | fileupload/upload.go:40 | The stored file name: the uuid text followed by the extension of the client file name; StoredNameIsSegment and StoredNameExt state its properties |
| Upload.SaveSpec | fileupload/upload.go:106-130 | saveFileLocally on the set of files: a failed MkdirAll or Create leaves the disk alone, a failed Copy leaves the created file, success adds uploads/name and returns the public URL; SaveFileLocally is proved equal to it |
| Upload.NewRecord | fileupload/upload.go:67-78 | The metadata row before the INSERT: the owner, stored name, upload time, size, public URL as local_path, the client extension as file type, empty S3 URL and description, not shared, zero expiration; UploadSuccess states the inserted row |
| Upload.UploadSpec | fileupload/upload.go:24-103 | One UploadFile call: the two 400 form errors, the 500 save error, then RecordSpec on the saved file; UploadFile is proved equal to it and the Upload lemmas state each path |
| Upload.RecordSpec | fileupload/upload.go:51-102 | The upload after the save: 500 when the owner query fails, 404 for an unknown owner, 500 when the INSERT fails, a panic with no cache client after the INSERT, otherwise the row cached under file_metadata:id with TTL 0 and 200 with the URL; RecordUpload is proved equal to it |
| Upload.UploadRejectsBadForm | fileupload/upload.go:25-36 | A form that does not parse or has no file part gets 400, and nothing changes |
| Upload.UploadWriteFailure | fileupload/upload.go:43-47 | A failed write gets 500 before the database or cache is used; only a failed copy leaves a file behind |
| Upload.UploadOwnerMissing | fileupload/upload.go:55-64 | An unknown owner gets 404 and no row, but the written file stays under uploads/ |
| Upload.UploadDatabaseFailure | fileupload/upload.go:55-91 | A failed owner check or failed insert gets 500 with its message and no row, and the written file is not removed |
| Upload.UploadSuccess | fileupload/upload.go:67-102 | A successful upload replies 200 with http://localhost:8080/uploads/name and inserts the row with that URL as local path, the client's extension as type, not shared and with the zero expiration |
| Upload.UploadWritesStoredName | fileupload/upload.go:106-124 | The bytes land at uploads/name, a name whose extension is the row's file type |
| Upload.UploadInsertsOneRow | fileupload/upload.go:81-85 | Exactly one row is added after the others; every other row and the users stay as they were |
| Upload.UploadSuccessCache | fileupload/upload.go:96-98 | The inserted row, id included, is cached under file_metadata:id with TTL 0, unless the SET fails |
| Upload.UploadWritesOnlyMetadata | fileupload/upload.go:96-98 | An upload writes at most the new row's metadata key; every other cache entry keeps its value |
| Upload.UploadLeavesListingCache | fileupload/upload.go:93-98 | No listing key is written or removed, so a cached listing goes stale |
| Upload.UploadWithoutCache | fileupload/upload.go:98 | With a nil cache client the row is inserted and the handler then panics, before replying |
| Upload.SaveFileLocally | fileupload/upload.go:106-130 | saveFileLocally's disk effect and URL equal SaveSpec; on error the URL is empty |
| Upload.RecordUpload | fileupload/upload.go:51-102 | After the save, the owner check, INSERT, cache SET and reply on the live handles equal RecordSpec of the old state |
| Upload.UploadFile | fileupload/upload.go:24-103 | The handler on the live handles, for owner 14, equals UploadSpec of the old state |
| Retrieve.OwnedIdsSpec | fileupload/retrieve.go:30 | The listing query returns exactly the owner's rows, each once, in row order |
| Retrieve.Listed | fileupload/retrieve.go:41-42 | The record a listing holds for a row: every column but user_id, which is not scanned and stays 0; RetrieveMiss and RetrieveListsOwnedFiles state the listing built from it |
| Retrieve.RetrieveSpec | fileupload/retrieve.go:14-58 | One RetrieveFiles call: a cache hit replies with the cached value; otherwise 500 on a failed query or scan, else the delivered rows as a listing, cached with TTL 0 when a client is present; RetrieveFiles is proved equal to it |
| Retrieve.ShareSpec | fileupload/retrieve.go:60-91 | One ShareFile call: a cache hit replies with the cached URL; otherwise 404 when the row is missing or the query fails, else prefix + local_path, cached with TTL argument 3600 when a client is present; ShareFile is proved equal to it |
| Retrieve.RetrieveHit | fileupload/retrieve.go:19-26 | A cached listing is returned verbatim whatever the table holds, and nothing changes |
| Retrieve.RetrieveMiss | fileupload/retrieve.go:30-57 | On a fault-free miss the reply lists the owner's rows in order with user_id 0, and that listing is cached with TTL 0 |
| Retrieve.RetrieveListsOwnedFiles | fileupload/retrieve.go:30-48 | A record is listed if and only if it is an owned row (with user_id dropped) |
| Retrieve.RetrieveTwice | fileupload/retrieve.go:51-54 | After a successful, cached reply the next call returns the same data from the cache, whatever the table holds |
| Retrieve.RetrieveWithoutCacheOrOnError | fileupload/retrieve.go:19-54 | Without a cache client the table is always read and the keyspace never written; a failed query or scan gives 500 with the cache unchanged |
| Retrieve.RetrieveTruncatedListing | fileupload/retrieve.go:39-57 | An iteration error goes unnoticed: the rows read before it are replied with 200 and cached as the whole listing |
| Retrieve.ShareHit | fileupload/retrieve.go:63-72 | A cached share URL is returned verbatim whatever the table holds |
| Retrieve.ShareMiss | fileupload/retrieve.go:74-90 | On a miss an unknown id gives 404 with nothing written; a known id gives http://localhost:8080/ + local_path, cached with TTL 3600 |
| Retrieve.ShareIgnoresOwnership | fileupload/retrieve.go:75-82 | Sharing checks neither owner, nor is_shared, nor expiration: only the stored local path decides the reply |
| Retrieve.ShareTwice | fileupload/retrieve.go:65-87 | A URL just cached is what the next share returns, even once the row is gone, as long as the 3600 ns entry has not expired |
| Retrieve.RetrieveFiles | fileupload/retrieve.go:14-58 | The handler on the live handles, for user 3, equals RetrieveSpec of the old keyspace |
| Retrieve.ShareFile | fileupload/retrieve.go:60-91 | The handler on the live handles equals ShareSpec of the old keyspace |
| Like.ContainsPattern | fileupload/search.go:25-27 | Pattern "%"+name+"%" matches a file name if and only if the name contains name, ignoring ASCII case, when name has no metacharacter |
| Like.SuffixPattern | fileupload/search.go:36-39 | Pattern "%."+type matches a file name if and only if it ends in "."+type, ignoring ASCII case, when type has no metacharacter |
| Like.LiteralThen | fileupload/search.go:26 | A literal pattern prefix matches exactly the same number of characters, up to case |
| Like.AnyMatches | fileupload/search.go:27 | A lone % matches every name |
| Like.LeadingAny | fileupload/search.go:27 | A leading % lets the rest of the pattern match any suffix |
| Like.NoEscapeWellEscaped | fileupload/search.go:38 | A pattern without a backslash never ends in a lone escape, so it is never refused |
| Like.ILike | fileupload/search.go:26 | ILIKE of a value against a pattern: % any run, _ any one character, \ the next character literally, ASCII letters compared without case; ContainsPattern, SuffixPattern, LiteralThen, AnyMatches and LeadingAny state what it matches |
| Dates.ParseFormatDate | fileupload/search.go:30 | The "2006-01-02" layout accepts the written form of every valid date and reads it back exactly |
| Dates.ParsedDateIsFormatted | fileupload/search.go:30-31 | Only texts that are the written form of a valid date parse at all |
| Dates.ParseDate | fileupload/search.go:30 | time.Parse with layout 2006-01-02: exactly four year digits, two month digits and two day digits with dashes, the month in 1..12 and the day in that month, else an error; ParseFormatDate and ParsedDateIsFormatted state that it accepts exactly the written valid dates |
| Dates.SameDayRange | fileupload/search.go:32 | upload_date::date = d holds exactly for the 86400 seconds of day d |
| Dates.NextDayInMonth | fileupload/search.go:32 | Consecutive days of a month are consecutive day numbers |
| Dates.NextDay | fileupload/search.go:32 | The calendar day after any valid date, across month and year ends and leap days, has the next day number |
| Dates.NextDateValid | fileupload/search.go:32 | The day after a valid date is a valid date, up to 9999-12-31 |
| Dates.EpochDay | fileupload/search.go:32 | Day number 0 is 1970-01-01, so day numbers count UTC days of Unix time |
| Search.Args | fileupload/search.go:23-38 | The argument list has the owner first, then the argument of each clause in clause order |
| Search.SearchClauses | fileupload/search.go:25-39 | The filters of one request in the order the handler adds them: name as %name%, the date only when it parses, the type as %.type; BuildSearchQuery is proved to build Query and Args of it |
| Search.Query | fileupload/search.go:22-38 | The query text: the base SELECT followed by each clause numbered from $2; QueryPlaceholders and ExecuteQuery state its placeholders and its meaning |
| Search.Execute | fileupload/search.go:41 | The database reading a query of this family: it parses the placeholders, binds the arguments and selects the owner's rows meeting every clause, or refuses the query; ExecuteQuery states that it reads the built query as its clauses |
| Search.Scanned | fileupload/search.go:51 | The record a search reply holds for a row: id, file name, upload date, size and local path, other columns at their zero values; SearchReturnsMatching states the reply built from it |
| Search.SearchSpec | fileupload/search.go:15-60 | One SearchFiles call: 500 on a failed or refused query, 500 on a failed scan, else the delivered matching rows with 200; SearchFiles is proved equal to it and SearchReturnsMatching states its meaning |
| Search.QueryPlaceholders | fileupload/search.go:22-39 | The placeholders of the built query are $1 … $n for n arguments, consecutive and each used once |
| Search.ExecuteQuery | fileupload/search.go:41-45 | The database reads the built query and arguments as exactly their clauses: the owner's rows satisfying every clause, or an error for a badly escaped pattern |
| Search.NoFilters | fileupload/search.go:22-23 | Without filters the query is the base query and the only argument is the owner |
| Search.UnparsableDateIgnored | fileupload/search.go:29-35 | A date that does not parse adds no clause and no error |
| Search.NameClauseMeaning | fileupload/search.go:25-28 | The name filter adds an accepted clause that holds exactly when the file name contains the name, ignoring ASCII case, and none without a name |
| Search.DateClauseMeaning | fileupload/search.go:29-35 | The date filter adds an accepted clause that holds exactly on the parsed day, and none when the date is absent or does not parse |
| Search.TypeClauseMeaning | fileupload/search.go:36-39 | The type filter adds an accepted clause that holds exactly when the file name ends in "."+type, ignoring ASCII case, and none without a type |
| Search.FilterMeaning | fileupload/search.go:25-39 | With literal filters, a row matches exactly when it is the owner's, its name contains name, it was uploaded on the given day and its name ends in "."+type, each only when given |
| Search.SearchReturnsMatching | fileupload/search.go:22-59 | A fault-free search lists a record if and only if it is the scanned columns of a wanted row, in row order |
| Search.SearchQueryFailure | fileupload/search.go:41-45 | A failed query, or a file type that is a lone backslash, which the model refuses as a pattern whatever the table holds, gives 500 "Failed to retrieve files" |
| Search.SearchTruncated | fileupload/search.go:48-59 | An iteration error goes unnoticed: the reply is the first rows of the full listing with 200 |
| Search.AppendClause | fileupload/search.go:26-27 | Appending a filter appends its clause text, numbered after the arguments so far, and its argument |
| Search.AddLike | fileupload/search.go:26-27 | One ILIKE step turns the query and arguments for some clauses into those for one more clause |
| Search.AddDate | fileupload/search.go:32-33 | One date step does the same for the upload_date::date clause |
| Search.BuildSearchQuery | fileupload/search.go:22-39 | The query text and argument list built filter by filter are those of the clauses the filters ask for, in the order name, date, type |
| Search.SearchFiles | fileupload/search.go:15-60 | The handler on the live database, for user 3, equals SearchSpec |
| Lifecycle.OwnedIdsAfterInsert | fileupload/retrieve.go:30 | A row inserted under another owner leaves a user's listing query and its rows unchanged |
| Lifecycle.ListingIgnoresInsert | fileupload/retrieve.go:14-58 | A row inserted under another owner changes nothing another user's listing replies or caches |
| Lifecycle.SearchIgnoresInsert | fileupload/search.go:15-60 | A row inserted under another owner changes nothing another user's search replies |
| Lifecycle.UploadDb | fileupload/upload.go:43-91 | After an upload the database holds the new row exactly when the upload reached its INSERT |
| Lifecycle.UploadThenList | fileupload/retrieve.go:30-48 | After an upload, a listing of the same owner that misses the cache shows the new file with its stored name and size |
| Lifecycle.UploadLeavesListingStale | fileupload/upload.go:93-98 | A listing cached before an upload is still what the owner gets afterwards |
| Lifecycle.UploadInvisibleToOtherListing | fileupload/retrieve.go:15 | An upload under one owner changes nothing another user's listing returns |
| Lifecycle.UploadInvisibleToOtherSearch | fileupload/search.go:16 | An upload under one owner changes nothing another user's search returns |
| Lifecycle.HardCodedOwnersDisagree | fileupload/upload.go:51 | With owner 14 for uploads and 3 for listing and search, UploadFile's rows never reach RetrieveFiles or SearchFiles |
| Lifecycle.UploadThenShare | fileupload/retrieve.go:82 | Sharing an uploaded file gives its URL behind the public prefix a second time |
| Lifecycle.UploadedRowNeverSwept | fileupload/upload.go:77 | An uploaded row has the zero expiration, so no sweep at any time removes or changes it |
| Lifecycle.UploadedPathIsSweepable | fileupload/upload.go:72 | The local path an upload records normalises to exactly the file it wrote |
| Lifecycle.ShareOutlivesSweep | fileupload/retrieve.go:65-71 | A share link still in the cache (its 3600 ns TTL not yet expired) keeps being served after a sweep deleted its row, while a reply without the cache is 404 |

## Left out

- The infinite loop and `time.Sleep(1 * time.Hour)` of StartFileCleanup:
  `Cleanup.StartFileCleanup` models the nil-handle guard and one cycle.
- All logging. Log lines are only reflected in `CycleLog` for the cleanup
  cycle's outcome.
- Multipart parsing, the 10 MB limit and the byte content of files.
  `Upload.Form` carries only the outcome, the client file name and the
  size, and the disk holds paths, not contents.
- UUID generation, the current time and the id the database assigns. All
  three are parameters (`uuid`, `now`, `newId`). `Upload.IsUuidText` states
  the shape of `uuid.New().String()` where a lemma needs it.
- JSON encoding. Payloads are constructors, and serialisation is
  injective by construction. The encoder's trailing newline and `null` for
  an empty listing are not modelled.
- Time is integer seconds in UTC. `Model.ZeroTime` is 0, the model of
  `time.Time{}`, so an expiration at exactly instant 0 is treated as no
  expiration. Time zones and sub-second precision are not modelled.
- Cache TTLs never expire during the model: entries are kept with their
  TTL argument. Redis eviction is not modelled either. The listing and
  metadata entries are set with TTL 0 (no expiry), so nothing about them
  depends on this. The share entry is set with a TTL of 3600 ns, far
  shorter than the hour the comment at `fileupload/retrieve.go:86` intends.
- Retrieve.ShareTwice: holds only while the share entry, set with a TTL of
  3600 ns, has not expired; the model keeps cache entries forever.
- Lifecycle.ShareOutlivesSweep: holds only while the share entry, set with
  a TTL of 3600 ns, has not expired; the model keeps cache entries forever.
  With so short a TTL, a share link in practice does not survive until the
  hourly sweep.
- `Like.ILike` folds ASCII letters only. PostgreSQL case folding of
  non-ASCII letters is not modelled.
- Search.SearchQueryFailure: the 500 for a file type `\` holds because the
  model refuses a pattern that ends in a lone backslash, whatever the table
  holds. PostgreSQL raises that error only when matching reaches the
  trailing escape on some row, so with no candidate row it replies 200.
- Search.Execute: refuses any query with a pattern that ends in a lone
  backslash, whatever rows the table holds, and does not model when during
  matching PostgreSQL raises the error.
- Paths and files are plain strings. `Stores.Disk` keys files by their path
  text, and `Cleanup.SweepRow` stats and removes by that text. Two
  spellings of one file, such as an absolute path and the path relative
  to the working directory, are different files in the model.
  `Cleanup.SweepRemovesOnlySelectedFiles` and the other sweep lemmas
  therefore speak of path spellings, not of files on disk.
- Row order: `DbState.order` is one order shared by every SELECT, and
  `Model.InsertRow` puts a new row after all earlier ones. None of the
  source's SELECTs has an ORDER BY, so PostgreSQL promises neither. The
  lemmas that state a listing "in row order" describe this model order.
- Concurrency between the sweep and the handlers. Each operation is
  atomic in the model.
- Authentication (`auth/user.go`), server wiring (`main.go`,
  `cmd/main.go`), the connection setup (`database/postgres.go`,
  `redisconnection/`) and the tests: none of these is part of this model.
- SearchFiles' `redisClient` parameter: SearchFiles never uses it, so its
  model takes no cache.
- `http.Error` also sets a content type and a trailing newline. A reply
  is modelled as a status and a body only.
- The `RowsAffected` error is modelled as a report of 0 rows, as the
  source discards it.
