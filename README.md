# File-lifecycle coordinator, modelled in Dafny

This project models the core of a small Go file service. The service keeps two
systems in step:

- an object store (bucket key → bytes), which holds file contents;
- a relational `files` table (id → record), which holds file metadata and an
  optional AI-written summary called the `resume`.

Each operation is a short saga (a multi-step operation across independent
systems) with a fixed compensation step:

- **Upload** writes the object, then inserts the row. If the insert fails, it
  deletes the object again and ignores that delete's own error.
- **Delete** looks the row up, deletes the object, then deletes the row.
- **Analyze** looks the row up, downloads the object, gives its first 100 000
  bytes to the summariser, then stores the summary as `resume`.
- **Analyze at upload time** (newer handler only) uploads, summarises, then
  inserts. It deletes the object if either later step fails.

The same logic appears in three places, and each is modelled: the service
layer, the newer HTTP handler, and the older handler, which `cmd/server/main.go`
constructs. The route table in `internal/server/server.go` expects the newer
handler's type.

How the model is built:

- The store is a class over `map<string, Bytes>`.
- The table is a class over `map<int, FileRecord>`. A serial id counter stands
  for the table's BIGSERIAL column. A logical clock stands for the database's
  `NOW()` and ticks on every insert and update.
- Every external call's failure is a boolean parameter (fault injection), so
  each contract can say exactly what holds on every success and failure path.
- The summariser is an oracle: any function `Bytes -> Result<string, AnalysisError>`.
- The upload date and the random UUID token are parameters.

Files:

- `types.dfy`: records, results, the Go nil-or-non-nil slice, and the error kinds.
- `object_store.dfy`: the store (`Upload`, `Download`, `Delete`).
- `repository.dfy`: the table (`Create`, `List`, `GetByID`, `UpdateResume`,
  `Delete`), plus the listing order and its lemmas.
- `policy.dfy`: the object-key format and the 100 000-byte analysis cap, with
  lemmas. These rules are shared by the service and both handlers.
- `analysis.dfy`: the chat-completion provider's reply handling.
- `service.dfy`: the service's four operations, the cross-store invariant
  `Consistent`, and multi-call scenarios.
- `http.dfy`: statuses, responses, the content-type default, and
  `strconv.ParseInt(s, 10, 64)` with a format/parse round trip.
- `handler.dfy`: the newer handler.
- `legacy_handler.dfy`: the older handler.

Points where the code behaves differently from what its API suggests:

- The repository's `List` returns a nil slice, not an empty one, when the table
  has no rows. The service and both handlers turn nil into an empty list.
- The analysis cap counts bytes, not characters. Go slices the string by bytes.
- No route calls the service's `AnalyzeFile`. The newer handler's
  `AnalyzeFile` uploads and summarises a new file and answers 201, not 200.
- A failed lookup in a handler's delete always answers 404, whatever the cause,
  including a database connection error.

## Model

| member | source | states |
|---|---|---|
| `Analysis.ChatResume` | internal/modules/analysis/openai/openai.go:32-49 | The provider succeeds exactly when the reply has at least one choice, and then returns the first choice's text. An API error and an empty choice list are both failures. |
| `ObjectStore.Store.Upload` | internal/storage/storage.go:10-13 | On success the bucket maps the key to the uploaded bytes and nothing else changes. On failure the bucket is unchanged. |
| `ObjectStore.Store.Download` | internal/storage/storage.go:15-16 | Returns exactly the bytes stored under the key. Fails with not-found when the key is absent, and with unavailable when the backend fails. |
| `ObjectStore.Store.Delete` | internal/storage/storage.go:18-19 | On success the key is absent afterwards and every other object is untouched. On failure nothing changes. |
| `Repository.FileRepository.Create` | internal/modules/files/repository.go:18-27 | On success the stored row and the returned record equal the given record with only id, createdAt and updatedAt filled in. The new id was not in use before. A failed insert changes nothing. The table invariant is kept. |
| `Repository.FileRepository.List` | internal/modules/files/repository.go:29-54 | A query, row-scan or cursor error aborts with that error and no partial result. Otherwise the listing holds every row and nothing else, strictly most recently created first. It is nil exactly when the table is empty. |
| `Repository.DescendingComplete` | internal/modules/files/repository.go:29-31 | The listing contains every row whose id lies in the listed range. |
| `Repository.DescendingSound` | internal/modules/files/repository.go:29-31 | Every listed record is the row stored under its own id, and that id lies in the range. |
| `Repository.DescendingSorted` | internal/modules/files/repository.go:29-31 | When later ids were created later, the listing is strictly ordered by createdAt descending. |
| `Repository.DescendingEmpty` | internal/modules/files/repository.go:39-53 | The listing is empty exactly when no row lies in the range. This is what makes `List` return nil for an empty table. |
| `Repository.ListingFacts` | internal/modules/files/repository.go:29-54 | For a valid table, the full listing is empty exactly when the table is. It holds every row and nothing else, most recently created first. |
| `Repository.ListAfterThreeCreates` | internal/modules/files/repository.go:29-31 | Three records inserted into an empty table in the order r1, r2, r3 are listed as [r3, r2, r1]. Each is its input with ids 1, 2, 3 and stamps 0, 1, 2 filled in. |
| `Repository.FileRepository.GetByID` | internal/modules/files/repository.go:56-69 | Returns the row stored under that id. Fails with a no-rows error when there is none, and with a database error on a connection failure. |
| `Repository.FileRepository.UpdateResume` | internal/modules/files/repository.go:71-85 | On success only `resume` and `updatedAt` of row id change. The full updated row is returned and every other row is unchanged. The clock ticks once. An absent id or a database error changes nothing. |
| `Repository.FileRepository.Delete` | internal/modules/files/repository.go:87-100 | On success exactly row id is removed. Zero affected rows (id absent) is a not-found error, and any failure changes nothing. |
| `Policy.ObjectKey` | internal/modules/files/service.go:127-133 | The key starts with the date and a `/`, and ends with `_` followed by the filename. |
| `Policy.ObjectKeySplits` | internal/modules/files/service.go:127-133 | When the date and the token contain no `_`, the key splits back into the `date/token` stamp and the original filename, whatever characters the filename holds. |
| `Policy.ObjectKeyInjective` | internal/modules/files/service.go:127-133 | For dates of equal width and `_`-free date and token, equal keys imply equal date, token and filename. So distinct tokens never collide, even for the same filename. |
| `Policy.AnalysisInput` | internal/modules/files/service.go:109-112 | The bytes given to the summariser are a prefix of the content, at most 100 000 bytes long. They are the whole content when it is shorter than that. |
| `Http.ContentTypeOrDefault` | internal/modules/files/handler.go:64-67 | The stored content type is never empty. It is the header when the header is set, and `application/octet-stream` otherwise. |
| `Http.ParseInt64` | internal/modules/files/handler.go:95-98 | Text with a non-digit anywhere after one optional leading sign never parses, and neither does empty or sign-only text. A parsed id is the signed value of its digits. Digit text parses exactly when that value lies in the int64 range. |
| `Http.ParseFormatRoundTrip` | internal/modules/files/handler.go:95-98 | Every int64 written in decimal parses back to itself. |
| `LegacyHandler.AsFiles` | internal/files/model.go:5-13 | Projecting a listing onto the older record type keeps its length and its order, element by element. |
| `Service.FileService.ListFiles` | internal/modules/files/service.go:40-51 | The repository's query, scan and cursor errors are each passed on, wrapped. Otherwise the result is the repository's listing, newest first and complete. An empty table gives an empty list, not nil. |
| `Service.FileService.UploadFile` | internal/modules/files/service.go:53-73 | A storage failure returns an error with neither store nor table changed. An insert failure returns the insert error and leaves the table unchanged. The object is then removed, or left in place if the cleanup fails; for a fresh key the store returns to its prior state. On success the record carries the filename, size, content type and generated key under a fresh id, and the store holds the bytes under that key. For a fresh key, `Consistent` is preserved. |
| `Service.FileService.DeleteFile` | internal/modules/files/service.go:75-90 | A failed lookup touches nothing. A failed object delete keeps the row. A failed row delete leaves the object gone and the row present; this is the one acknowledged inconsistent state. Success removes both. `Consistent` is preserved on every other path. |
| `Service.FileService.AnalyzeFile` | internal/modules/files/service.go:92-125 | The summariser receives exactly `AnalysisInput` of the stored bytes. The store never changes. Any failure in lookup, download, read, summarising or update leaves the table unchanged. On success only `resume` (set to the summary) and `updatedAt` of row id change, and the object key is kept. |
| `Service.UploadRoundTrip` | internal/modules/files/service.go:53-73 | Downloading the key of a successful upload returns the uploaded bytes. |
| `Service.CompensationRemovesObject` | internal/modules/files/service.go:67-70 | After an insert failure with a successful cleanup, the download fails with not-found and no row was added. For a fresh key the store is as it was. |
| `Service.DeleteRemovesBoth` | internal/modules/files/service.go:75-90 | After a successful delete, the lookup of the id fails with no-rows and the download of its key fails with not-found. |
| `Service.DeleteTwice` | internal/modules/files/service.go:75-90 | Deleting the same id twice in a row: the first call succeeds and the second fails with file-not-found. |
| `Service.AnalyzeTwiceKeepsStorage` | internal/modules/files/service.go:92-125 | Two successful analyses keep the object key and the stored bytes. The two records differ only in `resume` and `updatedAt`, and the second `updatedAt` is later. |
| `Service.MissingIdNotFound` | internal/modules/files/service.go:75-95 | For an absent id, both delete and analysis fail with file-not-found and touch neither store. |
| `Handler.FileHandler.ListFiles` | internal/modules/files/handler.go:34-50 | A repository error or a JSON write error gives 500. Otherwise the answer is 200 with every row, newest first; an empty table gives an empty array. |
| `Handler.FileHandler.UploadFile` | internal/modules/files/handler.go:52-92 | A missing `file` part gives 400 and an unopenable part gives 500, both with nothing changed. A storage failure gives 500 with no row. An insert failure gives 500 after a best-effort delete of the key. Success gives 201 with the new record, whose content type is defaulted. |
| `Handler.FileHandler.DeleteFile` | internal/modules/files/handler.go:94-114 | A non-integer id gives 400 and any lookup failure gives 404, both with nothing changed. A storage failure gives 500 with the row intact. A row failure gives 500 with the object gone. Success gives 204. |
| `Handler.FileHandler.AnalyzeFile` | internal/modules/files/handler.go:116-176 | A missing, unopenable or unreadable part gives 400 or 500 with nothing changed, and so does a storage failure. The summariser receives `AnalysisInput` of the content. A summariser or insert failure gives 500 with no row, and the object is deleted unless that cleanup fails. Success gives 201 with a record whose `resume` is the summary. |
| `LegacyHandler.FileHandler.ListFiles` | internal/files/handler.go:28-44 | A repository error or a JSON write error gives 500. Otherwise the answer is 200 with every row projected to the older record type, newest first; an empty table gives an empty array. |
| `LegacyHandler.FileHandler.UploadFile` | internal/files/handler.go:47-89 | A missing part gives 400, and an empty Content-Type becomes `application/octet-stream`. A storage failure gives 500 with no insert attempted. An insert failure deletes the same key, best effort, and gives 500 whatever that delete's outcome. Success gives 201. |
| `LegacyHandler.FileHandler.DeleteFile` | internal/files/handler.go:92-112 | An unparsable id gives 400 and a lookup failure gives 404, both with nothing changed. Storage is deleted strictly before the row: 500 with the row intact, 500 with the object gone, or 204. |

## Left out

- `EnsureBucket` (internal/storage/storage.go:21-22) runs only at process start. The model has a single bucket that always exists.
- The MinIO client and the chat-completion network call are not modelled. The store is the abstract map, and the summariser is an oracle whose reply handling is `Analysis.ChatResume`.
- ObjectStore.Store.Upload: does not record the content type or the declared size with the object, and does not reject a size that differs from the content's length.
- ObjectStore.Store.Download: reports a missing key at the download call. MinIO may report it only when the stream is read, which would make the service answer with its "read file content" error instead. Either way nothing changes.
- Repository.FileRepository.Create: returns the filled-in record instead of writing id and timestamps into the caller's struct in place. Nothing else holds that struct, so no aliasing is lost.
- A database call that fails is modelled as changing nothing. A failure after the server has committed (for example, a lost connection during `RETURNING`) is not modelled.
- `NOW()` is a logical clock that ticks on every insert and update, so creation stamps are distinct and follow id order. Equal timestamps, and the order Postgres would give them, are not modelled.
- Ids and sizes are unbounded integers. int64 overflow of the serial counter is not modelled.
- Error texts: responses carry only the fixed part of each message. The wrapped cause after `: ` is not modelled.
- A JSON write failure is modelled for the list handlers only, which map it to 500 themselves. The 201 and 204 responses hand any write error to the web framework, and that is not modelled.
- The service's `UploadFile` takes the bytes instead of an `io.Reader`. Streaming, reader closing, multipart parsing and `context` cancellation are not modelled.
- Concurrent requests (two deletes of the same id racing, analysis racing a delete) are not modelled; the model is sequential.
- Whether truncated text is still valid UTF-8 is not modelled. Content is bytes and the cut is by bytes, as in the code.
- The older package's own `FileRepository` is not part of this model. The older handler is modelled over `repository.go`'s table, with `resume` never set and records projected onto the older `File` type.
- internal/repository/file_repository.go is not part of this model. Its queries are a subset of `repository.go`'s, without the `resume` column.
- Process wiring, migrations, route registration, configuration loading and graceful shutdown are not modelled.
