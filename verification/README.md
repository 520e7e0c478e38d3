# DropZone self-destructing file store, in Dafny

DropZone lets someone upload a file once and share a six-character link. Each
file dies after a fixed number of downloads or after a time-to-live, whichever
comes first. A janitor deletes dead files and files that no record names. This
project models that store sequentially and proves what each step does:

- `Metadata`: the `FileMetadata` record and the `isExpired` rule, with the clock passed in.
- `Repository`: the table of records keyed by short id, and the two queries the janitor runs.
- `Disk`: the upload folder, as a map from file name to bytes.
- `StorageService`: `FileSystemStorageService`. It covers upload, short-id generation,
  metadata and blob lookup, and the download counter.
- `Cleanup`: `FileCleanupService`. It covers the expired sweep, `deleteFile` and the orphan sweep.
- `Controller`: the decisions of `FileController` for upload, download and password
  verification. The outcomes are a datatype, not HTTP.

Where the upload folder and the table change in place, the model has classes.
`FileRepository` holds `records` and `BlobStore` holds `blobs`. The two services
hold the same two objects as `const` fields, and their methods name them in
`modifies`. Each method's `ensures` gives the new state as a function of the
old one. The sweeps are specified by pure functions: `SweptRecords`,
`SweptBlobs` and `SweptOrphans`. The lemmas about what a sweep removes, what it
keeps, and idempotence are stated over those functions.

Inputs the source takes from the environment are parameters. The clock is an
`Instant`, an integer number of seconds. The `Random` draws are a sequence of
indexes into the alphabet, and the `UUID` is a string. A failed delete is an
input too: `DeleteFile` gets a boolean, and a sweep gets the set of storage
names whose delete fails during that run.

The source files are not consistent with one another, and the model follows
the interface they imply:

- `FileController` reads `getPassword()`, but `FileMetadata` declares no such field.
  The record has an optional `password`.
- `StorageService.store` takes a password, but the implementation's `store` does not.
  `FileSystemStorageService.Store` takes one and saves it in the record.
- `FileCleanupService` calls `existsByStorageName`, which `FileRepository` does not declare.
  It is modelled as a query over the table.

Some behaviour of the code is worth stating:

- `store` does not validate `maxDownloads` or the lifetime. A record can be born expired.
- Nothing is encrypted, because `CipherService` is never called.
- The counter update is a plain read, add one, save, with no check against `maxDownloads`.
- A colliding short id silently replaces the existing record, because `save` is an upsert.
- When the blob delete fails in `deleteFile`, the record is kept. It is not deleted anyway.
- A download whose blob is missing fails with an exception, a server error. The record is not deleted lazily.

## Model

| member | source | states |
|---|---|---|
| Metadata.ExhaustedIsExpiredAtEveryInstant | src/main/java/com/dropzone/api/model/FileMetadata.java:43 | once `downloadCount >= maxDownloads`, the record is expired at every instant |
| Metadata.LiveAtExpiryInstant | src/main/java/com/dropzone/api/model/FileMetadata.java:43 | at `now == expiryTime` only a spent budget makes a record expired, since `isAfter` is strict; one second later it is expired |
| Metadata.ExpiryIsMonotoneInTime | src/main/java/com/dropzone/api/model/FileMetadata.java:42-44 | expired at `t` implies expired at every later `t'` for the same record |
| Metadata.ExpiryIsMonotoneInCount | src/main/java/com/dropzone/api/model/FileMetadata.java:42-44 | raising `downloadCount` never makes an expired record live again |
| Repository.FindByExpiryTimeBefore | src/main/java/com/dropzone/api/repository/FileRepository.java:15 | returns only stored records with `expiryTime < now`, and every stored record with `expiryTime < now` |
| Repository.FindByExpiryLimit | src/main/java/com/dropzone/api/repository/FileRepository.java:17-21 | returns only stored records with `downloadCount >= maxDownloads`, and every such stored record |
| Repository.ExistsByStorageName | src/main/java/com/dropzone/api/service/FileCleanupService.java:86 | true exactly when some stored record has that storage name |
| Repository.ExpiryQueriesFindExactlyTheExpired | src/main/java/com/dropzone/api/repository/FileRepository.java:15-21 | a record is in the union of the two queries exactly when it is stored and `isExpired` holds for it at the same `now` |
| Repository.AtMostOneRecordPerId | src/main/java/com/dropzone/api/repository/FileRepository.java:12 | a table keyed by `id` never holds two different records with one id |
| StorageService.AlphabetIsTheSixtyTwoAlphanumerics | src/main/java/com/dropzone/api/service/FileSystemStorageService.java:108 | the alphabet has 62 distinct symbols, and they are exactly `A`-`Z`, `a`-`z` and `0`-`9` |
| StorageService.GenerateShortId | src/main/java/com/dropzone/api/service/FileSystemStorageService.java:107-115 | the id has the requested length, and symbol `k` is the alphabet symbol at the `k`-th random draw, which is alphanumeric |
| StorageService.FileSystemStorageService.Store | src/main/java/com/dropzone/api/service/FileSystemStorageService.java:44-81 | an empty upload fails with no change to the folder or the table. Otherwise the blob is written under the UUID name and a record saved with a 6-symbol id, `downloadCount = 0`, the given limit, `expiryTime = now + minutes` and the password |
| StorageService.NewRecordIsLive | src/main/java/com/dropzone/api/service/FileSystemStorageService.java:67-77 | a new record with `maxDownloads >= 1` and a non-negative lifetime is live from upload to its expiry instant |
| StorageService.GetMetadata | src/main/java/com/dropzone/api/service/FileSystemStorageService.java:100-104 | returns the stored record when the id is present, and fails with "metadata not found" when it is absent |
| StorageService.LoadAsResource | src/main/java/com/dropzone/api/service/FileSystemStorageService.java:83-98 | fails for an unknown id, and fails with "could not read" when the record's blob is missing. When the blob is present it succeeds with the bytes stored under the record's storage name |
| StorageService.LoadIgnoresOriginalFilename | src/main/java/com/dropzone/api/service/FileSystemStorageService.java:89-90 | changing a record's original file name never changes what is loaded, because the blob is found by storage name |
| StorageService.FileSystemStorageService.IncrementDownloadCount | src/main/java/com/dropzone/api/service/FileSystemStorageService.java:117-128 | an absent id fails with no change. Otherwise only that record changes, and only its `downloadCount`, by Java `int` `+ 1` |
| StorageService.IncrementAddsOne | src/main/java/com/dropzone/api/service/FileSystemStorageService.java:124 | below the 32-bit ceiling, the increment adds exactly one and leaves every other field as it was |
| Cleanup.FileCleanupService.DeleteFile | src/main/java/com/dropzone/api/service/FileCleanupService.java:51-65 | a failed blob delete changes nothing, so the record is kept. Otherwise the blob is removed and then the record, and a blob already gone is not a failure |
| Cleanup.FileCleanupService.DeleteAll | src/main/java/com/dropzone/api/service/FileCleanupService.java:42-48 | one `deleteFile` per queried record removes exactly the records, and the blobs, whose delete succeeds |
| Cleanup.FileCleanupService.CleanupExpiredFiles | src/main/java/com/dropzone/api/service/FileCleanupService.java:33-49 | the table and folder afterwards are `SweptRecords` and `SweptBlobs` of the state before |
| Cleanup.SweptRecordsExactly | src/main/java/com/dropzone/api/service/FileCleanupService.java:38-48 | a record survives the expired sweep exactly when it is live at `now` or its blob delete failed, and survivors are unchanged |
| Cleanup.NoExpiredRecordSurvives | src/main/java/com/dropzone/api/service/FileCleanupService.java:38-48 | with no failed delete, no record expired at `now` remains |
| Cleanup.ReclaimedFileIsNotFound | src/main/java/com/dropzone/api/service/FileCleanupService.java:51-65 | after the sweep reclaims an expired file, `getMetadata` on its id fails |
| Cleanup.LiveBlobsSurvive | src/main/java/com/dropzone/api/service/FileCleanupService.java:38-48 | a live record's blob keeps its bytes through the expired sweep, provided storage names are unique |
| Cleanup.ExpiredSweepCreatesNoOrphans | src/main/java/com/dropzone/api/service/FileCleanupService.java:51-63 | because the blob is deleted before the record, every orphan after the expired sweep was already an orphan before it |
| Cleanup.ExpiredSweepIsIdempotent | src/main/java/com/dropzone/api/service/FileCleanupService.java:33-49 | a second expired sweep with the same `now` and the same failures changes neither the table nor the folder |
| Cleanup.FileCleanupService.CleanOrphanFiles | src/main/java/com/dropzone/api/service/FileCleanupService.java:69-97 | the folder afterwards is `SweptOrphans` of the folder before, and the table is not modified |
| Cleanup.OrphanSweepExactly | src/main/java/com/dropzone/api/service/FileCleanupService.java:77-95 | a blob survives the orphan sweep exactly when it is hidden, some record names it, or its delete failed, and survivors keep their bytes |
| Cleanup.OrphanSweepIsIdempotent | src/main/java/com/dropzone/api/service/FileCleanupService.java:69-97 | a second orphan sweep with the same failures changes nothing |
| Cleanup.InterruptedUploadIsReclaimed | src/main/java/com/dropzone/api/service/FileSystemStorageService.java:62-80 | an upload interrupted after its blob is written and before its record is saved leaves an orphan, and the orphan sweep then leaves the folder as if the upload had not happened |
| Controller.StatusCode | src/main/java/com/dropzone/api/controller/FileController.java:63-73 | success is 200, a refused upload 400, a wrong password 403, self-destructed 410 and an exception 500, each code used by that outcome only |
| Controller.BlockedExtensionsAreRefused | src/main/java/com/dropzone/api/controller/FileController.java:44-46 | every name ending in `.exe`, `.bat` or `.sh` is refused |
| Controller.OtherNamesAreAccepted | src/main/java/com/dropzone/api/controller/FileController.java:44 | a name whose last character is none of `e`, `t`, `h` is never refused |
| Controller.CheckAccess | src/main/java/com/dropzone/api/controller/FileController.java:63-73 | expired comes first. Otherwise a wrong password is refused exactly when a non-empty password is stored and the input is absent or different. Otherwise access is granted |
| Controller.GrantedDownloadAddsOne | src/main/java/com/dropzone/api/controller/FileController.java:76-81 | a granted download never meets the 32-bit ceiling, so the counter grows by exactly one |
| Controller.ServedAtMostRemaining | src/main/java/com/dropzone/api/controller/FileController.java:63-81 | one after another, downloads serve a record at most `maxDownloads - downloadCount` times; a granted attempt whose blob is missing is not served and not counted |
| Controller.MissingBlobServesNothing | src/main/java/com/dropzone/api/controller/FileController.java:75-81 | when the record's blob is missing, no download is ever served, because `loadAsResource` throws before the counter is bumped |
| Controller.ServedExactlyUntilExhausted | src/main/java/com/dropzone/api/controller/FileController.java:63-81 | before the deadline, with the right password and the blob on disk, exactly `min(attempts, remaining)` downloads are served |
| Controller.SingleUseSelfDestructs | src/main/java/com/dropzone/api/controller/FileController.java:63-81 | a file allowing one download is gone for the next request after one download is served |
| Controller.FileController.UploadFile | src/main/java/com/dropzone/api/controller/FileController.java:36-53 | a blocked name gets a bad request and nothing is stored. Omitted limits default to 1 download and 10 minutes. Otherwise the result is what `store` does |
| Controller.FileController.DownloadFile | src/main/java/com/dropzone/api/controller/FileController.java:58-89 | an unknown id is a server error, an expired record is 410 and a wrong password is 403, and a granted request whose blob is missing is a "could not read" server error, all with no change. Only a served download adds exactly one to the count |
| Controller.FileController.VerifyPassword | src/main/java/com/dropzone/api/controller/FileController.java:115-140 | the same checks in the same order with no state change. OK exactly when the record is live and the password matches or is unset |

`isExpired` itself is `Metadata.IsExpired`, a predicate of the record and the
instant and nothing else (src/main/java/com/dropzone/api/model/FileMetadata.java:42-44).
It holds iff `downloadCount >= maxDownloads` or `now > expiryTime`, so it
is deterministic and changes nothing.

## Left out

- `CipherService` (AES and Base64) is not part of this model. It wraps `javax.crypto` and is not called by `store`.
- Concurrency is not modelled. Every operation is one sequential step: the download-counter race, `@Scheduled` timers and `@Transactional`.
- `getAllFiles` is declared in `StorageService` but has no implementation, so it is not modelled.
- `Debug`, `getServerIp`, `ViewController` and `DropZoneApplication` are HTTP framing and bootstrap. Response headers, and the logging to `System.out` and `System.err`, are left out too.
- Path resolution, `UrlResource` and the `exists() || isReadable()` test are reduced to "the storage name is a key of the folder".
- `cleanOrphanFiles` returns early when `listFiles()` gives `null`. The model's folder always exists, so that case is not modelled.
- The Java `assert fileName != null` is not modelled: file names are never null.
- `store` reads the clock twice, once for `uploadTime` and once for `expiryTime`. The model uses one instant for both.
- A sweep's failing deletes are a set of storage names. A name that fails once fails for the whole run, so a retry that succeeds within one sweep is not modelled.
- UUID formatting is not modelled: the storage name is any string, and a fresh one is an input.
- An `IOException` from `Files.copy` during `store` is not modelled. Writing a blob always succeeds, and the only failure of `store` is an empty upload.
