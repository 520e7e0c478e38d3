/**
 * `FileCleanupService`, the janitor: the expired sweep deletes each dead
 * file's blob and then its record; the orphan sweep deletes every visible
 * blob no record names. A delete that fails (an `IOException`, or
 * `File.delete()` returning false) is an input: `failing` is the set of
 * storage names whose deletion fails during the sweep.
 */
module Cleanup {
  import opened Wrappers
  import opened Metadata
  import opened Repository
  import opened Disk
  import opened StorageService

  type Blobs = map<string, Blob>

  /** What the two queries of the expired sweep return at `now`. */
  function ExpiredBatch(records: Records, now: Instant): (batch: set<FileMetadata>)
  {
    FindByExpiryTimeBefore(records, now) + FindByExpiryLimit(records)
  }

  /** Ids of the records in `batch` whose blob delete does not fail. */
  function RemovedIds(batch: set<FileMetadata>, failing: set<string>): (ids: set<string>)
  {
    set f | f in batch && f.storageName !in failing :: f.id
  }

  /** Storage names of the records in `batch` whose blob delete does not fail. */
  function RemovedNames(batch: set<FileMetadata>, failing: set<string>): (names: set<string>)
  {
    set f | f in batch && f.storageName !in failing :: f.storageName
  }

  /** The table after the expired sweep. */
  function SweptRecords(records: Records, now: Instant, failing: set<string>): (records': Records)
  {
    records - RemovedIds(ExpiredBatch(records, now), failing)
  }

  /** The folder after the expired sweep. */
  function SweptBlobs(records: Records, blobs: Blobs, now: Instant, failing: set<string>): (blobs': Blobs)
  {
    blobs - RemovedNames(ExpiredBatch(records, now), failing)
  }

  /** A hidden file, such as `.DS_Store`: the orphan sweep skips it. */
  predicate IsHidden(name: string)
  {
    |name| > 0 && name[0] == '.'
  }

  /** The visible files among `names` that no record names. */
  function Orphans(records: Records, names: set<string>): (orphans: set<string>)
  {
    set n | n in names && !IsHidden(n) && !ExistsByStorageName(records, n)
  }

  /** The folder after the orphan sweep. */
  function SweptOrphans(records: Records, blobs: Blobs, failing: set<string>): (blobs': Blobs)
  {
    blobs - (Orphans(records, blobs.Keys) - failing)
  }

  /** Distinct records never share a blob (the UUID storage names do not collide). */
  ghost predicate UniqueStorageNames(records: Records)
  {
    forall i, j :: i in records && j in records && i != j ==> records[i].storageName != records[j].storageName
  }

  /**
   * The expired sweep removes exactly the records that are expired at `now`
   * and whose blob delete succeeds; every other record stays as it was.
   */
  lemma {:induction false} SweptRecordsExactly(records: Records, now: Instant, failing: set<string>)
    requires KeyedById(records)
    ensures KeyedById(SweptRecords(records, now, failing))
    ensures forall id :: id in SweptRecords(records, now, failing) <==>
              id in records && !(IsExpired(records[id], now) && records[id].storageName !in failing)
    ensures forall id :: id in SweptRecords(records, now, failing) ==>
              SweptRecords(records, now, failing)[id] == records[id]
  {
    var batch := ExpiredBatch(records, now);
    ExpiryQueriesFindExactlyTheExpired(records, now);
    forall id | id in records
      ensures id in RemovedIds(batch, failing) <==> IsExpired(records[id], now) && records[id].storageName !in failing
    {
      if id in RemovedIds(batch, failing) {
        var f :| f in batch && f.storageName !in failing && f.id == id;
        AtMostOneRecordPerId(records, f, records[id]);
      }
    }
  }

  /** With no failed delete, no expired record survives the sweep. */
  lemma NoExpiredRecordSurvives(records: Records, now: Instant)
    requires KeyedById(records)
    ensures forall id :: id in SweptRecords(records, now, {}) ==> !IsExpired(SweptRecords(records, now, {})[id], now)
  {
    SweptRecordsExactly(records, now, {});
  }

  /** Once the sweep has reclaimed an expired file, looking it up fails as for an unknown id. */
  lemma ReclaimedFileIsNotFound(records: Records, now: Instant, failing: set<string>, id: string)
    requires KeyedById(records)
    requires id in records && IsExpired(records[id], now) && records[id].storageName !in failing
    ensures GetMetadata(SweptRecords(records, now, failing), id) == Failure(MetadataNotFound(id))
  {
    SweptRecordsExactly(records, now, failing);
  }

  /**
   * A live record keeps its blob through the expired sweep, provided no
   * expired record shares its storage name.
   */
  lemma LiveBlobsSurvive(records: Records, blobs: Blobs, now: Instant, failing: set<string>, id: string)
    requires KeyedById(records) && UniqueStorageNames(records)
    requires id in records && !IsExpired(records[id], now)
    requires records[id].storageName in blobs
    ensures records[id].storageName in SweptBlobs(records, blobs, now, failing)
    ensures SweptBlobs(records, blobs, now, failing)[records[id].storageName] == blobs[records[id].storageName]
  {
    var name := records[id].storageName;
    var batch := ExpiredBatch(records, now);
    ExpiryQueriesFindExactlyTheExpired(records, now);
  }

  /**
   * Deleting the blob before the record means the expired sweep never
   * leaves a blob without a record: it creates no orphan.
   */
  lemma ExpiredSweepCreatesNoOrphans(records: Records, blobs: Blobs, now: Instant, failing: set<string>)
    requires KeyedById(records)
    ensures Orphans(SweptRecords(records, now, failing), SweptBlobs(records, blobs, now, failing).Keys)
            <= Orphans(records, blobs.Keys)
  {
    var records', blobs' := SweptRecords(records, now, failing), SweptBlobs(records, blobs, now, failing);
    var batch := ExpiredBatch(records, now);
    SweptRecordsExactly(records, now, failing);
    forall n | n in Orphans(records', blobs'.Keys) ensures n in Orphans(records, blobs.Keys) {
      if ExistsByStorageName(records, n) {
        var id :| id in records && records[id].storageName == n;
      }
    }
  }

  /** A second expired sweep at the same instant, with the same failures, changes nothing. */
  lemma ExpiredSweepIsIdempotent(records: Records, blobs: Blobs, now: Instant, failing: set<string>)
    requires KeyedById(records)
    ensures SweptRecords(SweptRecords(records, now, failing), now, failing) == SweptRecords(records, now, failing)
    ensures SweptBlobs(SweptRecords(records, now, failing), SweptBlobs(records, blobs, now, failing), now, failing)
         == SweptBlobs(records, blobs, now, failing)
  {
    var records' := SweptRecords(records, now, failing);
    SweptRecordsExactly(records, now, failing);
    ExpiryQueriesFindExactlyTheExpired(records', now);
    var batch' := ExpiredBatch(records', now);
    assert RemovedIds(batch', failing) == {} by {
      forall f | f in batch' ensures f.storageName in failing {
        var id :| id in records' && records'[id] == f;
      }
    }
    assert RemovedNames(batch', failing) == {};
  }

  /**
   * The orphan sweep deletes exactly the visible, unreferenced blobs whose
   * delete succeeds; every other blob keeps its bytes.
   */
  lemma OrphanSweepExactly(records: Records, blobs: Blobs, failing: set<string>)
    ensures forall n :: n in SweptOrphans(records, blobs, failing) <==>
              n in blobs && (IsHidden(n) || ExistsByStorageName(records, n) || n in failing)
    ensures forall n :: n in SweptOrphans(records, blobs, failing) ==> SweptOrphans(records, blobs, failing)[n] == blobs[n]
  {
  }

  /** A second orphan sweep with the same failures changes nothing. */
  lemma OrphanSweepIsIdempotent(records: Records, blobs: Blobs, failing: set<string>)
    ensures SweptOrphans(records, SweptOrphans(records, blobs, failing), failing) == SweptOrphans(records, blobs, failing)
  {
    var blobs' := SweptOrphans(records, blobs, failing);
    assert Orphans(records, blobs'.Keys) - failing == {};
  }

  /**
   * An upload interrupted after its blob is written and before its record
   * is saved leaves only an orphan: the orphan sweep returns the folder to
   * what it would have been without the upload.
   */
  lemma InterruptedUploadIsReclaimed(records: Records, blobs: Blobs, storageName: string, content: Blob)
    requires !IsHidden(storageName)
    requires !ExistsByStorageName(records, storageName)
    ensures storageName in Orphans(records, blobs[storageName := content].Keys)
    ensures SweptOrphans(records, blobs[storageName := content], {}) == SweptOrphans(records, blobs, {})
  {
  }

  class FileCleanupService {
    const repo: FileRepository
    const disk: BlobStore

    constructor (repo: FileRepository, disk: BlobStore)
      ensures this.repo == repo && this.disk == disk
    {
      this.repo := repo;
      this.disk := disk;
    }

    /**
     * `deleteFile(file)`: delete the blob, then the record. If the blob
     * delete fails the exception is caught and the record is kept; a blob
     * that is already gone is not a failure.
     */
    method DeleteFile(file: FileMetadata, fails: bool)
      requires repo.Valid()
      modifies repo, disk
      ensures repo.Valid()
      ensures fails ==> repo.records == old(repo.records) && disk.blobs == old(disk.blobs)
      ensures !fails ==> disk.blobs == old(disk.blobs) - {file.storageName}
                         && repo.records == old(repo.records) - {file.id}
    {
      if fails {
        return;
      }
      disk.DeleteIfExists(file.storageName);
      repo.Delete(file);
    }

    /** Delete every record of `batch`, one `deleteFile` per element. */
    method DeleteAll(batch: set<FileMetadata>, failing: set<string>)
      requires repo.Valid()
      modifies repo, disk
      ensures repo.Valid()
      ensures repo.records == old(repo.records) - RemovedIds(batch, failing)
      ensures disk.blobs == old(disk.blobs) - RemovedNames(batch, failing)
    {
      var todo := batch;
      while todo != {}
        invariant todo <= batch
        invariant repo.Valid()
        invariant repo.records == old(repo.records) - RemovedIds(batch - todo, failing)
        invariant disk.blobs == old(disk.blobs) - RemovedNames(batch - todo, failing)
        decreases todo
      {
        var file :| file in todo;
        ghost var done := batch - todo;
        DeleteFile(file, file.storageName in failing);
        todo := todo - {file};
        assert batch - todo == done + {file};
        assert RemovedIds(done + {file}, failing)
            == RemovedIds(done, failing) + (if file.storageName in failing then {} else {file.id});
        assert RemovedNames(done + {file}, failing)
            == RemovedNames(done, failing) + (if file.storageName in failing then {} else {file.storageName});
      }
    }

    /**
     * `cleanupExpiredFiles()`: both queries are taken at the start, then the
     * time-expired records are deleted, then the count-expired ones. A record
     * in both lists is deleted twice; the second time finds nothing.
     */
    method CleanupExpiredFiles(now: Instant, failing: set<string>)
      requires repo.Valid()
      modifies repo, disk
      ensures repo.Valid()
      ensures repo.records == SweptRecords(old(repo.records), now, failing)
      ensures disk.blobs == SweptBlobs(old(repo.records), old(disk.blobs), now, failing)
    {
      var timeExpiredFiles := FindByExpiryTimeBefore(repo.records, now);
      var limitExpiredFiles := FindByExpiryLimit(repo.records);
      DeleteAll(timeExpiredFiles, failing);
      DeleteAll(limitExpiredFiles, failing);
      assert RemovedIds(timeExpiredFiles + limitExpiredFiles, failing)
          == RemovedIds(timeExpiredFiles, failing) + RemovedIds(limitExpiredFiles, failing);
      assert RemovedNames(timeExpiredFiles + limitExpiredFiles, failing)
          == RemovedNames(timeExpiredFiles, failing) + RemovedNames(limitExpiredFiles, failing);
    }

    /**
     * `cleanOrphanFiles()`: walk the files present when the sweep starts;
     * skip hidden ones; delete those no record names. Records are never
     * touched.
     */
    method CleanOrphanFiles(failing: set<string>)
      modifies disk
      ensures disk.blobs == SweptOrphans(repo.records, old(disk.blobs), failing)
    {
      var physicalFiles := disk.blobs.Keys;
      var todo := physicalFiles;
      while todo != {}
        invariant todo <= physicalFiles
        invariant disk.blobs == old(disk.blobs) - (Orphans(repo.records, physicalFiles - todo) - failing)
        decreases todo
      {
        var filename :| filename in todo;
        ghost var done := physicalFiles - todo;
        todo := todo - {filename};
        assert physicalFiles - todo == done + {filename};
        if IsHidden(filename) {
          assert Orphans(repo.records, done + {filename}) == Orphans(repo.records, done);
          continue;
        }
        var existsInDb := ExistsByStorageName(repo.records, filename);
        if !existsInDb {
          if filename !in failing {
            disk.DeleteIfExists(filename);
          }
          assert Orphans(repo.records, done + {filename}) == Orphans(repo.records, done) + {filename};
        } else {
          assert Orphans(repo.records, done + {filename}) == Orphans(repo.records, done);
        }
      }
    }
  }
}
