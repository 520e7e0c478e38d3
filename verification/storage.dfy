/**
 * `FileSystemStorageService`: upload, lookup, blob resolution and the
 * download counter, over the metadata table and the upload folder.
 */
module StorageService {
  import opened Wrappers
  import opened Metadata
  import opened Repository
  import opened Disk

  /** The multipart upload as the service sees it. */
  datatype Upload = Upload(originalFilename: string, contentType: string, content: Blob)

  /** A readable file on disk, found through a record. */
  datatype Resource = Resource(storageName: string, content: Blob)

  /** The `RuntimeException`s the service throws. */
  datatype StorageError =
    | EmptyFile                      // "Failed to store empty file."
    | MetadataNotFound(id: string)   // "Metadata not found for id: ..." / "File not found in DB: ..."
    | CouldNotRead(id: string)       // "Could not read file: ..."

  /** Length of the public short id. */
  const ShortIdLength: nat := 6

  /** `n` consecutive characters starting at `first`. */
  function CharRun(first: char, n: nat): (s: string)
    requires first as int + n <= 0xD800
  {
    seq(n, k requires 0 <= k < n => (first as int + k) as char)
  }

  /** The short-id alphabet: `A`-`Z`, then `a`-`z`, then `0`-`9`. */
  const Alphabet: string := CharRun('A', 26) + CharRun('a', 26) + CharRun('0', 10)

  predicate IsAlphanumeric(c: char)
  {
    'A' <= c <= 'Z' || 'a' <= c <= 'z' || '0' <= c <= '9'
  }

  /** A well-formed short id: six symbols of the alphabet. */
  predicate IsShortId(s: string)
  {
    |s| == ShortIdLength && forall k :: 0 <= k < |s| ==> IsAlphanumeric(s[k])
  }

  /** The alphabet has 62 distinct symbols, and they are exactly the ASCII letters and digits. */
  lemma AlphabetIsTheSixtyTwoAlphanumerics()
    ensures |Alphabet| == 62
    ensures forall k :: 0 <= k < |Alphabet| ==> IsAlphanumeric(Alphabet[k])
    ensures forall c :: IsAlphanumeric(c) ==> c in Alphabet
    ensures forall j, k :: 0 <= j < k < |Alphabet| ==> Alphabet[j] != Alphabet[k]
  {
    forall c | IsAlphanumeric(c) ensures c in Alphabet {
      if 'A' <= c <= 'Z' {
        assert Alphabet[c as int - 'A' as int] == c;
      } else if 'a' <= c <= 'z' {
        assert Alphabet[26 + (c as int - 'a' as int)] == c;
      } else {
        assert Alphabet[52 + (c as int - '0' as int)] == c;
      }
    }
  }

  /**
   * `generateShortId(length)`: one symbol per draw of `random.nextInt(62)`.
   * The draws are the random numbers the generator would return.
   */
  method GenerateShortId(length: nat, draws: seq<int>) returns (id: string)
    requires |draws| == length
    requires forall k :: 0 <= k < |draws| ==> 0 <= draws[k] < |Alphabet|
    ensures |id| == length
    ensures forall k :: 0 <= k < length ==> id[k] == Alphabet[draws[k]] && IsAlphanumeric(id[k])
  {
    AlphabetIsTheSixtyTwoAlphanumerics();
    var sb := "";
    for i := 0 to length
      invariant |sb| == i
      invariant forall k :: 0 <= k < i ==> sb[k] == Alphabet[draws[k]]
    {
      sb := sb + [Alphabet[draws[i]]];
    }
    id := sb;
  }

  /** The record `store` builds for a non-empty upload. */
  function NewRecord(id: string, file: Upload, storageName: string, maxDownloads: Int32,
                     expiryMinutes: Int32, password: Option<string>, now: Instant): (m: FileMetadata)
  {
    FileMetadata(id, file.originalFilename, storageName, |file.content|, file.contentType,
                 maxDownloads, 0, now, now + SecondsPerMinute * expiryMinutes, password)
  }

  /** A fresh upload is live at upload time when it allows a download and its lifetime is not negative. */
  lemma NewRecordIsLive(id: string, file: Upload, storageName: string, maxDownloads: Int32,
                        expiryMinutes: Int32, password: Option<string>, now: Instant, t: Instant)
    requires maxDownloads >= 1 && expiryMinutes >= 0
    requires now <= t <= now + SecondsPerMinute * expiryMinutes
    ensures !IsExpired(NewRecord(id, file, storageName, maxDownloads, expiryMinutes, password, now), t)
  {
  }

  /** `getMetadata(id)`: the stored record, or an exception for an unknown id. */
  function GetMetadata(records: Records, id: string): (r: Result<FileMetadata, StorageError>)
    ensures r.Success? <==> id in records
    ensures r.Success? ==> r.value == records[id]
    ensures r.Failure? ==> r.error == MetadataNotFound(id)
  {
    match FindById(records, id)
    case Some(m) => Success(m)
    case None => Failure(MetadataNotFound(id))
  }

  /**
   * `loadAsResource(id)`: the blob named by the record's storage name (never
   * by its original file name), or an exception when the record or the file
   * is missing.
   */
  function LoadAsResource(records: Records, blobs: map<string, Blob>, id: string): (r: Result<Resource, StorageError>)
    ensures id !in records ==> r == Failure(MetadataNotFound(id))
    ensures id in records && records[id].storageName !in blobs ==> r == Failure(CouldNotRead(id))
    ensures id in records && records[id].storageName in blobs ==>
              r == Success(Resource(records[id].storageName, blobs[records[id].storageName]))
    ensures r.Success? ==> id in records && r.value.storageName == records[id].storageName
                           && r.value.storageName in blobs && r.value.content == blobs[r.value.storageName]
  {
    match FindById(records, id)
    case None => Failure(MetadataNotFound(id))
    case Some(m) =>
      if m.storageName in blobs then Success(Resource(m.storageName, blobs[m.storageName]))
      else Failure(CouldNotRead(id))
  }

  /** Renaming the upload never changes which bytes a download serves. */
  lemma LoadIgnoresOriginalFilename(records: Records, blobs: map<string, Blob>, id: string, name: string)
    requires id in records
    ensures LoadAsResource(records[id := records[id].(originalFilename := name)], blobs, id)
         == LoadAsResource(records, blobs, id)
  {
  }

  /** The record after one more download. */
  function Incremented(m: FileMetadata): (m': FileMetadata)
  {
    m.(downloadCount := Int32Succ(m.downloadCount))
  }

  class FileSystemStorageService {
    const repo: FileRepository
    const disk: BlobStore

    constructor (repo: FileRepository, disk: BlobStore)
      ensures this.repo == repo && this.disk == disk
    {
      this.repo := repo;
      this.disk := disk;
    }

    /**
     * `store(file, maxDownloads, expiryMinutes, password)`. The random draws
     * for the short id, the UUID for the storage name and the clock are
     * parameters. An empty upload is refused before anything is written;
     * otherwise the blob is written first, then the record saved.
     */
    method Store(file: Upload, maxDownloads: Int32, expiryMinutes: Int32, password: Option<string>,
                 now: Instant, draws: seq<int>, uuid: string)
      returns (r: Result<FileMetadata, StorageError>)
      requires repo.Valid()
      requires |draws| == ShortIdLength
      requires forall k :: 0 <= k < |draws| ==> 0 <= draws[k] < |Alphabet|
      modifies repo, disk
      ensures repo.Valid()
      ensures file.content == [] <==> r.Failure?
      ensures r.Failure? ==> r.error == EmptyFile
                             && repo.records == old(repo.records) && disk.blobs == old(disk.blobs)
      ensures r.Success? ==>
                && IsShortId(r.value.id)
                && r.value == NewRecord(r.value.id, file, uuid, maxDownloads, expiryMinutes, password, now)
                && disk.blobs == old(disk.blobs)[uuid := file.content]
                && repo.records == old(repo.records)[r.value.id := r.value]
    {
      if file.content == [] {
        return Failure(EmptyFile);
      }
      var shortId := GenerateShortId(ShortIdLength, draws);
      var storageName := uuid;
      disk.Copy(storageName, file.content);
      var metadata := NewRecord(shortId, file, storageName, maxDownloads, expiryMinutes, password, now);
      repo.Save(metadata);
      r := Success(metadata);
    }

    /**
     * `incrementDownloadCount(id)`: read, add one, save. There is no check
     * against `maxDownloads`; the addition is Java's 32-bit one.
     */
    method IncrementDownloadCount(id: string) returns (r: Result<(), StorageError>)
      requires repo.Valid()
      modifies repo
      ensures repo.Valid()
      ensures r.Failure? <==> id !in old(repo.records)
      ensures r.Failure? ==> r.error == MetadataNotFound(id) && repo.records == old(repo.records)
      ensures r.Success? ==> repo.records == old(repo.records)[id := Incremented(old(repo.records)[id])]
    {
      var found := GetMetadata(repo.records, id);
      if found.Failure? {
        return Failure(found.error);
      }
      var metadata := found.value;
      metadata := metadata.(downloadCount := Int32Succ(metadata.downloadCount));
      repo.Save(metadata);
      r := Success(());
    }
  }

  /** Below the 32-bit ceiling one increment adds exactly one and touches nothing else. */
  lemma IncrementAddsOne(m: FileMetadata)
    requires m.downloadCount < MaxInt32
    ensures Incremented(m).downloadCount == m.downloadCount + 1
    ensures Incremented(m).(downloadCount := m.downloadCount) == m
  {
  }
}
