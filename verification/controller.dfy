/**
 * `FileController`: the decisions of the upload, download and verify
 * endpoints, with the HTTP response reduced to its outcome.
 */
module Controller {
  import opened Wrappers
  import opened Metadata
  import opened Disk
  import opened StorageService

  /** What an endpoint answers; `ServerError` is an exception left to the framework. */
  datatype Response<+T> =
    | Ok(body: T)
    | BadRequest
    | Forbidden
    | Gone
    | ServerError(cause: StorageError)

  /** The HTTP status each outcome is sent with. */
  function StatusCode<T>(r: Response<T>): (code: int)
    ensures r.Ok? <==> code == 200
    ensures r == BadRequest <==> code == 400
    ensures r == Forbidden <==> code == 403
    ensures r == Gone <==> code == 410
    ensures r.ServerError? <==> code == 500
  {
    match r
    case Ok(_) => 200
    case BadRequest => 400
    case Forbidden => 403
    case Gone => 410
    case ServerError(_) => 500
  }

  /** Request parameter defaults: `downloads` is 1 and `minutes` is 10 when omitted. */
  const DefaultMaxDownloads: Int32 := 1
  const DefaultExpiryMinutes: Int32 := 10

  predicate EndsWith(s: string, suffix: string)
  {
    |suffix| <= |s| && s[|s| - |suffix|..] == suffix
  }

  /** Executable uploads are refused by file name. */
  predicate IsBlockedFilename(name: string)
  {
    EndsWith(name, ".exe") || EndsWith(name, ".bat") || EndsWith(name, ".sh")
  }

  /** Any name ending in a blocked extension is refused, whatever precedes it. */
  lemma BlockedExtensionsAreRefused(stem: string)
    ensures IsBlockedFilename(stem + ".exe")
    ensures IsBlockedFilename(stem + ".bat")
    ensures IsBlockedFilename(stem + ".sh")
  {
    assert (stem + ".exe")[|stem|..] == ".exe";
    assert (stem + ".bat")[|stem|..] == ".bat";
    assert (stem + ".sh")[|stem|..] == ".sh";
  }

  /** A name whose last character is none of `e`, `t`, `h` is never refused. */
  lemma OtherNamesAreAccepted(name: string)
    requires |name| > 0 && name[|name| - 1] !in {'e', 't', 'h'}
    ensures !IsBlockedFilename(name)
  {
  }

  /** A non-empty stored password protects the file; an empty one counts as none. */
  predicate IsProtected(m: FileMetadata)
  {
    m.password.Some? && m.password.value != ""
  }

  /** The supplied password opens the file. */
  predicate PasswordAccepted(m: FileMetadata, input: Option<string>)
  {
    !IsProtected(m) || input == Some(m.password.value)
  }

  /** The checks shared by download and verify. */
  datatype Access = Granted | Expired | WrongPassword

  /** The expiry check comes first, then the password check. */
  function CheckAccess(m: FileMetadata, now: Instant, input: Option<string>): (a: Access)
    ensures a == Expired <==> IsExpired(m, now)
    ensures a == WrongPassword <==> !IsExpired(m, now) && !PasswordAccepted(m, input)
    ensures a == Granted <==> !IsExpired(m, now) && PasswordAccepted(m, input)
  {
    if IsExpired(m, now) then Expired
    else if IsProtected(m) && (input.None? || input.value != m.password.value) then WrongPassword
    else Granted
  }

  /** A granted download never meets the 32-bit ceiling, so it adds exactly one. */
  lemma GrantedDownloadAddsOne(m: FileMetadata, now: Instant, input: Option<string>)
    requires CheckAccess(m, now, input) == Granted
    ensures Incremented(m).downloadCount == m.downloadCount + 1
    ensures Incremented(m).(downloadCount := m.downloadCount) == m
  {
    IncrementAddsOne(m);
  }

  /** One download attempt: the clock at the request and the password sent. */
  datatype Attempt = Attempt(now: Instant, password: Option<string>)

  /**
   * How many of `attempts`, made one after another on one record whose blob
   * is `blobs`' entry (if any), are served. A granted attempt whose blob is
   * missing fails at `loadAsResource` and counts nothing.
   */
  function Served(m: FileMetadata, blobs: map<string, Blob>, attempts: seq<Attempt>): (n: nat)
    ensures n <= |attempts|
    decreases |attempts|
  {
    if attempts == [] then 0
    else if CheckAccess(m, attempts[0].now, attempts[0].password) == Granted && m.storageName in blobs
    then 1 + Served(Incremented(m), blobs, attempts[1..])
    else Served(m, blobs, attempts[1..])
  }

  /** The downloads left before a record self-destructs by count. */
  function Remaining(m: FileMetadata): (n: nat)
    ensures n == 0 <==> IsExhausted(m)
  {
    if m.maxDownloads > m.downloadCount then m.maxDownloads - m.downloadCount else 0
  }

  /** Sequential downloads never serve a file more than `maxDownloads - downloadCount` times. */
  lemma {:induction false} ServedAtMostRemaining(m: FileMetadata, blobs: map<string, Blob>, attempts: seq<Attempt>)
    ensures Served(m, blobs, attempts) <= Remaining(m)
    decreases |attempts|
  {
    if attempts != [] {
      var a := attempts[0];
      if CheckAccess(m, a.now, a.password) == Granted && m.storageName in blobs {
        GrantedDownloadAddsOne(m, a.now, a.password);
        ServedAtMostRemaining(Incremented(m), blobs, attempts[1..]);
      } else {
        ServedAtMostRemaining(m, blobs, attempts[1..]);
      }
    }
  }

  /** With the blob missing, no download is ever served. */
  lemma {:induction false} MissingBlobServesNothing(m: FileMetadata, blobs: map<string, Blob>, attempts: seq<Attempt>)
    requires m.storageName !in blobs
    ensures Served(m, blobs, attempts) == 0
    decreases |attempts|
  {
    if attempts != [] {
      MissingBlobServesNothing(m, blobs, attempts[1..]);
    }
  }

  /**
   * Before the deadline, with the right password and the blob on disk,
   * sequential downloads are served until the budget is spent: exactly
   * `min(attempts, remaining)`.
   */
  lemma {:induction false} ServedExactlyUntilExhausted(m: FileMetadata, blobs: map<string, Blob>, attempts: seq<Attempt>)
    requires m.storageName in blobs
    requires forall k :: 0 <= k < |attempts| ==> attempts[k].now <= m.expiryTime
    requires forall k :: 0 <= k < |attempts| ==> PasswordAccepted(m, attempts[k].password)
    ensures Served(m, blobs, attempts) == if |attempts| < Remaining(m) then |attempts| else Remaining(m)
    decreases |attempts|
  {
    if attempts != [] {
      var a := attempts[0];
      if CheckAccess(m, a.now, a.password) == Granted {
        GrantedDownloadAddsOne(m, a.now, a.password);
        ServedExactlyUntilExhausted(Incremented(m), blobs, attempts[1..]);
      } else {
        ServedAtMostRemaining(m, blobs, attempts[1..]);
      }
    }
  }

  /** A single-use upload is served once; the very next download finds it gone. */
  lemma SingleUseSelfDestructs(m: FileMetadata, now: Instant, later: Instant, input: Option<string>, input': Option<string>)
    requires m.maxDownloads == 1 && m.downloadCount == 0
    requires CheckAccess(m, now, input) == Granted
    ensures CheckAccess(Incremented(m), later, input') == Expired
  {
  }

  class FileController {
    const storage: FileSystemStorageService

    constructor (storage: FileSystemStorageService)
      ensures this.storage == storage
    {
      this.storage := storage;
    }

    /**
     * `uploadFile`: refuse executable names before storing anything, fill
     * in the parameter defaults, then store. An empty file makes `store`
     * throw.
     */
    method UploadFile(file: Upload, downloads: Option<Int32>, minutes: Option<Int32>, password: Option<string>,
                      now: Instant, draws: seq<int>, uuid: string)
      returns (resp: Response<FileMetadata>)
      requires storage.repo.Valid()
      requires |draws| == ShortIdLength
      requires forall k :: 0 <= k < |draws| ==> 0 <= draws[k] < |Alphabet|
      modifies storage.repo, storage.disk
      ensures storage.repo.Valid()
      ensures IsBlockedFilename(file.originalFilename) ==> resp == BadRequest
      ensures !resp.Ok? ==> storage.repo.records == old(storage.repo.records)
                            && storage.disk.blobs == old(storage.disk.blobs)
      ensures !IsBlockedFilename(file.originalFilename) && file.content == [] ==> resp == ServerError(EmptyFile)
      ensures resp.Ok? <==> !IsBlockedFilename(file.originalFilename) && file.content != []
      ensures resp.Ok? ==>
                && IsShortId(resp.body.id)
                && resp.body == NewRecord(resp.body.id, file, uuid,
                                          if downloads.Some? then downloads.value else DefaultMaxDownloads,
                                          if minutes.Some? then minutes.value else DefaultExpiryMinutes,
                                          password, now)
                && storage.disk.blobs == old(storage.disk.blobs)[uuid := file.content]
                && storage.repo.records == old(storage.repo.records)[resp.body.id := resp.body]
    {
      if IsBlockedFilename(file.originalFilename) {
        return BadRequest;
      }
      var maxDownloads := if downloads.Some? then downloads.value else DefaultMaxDownloads;
      var expiryMinutes := if minutes.Some? then minutes.value else DefaultExpiryMinutes;
      var stored := storage.Store(file, maxDownloads, expiryMinutes, password, now, draws, uuid);
      match stored
      case Success(metadata) => resp := Ok(metadata);
      case Failure(e) => resp := ServerError(e);
    }

    /**
     * `downloadFile`: look the record up, refuse an expired one (410), then
     * a wrong password (403), then load the blob and only then count the
     * download. The counter is bumped only when the file is served.
     */
    method DownloadFile(id: string, inputPassword: Option<string>, now: Instant)
      returns (resp: Response<Resource>)
      requires storage.repo.Valid()
      modifies storage.repo
      ensures storage.repo.Valid()
      ensures id !in old(storage.repo.records) ==> resp == ServerError(MetadataNotFound(id))
      ensures id in old(storage.repo.records) ==>
                var m := old(storage.repo.records)[id];
                && (resp == Gone <==> IsExpired(m, now))
                && (resp == Forbidden <==> CheckAccess(m, now, inputPassword) == WrongPassword)
                && (resp.Ok? <==> CheckAccess(m, now, inputPassword) == Granted && m.storageName in storage.disk.blobs)
      ensures id in old(storage.repo.records)
              && CheckAccess(old(storage.repo.records)[id], now, inputPassword) == Granted
              && old(storage.repo.records)[id].storageName !in storage.disk.blobs
              ==> resp == ServerError(CouldNotRead(id))
      ensures resp.Ok? ==>
                var m := old(storage.repo.records)[id];
                && resp.body == Resource(m.storageName, storage.disk.blobs[m.storageName])
                && storage.repo.records == old(storage.repo.records)[id := m.(downloadCount := m.downloadCount + 1)]
      ensures !resp.Ok? ==> storage.repo.records == old(storage.repo.records)
    {
      var found := GetMetadata(storage.repo.records, id);
      if found.Failure? {
        return ServerError(found.error);
      }
      var metadata := found.value;
      var access := CheckAccess(metadata, now, inputPassword);
      if access == Expired {
        return Gone;
      }
      if access == WrongPassword {
        return Forbidden;
      }
      var loaded := LoadAsResource(storage.repo.records, storage.disk.blobs, id);
      if loaded.Failure? {
        return ServerError(loaded.error);
      }
      GrantedDownloadAddsOne(metadata, now, inputPassword);
      var counted := storage.IncrementDownloadCount(id);
      resp := Ok(loaded.value);
    }

    /**
     * `verifyPassword`: the same two checks as a download, in the same
     * order, with no counting and no blob access. The `null` test on the
     * metadata can never fire, because `getMetadata` throws first.
     */
    method VerifyPassword(id: string, inputPassword: Option<string>, now: Instant)
      returns (resp: Response<()>)
      ensures id !in storage.repo.records ==> resp == ServerError(MetadataNotFound(id))
      ensures resp.Ok? <==> id in storage.repo.records
                            && !IsExpired(storage.repo.records[id], now)
                            && PasswordAccepted(storage.repo.records[id], inputPassword)
      ensures resp == Gone <==> id in storage.repo.records && IsExpired(storage.repo.records[id], now)
      ensures resp == Forbidden <==> id in storage.repo.records && !IsExpired(storage.repo.records[id], now)
                                     && !PasswordAccepted(storage.repo.records[id], inputPassword)
    {
      var found := GetMetadata(storage.repo.records, id);
      if found.Failure? {
        return ServerError(found.error);
      }
      var metadata := found.value;
      match CheckAccess(metadata, now, inputPassword)
      case Expired => resp := Gone;
      case WrongPassword => resp := Forbidden;
      case Granted => resp := Ok(());
    }
  }
}
