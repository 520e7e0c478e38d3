/**
 * The persisted record of one uploaded file (`FileMetadata`) and its
 * self-destruct rule.
 */
module Metadata {
  import opened Wrappers

  /** Java `int`, the width of `maxDownloads` and `downloadCount`. */
  type Int32 = x: int | -0x8000_0000 <= x < 0x8000_0000

  const MaxInt32: Int32 := 0x7fff_ffff
  const MinInt32: Int32 := -0x8000_0000

  /** Java's `x + 1` on an `int`: the largest value wraps to the smallest. */
  function Int32Succ(x: Int32): (r: Int32)
  {
    if x == MaxInt32 then MinInt32 else x + 1
  }

  /**
   * A point on the server's local clock, in seconds. `LocalDateTime.now()`
   * is never read inside the model: every operation that needs the clock
   * takes the current instant as a parameter.
   */
  type Instant = int

  const SecondsPerMinute: int := 60

  /**
   * One stored file. `password` is the optional access secret that the
   * controller reads with `getPassword()`; the entity class as written does
   * not declare it, and the model adds it as the interface intends.
   */
  datatype FileMetadata = FileMetadata(
    id: string,                 // the short public code, primary key
    originalFilename: string,
    storageName: string,        // the blob's name on disk
    size: nat,
    contentType: string,
    maxDownloads: Int32,
    downloadCount: Int32,
    uploadTime: Instant,
    expiryTime: Instant,
    password: Option<string>)

  /** The download budget is spent. */
  predicate IsExhausted(m: FileMetadata)
  {
    m.downloadCount >= m.maxDownloads
  }

  /** The clock is strictly after the expiry time (`isAfter`). */
  predicate IsOverdue(m: FileMetadata, now: Instant)
  {
    now > m.expiryTime
  }

  /** `isExpired()`, with the clock reading passed in. */
  predicate IsExpired(m: FileMetadata, now: Instant)
  {
    IsExhausted(m) || IsOverdue(m, now)
  }

  /** A record whose budget is spent is expired whatever the clock says. */
  lemma ExhaustedIsExpiredAtEveryInstant(m: FileMetadata, now: Instant)
    requires m.downloadCount >= m.maxDownloads
    ensures IsExpired(m, now)
  {
  }

  /**
   * At the expiry instant itself a record is not yet dead by time: only a
   * spent budget can make it expired then.
   */
  lemma LiveAtExpiryInstant(m: FileMetadata)
    ensures IsExpired(m, m.expiryTime) <==> m.downloadCount >= m.maxDownloads
    ensures IsExpired(m, m.expiryTime + 1)
  {
  }

  /** Expiry is permanent as the clock moves forward. */
  lemma ExpiryIsMonotoneInTime(m: FileMetadata, t: Instant, t': Instant)
    requires t <= t'
    requires IsExpired(m, t)
    ensures IsExpired(m, t')
  {
  }

  /** Downloading more never brings an expired record back to life. */
  lemma ExpiryIsMonotoneInCount(m: FileMetadata, now: Instant, count: Int32)
    requires m.downloadCount <= count
    requires IsExpired(m, now)
    ensures IsExpired(m.(downloadCount := count), now)
  {
  }
}
