/**
 * The metadata table (`FileRepository`): records keyed by their short id,
 * the two queries the janitor runs, and the lookup by storage name.
 */
module Repository {
  import opened Wrappers
  import opened Metadata

  /** The table's contents: primary key to record. */
  type Records = map<string, FileMetadata>

  /** The table is keyed by the `@Id` field: each record sits under its own id. */
  ghost predicate KeyedById(records: Records)
  {
    forall id :: id in records ==> records[id].id == id
  }

  /** `findById`. */
  function FindById(records: Records, id: string): (r: Option<FileMetadata>)
  {
    if id in records then Some(records[id]) else None
  }

  /** `findByExpiryTimeBefore(now)`: the records whose expiry time lies strictly before `now`. */
  function FindByExpiryTimeBefore(records: Records, now: Instant): (r: set<FileMetadata>)
    ensures forall f :: f in r ==> f in records.Values && f.expiryTime < now
    ensures forall id :: id in records && records[id].expiryTime < now ==> records[id] in r
  {
    set f | f in records.Values && f.expiryTime < now
  }

  /** `findByExpiryLimit()`: the records with `downloadCount >= maxDownloads`. */
  function FindByExpiryLimit(records: Records): (r: set<FileMetadata>)
    ensures forall f :: f in r ==> f in records.Values && f.downloadCount >= f.maxDownloads
    ensures forall id :: id in records && records[id].downloadCount >= records[id].maxDownloads ==> records[id] in r
  {
    set f | f in records.Values && f.downloadCount >= f.maxDownloads
  }

  /** `existsByStorageName(name)`: some record names this blob. */
  function ExistsByStorageName(records: Records, name: string): (b: bool)
    ensures b <==> exists id :: id in records && records[id].storageName == name
  {
    exists f :: f in records.Values && f.storageName == name
  }

  /**
   * The two janitor queries together find exactly the records `isExpired`
   * calls dead at the same instant: `expiryTime` before `now` is `now` after
   * `expiryTime`.
   */
  lemma ExpiryQueriesFindExactlyTheExpired(records: Records, now: Instant)
    ensures forall f :: f in FindByExpiryTimeBefore(records, now) + FindByExpiryLimit(records)
                    <==> f in records.Values && IsExpired(f, now)
  {
  }

  /** Keyed by id, the table never holds two different records with one id. */
  lemma AtMostOneRecordPerId(records: Records, f: FileMetadata, g: FileMetadata)
    requires KeyedById(records)
    requires f in records.Values && g in records.Values
    requires f.id == g.id
    ensures f == g
  {
    var kf :| kf in records && records[kf] == f;
    var kg :| kg in records && records[kg] == g;
  }

  /** The JPA repository as a mutable table. */
  class FileRepository {
    var records: Records

    ghost predicate Valid()
      reads this
    {
      KeyedById(records)
    }

    constructor ()
      ensures Valid() && records == map[]
    {
      records := map[];
    }

    /** `save(m)`: insert, or replace the record with the same id. */
    method Save(m: FileMetadata)
      requires Valid()
      modifies this
      ensures Valid()
      ensures records == old(records)[m.id := m]
    {
      records := records[m.id := m];
    }

    /** `delete(m)`: remove the record with `m`'s id; nothing happens if there is none. */
    method Delete(m: FileMetadata)
      requires Valid()
      modifies this
      ensures Valid()
      ensures records == old(records) - {m.id}
    {
      records := records - {m.id};
    }
  }
}
