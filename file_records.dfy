/**
 * The records of the file gateway: the `FilesTable` row kept in the table
 * store, the `CloudFile` projection a listing returns, and the pure functions
 * that say what a table query, a row deletion and a listing produce.
 */
module FileRecords {
  import opened Outcomes

  newtype byte = x: int | 0 <= x < 256

  /** The whole content of an uploaded file, as read from the request body. */
  type Bytes = seq<byte>

  /** A clock value the table store assigns to a row when it inserts it; opaque here. */
  type Instant = nat

  /** The blob container that holds the file contents. */
  const ContainerName: string := "files-container"

  /** The one partition key under which every row is written. */
  const PartitionName: string := "partition1"

  /** The primary key of a table row. */
  datatype TableKey = TableKey(PartitionKey: string, RowKey: string)

  /**
   * A row of the files table. `RowKey` is the file ID, which is also the name
   * of the file's blob. `Timestamp` is empty on an entity the gateway builds
   * and is filled in by the store on insert. The row's ETag is not modelled.
   */
  datatype FilesTable = FilesTable(
    PartitionKey: string,
    RowKey: string,
    Timestamp: Option<Instant>,
    FileName: string,
    FileSpace: string)
  {
    function Key(): TableKey { TableKey(PartitionKey, RowKey) }
  }

  /** One entry of a listing: a row's metadata together with a read link to its blob. */
  datatype CloudFile = CloudFile(
    Name: string,
    FileSpace: string,
    FileID: string,
    TimeStamp: Instant,
    Link: string)

  /** The errors the storage account can raise to the gateway. */
  datatype StoreError =
    | ServiceUnavailable   // the blob or table service cannot be reached
    | ContainerNotFound    // a blob is written into a container that was never created
    | BlobAlreadyExists    // an upload that does not overwrite meets an existing blob
    | TableNotFound        // the table is used before it was ever created
    | EntityAlreadyExists  // an insert meets a row with the same (PartitionKey, RowKey)

  /** The entity the gateway builds for a new upload, before the store stamps it. */
  function NewEntity(fileID: string, fileName: string, fileSpace: string): FilesTable {
    FilesTable(PartitionName, fileID, None, fileName, fileSpace)
  }

  /** The row as the store keeps it once inserted at time `now`. */
  function Stamp(entity: FilesTable, now: Instant): FilesTable {
    entity.(Timestamp := Some(now))
  }

  function KeysOf(rows: seq<FilesTable>): set<TableKey> {
    set e | e in rows :: e.Key()
  }

  /** No two rows of the table share a primary key. */
  predicate UniqueKeys(rows: seq<FilesTable>) {
    forall i, j | 0 <= i < j < |rows| :: rows[i].Key() != rows[j].Key()
  }

  /** Every row carries the timestamp the store gave it. */
  predicate Stamped(rows: seq<FilesTable>) {
    forall e | e in rows :: e.Timestamp.Some?
  }

  /** Every row sits in the gateway's fixed partition. */
  predicate InPartition(rows: seq<FilesTable>) {
    forall e | e in rows :: e.PartitionKey == PartitionName
  }

  /**
   * The rows of `rows` that satisfy `filter`, in store order: what a table
   * query returns, and what is left when rows are deleted.
   */
  function Where(rows: seq<FilesTable>, filter: FilesTable -> bool): (kept: seq<FilesTable>)
    ensures |kept| <= |rows|
    ensures forall e :: e in kept <==> e in rows && filter(e)
    decreases |rows|
  {
    if rows == [] then []
    else
      var init, last := rows[..|rows| - 1], rows[|rows| - 1];
      assert rows == init + [last];
      if filter(last) then Where(init, filter) + [last] else Where(init, filter)
  }

  /** The listing query: rows whose FileSpace equals `fileSpace` exactly. */
  function FileSpaceFilter(fileSpace: string): FilesTable -> bool {
    (e: FilesTable) => e.FileSpace == fileSpace
  }

  /** The deletion query: rows of `fileSpace` whose RowKey is `fileId`. */
  function EntryFilter(fileSpace: string, fileId: string): FilesTable -> bool {
    (e: FilesTable) => e.FileSpace == fileSpace && e.RowKey == fileId
  }

  /** The table once every row whose key is in `keys` is deleted. */
  function WithoutKeys(rows: seq<FilesTable>, keys: set<TableKey>): seq<FilesTable> {
    Where(rows, (e: FilesTable) => e.Key() !in keys)
  }

  /** Deleting keys that no row has deletes nothing. */
  lemma WithoutAbsentKeys(rows: seq<FilesTable>, keys: set<TableKey>)
    requires keys !! KeysOf(rows)
    ensures WithoutKeys(rows, keys) == rows
  {
    forall e | e in rows ensures e.Key() !in keys {
      assert e.Key() in KeysOf(rows);
    }
    WhereAll(rows, (e: FilesTable) => e.Key() !in keys);
  }

  /** Deleting the keys of the rows `deleted[..i]`, then the key of `deleted[i]`. */
  lemma WithoutKeysStep(rows: seq<FilesTable>, deleted: seq<FilesTable>, i: int)
    requires 0 <= i < |deleted|
    ensures WithoutKeys(WithoutKeys(rows, KeysOf(deleted[..i])), {deleted[i].Key()})
            == WithoutKeys(rows, KeysOf(deleted[..i + 1]))
  {
    WithoutKeysTwice(rows, KeysOf(deleted[..i]), {deleted[i].Key()});
    assert deleted[..i + 1] == deleted[..i] + [deleted[i]];
    assert KeysOf(deleted[..i + 1]) == KeysOf(deleted[..i]) + {deleted[i].Key()};
  }

  /** Deleting rows by key keeps the keys unique. */
  lemma WithoutKeysUnique(rows: seq<FilesTable>, keys: set<TableKey>)
    requires UniqueKeys(rows)
    ensures UniqueKeys(WithoutKeys(rows, keys))
  {
    WhereUniqueKeys(rows, (e: FilesTable) => e.Key() !in keys);
  }

  /** The table once the rows of `fileSpace` with RowKey `fileId` are deleted. */
  function WithoutEntry(rows: seq<FilesTable>, fileSpace: string, fileId: string): seq<FilesTable> {
    Where(rows, (e: FilesTable) => !(e.FileSpace == fileSpace && e.RowKey == fileId))
  }

  /**
   * The read-only shared-access link of a blob. The signature and the one-day
   * expiry are not modelled: the link is a token built from the blob's name.
   */
  function ReadLink(blobName: string): (link: string)
    ensures link != ""
  {
    "/" + ContainerName + "/" + blobName + "?sp=r"
  }

  /** The link a listing shows for a blob: empty exactly when no blob has that name. */
  function LinkFor(blobs: map<string, Bytes>, blobName: string): (link: string)
    ensures link == "" <==> blobName !in blobs
  {
    if blobName in blobs then ReadLink(blobName) else ""
  }

  /** One listing entry built from a row read back from the store. */
  function Project(entity: FilesTable, link: string): CloudFile
    requires entity.Timestamp.Some?
  {
    CloudFile(entity.FileName, entity.FileSpace, entity.RowKey, entity.Timestamp.value, link)
  }

  /** The listing built from query results, one entry per row, in query order. */
  function Listing(entities: seq<FilesTable>, blobs: map<string, Bytes>): (files: seq<CloudFile>)
    requires Stamped(entities)
    ensures |files| == |entities|
    decreases |entities|
  {
    if entities == [] then []
    else
      var last := entities[|entities| - 1];
      Listing(entities[..|entities| - 1], blobs) + [Project(last, LinkFor(blobs, last.RowKey))]
  }

  /** The listing of one file space: every row of that space, projected with its link. */
  function ListingOf(rows: seq<FilesTable>, blobs: map<string, Bytes>, fileSpace: string): seq<CloudFile>
    requires Stamped(rows)
  {
    Listing(Where(rows, FileSpaceFilter(fileSpace)), blobs)
  }

  /** The i-th entry of a listing is the projection of the i-th row, with its blob's link. */
  lemma {:induction false} ListingAt(entities: seq<FilesTable>, blobs: map<string, Bytes>, i: int)
    requires Stamped(entities) && 0 <= i < |entities|
    ensures Listing(entities, blobs)[i] == Project(entities[i], LinkFor(blobs, entities[i].RowKey))
    decreases |entities|
  {
    if i < |entities| - 1 {
      ListingAt(entities[..|entities| - 1], blobs, i);
    }
  }

  /** A query over a table with one row appended. */
  lemma WhereAppend(rows: seq<FilesTable>, e: FilesTable, filter: FilesTable -> bool)
    ensures Where(rows + [e], filter) == Where(rows, filter) + (if filter(e) then [e] else [])
  {
    assert (rows + [e])[..|rows|] == rows;
  }

  /** Two filters that agree on every row of the table select the same rows. */
  lemma {:induction false} WhereAgree(rows: seq<FilesTable>, p: FilesTable -> bool, q: FilesTable -> bool)
    requires forall e :: e in rows ==> p(e) == q(e)
    ensures Where(rows, p) == Where(rows, q)
    decreases |rows|
  {
    if rows != [] {
      var init := rows[..|rows| - 1];
      assert rows == init + [rows[|rows| - 1]];
      WhereAgree(init, p, q);
    }
  }

  /** Filtering twice is filtering once by the conjunction of the two filters. */
  lemma {:induction false} WhereWhere(rows: seq<FilesTable>, p: FilesTable -> bool, q: FilesTable -> bool,
                                      both: FilesTable -> bool)
    requires forall e :: both(e) == (p(e) && q(e))
    ensures Where(Where(rows, p), q) == Where(rows, both)
    decreases |rows|
  {
    if rows != [] {
      var init, last := rows[..|rows| - 1], rows[|rows| - 1];
      WhereWhere(init, p, q, both);
      if p(last) {
        WhereAppend(Where(init, p), last, q);
      }
    }
  }

  /** A filter that every row satisfies keeps the whole table. */
  lemma {:induction false} WhereAll(rows: seq<FilesTable>, p: FilesTable -> bool)
    requires forall e :: e in rows ==> p(e)
    ensures Where(rows, p) == rows
    decreases |rows|
  {
    if rows != [] {
      var init := rows[..|rows| - 1];
      assert rows == init + [rows[|rows| - 1]];
      WhereAll(init, p);
    }
  }

  /** Appending a row whose key is new keeps the keys unique. */
  lemma UniqueKeysAppend(rows: seq<FilesTable>, e: FilesTable)
    requires UniqueKeys(rows) && e.Key() !in KeysOf(rows)
    ensures UniqueKeys(rows + [e])
  {
    var s := rows + [e];
    forall i, j | 0 <= i < j < |s| ensures s[i].Key() != s[j].Key() {
      if j == |rows| {
        assert s[i] in rows;
      }
    }
  }

  /** The rows before the last one of a uniquely keyed table are uniquely keyed and do not hold the last key. */
  lemma UniqueKeysInit(rows: seq<FilesTable>)
    requires UniqueKeys(rows) && rows != []
    ensures UniqueKeys(rows[..|rows| - 1])
    ensures rows[|rows| - 1].Key() !in KeysOf(rows[..|rows| - 1])
  {
    var init, last := rows[..|rows| - 1], rows[|rows| - 1];
    forall e | e in init ensures e.Key() != last.Key() {
      var i :| 0 <= i < |init| && init[i] == e;
      assert rows[i] == e;
    }
  }

  /** Two rows of a uniquely keyed table with the same key are the same row. */
  lemma SameKeySameRow(rows: seq<FilesTable>, a: FilesTable, b: FilesTable)
    requires UniqueKeys(rows) && a in rows && b in rows && a.Key() == b.Key()
    ensures a == b
  {
    var i :| 0 <= i < |rows| && rows[i] == a;
    var j :| 0 <= j < |rows| && rows[j] == b;
    assert i == j;
  }

  /** Any query or deletion of a uniquely keyed table leaves it uniquely keyed. */
  lemma {:induction false} WhereUniqueKeys(rows: seq<FilesTable>, p: FilesTable -> bool)
    requires UniqueKeys(rows)
    ensures UniqueKeys(Where(rows, p))
    decreases |rows|
  {
    if rows != [] {
      var init, last := rows[..|rows| - 1], rows[|rows| - 1];
      UniqueKeysInit(rows);
      WhereUniqueKeys(init, p);
      if p(last) {
        assert last.Key() !in KeysOf(Where(init, p));
        UniqueKeysAppend(Where(init, p), last);
      }
    }
  }

  /** Deleting by one set of keys and then by another is deleting by their union. */
  lemma WithoutKeysTwice(rows: seq<FilesTable>, first: set<TableKey>, second: set<TableKey>)
    ensures WithoutKeys(WithoutKeys(rows, first), second) == WithoutKeys(rows, first + second)
  {
    WhereWhere(rows, (e: FilesTable) => e.Key() !in first, (e: FilesTable) => e.Key() !in second,
               (e: FilesTable) => e.Key() !in first + second);
  }

  /**
   * In a uniquely keyed table, deleting the keys of the rows that the
   * deletion query selects removes exactly the rows of `fileSpace` with
   * RowKey `fileId`.
   */
  lemma DeleteByMatchedKeys(rows: seq<FilesTable>, fileSpace: string, fileId: string)
    requires UniqueKeys(rows)
    ensures WithoutKeys(rows, KeysOf(Where(rows, EntryFilter(fileSpace, fileId))))
            == WithoutEntry(rows, fileSpace, fileId)
  {
    var matched := Where(rows, EntryFilter(fileSpace, fileId));
    var keys := KeysOf(matched);
    forall e | e in rows
      ensures (e.Key() !in keys) == !(e.FileSpace == fileSpace && e.RowKey == fileId)
    {
      if e.Key() in keys {
        var m :| m in matched && m.Key() == e.Key();
        SameKeySameRow(rows, m, e);
      }
    }
    WhereAgree(rows, (e: FilesTable) => e.Key() !in keys,
               (e: FilesTable) => !(e.FileSpace == fileSpace && e.RowKey == fileId));
  }
}
