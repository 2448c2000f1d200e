/**
 * Properties of the gateway's three operations, stated on the values the
 * operations leave in the table and the container: what a listing holds,
 * what an upload adds to it, what a deletion removes, and what a deletion
 * under the wrong file space does.
 */
module GatewayProperties {
  import opened Outcomes
  import opened FileRecords

  /**
   * A listing holds one entry per row of the file space, in query order; each
   * entry copies its row's FileName, FileSpace, RowKey and Timestamp, and its
   * link is empty exactly when no blob is stored under the RowKey.
   */
  lemma ListingMatchesFileSpace(rows: seq<FilesTable>, blobs: map<string, Bytes>, fileSpace: string)
    requires Stamped(rows)
    ensures var found := Where(rows, FileSpaceFilter(fileSpace));
            var files := ListingOf(rows, blobs, fileSpace);
            && |files| == |found|
            && forall i | 0 <= i < |files| ::
                 && found[i] in rows
                 && files[i].FileSpace == fileSpace
                 && files[i].Name == found[i].FileName
                 && files[i].FileID == found[i].RowKey
                 && found[i].Timestamp == Some(files[i].TimeStamp)
                 && (files[i].Link == "" <==> files[i].FileID !in blobs)
                 && (files[i].FileID in blobs ==> files[i].Link == ReadLink(files[i].FileID))
  {
    var found := Where(rows, FileSpaceFilter(fileSpace));
    forall i | 0 <= i < |found| {
      ListingAt(found, blobs, i);
    }
  }

  /** A row of the file space is listed, whether or not its blob still exists. */
  lemma EveryRowIsListed(rows: seq<FilesTable>, blobs: map<string, Bytes>, fileSpace: string, row: FilesTable)
    requires Stamped(rows) && row in rows && row.FileSpace == fileSpace
    ensures exists i :: 0 <= i < |ListingOf(rows, blobs, fileSpace)|
                        && ListingOf(rows, blobs, fileSpace)[i].FileID == row.RowKey
                        && ListingOf(rows, blobs, fileSpace)[i].Name == row.FileName
                        && (ListingOf(rows, blobs, fileSpace)[i].Link == "" <==> row.RowKey !in blobs)
  {
    var found := Where(rows, FileSpaceFilter(fileSpace));
    assert row in found;
    var k :| 0 <= k < |found| && found[k] == row;
    ListingAt(found, blobs, k);
    assert ListingOf(rows, blobs, fileSpace)[k] == Listing(found, blobs)[k];
  }

  /** With unique keys in one partition, no file ID is listed twice. */
  lemma ListingOnePerFile(rows: seq<FilesTable>, blobs: map<string, Bytes>, fileSpace: string)
    requires Stamped(rows) && UniqueKeys(rows) && InPartition(rows)
    ensures var files := ListingOf(rows, blobs, fileSpace);
            forall i, j | 0 <= i < j < |files| :: files[i].FileID != files[j].FileID
  {
    var found := Where(rows, FileSpaceFilter(fileSpace));
    WhereUniqueKeys(rows, FileSpaceFilter(fileSpace));
    forall i, j | 0 <= i < j < |found|
      ensures Listing(found, blobs)[i].FileID != Listing(found, blobs)[j].FileID
    {
      assert found[i] in rows && found[j] in rows;
      ListingAt(found, blobs, i);
      ListingAt(found, blobs, j);
    }
  }

  /** The deletion query selects at most one row: the key is (fixed partition, file ID). */
  lemma AtMostOneEntry(rows: seq<FilesTable>, fileSpace: string, fileId: string)
    requires UniqueKeys(rows) && InPartition(rows)
    ensures |Where(rows, EntryFilter(fileSpace, fileId))| <= 1
  {
    var matched := Where(rows, EntryFilter(fileSpace, fileId));
    WhereUniqueKeys(rows, EntryFilter(fileSpace, fileId));
    forall i | 0 <= i < |matched| ensures matched[i].Key() == TableKey(PartitionName, fileId) {
      assert matched[i] in rows;
    }
    UniqueKeysCount(matched);
    assert KeysOf(matched) <= {TableKey(PartitionName, fileId)};
    SubsetCardinality(KeysOf(matched), {TableKey(PartitionName, fileId)});
  }

  /** A uniquely keyed table has as many keys as rows. */
  lemma {:induction false} UniqueKeysCount(rows: seq<FilesTable>)
    requires UniqueKeys(rows)
    ensures |KeysOf(rows)| == |rows|
    decreases |rows|
  {
    if rows != [] {
      var init, last := rows[..|rows| - 1], rows[|rows| - 1];
      UniqueKeysInit(rows);
      UniqueKeysCount(init);
      assert rows == init + [last];
      assert KeysOf(rows) == KeysOf(init) + {last.Key()};
    }
  }

  lemma SubsetCardinality(a: set<TableKey>, b: set<TableKey>)
    requires a <= b
    ensures |a| <= |b|
  {
    assert b == a + (b - a);
  }

  /**
   * After an upload with a fresh file ID, the file space's listing holds the
   * old listing's entries and one more, the new file with its name, ID and a
   * non-empty link; the statement does not depend on the order of the rows.
   */
  lemma UploadedFileIsListed(rows: seq<FilesTable>, blobs: map<string, Bytes>, fileID: string,
                             fileName: string, fileSpace: string, contents: Bytes, now: Instant)
    requires Stamped(rows)
    requires forall e | e in rows :: e.RowKey != fileID
    ensures var files := ListingOf(rows + [Stamp(NewEntity(fileID, fileName, fileSpace), now)],
                                   blobs[fileID := contents], fileSpace);
            && CloudFile(fileName, fileSpace, fileID, now, ReadLink(fileID)) in files
            && multiset(files) == multiset(ListingOf(rows, blobs, fileSpace))
                                  + multiset{CloudFile(fileName, fileSpace, fileID, now, ReadLink(fileID))}
  {
    var row := Stamp(NewEntity(fileID, fileName, fileSpace), now);
    var blobs' := blobs[fileID := contents];
    WhereAppend(rows, row, FileSpaceFilter(fileSpace));
    var found := Where(rows, FileSpaceFilter(fileSpace));
    ListingAppend(found, row, blobs');
    ListingIgnoresOtherBlobs(found, blobs, fileID, contents);
  }

  /** Listing one more row appends its entry. */
  lemma ListingAppend(entities: seq<FilesTable>, e: FilesTable, blobs: map<string, Bytes>)
    requires Stamped(entities) && e.Timestamp.Some?
    ensures Listing(entities + [e], blobs) == Listing(entities, blobs) + [Project(e, LinkFor(blobs, e.RowKey))]
  {
    assert (entities + [e])[..|entities|] == entities;
  }

  /** Storing a blob that no listed row names leaves the listing as it was. */
  lemma ListingIgnoresOtherBlobs(entities: seq<FilesTable>, blobs: map<string, Bytes>, blobName: string,
                                 contents: Bytes)
    requires Stamped(entities) && forall e | e in entities :: e.RowKey != blobName
    ensures Listing(entities, blobs[blobName := contents]) == Listing(entities, blobs)
  {
    var before := Listing(entities, blobs);
    var after := Listing(entities, blobs[blobName := contents]);
    forall i | 0 <= i < |entities| ensures after[i] == before[i] {
      assert entities[i] in entities;
      ListingAt(entities, blobs, i);
      ListingAt(entities, blobs[blobName := contents], i);
    }
  }

  /**
   * An upload with a fresh file ID leaves the listing of every other file
   * space as it was: same rows, same links.
   */
  lemma UploadLeavesOtherSpacesAlone(rows: seq<FilesTable>, blobs: map<string, Bytes>, fileID: string,
                                     fileName: string, fileSpace: string, contents: Bytes,
                                     now: Instant, other: string)
    requires Stamped(rows) && other != fileSpace
    requires forall e | e in rows :: e.RowKey != fileID
    ensures ListingOf(rows + [Stamp(NewEntity(fileID, fileName, fileSpace), now)],
                      blobs[fileID := contents], other)
            == ListingOf(rows, blobs, other)
  {
    var row := Stamp(NewEntity(fileID, fileName, fileSpace), now);
    WhereAppend(rows, row, FileSpaceFilter(other));
    ListingIgnoresOtherBlobs(Where(rows, FileSpaceFilter(other)), blobs, fileID, contents);
  }

  /** After a deletion, the file space's listing has no entry with that file ID. */
  lemma DeletedFileIsNotListed(rows: seq<FilesTable>, blobs: map<string, Bytes>, fileSpace: string, fileId: string)
    requires Stamped(rows)
    ensures var files := ListingOf(WithoutEntry(rows, fileSpace, fileId), blobs - {fileId}, fileSpace);
            forall i | 0 <= i < |files| :: files[i].FileID != fileId
  {
    var found := Where(WithoutEntry(rows, fileSpace, fileId), FileSpaceFilter(fileSpace));
    forall i | 0 <= i < |found| ensures Listing(found, blobs - {fileId})[i].FileID != fileId {
      assert found[i] in WithoutEntry(rows, fileSpace, fileId);
      ListingAt(found, blobs - {fileId}, i);
    }
  }

  /** Deleting the rows of a (file space, file ID) pair a second time changes nothing. */
  lemma DeleteIdempotent(rows: seq<FilesTable>, fileSpace: string, fileId: string)
    ensures WithoutEntry(WithoutEntry(rows, fileSpace, fileId), fileSpace, fileId)
            == WithoutEntry(rows, fileSpace, fileId)
  {
    var keep := (e: FilesTable) => !(e.FileSpace == fileSpace && e.RowKey == fileId);
    WhereWhere(rows, keep, keep, keep);
  }

  /**
   * A deletion names the blob by file ID alone but the row by file space and
   * file ID: deleting under another file space leaves the table as it is,
   * while the blob is gone, so the row is then listed with an empty link.
   */
  lemma CrossSpaceDeleteLeavesDanglingRow(rows: seq<FilesTable>, blobs: map<string, Bytes>,
                                          row: FilesTable, other: string)
    requires Stamped(rows) && UniqueKeys(rows) && InPartition(rows)
    requires row in rows && row.FileSpace != other
    ensures WithoutEntry(rows, other, row.RowKey) == rows
    ensures exists i :: 0 <= i < |ListingOf(rows, blobs - {row.RowKey}, row.FileSpace)|
                        && ListingOf(rows, blobs - {row.RowKey}, row.FileSpace)[i].FileID == row.RowKey
                        && ListingOf(rows, blobs - {row.RowKey}, row.FileSpace)[i].Link == ""
  {
    forall e | e in rows ensures !(e.FileSpace == other && e.RowKey == row.RowKey) {
      if e.RowKey == row.RowKey {
        SameKeySameRow(rows, e, row);
      }
    }
    WhereAll(rows, (e: FilesTable) => !(e.FileSpace == other && e.RowKey == row.RowKey));
    EveryRowIsListed(rows, blobs - {row.RowKey}, row.FileSpace, row);
  }
}
