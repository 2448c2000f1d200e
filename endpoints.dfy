/**
 * The file gateway: upload, list and delete, each a fixed sequence of calls
 * on the storage account. Nothing is rolled back when a later call fails, so
 * an upload can leave a blob without a row, and a deletion a row without a
 * blob; the contracts below say which state each failure leaves behind.
 */
module BlazorBackendEndpoints {
  import opened Outcomes
  import opened FileRecords
  import opened AzureStorage
  import opened GatewayProperties

  /**
   * What the gateway keeps true of the account: the stores are well formed,
   * every row sits in the fixed partition, and every row names a blob that
   * was stored before the row was inserted (the blob may be gone since).
   */
  ghost predicate GatewayInvariant(account: StorageAccount)
    reads account
  {
    && account.Valid()
    && InPartition(account.rows)
    && forall e | e in account.rows :: e.RowKey in account.written
  }

  /** `blobUpload`: create the container if needed, then store the file's content under its ID. */
  method BlobUpload(account: StorageAccount, blobName: string, contents: Bytes) returns (r: Outcome<StoreError>)
    requires account.Valid()
    modifies account`containerExists, account`blobs, account`written
    ensures account.Valid()
    ensures account.containerExists == (old(account.containerExists) || account.blobServiceUp)
    ensures r == if !account.blobServiceUp then Fail(ServiceUnavailable)
                 else if blobName in old(account.blobs) then Fail(BlobAlreadyExists)
                 else Pass
    ensures account.blobs == if r.Pass? then old(account.blobs)[blobName := contents] else old(account.blobs)
    ensures account.written == if r.Pass? then old(account.written) + {blobName} else old(account.written)
  {
    r := account.CreateContainerIfNotExists();
    if r.Fail? {
      return;
    }
    r := account.UploadBlob(blobName, contents);
  }

  /** `addTableFileEntry`: create the table if needed, then insert the file's row. */
  method AddTableFileEntry(account: StorageAccount, fileID: string, fileName: string, fileSpace: string,
                           now: Instant) returns (r: Outcome<StoreError>)
    requires account.Valid()
    modifies account`tableExists, account`rows
    ensures account.Valid()
    ensures account.tableExists == (old(account.tableExists) || account.tableServiceUp)
    ensures r == if !account.tableServiceUp then Fail(ServiceUnavailable)
                 else if TableKey(PartitionName, fileID) in KeysOf(old(account.rows)) then Fail(EntityAlreadyExists)
                 else Pass
    ensures account.rows == if r.Pass? then old(account.rows) + [Stamp(NewEntity(fileID, fileName, fileSpace), now)]
                            else old(account.rows)
  {
    r := account.CreateTableIfNotExists();
    if r.Fail? {
      return;
    }
    r := account.AddEntity(NewEntity(fileID, fileName, fileSpace), now);
  }

  /**
   * `uploadFile`: the blob first, then the row. When the blob is not stored
   * the table is not touched, so no row can name a blob that was never
   * written; when the blob is stored but the row is not, the blob is left
   * without a row.
   */
  method UploadFile(account: StorageAccount, fileID: string, fileName: string, fileSpace: string,
                    contents: Bytes, now: Instant) returns (r: Outcome<StoreError>)
    requires GatewayInvariant(account)
    modifies account`containerExists, account`blobs, account`written, account`tableExists, account`rows
    ensures GatewayInvariant(account)
    ensures account.blobServiceUp && fileID !in old(account.blobs)
            ==> account.blobs == old(account.blobs)[fileID := contents]
    ensures !(account.blobServiceUp && fileID !in old(account.blobs))
            ==> && r.Fail?
                && account.blobs == old(account.blobs)
                && account.rows == old(account.rows)
                && account.tableExists == old(account.tableExists)
    ensures r.Pass? <==> && account.blobServiceUp && fileID !in old(account.blobs)
                         && account.tableServiceUp
                         && TableKey(PartitionName, fileID) !in KeysOf(old(account.rows))
    ensures r.Fail? ==> r.error == if !account.blobServiceUp then ServiceUnavailable
                                   else if fileID in old(account.blobs) then BlobAlreadyExists
                                   else if !account.tableServiceUp then ServiceUnavailable
                                   else EntityAlreadyExists
    ensures account.rows == if r.Pass? then old(account.rows) + [Stamp(NewEntity(fileID, fileName, fileSpace), now)]
                            else old(account.rows)
    ensures account.containerExists == (old(account.containerExists) || account.blobServiceUp)
    ensures account.tableExists == (old(account.tableExists) || (account.blobServiceUp && fileID !in old(account.blobs)
                                                                 && account.tableServiceUp))
    ensures account.written == if account.blobServiceUp && fileID !in old(account.blobs)
                               then old(account.written) + {fileID} else old(account.written)
  {
    r := BlobUpload(account, fileID, contents);
    if r.Fail? {
      return;
    }
    r := AddTableFileEntry(account, fileID, fileName, fileSpace, now);
  }

  /**
   * The upload endpoint. `fileID` is the GUID the endpoint generates: fresh,
   * so it names no blob and no row. The upload then succeeds exactly when
   * both services answer; a failure of the table service after the blob is
   * stored leaves that blob without a row.
   */
  method UploadFiles(account: StorageAccount, fileSpace: string, fileName: string, contents: Bytes,
                     fileID: string, now: Instant) returns (r: Outcome<StoreError>)
    requires GatewayInvariant(account)
    requires fileID !in account.blobs && forall e | e in account.rows :: e.RowKey != fileID
    modifies account`containerExists, account`blobs, account`written, account`tableExists, account`rows
    ensures GatewayInvariant(account)
    ensures r.Pass? <==> account.blobServiceUp && account.tableServiceUp
    ensures account.blobs == if account.blobServiceUp then old(account.blobs)[fileID := contents]
                             else old(account.blobs)
    ensures account.rows == if r.Pass? then old(account.rows) + [Stamp(NewEntity(fileID, fileName, fileSpace), now)]
                            else old(account.rows)
    ensures account.containerExists == (old(account.containerExists) || account.blobServiceUp)
    ensures account.tableExists == (old(account.tableExists) || r.Pass?)
    ensures account.written == if account.blobServiceUp then old(account.written) + {fileID} else old(account.written)
  {
    r := UploadFile(account, fileID, fileName, fileSpace, contents, now);
  }

  /** `getBlobUri`: a read link to the blob, or "" when there is no such blob. */
  method GetBlobUri(account: StorageAccount, blobName: string) returns (r: Result<string, StoreError>)
    requires account.Valid()
    ensures r == if account.blobServiceUp then Success(LinkFor(account.blobs, blobName))
                 else Failure(ServiceUnavailable)
    ensures r.Success? ==> (r.value == "" <==> blobName !in account.blobs)
  {
    var present := account.BlobExists(blobName);
    if present.Failure? {
      return Failure(present.error);
    }
    if !present.value {
      return Success("");
    }
    return Success(ReadLink(blobName));
  }

  /**
   * `getFiles`: query the rows of the file space, then build one entry per
   * row with its link. A missing blob gives an empty link and never drops
   * the row; the call fails only when a service does not answer or the
   * table was never created. Neither store changes.
   */
  method GetFiles(account: StorageAccount, fileSpace: string) returns (r: Result<seq<CloudFile>, StoreError>)
    requires account.Valid()
    ensures r.Success? <==> && account.tableServiceUp && account.tableExists
                            && (account.blobServiceUp || Where(account.rows, FileSpaceFilter(fileSpace)) == [])
    ensures r.Failure? ==> r.error == if account.tableServiceUp && !account.tableExists then TableNotFound
                                      else ServiceUnavailable
    ensures r.Success? ==> r.value == ListingOf(account.rows, account.blobs, fileSpace)
  {
    var entities := account.QueryEntities(FileSpaceFilter(fileSpace));
    if entities.Failure? {
      return Failure(entities.error);
    }
    var found := entities.value;
    var files: seq<CloudFile> := [];
    var i := 0;
    while i < |found|
      invariant 0 <= i <= |found|
      invariant files == Listing(found[..i], account.blobs)
      invariant i > 0 ==> account.blobServiceUp
    {
      var link := GetBlobUri(account, found[i].RowKey);
      if link.Failure? {
        return Failure(link.error);
      }
      assert found[..i + 1] == found[..i] + [found[i]];
      files := files + [Project(found[i], link.value)];
      i := i + 1;
    }
    assert found[..i] == found;
    return Success(files);
  }

  /**
   * `deleteBlob`: delete the blob named `fileId` if it exists. The file space
   * plays no part: whatever space is passed, that blob is the one deleted.
   */
  method DeleteBlob(account: StorageAccount, fileSpace: string, fileId: string) returns (r: Outcome<StoreError>)
    requires account.Valid()
    modifies account`blobs
    ensures account.Valid()
    ensures r == if account.blobServiceUp then Pass else Fail(ServiceUnavailable)
    ensures account.blobs == if account.blobServiceUp then old(account.blobs) - {fileId} else old(account.blobs)
  {
    var present := account.BlobExists(fileId);
    if present.Failure? {
      return Fail(present.error);
    }
    if !present.value {
      assert account.blobs - {fileId} == account.blobs;
      return Pass;
    }
    var deleted := account.DeleteBlobIfExists(fileId);
    assert deleted.Success?;
    return Pass;
  }

  /**
   * `deleteTableEntry`: query the rows of the file space with RowKey
   * `fileId`, then delete each by its key. Exactly those rows go; every other
   * row stays, in order.
   */
  method DeleteTableEntry(account: StorageAccount, fileSpace: string, fileId: string) returns (r: Outcome<StoreError>)
    requires account.Valid()
    modifies account`rows
    ensures account.Valid()
    ensures r == if !account.tableServiceUp then Fail(ServiceUnavailable)
                 else if !account.tableExists then Fail(TableNotFound)
                 else Pass
    ensures account.rows == if r.Pass? then WithoutEntry(old(account.rows), fileSpace, fileId)
                            else old(account.rows)
  {
    var entities := account.QueryEntities(EntryFilter(fileSpace, fileId));
    if entities.Failure? {
      return Fail(entities.error);
    }
    var found := entities.value;
    var i := 0;
    assert KeysOf(found[..0]) == {};
    WithoutAbsentKeys(account.rows, {});
    while i < |found|
      invariant 0 <= i <= |found|
      invariant account.Valid()
      invariant account.rows == WithoutKeys(old(account.rows), KeysOf(found[..i]))
    {
      var deleted := account.DeleteEntity(found[i].PartitionKey, found[i].RowKey);
      assert deleted.Pass?;
      WithoutKeysStep(old(account.rows), found, i);
      i := i + 1;
    }
    assert found[..i] == found;
    DeleteByMatchedKeys(old(account.rows), fileSpace, fileId);
    return Pass;
  }

  /**
   * `deleteFile`: the blob first, then the rows. When the blob service fails
   * nothing changes; when the table step fails after the blob is gone, the
   * rows stay and are listed with an empty link.
   */
  method DeleteFile(account: StorageAccount, fileSpace: string, fileId: string) returns (r: Outcome<StoreError>)
    requires GatewayInvariant(account)
    modifies account`blobs, account`rows
    ensures GatewayInvariant(account)
    ensures r.Pass? <==> account.blobServiceUp && account.tableServiceUp && account.tableExists
    ensures r.Fail? ==> r.error == if !account.blobServiceUp || !account.tableServiceUp then ServiceUnavailable
                                   else TableNotFound
    ensures account.blobs == if account.blobServiceUp then old(account.blobs) - {fileId} else old(account.blobs)
    ensures account.rows == if r.Pass? then WithoutEntry(old(account.rows), fileSpace, fileId)
                            else old(account.rows)
  {
    r := DeleteBlob(account, fileSpace, fileId);
    if r.Fail? {
      return;
    }
    r := DeleteTableEntry(account, fileSpace, fileId);
  }

  /** A second identical deletion neither fails where the first passed nor changes either store. */
  method DeleteFileTwice(account: StorageAccount, fileSpace: string, fileId: string)
    returns (first: Outcome<StoreError>, second: Outcome<StoreError>)
    requires GatewayInvariant(account)
    modifies account`blobs, account`rows
    ensures GatewayInvariant(account)
    ensures second == first
    ensures account.blobs == if account.blobServiceUp then old(account.blobs) - {fileId} else old(account.blobs)
    ensures account.rows == if first.Pass? then WithoutEntry(old(account.rows), fileSpace, fileId)
                            else old(account.rows)
  {
    first := DeleteFile(account, fileSpace, fileId);
    ghost var blobsBetween, rowsBetween := account.blobs, account.rows;
    second := DeleteFile(account, fileSpace, fileId);
    assert account.blobServiceUp ==> blobsBetween - {fileId} == blobsBetween;
    DeleteIdempotent(old(account.rows), fileSpace, fileId);
  }

  /**
   * Round trip: after a successful upload, listing its file space succeeds and
   * holds the old listing together with the new file, its name and a
   * non-empty link, in whatever order.
   */
  method UploadThenList(account: StorageAccount, fileSpace: string, fileName: string, contents: Bytes,
                        fileID: string, now: Instant)
    returns (uploaded: Outcome<StoreError>, listed: Result<seq<CloudFile>, StoreError>)
    requires GatewayInvariant(account)
    requires fileID !in account.blobs && forall e | e in account.rows :: e.RowKey != fileID
    modifies account`containerExists, account`blobs, account`written, account`tableExists, account`rows
    ensures GatewayInvariant(account)
    ensures uploaded.Pass? <==> account.blobServiceUp && account.tableServiceUp
    ensures account.blobs == if account.blobServiceUp then old(account.blobs)[fileID := contents]
                             else old(account.blobs)
    ensures account.rows == if uploaded.Pass? then old(account.rows) + [Stamp(NewEntity(fileID, fileName, fileSpace), now)]
                            else old(account.rows)
    ensures account.containerExists == (old(account.containerExists) || account.blobServiceUp)
    ensures account.tableExists == (old(account.tableExists) || uploaded.Pass?)
    ensures account.written == if account.blobServiceUp then old(account.written) + {fileID} else old(account.written)
    ensures uploaded.Pass? ==> && listed.Success?
                               && CloudFile(fileName, fileSpace, fileID, now, ReadLink(fileID)) in listed.value
                               && multiset(listed.value)
                                  == multiset(ListingOf(old(account.rows), old(account.blobs), fileSpace))
                                     + multiset{CloudFile(fileName, fileSpace, fileID, now, ReadLink(fileID))}
  {
    ghost var rowsBefore, blobsBefore := account.rows, account.blobs;
    uploaded := UploadFiles(account, fileSpace, fileName, contents, fileID, now);
    listed := GetFiles(account, fileSpace);
    if uploaded.Pass? {
      UploadedFileIsListed(rowsBefore, blobsBefore, fileID, fileName, fileSpace, contents, now);
    }
  }

  /** Round trip: after a successful deletion the file space lists no entry with that file ID. */
  method DeleteThenList(account: StorageAccount, fileSpace: string, fileId: string)
    returns (deleted: Outcome<StoreError>, listed: Result<seq<CloudFile>, StoreError>)
    requires GatewayInvariant(account)
    modifies account`blobs, account`rows
    ensures GatewayInvariant(account)
    ensures deleted.Pass? <==> account.blobServiceUp && account.tableServiceUp && account.tableExists
    ensures deleted.Fail? ==> deleted.error == if !account.blobServiceUp || !account.tableServiceUp then ServiceUnavailable
                                               else TableNotFound
    ensures account.blobs == if account.blobServiceUp then old(account.blobs) - {fileId} else old(account.blobs)
    ensures account.rows == if deleted.Pass? then WithoutEntry(old(account.rows), fileSpace, fileId)
                            else old(account.rows)
    ensures deleted.Pass? ==> && listed.Success?
                              && forall i | 0 <= i < |listed.value| :: listed.value[i].FileID != fileId
  {
    ghost var rowsBefore, blobsBefore := account.rows, account.blobs;
    deleted := DeleteFile(account, fileSpace, fileId);
    listed := GetFiles(account, fileSpace);
    if deleted.Pass? {
      DeletedFileIsNotListed(rowsBefore, blobsBefore, fileSpace, fileId);
    }
  }
}
