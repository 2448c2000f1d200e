/**
 * The storage account behind the gateway, reduced to the calls the gateway
 * makes on it: a blob container keyed by blob name and a table of
 * `FilesTable` rows keyed by (PartitionKey, RowKey). Whether each service can
 * be reached is part of the state, so that a call can fail between two steps
 * of a gateway operation.
 */
module AzureStorage {
  import opened Outcomes
  import opened FileRecords

  class StorageAccount {
    /** Whether the blob service answers; fixed when the account is built. */
    const blobServiceUp: bool
    /** Whether the table service answers; fixed when the account is built. */
    const tableServiceUp: bool

    var containerExists: bool
    /** The blob container: blob name to content. */
    var blobs: map<string, Bytes>
    var tableExists: bool
    /** The files table, in insertion order, which is also the order queries return. */
    var rows: seq<FilesTable>

    /** Every blob name that was ever stored in the container. */
    ghost var written: set<string>

    ghost predicate Valid()
      reads this
    {
      && (!containerExists ==> blobs == map[])
      && (!tableExists ==> rows == [])
      && UniqueKeys(rows)
      && Stamped(rows)
      && blobs.Keys <= written
    }

    /** A fresh account: no container, no table. */
    constructor (blobServiceUp: bool, tableServiceUp: bool)
      ensures Valid()
      ensures this.blobServiceUp == blobServiceUp && this.tableServiceUp == tableServiceUp
      ensures !containerExists && blobs == map[] && !tableExists && rows == [] && written == {}
    {
      this.blobServiceUp, this.tableServiceUp := blobServiceUp, tableServiceUp;
      containerExists, blobs := false, map[];
      tableExists, rows := false, [];
      written := {};
    }

    /** `BlobContainerClient.CreateIfNotExistsAsync`. */
    method CreateContainerIfNotExists() returns (r: Outcome<StoreError>)
      requires Valid()
      modifies this`containerExists
      ensures Valid()
      ensures r == if blobServiceUp then Pass else Fail(ServiceUnavailable)
      ensures containerExists == (old(containerExists) || r.Pass?)
    {
      if !blobServiceUp {
        return Fail(ServiceUnavailable);
      }
      containerExists := true;
      return Pass;
    }

    /** `BlobClient.UploadAsync(stream)`: creates the blob, and refuses to overwrite one. */
    method UploadBlob(blobName: string, content: Bytes) returns (r: Outcome<StoreError>)
      requires Valid()
      modifies this`blobs, this`written
      ensures Valid()
      ensures r == if !blobServiceUp then Fail(ServiceUnavailable)
                   else if !containerExists then Fail(ContainerNotFound)
                   else if blobName in old(blobs) then Fail(BlobAlreadyExists)
                   else Pass
      ensures blobs == if r.Pass? then old(blobs)[blobName := content] else old(blobs)
      ensures written == if r.Pass? then old(written) + {blobName} else old(written)
    {
      if !blobServiceUp {
        return Fail(ServiceUnavailable);
      } else if !containerExists {
        return Fail(ContainerNotFound);
      } else if blobName in blobs {
        return Fail(BlobAlreadyExists);
      }
      blobs := blobs[blobName := content];
      written := written + {blobName};
      return Pass;
    }

    /** `BlobClient.Exists`: false when the blob or its container is missing. */
    method BlobExists(blobName: string) returns (r: Result<bool, StoreError>)
      requires Valid()
      ensures r == if blobServiceUp then Success(blobName in blobs) else Failure(ServiceUnavailable)
    {
      if !blobServiceUp {
        return Failure(ServiceUnavailable);
      }
      return Success(containerExists && blobName in blobs);
    }

    /** `BlobClient.DeleteIfExists`: says whether there was a blob to delete. */
    method DeleteBlobIfExists(blobName: string) returns (r: Result<bool, StoreError>)
      requires Valid()
      modifies this`blobs
      ensures Valid()
      ensures r == if blobServiceUp then Success(blobName in old(blobs)) else Failure(ServiceUnavailable)
      ensures blobs == if blobServiceUp then old(blobs) - {blobName} else old(blobs)
    {
      if !blobServiceUp {
        return Failure(ServiceUnavailable);
      }
      r := Success(blobName in blobs);
      blobs := blobs - {blobName};
    }

    /** `TableClient.CreateIfNotExists`. */
    method CreateTableIfNotExists() returns (r: Outcome<StoreError>)
      requires Valid()
      modifies this`tableExists
      ensures Valid()
      ensures r == if tableServiceUp then Pass else Fail(ServiceUnavailable)
      ensures tableExists == (old(tableExists) || r.Pass?)
    {
      if !tableServiceUp {
        return Fail(ServiceUnavailable);
      }
      tableExists := true;
      return Pass;
    }

    /**
     * `TableClient.AddEntity`: inserts the row stamped with the store's clock
     * `now`; a row with the same key makes the insert fail, never overwrite.
     */
    method AddEntity(entity: FilesTable, now: Instant) returns (r: Outcome<StoreError>)
      requires Valid()
      modifies this`rows
      ensures Valid()
      ensures r == if !tableServiceUp then Fail(ServiceUnavailable)
                   else if !tableExists then Fail(TableNotFound)
                   else if entity.Key() in KeysOf(old(rows)) then Fail(EntityAlreadyExists)
                   else Pass
      ensures rows == if r.Pass? then old(rows) + [Stamp(entity, now)] else old(rows)
    {
      if !tableServiceUp {
        return Fail(ServiceUnavailable);
      } else if !tableExists {
        return Fail(TableNotFound);
      } else if entity.Key() in KeysOf(rows) {
        return Fail(EntityAlreadyExists);
      }
      UniqueKeysAppend(rows, Stamp(entity, now));
      rows := rows + [Stamp(entity, now)];
      return Pass;
    }

    /** `TableClient.Query(filter)`: the rows the filter selects, in store order. */
    method QueryEntities(filter: FilesTable -> bool) returns (r: Result<seq<FilesTable>, StoreError>)
      requires Valid()
      ensures r == if !tableServiceUp then Failure(ServiceUnavailable)
                   else if !tableExists then Failure(TableNotFound)
                   else Success(Where(rows, filter))
      ensures r.Success? ==> UniqueKeys(r.value) && Stamped(r.value)
    {
      if !tableServiceUp {
        return Failure(ServiceUnavailable);
      } else if !tableExists {
        return Failure(TableNotFound);
      }
      WhereUniqueKeys(rows, filter);
      return Success(Where(rows, filter));
    }

    /** `TableClient.DeleteEntity`: removes the row with this key, if there is one. */
    method DeleteEntity(partitionKey: string, rowKey: string) returns (r: Outcome<StoreError>)
      requires Valid()
      modifies this`rows
      ensures Valid()
      ensures r == if !tableServiceUp then Fail(ServiceUnavailable)
                   else if !tableExists then Fail(TableNotFound)
                   else Pass
      ensures rows == if r.Pass? then WithoutKeys(old(rows), {TableKey(partitionKey, rowKey)}) else old(rows)
    {
      if !tableServiceUp {
        return Fail(ServiceUnavailable);
      } else if !tableExists {
        return Fail(TableNotFound);
      }
      WithoutKeysUnique(rows, {TableKey(partitionKey, rowKey)});
      rows := WithoutKeys(rows, {TableKey(partitionKey, rowKey)});
      return Pass;
    }
  }
}
