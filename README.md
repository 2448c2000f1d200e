# File gateway of the Blazor serverless backend, in Dafny

The backend stores each uploaded file twice over: its content as a blob named
by a fresh file ID in the container `files-container`, and its metadata as a
row of the table `FilesTable` with PartitionKey `"partition1"`, RowKey = the
file ID, FileName and FileSpace (the namespace the file belongs to), plus a
Timestamp the table store assigns. Three operations keep the two stores in
step:

- **upload** (`uploadFile`): store the blob, then insert the row;
- **list** (`getFiles`): select the rows whose FileSpace equals the request
  and turn each into a `CloudFile` with a read link, `""` when the blob is
  missing;
- **delete** (`deleteFile`): delete the blob named by the file ID if there is
  one, then delete every row of the file space with that RowKey.

The model keeps the two stores in a class, `AzureStorage.StorageAccount`, whose
methods are the storage calls the gateway makes (create container / table if
absent, upload a blob, test for a blob, delete a blob if present, insert a row,
query rows by a filter, delete a row by key). Each call can fail: whether the
blob service and the table service answer is part of the account's state, and
the table and container exist only once an upload has created them. The
gateway (`BlazorBackendEndpoints`) is written as the same sequence of calls as
the C# methods, with the loops of `getFiles` and `deleteTableEntry`, and each
method states the whole new state of both stores for every outcome. Pure
functions in `FileRecords` give the meaning of a query (`Where`), of a row
deletion (`WithoutEntry`) and of a listing (`ListingOf`), and the lemmas in
`GatewayProperties` state what listing, upload and delete promise about them.

Behaviour the model takes from the code:

- The blob upload uses the single-argument `UploadAsync`, which creates a blob
  and fails on an existing one; it does not overwrite.
- Only upload creates the container and the table. Listing or deleting before
  the first upload fails with `TableNotFound`, because the row query runs on a
  table that does not exist; a missing container only makes a blob test answer
  false.
- Nothing is rolled back. An upload whose row insert fails leaves its blob with
  no row; a delete whose table step fails leaves its rows with no blob, listed
  with an empty link.
- Blob deletion is keyed by the file ID alone, row deletion by file space and
  file ID: deleting under the wrong file space removes the blob and keeps the row.

Files: `outcomes.dfy` (Option, Result, Outcome), `file_records.dfy` (rows,
listing entries, queries, links), `storage_account.dfy` (the storage account),
`endpoints.dfy` (the gateway), `gateway_properties.dfy` (the properties).

Names in `BlazorBackendEndpoints` follow the C# methods they model:
`BlobUpload`, `AddTableFileEntry`, `UploadFile`, `GetFiles`, `GetBlobUri`,
`DeleteFile`, `DeleteBlob` and `DeleteTableEntry` model the private methods
`blobUpload`, `addTableFileEntry`, `uploadFile`, `getFiles`, `getBlobUri`,
`deleteFile`, `deleteBlob` and `deleteTableEntry` (lines 95-216), not the HTTP
endpoints `GetFiles` and `DeleteFile` of the same names; `UploadFiles` is the
HTTP endpoint's step of taking a fresh ID and calling `uploadFile`.

## Model

| member | source | states |
|---|---|---|
| FileRecords.ReadLink | BlazorBackend/BlazorBackendEndpoints.cs:175-177 | the read link generated for a blob is never empty |
| FileRecords.LinkFor | BlazorBackend/BlazorBackendEndpoints.cs:171-177 | the link shown for a blob name is `""` exactly when no blob has that name, and the blob's read link otherwise |
| FileRecords.Where | BlazorBackend/BlazorBackendEndpoints.cs:143 | a table query returns exactly the rows the filter selects, each a row of the table, and no more rows than the table has |
| FileRecords.Listing | BlazorBackend/BlazorBackendEndpoints.cs:145-157 | the loop over query results yields one entry per row |
| FileRecords.ListingAt | BlazorBackend/BlazorBackendEndpoints.cs:150-156 | entry i of a listing is row i projected: FileName, FileSpace, RowKey and Timestamp copied, with that row's blob link |
| FileRecords.DeleteByMatchedKeys | BlazorBackend/BlazorBackendEndpoints.cs:210-215 | in a table with unique keys, deleting by key every row the (FileSpace, RowKey) query selected removes exactly the rows of that file space with that RowKey |
| FileRecords.WhereUniqueKeys | BlazorBackend/BlazorBackendEndpoints.cs:143 | a query result, or what a deletion leaves, keeps the table's keys unique |
| AzureStorage.StorageAccount.CreateContainerIfNotExists | BlazorBackend/BlazorBackendEndpoints.cs:108 | the container exists afterwards when the blob service answers; otherwise the call fails and nothing changes |
| AzureStorage.StorageAccount.UploadBlob | BlazorBackend/BlazorBackendEndpoints.cs:111 | stores the content under the name when the service answers, the container exists and the name is free; otherwise fails with the matching error and leaves the blobs as they were |
| AzureStorage.StorageAccount.BlobExists | BlazorBackend/BlazorBackendEndpoints.cs:172 | answers whether a blob has that name, false when the container is missing; fails only when the blob service does not answer |
| AzureStorage.StorageAccount.DeleteBlobIfExists | BlazorBackend/BlazorBackendEndpoints.cs:200 | removes the blob if present, says whether it was, never fails on a missing blob |
| AzureStorage.StorageAccount.CreateTableIfNotExists | BlazorBackend/BlazorBackendEndpoints.cs:120 | the table exists afterwards when the table service answers; otherwise the call fails and nothing changes |
| AzureStorage.StorageAccount.AddEntity | BlazorBackend/BlazorBackendEndpoints.cs:131 | appends the row stamped with the store's time when the key is new; a row with the same (PartitionKey, RowKey) makes it fail with no overwrite; keys stay unique |
| AzureStorage.StorageAccount.QueryEntities | BlazorBackend/BlazorBackendEndpoints.cs:143 | returns the selected rows in store order; fails when the service does not answer or the table was never created |
| AzureStorage.StorageAccount.DeleteEntity | BlazorBackend/BlazorBackendEndpoints.cs:214 | removes the row with that key, if any, and no other row |
| BlazorBackendEndpoints.BlobUpload | BlazorBackend/BlazorBackendEndpoints.cs:101-112 | creates the container, then stores the blob; the blob map gains exactly that blob on success and is unchanged on failure |
| BlazorBackendEndpoints.AddTableFileEntry | BlazorBackend/BlazorBackendEndpoints.cs:114-132 | creates the table, then inserts the row ("partition1", fileID, fileName, fileSpace); the table gains exactly that row on success and is unchanged on failure |
| BlazorBackendEndpoints.UploadFile | BlazorBackend/BlazorBackendEndpoints.cs:95-99 | blob before row: if the blob is not stored the table, its existence and the blobs are untouched; on success the blob and the row are both added and nothing else changes; a failed insert leaves the stored blob without a row; the container exists afterwards exactly when the blob service answered, the table exactly when the blob was stored and the table service answered; every row still names a blob that was written |
| BlazorBackendEndpoints.UploadFiles | BlazorBackend/BlazorBackendEndpoints.cs:60-61 | with a fresh file ID the upload succeeds exactly when both services answer; a table failure leaves only the orphaned blob and creates no table (`tableExists` unchanged) |
| BlazorBackendEndpoints.GetBlobUri | BlazorBackend/BlazorBackendEndpoints.cs:162-178 | returns `""` exactly when no blob has the name, the blob's read link otherwise |
| BlazorBackendEndpoints.GetFiles | BlazorBackend/BlazorBackendEndpoints.cs:136-160 | returns the listing of the file space, built by its loop, and changes neither store; fails exactly when the table is missing or a needed service does not answer |
| BlazorBackendEndpoints.DeleteBlob | BlazorBackend/BlazorBackendEndpoints.cs:188-201 | removes the blob named by the file ID whatever file space is passed, does nothing when it is absent, and changes no other blob |
| BlazorBackendEndpoints.DeleteTableEntry | BlazorBackend/BlazorBackendEndpoints.cs:203-216 | removes exactly the rows with that FileSpace and RowKey and keeps every other row in order |
| BlazorBackendEndpoints.DeleteFile | BlazorBackend/BlazorBackendEndpoints.cs:182-186 | blob before rows: a blob-service failure changes nothing; a later table failure leaves the rows without their blob; success removes both |
| BlazorBackendEndpoints.DeleteFileTwice | BlazorBackend/BlazorBackendEndpoints.cs:182-216 | a second identical delete has the first one's outcome and changes neither store |
| BlazorBackendEndpoints.UploadThenList | BlazorBackend/BlazorBackendEndpoints.cs:95-160 | after a successful upload, listing its file space succeeds and holds the old listing plus one entry with the file's name, file space, ID, time and a non-empty link, as multisets, whatever the order of the rows; with a fresh ID the upload passes exactly when both services answer, and both stores, both flags and the written names end as after `UploadFiles` |
| BlazorBackendEndpoints.DeleteThenList | BlazorBackend/BlazorBackendEndpoints.cs:136-216 | after a successful delete, listing the file space succeeds and holds no entry with that file ID; the delete passes and fails as `DeleteFile` does and leaves both stores as `DeleteFile` does |
| GatewayProperties.ListingMatchesFileSpace | BlazorBackend/BlazorBackendEndpoints.cs:143-157 | a listing has one entry per row of the file space, each of that file space, copying the row's fields, with an empty link exactly when the blob is missing |
| GatewayProperties.EveryRowIsListed | BlazorBackend/BlazorBackendEndpoints.cs:146-156 | every row of the file space is listed, including one whose blob is missing |
| GatewayProperties.ListingOnePerFile | BlazorBackend/BlazorBackendEndpoints.cs:123-131 | with unique keys in the one partition, no file ID appears twice in a listing |
| GatewayProperties.AtMostOneEntry | BlazorBackend/BlazorBackendEndpoints.cs:210 | the (FileSpace, RowKey) query selects at most one row |
| GatewayProperties.UploadedFileIsListed | BlazorBackend/BlazorBackendEndpoints.cs:95-157 | after an upload with a fresh file ID, the file space's listing is the old listing plus one entry carrying the file's name, ID and a non-empty link, as multisets: position is not promised |
| GatewayProperties.UploadLeavesOtherSpacesAlone | BlazorBackend/BlazorBackendEndpoints.cs:143 | an upload with a fresh ID leaves the listing of every other file space unchanged |
| GatewayProperties.DeletedFileIsNotListed | BlazorBackend/BlazorBackendEndpoints.cs:182-216 | after a delete, the file space lists no entry with that file ID |
| GatewayProperties.DeleteIdempotent | BlazorBackend/BlazorBackendEndpoints.cs:203-216 | deleting the rows of a (file space, file ID) pair a second time leaves the table as it is |
| GatewayProperties.CrossSpaceDeleteLeavesDanglingRow | BlazorBackend/BlazorBackendEndpoints.cs:188-216 | a delete under another file space keeps the row but loses its blob, so the row is then listed with an empty link |

## Left out

- The HTTP endpoints `GetFiles` and `DeleteFile`, header extraction, the `"true"` response and JSON serialisation (lines 32-88): transport only. `UploadFiles` is modelled only as "take a fresh ID, upload".
- Storage client construction and the `AzureWebJobsStorage` lookups: configuration; the account is one in-memory object.
- GUID generation (line 60): randomness; the ID is a parameter that names no blob and no row.
- FileRecords.ReadLink: the SAS signature, the read permission and the one-day expiry (line 175) are not modelled; the link is a non-empty token built from the blob name.
- The store's clock: the Timestamp is an opaque number passed to the insert, and the `.DateTime` conversion is the identity.
- The row's ETag and the conditional delete it drives: with one caller at a time it always matches.
- AzureStorage.StorageAccount.AddEntity: the table keeps rows in insertion order, and queries and listings return them in that order, while the table store returns rows sorted by (PartitionKey, RowKey); the properties about listings are therefore stated order-free (membership, multisets, per-row entries), and no property depends on where a row sits in the table.
- The OData filter strings (lines 143, 210): modelled as exact-equality predicates; quoting and injection are not.
- Result paging and the streaming of the request body: a query returns all its rows at once and a blob is written whole.
- An outage that starts or ends between or during calls: whether each service answers is fixed when the account is built.
- `async`/`await`, concurrent invocations, the logger and the HTTP client fields.
- `wwwroot/JavaScriptInterop.js` and `BlazorBackend/Program.cs`: browser helpers and host set-up, no gateway logic.
