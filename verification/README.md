# Catalog model

A Dafny model of the sysdb metadata **Catalog** (`go/pkg/sysdb/coordinator/table_catalog.go`).
The catalog is the control plane's record of tenants, databases, collections and segments.
It runs every mutation over the metadata store as one transaction.

The model is a functional state machine:

- `CatalogTypes.State` is one immutable record with one map per store table:
  - tenants by name;
  - databases by (tenant, name);
  - collections and segments by id;
  - collection and segment metadata by owner id, as `map<string, Value>`.
- Every catalog operation is a pure function that returns `Step(result, state)`.
- `MetaStore.Transaction` is the transaction runner. On failure it returns the state the call started from. On success it returns the state the body reached. Operations that fail part-way hand the runner the partial state, so rollback is the runner's doing and is proved, not assumed.
- The store's unique keys are modelled because the catalog's behaviour depends on them. A violation reports `UniqueKeyViolation`. The keys are:
  - collection id;
  - segment id;
  - tenant name;
  - (tenant, database name);
  - (owner id, metadata key);
  - the (database, name) index over all collection rows, deleted or not (`MetaStore.UniqueNames`).
- A database is keyed by (tenant, name). Collections refer to their database by that pair, so the database id is not a key here, and two databases with the same id are not refused.
- `MetaStore.Valid` is the well-formedness invariant: unique names, no metadata without its owner, no owner with an empty metadata set, and an ownership chain of tenant > database > collection. Every mutation of tenants, databases, collections and segments is proved to preserve it. The compaction flush preserves it when its three writes touch existing rows only (`Compaction.KeepsRows`).

Files:
- `catalog_types.dfy`: entities, requests, snapshots and errors.
- `metastore.dfy`: the transaction runner, the repository primitives as map operations, and the invariant.
- `tenant_database.dfy`: reset, tenants and databases.
- `segment_lifecycle.dfy`: segment create, read, update and the legacy delete.
- `collection_lifecycle.dfy`: collection create (alone and with segments), the soft-deleted name rename, hard and soft delete, and update.
- `flush.dfy`: the compaction flush.
- `catalog_properties.dfy`: properties that relate several calls.

Behaviours of the code that the model keeps:
- Creating a segment does not look up its collection. Only a taken segment id or a taken metadata key makes it fail (table_catalog.go:540-578).
- The hard delete looks its collection up with `GetCollectionEntry(id, databaseName)` (table_catalog.go:341). That repository is not part of this model. The model chooses to match the id and the database name only: it does not consult the tenant, and it also matches soft-deleted rows.
- The collection repository's `GetCollections` is taken to return non-deleted rows only, as the comment at table_catalog.go:248 implies. Two results follow: soft-deleting a row that is already deleted fails with `CollectionDeleteNonExistingCollection`, and updating a soft-deleted row fails with `CollectionNotFound`.
- An empty database name fails with `DatabaseNameEmpty` before the transaction starts (table_catalog.go:92-94).
- A collection update writes the row before it applies the metadata policy (table_catalog.go:463-504). A rename onto a taken name is therefore reported as `UniqueKeyViolation` before a reset-plus-metadata request is reported as `InvalidMetadataUpdate`.
- The soft-deleted holder of a name is renamed to `deleted_<name>_<unix seconds>`. A second rename of the same name in the same second collides with the first one. `CatalogProperties.RecreateAfterSoftDelete` therefore requires that no row already carries that name.

Collection creation requires `UniqueNames` of its input. The store's own unique index guarantees it, and `Valid` includes it. The name lookups of the source return the first match, and this requirement is what makes that match unique.

## Model

| member | source | states |
|---|---|---|
| `MetaStore.Transaction` | go/pkg/sysdb/coordinator/table_catalog.go:31 | The transaction runner every mutation goes through returns its body's result; a failed body leaves the state the call started from, and a successful one commits the body's final state |
| `MetaStore.DeleteAllMetadata` | go/pkg/sysdb/coordinator/table_catalog.go:361-365 | Deleting by owner id removes every metadata row of that owner and no row of any other owner |
| `MetaStore.DeleteMetadataKeys` | go/pkg/sysdb/coordinator/table_catalog.go:713-717 | Deleting by owner id and keys removes exactly those keys of that owner, keeps its other rows with their values, and touches no other owner |
| `MetaStore.InsertSegmentRow` | go/pkg/sysdb/coordinator/table_catalog.go:552-556 | A segment row is inserted exactly when its id is free, adding exactly that row; a taken id is a key violation |
| `MetaStore.InsertMetadata` | go/pkg/sysdb/coordinator/table_catalog.go:278-286 | An empty metadata batch is not sent; otherwise the insert succeeds exactly when no key of the batch is already recorded for the owner, and then the owner's rows are the old ones plus the batch and no other owner changes |
| `MetaStore.FindByName` | go/pkg/sysdb/coordinator/table_catalog.go:234-253 | The name lookup of a database returns a row with that name and the requested deleted flag, and returns none only when no row of that name has the flag |
| `MetaStore.InsertCollectionRow` | go/pkg/sysdb/coordinator/table_catalog.go:263-277 | A collection insert succeeds exactly when the id is new and no other row of the database has the name; it adds exactly that row and keeps names unique |
| `MetaStore.UpdateCollectionRow` | go/pkg/sysdb/coordinator/table_catalog.go:464-472 | An update of a missing row changes nothing; an update of an existing row fails only when it gives the row a name another row of the database holds, and keeps names unique |
| `MetaStore.DeleteCollectionById` | go/pkg/sysdb/coordinator/table_catalog.go:351-359 | The delete reports zero rows exactly when the id is absent, and removes exactly that row |
| `TenantDatabase.ResetState` | go/pkg/sysdb/coordinator/table_catalog.go:30-86 | Reset always commits and leaves exactly one tenant, the default one with last compaction time `now`, exactly one database, the default one with the nil id, no collections, no segments and no metadata; the result is well formed |
| `TenantDatabase.CreateDatabase` | go/pkg/sysdb/coordinator/table_catalog.go:88-133 | An empty name fails with `DatabaseNameEmpty` and a missing tenant with `TenantNotFound`, both before the transaction; a taken (tenant, name) fails with a key violation; it succeeds exactly when none of these holds, then adds exactly that database, and any failure leaves the state unchanged |
| `TenantDatabase.GetDatabases` | go/pkg/sysdb/coordinator/table_catalog.go:135-148 | The read succeeds exactly when the (tenant, name) pair exists, returning its id, and fails with `DatabaseNotFound` otherwise |
| `TenantDatabase.CreateTenant` | go/pkg/sysdb/coordinator/table_catalog.go:163-188 | Tenant creation succeeds exactly when the name is free, records last compaction time `now` and returns it; a taken name fails and changes nothing |
| `TenantDatabase.GetTenants` | go/pkg/sysdb/coordinator/table_catalog.go:190-205 | The read succeeds exactly when the tenant exists, returning its last compaction time, and fails with `TenantNotFound` otherwise |
| `SegmentLifecycle.CreateSegmentImpl` | go/pkg/sysdb/coordinator/table_catalog.go:540-578 | Segment creation succeeds exactly when the id is new and the metadata keys are not yet recorded for it; it adds a row owned by the given collection with no file paths, inserts the metadata, returns the re-read snapshot and touches no other table |
| `SegmentLifecycle.CreateSegment` | go/pkg/sysdb/coordinator/table_catalog.go:524-538 | A failed segment creation leaves the state unchanged; a successful one adds exactly the new row, owned by the requested collection |
| `SegmentLifecycle.GetSegments` | go/pkg/sysdb/coordinator/table_catalog.go:622-652 | A segment is listed exactly when it passes every given filter; a segment without a collection is reported with the nil id |
| `SegmentLifecycle.DeleteSegment` | go/pkg/sysdb/coordinator/table_catalog.go:654-659 | The legacy delete always succeeds and changes nothing |
| `SegmentLifecycle.NonNilEntries` | go/pkg/sysdb/coordinator/table_catalog.go:718-725 | The rows written by a segment update are exactly its non-nil entries, with their values |
| `SegmentLifecycle.ApplySegmentMetadataUpdate` | go/pkg/sysdb/coordinator/table_catalog.go:712-733 | The replace branch of a segment update is key-granular: nil keys are removed, other named keys take their new value, and keys the update does not name keep their rows |
| `SegmentLifecycle.UpdateSegmentBody` | go/pkg/sysdb/coordinator/table_catalog.go:673-744 | Inside the transaction: a segment missing under the named collection fails with `SegmentUpdateNonExistingSegment`, reset with a map fails with `InvalidMetadataUpdate`, and only the segment's metadata can change |
| `SegmentLifecycle.UpdateSegment` | go/pkg/sysdb/coordinator/table_catalog.go:661-751 | No collection given fails with `MissingCollectionID`; the segment rows, and so its collection reference, never change; reset empties the metadata, a map is applied key by key, neither changes nothing, and every failure leaves the state unchanged |
| `CollectionLifecycle.DeletedName` | go/pkg/sysdb/coordinator/table_catalog.go:392-395 | The name given to a soft-deleted holder is `deleted_` followed by the old name, and always differs from it |
| `CollectionLifecycle.RenameSoftDeletedCollection` | go/pkg/sysdb/coordinator/table_catalog.go:392-409 | The rename sets only the name and the deleted flag, so timestamps stay, and fails with the wrapped key violation exactly when another row of the database already carries the new name |
| `CollectionLifecycle.FreeName` | go/pkg/sysdb/coordinator/table_catalog.go:247-261 | With no active holder, the soft-deleted holder of the name, if any, is renamed and every other row is kept; afterwards no row of the database has the name, and the step cannot fail when the deleted-name form is free |
| `CollectionLifecycle.InsertNewCollection` | go/pkg/sysdb/coordinator/table_catalog.go:263-294 | The new row has log position 0 and version 0 and is not deleted; the insert fails exactly on a taken id, a taken name or a recorded metadata key; it returns the re-read snapshot with `created` true |
| `CollectionLifecycle.CreateNewCollection` | go/pkg/sysdb/coordinator/table_catalog.go:247-294 | Creation of a new name: the soft-deleted holder is renamed, the new active row with position and version 0 is added, names stay unique, and it succeeds whenever the id and the deleted-name form are free |
| `CollectionLifecycle.CreateCollectionImpl` | go/pkg/sysdb/coordinator/table_catalog.go:220-296 | A missing database fails with `DatabaseNotFound`; an active collection of the name is returned with `created` false under get-or-create, changing nothing, and is otherwise refused with `CollectionUniqueConstraintViolation`; with no active holder the new-collection path runs; only the listed errors occur |
| `CollectionLifecycle.CreateCollection` | go/pkg/sysdb/coordinator/table_catalog.go:298-312 | The transactional create returns what the creation routine returns and rolls back on failure |
| `CollectionLifecycle.CreateSegments` | go/pkg/sysdb/coordinator/table_catalog.go:599-608 | A batch of segments commits exactly when its ids are fresh and pairwise distinct, provided no metadata is stored without its segment. When it commits, the segments are the old ones plus exactly the requested rows (`NewSegmentRows`), each owned by the collection. Every segment's metadata is its old metadata plus what the requests ask for it (`RequestedMetadata`), so existing segments keep theirs. |
| `CollectionLifecycle.FreshIdsDistinct` | go/pkg/sysdb/coordinator/table_catalog.go:599-608 | The ids of a committed batch were all absent before and pairwise distinct |
| `CollectionLifecycle.NewSegmentRowsAsRequested` | go/pkg/sysdb/coordinator/table_catalog.go:599-608 | With fresh ids, each request of the batch gets exactly the row it asks for: its type and scope, the owning collection, the timestamp and no file paths |
| `CollectionLifecycle.RequestedMetadataAsRequested` | go/pkg/sysdb/coordinator/table_catalog.go:599-608 | With fresh ids, each request of the batch gets exactly the metadata it asks for, and none when its map is absent |
| `CollectionLifecycle.CreateCollectionAndSegments` | go/pkg/sysdb/coordinator/table_catalog.go:580-620 | Any failure, including a refused segment, rolls everything back. `created` false changes nothing. `created` true adds exactly the requested segment rows and metadata, all owned by the new collection, on top of the collection creation. When the collection is new, the segment ids are fresh and no metadata is stored without its segment, the call commits. |
| `CollectionLifecycle.HardDeleteCollection` | go/pkg/sysdb/coordinator/table_catalog.go:336-390 | Hard delete fails with `CollectionDeleteNonExistingCollection` exactly when the lookup by id and database name finds nothing, changing nothing; otherwise it removes the row, its metadata, every segment it owns and their metadata, and nothing else |
| `CollectionLifecycle.SoftDeleteCollection` | go/pkg/sysdb/coordinator/table_catalog.go:411-436 | Soft delete succeeds exactly on an active collection of the tenant's database; it sets the deleted flag, the timestamp and the update time of that row only, and leaves segments and metadata as they were |
| `CollectionLifecycle.DeleteCollection` | go/pkg/sysdb/coordinator/table_catalog.go:329-334 | Soft delete keeps the row, now deleted, with its segments and metadata; hard delete leaves neither the row nor any segment owned by it |
| `CollectionLifecycle.ReplaceCollectionMetadata` | go/pkg/sysdb/coordinator/table_catalog.go:475-504 | Reset with a map is refused with `InvalidMetadataUpdate`; reset alone empties the metadata; a map alone becomes exactly the metadata; neither leaves it unchanged; other owners are untouched |
| `CollectionLifecycle.UpdateCollectionBody` | go/pkg/sysdb/coordinator/table_catalog.go:463-516 | A rename onto a taken name fails first, then reset with a map, then a row that is not active in the tenant's database fails with `CollectionNotFound`; on success only that row's name, dimension and timestamp and its metadata change |
| `CollectionLifecycle.UpdateCollection` | go/pkg/sysdb/coordinator/table_catalog.go:459-522 | The transactional update returns what its body returns and rolls back on failure |
| `Compaction.FlushBody` | go/pkg/sysdb/coordinator/table_catalog.go:767-793 | The body of the flush transaction succeeds exactly when all three writes succeed, returning the collection id, the version the collection write reports and the time `now`; on every path it leaves databases and both metadata tables as they were |
| `Compaction.FlushCollectionCompaction` | go/pkg/sysdb/coordinator/table_catalog.go:762-798 | The flush succeeds exactly when all three writes succeed, and then all three take effect and it returns the collection version the write reports and the time `now`; otherwise none takes effect and the first failing write's error is returned |
| `CatalogProperties.ResetThenRead` | go/pkg/sysdb/coordinator/table_catalog.go:59-82 | After a reset the default tenant and database are read back, and every other tenant or database is not found |
| `CatalogProperties.CreateTenantThenGet` | go/pkg/sysdb/coordinator/table_catalog.go:166-182 | A created tenant is read back with the compaction time it was given |
| `CatalogProperties.CreateDatabaseThenGet` | go/pkg/sysdb/coordinator/table_catalog.go:107-126 | A created database is read back as returned; creating it again fails with a key violation and changes nothing |
| `CatalogProperties.ActiveNamedResult` | go/pkg/sysdb/coordinator/table_catalog.go:240-294 | Whatever collection creation returns is an active collection of the requested name and database in the committed state, and names remain unique |
| `CatalogProperties.CreatedCollectionFoundByName` | go/pkg/sysdb/coordinator/table_catalog.go:287-294 | After a create, the name lookup of the database finds exactly the returned collection |
| `CatalogProperties.GetOrCreateIdempotent` | go/pkg/sysdb/coordinator/table_catalog.go:240-243 | A repeated get-or-create returns the same collection snapshot with `created` false and changes nothing |
| `CatalogProperties.CreateCollectionAndSegmentsIdempotent` | go/pkg/sysdb/coordinator/table_catalog.go:593-597 | A repeated get-or-create with segments returns the same collection as not created and adds no segment |
| `CatalogProperties.ResetWithMetadataRejected` | go/pkg/sysdb/coordinator/table_catalog.go:479-483 | A collection update asking for reset together with a map is refused and leaves the state, metadata included, unchanged |
| `CatalogProperties.RecreateAfterSoftDelete` | go/pkg/sysdb/coordinator/table_catalog.go:247-261 | After a soft delete the name can be created again in the same database, and the deleted row is renamed to the deleted-name form with every other field kept |
| `CatalogProperties.HardDeleteLeavesNoSegments` | go/pkg/sysdb/coordinator/table_catalog.go:366-383 | After a hard delete, listing segments by that collection returns nothing |
| `CatalogProperties.DeleteSegmentKeepsSegment` | go/pkg/sysdb/coordinator/table_catalog.go:654-659 | After the legacy segment delete the segment is still listed |
| `CatalogProperties.MetadataUpdateSemantics` | go/pkg/sysdb/coordinator/table_catalog.go:712-733 | A key the new map does not name is dropped from a collection's metadata but kept, with its value, in a segment's |
| `CatalogProperties.ValidAfterCreateDatabase` | go/pkg/sysdb/coordinator/table_catalog.go:107-126 | Database creation preserves the well-formedness invariant |
| `CatalogProperties.ValidAfterCreateTenant` | go/pkg/sysdb/coordinator/table_catalog.go:163-188 | Tenant creation preserves the invariant |
| `CatalogProperties.ValidAfterCreateNewCollection` | go/pkg/sysdb/coordinator/table_catalog.go:247-294 | The rename-then-insert path preserves the invariant |
| `CatalogProperties.ValidAfterCreateCollection` | go/pkg/sysdb/coordinator/table_catalog.go:298-312 | Collection creation preserves the invariant |
| `CatalogProperties.ValidAfterCreateSegment` | go/pkg/sysdb/coordinator/table_catalog.go:524-538 | Segment creation preserves the invariant |
| `CatalogProperties.ValidAfterCreateCollectionAndSegments` | go/pkg/sysdb/coordinator/table_catalog.go:580-620 | Creation with segments preserves the invariant |
| `CatalogProperties.ValidAfterHardDelete` | go/pkg/sysdb/coordinator/table_catalog.go:336-390 | The hard-delete cascade preserves the invariant: no metadata is left without its owner |
| `CatalogProperties.ValidAfterSoftDelete` | go/pkg/sysdb/coordinator/table_catalog.go:411-436 | Soft delete preserves the invariant |
| `CatalogProperties.ValidAfterUpdateCollection` | go/pkg/sysdb/coordinator/table_catalog.go:459-522 | Collection update preserves the invariant |
| `CatalogProperties.ValidAfterUpdateSegment` | go/pkg/sysdb/coordinator/table_catalog.go:661-751 | Segment update preserves the invariant |
| `CatalogProperties.ValidAfterFlush` | go/pkg/sysdb/coordinator/table_catalog.go:762-798 | A flush whose three writes touch existing rows only, without renaming or moving a collection, preserves the invariant |
| `CatalogProperties.TakenSegmentIdAbortsCreation` | go/pkg/sysdb/coordinator/table_catalog.go:599-608 | A segment request whose id is already taken means no new collection is committed |
| `CatalogProperties.CreatedSegmentsOwned` | go/pkg/sysdb/coordinator/table_catalog.go:599-608 | When a new collection commits with its segments, every requested segment exists, was fresh, and is owned by the returned collection, and the requested ids are pairwise distinct |
| `CatalogProperties.CreatedSegmentsAsRequested` | go/pkg/sysdb/coordinator/table_catalog.go:599-608 | When a new collection commits with its segments, each requested segment is stored as asked and owned by the new collection; when no metadata was stored without its segment, it carries exactly the requested metadata |

## Left out

- Store I/O failures other than unique-key violations (connection loss, timeouts, query errors): the repositories are not part of this model. The flush writes may fail with any error, and the flush returns it unchanged.
- The repository implementations themselves (`GetCollectionEntry`, `CheckCollectionIsSoftDeleted`, `GetCollections` filtering, the SQL of every `*Db` call): they are modelled as map operations with the behaviour their call sites rely on.
- `RegisterFilePaths`, `UpdateLogPositionAndVersion` and `UpdateTenantLastCompactionTime` are in repositories that are not part of this model. They are opaque, fallible functions (`Compaction.FlushEffects`).
- Compaction.FlushCollectionCompaction: does not claim that the version grows by one, that file paths are only appended, or anything else about what the three writes do, because their logic is not visible here.
- Concurrency and isolation: each call is one atomic step, and the transaction runner is modelled only as "a failure leaves the state unchanged".
- The clock (`time.Now()` in reset, tenant creation, the rename, soft delete and flush): the current time is a parameter `now`.
- The store's automatic created/updated timestamps: only the timestamps the catalog writes itself are modelled.
- UUID parsing (`types.Parse`, `types.MustParse`) and its error: ids are opaque values.
- Logging and tracing spans: they have no effect on state or results.
- Float metadata values: a float is an opaque token, and nothing here computes with metadata.
- The wrapped error strings (`fmt.Errorf`): a wrap is kept as a constructor (`CollectionCreateFailed`, `CollectionRenameFailed`), and the message text is left out.
- The caller's request objects are mutated in the source: the segment requests' collection id in the create-with-segments loop, a segment update's collection overwritten with the one read from the stored row (table_catalog.go:682), and nil keys removed from a segment update's map. Only the values written are modelled.
- The 32-bit width of `dimension`: it is an unbounded integer here, and no arithmetic is done on it.
- `GetCollections` as a public read, with its pagination, `GetSoftDeletedCollections`, `GetAllDatabases`, `GetAllTenants`, `SetTenantLastCompactionTime` and `GetTenantsLastCompactionTime`: they pass straight through to a repository with no logic of their own. The name lookup the catalog needs inside creation is `MetaStore.FindByName`.
- CatalogProperties.ValidAfterFlush: holds only for writes that satisfy `Compaction.KeepsRows`, because the repositories of the three writes are not part of this model.
- The order of `GetSegments`' result: the source returns a slice in the repository's order, and the model returns a set. Segment ids are unique, and every caller that reads element 0 has filtered by id, so no behaviour depends on the order.
- The database id as a unique key: ids are generated by the caller, so the model does not check them. Collections find their database by (tenant, name).
- `NewTableCatalog`: construction has no behaviour beyond storing its two dependencies.
