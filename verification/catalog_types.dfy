/** Entities, requests and snapshots of the sysdb metadata catalog, and the
    error values it reports.

    Rows are what the metadata store holds; the `...Model` records are the
    immutable snapshots the catalog hands back to its callers. Identifiers
    are opaque: a `UniqueId` is compared, never parsed. */
module CatalogTypes {

  datatype Option<+T> = None | Some(value: T) {
    function GetOr(default: T): T {
      match this
      case Some(v) => v
      case None => default
    }
  }

  /** The error values the catalog returns. */
  datatype Err =
    | DatabaseNameEmpty
    | TenantNotFound
    | DatabaseNotFound
    | CollectionUniqueConstraintViolation
    | CollectionDeleteNonExistingCollection
    | CollectionNotFound
    | InvalidMetadataUpdate
    | MissingCollectionID
    | SegmentUpdateNonExistingSegment
      /** The metadata store refused a row whose unique key is already taken. */
    | UniqueKeyViolation
      /** The wrapping "collection rename failed due to update error". */
    | CollectionRenameFailed(cause: Err)
      /** The wrapping "failed to create collection". */
    | CollectionCreateFailed(cause: Err)

  datatype Result<+T> = Ok(value: T) | Failure(error: Err)

  /** A 128-bit identifier, kept opaque; `NilUniqueId` is the all-zero one. */
  datatype UniqueId = UniqueId(bits: nat)

  const NilUniqueId := UniqueId(0)

  /** A typed metadata scalar. Floats are an opaque token: nothing here does
      arithmetic on metadata. */
  datatype Value =
    | StringValue(s: string)
    | IntValue(i: int)
    | FloatValue(token: nat)
    | BoolValue(b: bool)

  type Metadata = map<string, Value>

  /** A segment metadata update: `None` is the nil value, meaning "delete
      this key". */
  type MetadataUpdate = map<string, Option<Value>>

  /** Metadata rows of one table, grouped by the id of their owner. An owner
      without rows has no entry. */
  type MetadataTable = map<UniqueId, Metadata>

  /** Storage-layer file paths of a segment, by file role. */
  type FilePaths = map<string, seq<string>>

  // ---------------------------------------------------------------- rows

  /** A tenant row; its id is its name, the key of `State.tenants`. */
  datatype Tenant = Tenant(ts: int, lastCompactionTime: int)

  /** The natural key of a database: owning tenant and name. */
  datatype DatabaseKey = DatabaseKey(tenant: string, name: string)

  datatype Database = Database(id: UniqueId, ts: int)

  /** A collection row. `updatedAt` is `None` until the catalog sets it
      explicitly (the store's own automatic timestamps are not modelled). */
  datatype Collection = Collection(
    name: string,
    database: DatabaseKey,
    configuration: string,
    dimension: Option<int>,
    isDeleted: bool,
    logPosition: int,
    version: int,
    ts: int,
    updatedAt: Option<int>)

  /** A segment row; `collection` is `None` for a row written without one. */
  datatype Segment = Segment(
    collection: Option<UniqueId>,
    segmentType: string,
    scope: string,
    ts: int,
    filePaths: FilePaths)

  /** The whole catalog: one map per table of the metadata store. */
  datatype State = State(
    tenants: map<string, Tenant>,
    databases: map<DatabaseKey, Database>,
    collections: map<UniqueId, Collection>,
    collectionMetadata: MetadataTable,
    segments: map<UniqueId, Segment>,
    segmentMetadata: MetadataTable)

  /** What every catalog operation returns: its result and the state after it. */
  datatype Step<+T> = Step(result: Result<T>, state: State)

  // ------------------------------------------------------------ requests

  datatype CreateDatabaseRequest = CreateDatabaseRequest(id: UniqueId, name: string, tenant: string)

  datatype CreateCollectionRequest = CreateCollectionRequest(
    id: UniqueId,
    name: string,
    configuration: string,
    dimension: Option<int>,
    metadata: Option<Metadata>,
    tenant: string,
    databaseName: string,
    getOrCreate: bool)

  datatype CreateSegmentRequest = CreateSegmentRequest(
    id: UniqueId,
    segmentType: string,
    scope: string,
    collectionId: UniqueId,
    metadata: Option<Metadata>)

  datatype DeleteCollectionRequest = DeleteCollectionRequest(
    id: UniqueId,
    tenant: string,
    databaseName: string,
    ts: int)

  datatype UpdateCollectionRequest = UpdateCollectionRequest(
    id: UniqueId,
    name: Option<string>,
    dimension: Option<int>,
    resetMetadata: bool,
    metadata: Option<Metadata>,
    tenant: string,
    databaseName: string)

  datatype UpdateSegmentRequest = UpdateSegmentRequest(
    id: UniqueId,
    collection: Option<UniqueId>,
    resetMetadata: bool,
    metadata: Option<MetadataUpdate>)

  /** A filter of a segment read; `None` leaves that attribute unconstrained. */
  datatype SegmentFilter = SegmentFilter(
    id: Option<UniqueId>,
    segmentType: Option<string>,
    scope: Option<string>,
    collection: Option<UniqueId>)

  datatype FlushSegmentCompaction = FlushSegmentCompaction(segmentId: UniqueId, filePaths: FilePaths)

  datatype FlushCollectionCompactionRequest = FlushCollectionCompactionRequest(
    collectionId: UniqueId,
    tenant: string,
    logPosition: int,
    currentCollectionVersion: int,
    segmentCompactions: seq<FlushSegmentCompaction>)

  // ----------------------------------------------------------- snapshots

  datatype TenantModel = TenantModel(name: string, lastCompactionTime: int)

  datatype DatabaseModel = DatabaseModel(id: UniqueId, name: string, tenant: string)

  datatype CollectionModel = CollectionModel(
    id: UniqueId,
    name: string,
    tenant: string,
    databaseName: string,
    configuration: string,
    dimension: Option<int>,
    logPosition: int,
    version: int,
    ts: int,
    metadata: Metadata)

  datatype SegmentModel = SegmentModel(
    id: UniqueId,
    segmentType: string,
    scope: string,
    collectionId: UniqueId,
    ts: int,
    filePaths: FilePaths,
    metadata: Metadata)

  datatype FlushCollectionInfo = FlushCollectionInfo(
    collectionId: UniqueId,
    collectionVersion: int,
    tenantLastCompactionTime: int)
}
