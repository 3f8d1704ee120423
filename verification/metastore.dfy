/** The metadata store as the catalog sees it: the transaction runner, the
    repository primitives the catalog calls (as operations on the maps of a
    `State`), the unique keys the store enforces, and the well-formedness
    invariant that every catalog mutation preserves. */
module MetaStore {
  import opened CatalogTypes

  /** The transaction runner: commits the body's final state when the body
      succeeds, and rolls back to the state it started from when it fails. */
  function Transaction<T>(s: State, body: Step<T>): (r: Step<T>)
    ensures r.result == body.result
    ensures r.result.Failure? ==> r.state == s
    ensures r.result.Ok? ==> r.state == body.state
  {
    if body.result.Failure? then Step(body.result, s) else body
  }

  // ------------------------------------------------------------ metadata

  /** The metadata rows of `id`, as a map from key to value. */
  function MetadataOf(t: MetadataTable, id: UniqueId): Metadata {
    if id in t then t[id] else map[]
  }

  /** No owner is recorded with an empty set of rows. */
  ghost predicate NoEmptyMetadata(t: MetadataTable) {
    forall id :: id in t ==> t[id] != map[]
  }

  /** Makes `md` the complete set of metadata rows of `id`. */
  function PutMetadata(t: MetadataTable, id: UniqueId, md: Metadata): (r: MetadataTable)
    ensures MetadataOf(r, id) == md
    ensures forall other :: other != id ==> MetadataOf(r, other) == MetadataOf(t, other)
    ensures r.Keys <= t.Keys + {id}
    ensures NoEmptyMetadata(t) ==> NoEmptyMetadata(r)
  {
    if md == map[] then t - {id} else t[id := md]
  }

  /** Deletes every metadata row of `id` (delete by collection or segment id). */
  function DeleteAllMetadata(t: MetadataTable, id: UniqueId): (r: MetadataTable)
    ensures MetadataOf(r, id) == map[]
    ensures forall other :: other != id ==> MetadataOf(r, other) == MetadataOf(t, other)
    ensures r.Keys == t.Keys - {id}
  {
    t - {id}
  }

  /** Deletes the metadata rows of `id` whose key is in `keys`. */
  function DeleteMetadataKeys(t: MetadataTable, id: UniqueId, keys: set<string>): (r: MetadataTable)
    ensures MetadataOf(r, id).Keys == MetadataOf(t, id).Keys - keys
    ensures forall k :: k in MetadataOf(r, id) ==> MetadataOf(r, id)[k] == MetadataOf(t, id)[k]
    ensures forall other :: other != id ==> MetadataOf(r, other) == MetadataOf(t, other)
    ensures r.Keys <= t.Keys
    ensures NoEmptyMetadata(t) ==> NoEmptyMetadata(r)
  {
    PutMetadata(t, id, MetadataOf(t, id) - keys)
  }

  /** Inserts one row per entry of `md` for `id`. An empty batch is not sent
      to the store; a row whose (owner, key) already exists is refused. */
  function InsertMetadata(t: MetadataTable, id: UniqueId, md: Metadata): (r: Result<MetadataTable>)
    ensures r.Ok? <==> md == map[] || MetadataOf(t, id).Keys !! md.Keys
    ensures r.Failure? ==> r.error == UniqueKeyViolation
    ensures r.Ok? ==> MetadataOf(r.value, id) == MetadataOf(t, id) + md
    ensures r.Ok? ==> forall other :: other != id ==> MetadataOf(r.value, other) == MetadataOf(t, other)
    ensures r.Ok? && md != map[] ==> r.value.Keys == t.Keys + {id}
    ensures r.Ok? && md == map[] ==> r.value == t
    ensures r.Ok? && NoEmptyMetadata(t) ==> NoEmptyMetadata(r.value)
  {
    if md == map[] then Ok(t)
    else if MetadataOf(t, id).Keys !! md.Keys then Ok(PutMetadata(t, id, MetadataOf(t, id) + md))
    else Failure(UniqueKeyViolation)
  }

  // --------------------------------------------------------- collections

  /** `c` carries `name` in database `db`. */
  predicate Named(c: Collection, db: DatabaseKey, name: string) {
    c.database == db && c.name == name
  }

  /** A row other than `id` already carries `name` in `db`. */
  predicate NameTakenByOther(cols: map<UniqueId, Collection>, id: UniqueId, db: DatabaseKey, name: string) {
    exists j :: j in cols && j != id && Named(cols[j], db, name)
  }

  /** The store's unique index on (database, name): it covers every row,
      soft-deleted or not. */
  ghost predicate UniqueNames(cols: map<UniqueId, Collection>) {
    forall i, j :: i in cols && j in cols && i != j && cols[i].database == cols[j].database ==>
      cols[i].name != cols[j].name
  }

  /** A non-deleted collection named `name` exists in `db`. */
  ghost predicate HasActiveNamed(cols: map<UniqueId, Collection>, db: DatabaseKey, name: string) {
    exists id :: id in cols && Named(cols[id], db, name) && !cols[id].isDeleted
  }

  /** The collection named `name` in `db` whose deleted flag is `deleted`:
      the name lookup of the collection repository when `deleted` is false,
      its soft-deleted check when `deleted` is true. */
  function FindByName(cols: map<UniqueId, Collection>, db: DatabaseKey, name: string, deleted: bool): (r: Option<UniqueId>)
    requires UniqueNames(cols)
    ensures r.Some? ==> r.value in cols && Named(cols[r.value], db, name) && cols[r.value].isDeleted == deleted
    ensures r.None? ==> forall id :: id in cols && Named(cols[id], db, name) ==> cols[id].isDeleted != deleted
  {
    if exists id :: id in cols && Named(cols[id], db, name) && cols[id].isDeleted == deleted then
      var id :| id in cols && Named(cols[id], db, name) && cols[id].isDeleted == deleted;
      Some(id)
    else
      None
  }

  /** Inserts a collection row; the store refuses a taken id or a name taken
      in the same database. */
  function InsertCollectionRow(cols: map<UniqueId, Collection>, id: UniqueId, c: Collection): (r: Result<map<UniqueId, Collection>>)
    ensures r.Ok? <==> id !in cols && !NameTakenByOther(cols, id, c.database, c.name)
    ensures r.Failure? ==> r.error == UniqueKeyViolation
    ensures r.Ok? ==> r.value.Keys == cols.Keys + {id} && r.value[id] == c
    ensures r.Ok? ==> forall j :: j in cols ==> r.value[j] == cols[j]
    ensures r.Ok? && UniqueNames(cols) ==> UniqueNames(r.value)
  {
    if id in cols || NameTakenByOther(cols, id, c.database, c.name) then Failure(UniqueKeyViolation)
    else Ok(cols[id := c])
  }

  /** Overwrites the row `id` with `c` (same database). An update that
      matches no row changes nothing; a new name already carried by another
      row of the database is refused. */
  function UpdateCollectionRow(cols: map<UniqueId, Collection>, id: UniqueId, c: Collection): (r: Result<map<UniqueId, Collection>>)
    requires id in cols ==> c.database == cols[id].database
    ensures id !in cols ==> r == Ok(cols)
    ensures id in cols ==> (r.Ok? <==> c.name == cols[id].name || !NameTakenByOther(cols, id, c.database, c.name))
    ensures r.Failure? ==> r.error == UniqueKeyViolation
    ensures r.Ok? && id in cols ==> r.value == cols[id := c]
    ensures r.Ok? && UniqueNames(cols) ==> UniqueNames(r.value)
  {
    if id !in cols then Ok(cols)
    else if c.name != cols[id].name && NameTakenByOther(cols, id, c.database, c.name) then Failure(UniqueKeyViolation)
    else Ok(cols[id := c])
  }

  /** Deletes the row `id`, reporting how many rows went. */
  function DeleteCollectionById(cols: map<UniqueId, Collection>, id: UniqueId): (r: (nat, map<UniqueId, Collection>))
    ensures r.0 == 0 <==> id !in cols
    ensures r.1 == cols - {id}
  {
    if id in cols then (1, cols - {id}) else (0, cols)
  }

  /** The snapshot the catalog returns for collection `id`. */
  function CollectionSnapshot(s: State, id: UniqueId): CollectionModel
    requires id in s.collections
  {
    var c := s.collections[id];
    CollectionModel(id, c.name, c.database.tenant, c.database.name, c.configuration, c.dimension,
                    c.logPosition, c.version, c.ts, MetadataOf(s.collectionMetadata, id))
  }

  // ------------------------------------------------------------ segments

  /** Inserts a segment row; the store refuses a taken id. */
  function InsertSegmentRow(segs: map<UniqueId, Segment>, id: UniqueId, seg: Segment): (r: Result<map<UniqueId, Segment>>)
    ensures r.Ok? <==> id !in segs
    ensures r.Failure? ==> r.error == UniqueKeyViolation
    ensures r.Ok? ==> r.value == segs[id := seg]
  {
    if id in segs then Failure(UniqueKeyViolation) else Ok(segs[id := seg])
  }

  /** The segment `id` with row `seg` passes filter `f`. */
  predicate SegmentMatches(id: UniqueId, seg: Segment, f: SegmentFilter) {
    && (f.id.Some? ==> id == f.id.value)
    && (f.segmentType.Some? ==> seg.segmentType == f.segmentType.value)
    && (f.scope.Some? ==> seg.scope == f.scope.value)
    && (f.collection.Some? ==> seg.collection == Some(f.collection.value))
  }

  /** The snapshot the catalog returns for segment `id`; a row without a
      collection is reported with the nil identifier. */
  function SegmentSnapshot(s: State, id: UniqueId): SegmentModel
    requires id in s.segments
  {
    var seg := s.segments[id];
    SegmentModel(id, seg.segmentType, seg.scope, seg.collection.GetOr(NilUniqueId), seg.ts,
                 seg.filePaths, MetadataOf(s.segmentMetadata, id))
  }

  // ----------------------------------------------------------- invariant

  /** Well-formedness of a catalog state: the store's unique index on
      collection names, no metadata without its owner, no owner recorded
      with an empty set of rows, every collection in an existing database
      and every database under an existing tenant. */
  ghost predicate Valid(s: State) {
    && UniqueNames(s.collections)
    && s.collectionMetadata.Keys <= s.collections.Keys
    && s.segmentMetadata.Keys <= s.segments.Keys
    && NoEmptyMetadata(s.collectionMetadata)
    && NoEmptyMetadata(s.segmentMetadata)
    && (forall id :: id in s.collections ==> s.collections[id].database in s.databases)
    && (forall k :: k in s.databases ==> k.tenant in s.tenants)
  }
}
