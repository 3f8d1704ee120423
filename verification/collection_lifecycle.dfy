/** Collection creation (alone or with its segments), renaming of a
    soft-deleted name holder, hard and soft deletion, and updates. */
module CollectionLifecycle {
  import opened CatalogTypes
  import opened MetaStore
  import opened SegmentLifecycle

  // ------------------------------------------------------ deleted names

  function DigitChar(d: nat): char
    requires d < 10
  {
    "0123456789"[d]
  }

  /** Decimal digits of `n`, most significant first. */
  function NatToDecimal(n: nat): (r: string)
    ensures |r| > 0
  {
    if n < 10 then [DigitChar(n)] else NatToDecimal(n / 10) + [DigitChar(n % 10)]
  }

  /** A Unix timestamp written as a signed decimal. */
  function IntToDecimal(i: int): (r: string)
    ensures |r| > 0
  {
    if i < 0 then "-" + NatToDecimal(-i) else NatToDecimal(i)
  }

  /** The name a soft-deleted collection takes when its name is reused:
      `deleted_<name>_<ts>`. It always differs from `name`. */
  function DeletedName(name: string, ts: int): (r: string)
    ensures r != name
    ensures |r| > |name| + 8
    ensures r[..8] == "deleted_" && r[8..8 + |name|] == name
  {
    "deleted_" + name + "_" + IntToDecimal(ts)
  }

  /** Renames collection `id` to `DeletedName(name, now)`, keeping it
      soft-deleted and leaving its timestamps alone. An id that matches no
      row changes nothing. */
  function RenameSoftDeletedCollection(cols: map<UniqueId, Collection>, id: UniqueId, name: string, now: int): (r: Result<map<UniqueId, Collection>>)
    ensures id !in cols ==> r == Ok(cols)
    ensures id in cols ==>
      (r.Ok? <==> cols[id].name == DeletedName(name, now)
                  || !NameTakenByOther(cols, id, cols[id].database, DeletedName(name, now)))
    ensures r.Failure? ==> r.error == CollectionRenameFailed(UniqueKeyViolation)
    ensures r.Ok? ==> r.value.Keys == cols.Keys
    ensures r.Ok? ==> forall j :: j in cols && j != id ==> r.value[j] == cols[j]
    ensures r.Ok? && id in cols ==>
      && r.value[id].name == DeletedName(name, now)
      && r.value[id].isDeleted
      && r.value[id] == cols[id].(name := r.value[id].name, isDeleted := true)
    ensures r.Ok? && UniqueNames(cols) ==> UniqueNames(r.value)
  {
    if id !in cols then Ok(cols)
    else
      var renamed := UpdateCollectionRow(cols, id, cols[id].(name := DeletedName(name, now), isDeleted := true));
      if renamed.Failure? then Failure(CollectionRenameFailed(renamed.error)) else renamed
  }

  /** Frees `name` in `db` for a new collection: the soft-deleted row
      holding it, if any, is renamed to `DeletedName(name, now)`. */
  function FreeName(cols: map<UniqueId, Collection>, db: DatabaseKey, name: string, now: int): (r: Result<map<UniqueId, Collection>>)
    requires UniqueNames(cols)
    requires !HasActiveNamed(cols, db, name)
    ensures r.Failure? ==> r.error == CollectionRenameFailed(UniqueKeyViolation)
    ensures (forall j :: j in cols ==> !Named(cols[j], db, DeletedName(name, now))) ==> r.Ok?
    ensures r.Ok? ==> r.value.Keys == cols.Keys
    ensures r.Ok? ==> forall j :: j in cols ==>
      r.value[j] == if Named(cols[j], db, name) then cols[j].(name := DeletedName(name, now)) else cols[j]
    ensures r.Ok? ==> UniqueNames(r.value)
    ensures r.Ok? ==> forall j :: j in r.value ==> !Named(r.value[j], db, name)
  {
    var holder := FindByName(cols, db, name, true);
    if holder.None? then Ok(cols)
    else RenameSoftDeletedCollection(cols, holder.value, name, now)
  }

  // ------------------------------------------------------------- create

  /** A non-deleted collection named `name` in `db`, and the snapshot
      returned for it, as the get-or-create path reports it. */
  ghost predicate IsActiveNamedSnapshot(s: State, m: CollectionModel, db: DatabaseKey, name: string) {
    && m.id in s.collections
    && Named(s.collections[m.id], db, name)
    && !s.collections[m.id].isDeleted
    && m == CollectionSnapshot(s, m.id)
  }

  /** Inserts the row of a new collection (log position and version 0) and
      its metadata rows into `s`, and returns its snapshot with `created`. */
  function InsertNewCollection(s: State, req: CreateCollectionRequest, db: DatabaseKey, ts: int): (r: Step<(CollectionModel, bool)>)
    ensures r.result.Ok? <==>
      && req.id !in s.collections
      && !NameTakenByOther(s.collections, req.id, db, req.name)
      && (req.metadata.None? || req.metadata.value == map[]
          || MetadataOf(s.collectionMetadata, req.id).Keys !! req.metadata.value.Keys)
    ensures r.result.Failure? ==> r.result.error == UniqueKeyViolation
    ensures r.result.Ok? ==>
      r.state.collections == s.collections[req.id := Collection(req.name, db, req.configuration, req.dimension, false, 0, 0, ts, None)]
    ensures r.result.Ok? ==>
      r.state.collectionMetadata == InsertMetadata(s.collectionMetadata, req.id, req.metadata.GetOr(map[])).value
    ensures r.result.Ok? ==> r.result.value == (CollectionSnapshot(r.state, req.id), true)
    ensures r.result.Ok? && UniqueNames(s.collections) ==> UniqueNames(r.state.collections)
    ensures r.state.tenants == s.tenants && r.state.databases == s.databases
    ensures r.state.segments == s.segments && r.state.segmentMetadata == s.segmentMetadata
  {
    var row := Collection(req.name, db, req.configuration, req.dimension, false, 0, 0, ts, None);
    var cols := InsertCollectionRow(s.collections, req.id, row);
    if cols.Failure? then Step(Failure(cols.error), s)
    else
      var inserted := s.(collections := cols.value);
      var metadata := InsertMetadata(inserted.collectionMetadata, req.id, req.metadata.GetOr(map[]));
      if metadata.Failure? then Step(Failure(metadata.error), inserted)
      else
        var after := inserted.(collectionMetadata := metadata.value);
        Step(Ok((CollectionSnapshot(after, req.id), true)), after)
  }

  /** The creation of a collection whose name no active collection of `db`
      holds: the name is freed, then the new row and its metadata go in. */
  function CreateNewCollection(s: State, req: CreateCollectionRequest, db: DatabaseKey, ts: int, now: int): (r: Step<(CollectionModel, bool)>)
    requires UniqueNames(s.collections)
    requires !HasActiveNamed(s.collections, db, req.name)
    ensures r.result.Failure? ==>
      r.result.error in {UniqueKeyViolation, CollectionCreateFailed(CollectionRenameFailed(UniqueKeyViolation))}
    ensures
      && req.id !in s.collections
      && req.id !in s.collectionMetadata
      && (forall j :: j in s.collections ==> !Named(s.collections[j], db, DeletedName(req.name, now)))
      ==> r.result.Ok?
    ensures r.result.Ok? ==>
      && r.result.value.1
      && req.id !in s.collections
      && r.state.collections.Keys == s.collections.Keys + {req.id}
      && Named(r.state.collections[req.id], db, req.name)
      && !r.state.collections[req.id].isDeleted
      && r.state.collections[req.id].logPosition == 0
      && r.state.collections[req.id].version == 0
      && InsertMetadata(s.collectionMetadata, req.id, req.metadata.GetOr(map[])).Ok?
      && r.state.collectionMetadata == InsertMetadata(s.collectionMetadata, req.id, req.metadata.GetOr(map[])).value
      && r.result.value.0 == CollectionSnapshot(r.state, req.id)
      && UniqueNames(r.state.collections)
    ensures r.result.Ok? ==> forall j :: j in s.collections ==>
      r.state.collections[j] == if Named(s.collections[j], db, req.name) then s.collections[j].(name := DeletedName(req.name, now)) else s.collections[j]
    ensures r.state.tenants == s.tenants && r.state.databases == s.databases
    ensures r.state.segments == s.segments && r.state.segmentMetadata == s.segmentMetadata
  {
    var freed := FreeName(s.collections, db, req.name, now);
    if freed.Failure? then Step(Failure(CollectionCreateFailed(freed.error)), s)
    else InsertNewCollection(s.(collections := freed.value), req, db, ts)
  }

  /** The shared creation routine, run inside the caller's transaction: the
      database must exist; an active collection of the same name is returned
      (get-or-create) or refused; a soft-deleted holder of the name is
      renamed out of the way; then the new collection is inserted. */
  function CreateCollectionImpl(s: State, req: CreateCollectionRequest, ts: int, now: int): (r: Step<(CollectionModel, bool)>)
    requires UniqueNames(s.collections)
    ensures DatabaseKey(req.tenant, req.databaseName) !in s.databases ==> r == Step(Failure(DatabaseNotFound), s)
    ensures
      DatabaseKey(req.tenant, req.databaseName) in s.databases
      && HasActiveNamed(s.collections, DatabaseKey(req.tenant, req.databaseName), req.name)
      ==>
      if req.getOrCreate then
        && r.state == s
        && r.result.Ok?
        && !r.result.value.1
        && IsActiveNamedSnapshot(s, r.result.value.0, DatabaseKey(req.tenant, req.databaseName), req.name)
      else
        r == Step(Failure(CollectionUniqueConstraintViolation), s)
    ensures
      && DatabaseKey(req.tenant, req.databaseName) in s.databases
      && !HasActiveNamed(s.collections, DatabaseKey(req.tenant, req.databaseName), req.name)
      ==>
      r == CreateNewCollection(s, req, DatabaseKey(req.tenant, req.databaseName), ts, now)
    ensures r.result.Failure? ==>
      r.result.error in {DatabaseNotFound, CollectionUniqueConstraintViolation, UniqueKeyViolation,
                         CollectionCreateFailed(CollectionRenameFailed(UniqueKeyViolation))}
    ensures r.result.Ok? ==> UniqueNames(r.state.collections)
    ensures r.state.tenants == s.tenants && r.state.databases == s.databases
    ensures r.state.segments == s.segments && r.state.segmentMetadata == s.segmentMetadata
  {
    var db := DatabaseKey(req.tenant, req.databaseName);
    if db !in s.databases then Step(Failure(DatabaseNotFound), s)
    else
      var existing := FindByName(s.collections, db, req.name, false);
      if existing.Some? then
        if req.getOrCreate then Step(Ok((CollectionSnapshot(s, existing.value), false)), s)
        else Step(Failure(CollectionUniqueConstraintViolation), s)
      else CreateNewCollection(s, req, db, ts, now)
  }

  /** Creates a collection in its own transaction. */
  function CreateCollection(s: State, req: CreateCollectionRequest, ts: int, now: int): (r: Step<(CollectionModel, bool)>)
    requires UniqueNames(s.collections)
    ensures r.result == CreateCollectionImpl(s, req, ts, now).result
    ensures r.result.Failure? ==> r.state == s
    ensures r.result.Ok? ==> r.state == CreateCollectionImpl(s, req, ts, now).state
  {
    Transaction(s, CreateCollectionImpl(s, req, ts, now))
  }

  /** The ids a batch of segment requests asks for. */
  function RequestedIds(reqs: seq<CreateSegmentRequest>): set<UniqueId> {
    set q | q in reqs :: q.id
  }

  /** Taken in order, each id of `reqs` is missing from `taken` and from
      the ids before it. */
  ghost predicate FreshIds(taken: set<UniqueId>, reqs: seq<CreateSegmentRequest>)
    decreases |reqs|
  {
    |reqs| == 0 || (reqs[0].id !in taken && FreshIds(taken + {reqs[0].id}, reqs[1..]))
  }

  /** `FreshIds` means: no id of `reqs` is in `taken`, and no two are equal. */
  lemma {:induction false} FreshIdsDistinct(taken: set<UniqueId>, reqs: seq<CreateSegmentRequest>)
    requires FreshIds(taken, reqs)
    ensures forall i :: 0 <= i < |reqs| ==> reqs[i].id !in taken
    ensures forall i, j :: 0 <= i < j < |reqs| ==> reqs[i].id != reqs[j].id
    decreases |reqs|
  {
    if |reqs| > 0 {
      var rest := reqs[1..];
      FreshIdsDistinct(taken + {reqs[0].id}, rest);
      forall i | 0 < i < |reqs|
        ensures reqs[i].id !in taken && reqs[i].id != reqs[0].id
      {
        assert reqs[i] == rest[i - 1];
      }
      forall i, j | 0 < i < j < |reqs|
        ensures reqs[i].id != reqs[j].id
      {
        assert reqs[i] == rest[i - 1] && reqs[j] == rest[j - 1];
      }
    }
  }

  /** The row each request of `reqs` asks for, by id, when the segments
      are owned by `collection` and stamped `ts`. */
  function NewSegmentRows(reqs: seq<CreateSegmentRequest>, collection: UniqueId, ts: int): (r: map<UniqueId, Segment>)
    ensures r.Keys == RequestedIds(reqs)
    ensures forall id :: id in r ==> r[id].collection == Some(collection) && r[id].ts == ts && r[id].filePaths == map[]
    decreases |reqs|
  {
    if |reqs| == 0 then map[]
    else
      assert RequestedIds(reqs) == {reqs[0].id} + RequestedIds(reqs[1..]) by {
        assert forall q :: q in reqs <==> q == reqs[0] || q in reqs[1..];
      }
      map[reqs[0].id := Segment(Some(collection), reqs[0].segmentType, reqs[0].scope, ts, map[])]
        + NewSegmentRows(reqs[1..], collection, ts)
  }

  /** The metadata the requests of `reqs` ask for segment `id` (an absent
      map asks for none). */
  function RequestedMetadata(reqs: seq<CreateSegmentRequest>, id: UniqueId): (r: Metadata)
    ensures id !in RequestedIds(reqs) ==> r == map[]
    decreases |reqs|
  {
    if |reqs| == 0 then map[]
    else
      assert RequestedIds(reqs) == {reqs[0].id} + RequestedIds(reqs[1..]) by {
        assert forall q :: q in reqs <==> q == reqs[0] || q in reqs[1..];
      }
      (if reqs[0].id == id then reqs[0].metadata.GetOr(map[]) else map[]) + RequestedMetadata(reqs[1..], id)
  }

  /** The first id of a batch with fresh ids is not asked for again. */
  lemma {:induction false} FirstIdNotRepeated(taken: set<UniqueId>, reqs: seq<CreateSegmentRequest>)
    requires |reqs| > 0 && FreshIds(taken, reqs)
    ensures reqs[0].id !in RequestedIds(reqs[1..])
  {
    FreshIdsDistinct(taken, reqs);
    forall q | q in reqs[1..] ensures q.id != reqs[0].id {
      var k :| 0 <= k < |reqs[1..]| && reqs[1..][k] == q;
      assert reqs[1..][k] == reqs[k + 1];
    }
  }

  /** With fresh ids, request `reqs[i]` gets exactly the row it asks for. */
  lemma {:induction false} NewSegmentRowsAsRequested(taken: set<UniqueId>, reqs: seq<CreateSegmentRequest>, collection: UniqueId, ts: int)
    requires FreshIds(taken, reqs)
    ensures forall i :: 0 <= i < |reqs| ==>
      NewSegmentRows(reqs, collection, ts)[reqs[i].id] == Segment(Some(collection), reqs[i].segmentType, reqs[i].scope, ts, map[])
    decreases |reqs|
  {
    if |reqs| > 0 {
      var rest := reqs[1..];
      var later := NewSegmentRows(rest, collection, ts);
      NewSegmentRowsAsRequested(taken + {reqs[0].id}, rest, collection, ts);
      FirstIdNotRepeated(taken, reqs);
      forall i | 0 < i < |reqs|
        ensures NewSegmentRows(reqs, collection, ts)[reqs[i].id] == Segment(Some(collection), reqs[i].segmentType, reqs[i].scope, ts, map[])
      {
        assert reqs[i] == rest[i - 1];
        assert reqs[i].id in later;
      }
    }
  }

  /** With fresh ids, request `reqs[i]` gets exactly the metadata it asks for. */
  lemma {:induction false} RequestedMetadataAsRequested(taken: set<UniqueId>, reqs: seq<CreateSegmentRequest>)
    requires FreshIds(taken, reqs)
    ensures forall i :: 0 <= i < |reqs| ==> RequestedMetadata(reqs, reqs[i].id) == reqs[i].metadata.GetOr(map[])
    decreases |reqs|
  {
    if |reqs| > 0 {
      var rest := reqs[1..];
      RequestedMetadataAsRequested(taken + {reqs[0].id}, rest);
      FirstIdNotRepeated(taken, reqs);
      FreshIdsDistinct(taken, reqs);
      MapUnionEmpty(reqs[0].metadata.GetOr(map[]));
      forall i | 0 < i < |reqs|
        ensures RequestedMetadata(reqs, reqs[i].id) == reqs[i].metadata.GetOr(map[])
      {
        assert reqs[i] == rest[i - 1];
        EmptyMapUnion(RequestedMetadata(rest, reqs[i].id));
      }
    }
  }

  /** One step of `CreateSegments`: the first row, then the rows of the rest. */
  lemma NewSegmentRowsStep(segs: map<UniqueId, Segment>, reqs: seq<CreateSegmentRequest>, collection: UniqueId, ts: int,
                           after: map<UniqueId, Segment>)
    requires |reqs| > 0
    requires after ==
      segs[reqs[0].id := Segment(Some(collection), reqs[0].segmentType, reqs[0].scope, ts, map[])]
        + NewSegmentRows(reqs[1..], collection, ts)
    ensures after == segs + NewSegmentRows(reqs, collection, ts)
  {
    var row := Segment(Some(collection), reqs[0].segmentType, reqs[0].scope, ts, map[]);
    MapUpdateAsUnion(segs, reqs[0].id, row);
    MapUnionAssoc(segs, map[reqs[0].id := row], NewSegmentRows(reqs[1..], collection, ts));
  }

  lemma MapUnionEmpty<K, V>(a: map<K, V>)
    ensures a + map[] == a
  {
  }

  lemma MapUpdateAsUnion<K, V>(a: map<K, V>, k: K, v: V)
    ensures a[k := v] == a + map[k := v]
  {
  }

  lemma EmptyMapUnion<K, V>(a: map<K, V>)
    ensures map[] + a == a
  {
  }

  lemma MapUnionAssoc<K, V>(a: map<K, V>, b: map<K, V>, c: map<K, V>)
    ensures (a + b) + c == a + (b + c)
  {
  }

  /** One step of `CreateSegments` on segment metadata: the first request's
      batch, then the batches of the rest. */
  lemma RequestedMetadataStep(before: MetadataTable, mid: MetadataTable, after: MetadataTable, reqs: seq<CreateSegmentRequest>)
    requires |reqs| > 0
    requires MetadataOf(mid, reqs[0].id) == MetadataOf(before, reqs[0].id) + reqs[0].metadata.GetOr(map[])
    requires forall id :: id != reqs[0].id ==> MetadataOf(mid, id) == MetadataOf(before, id)
    requires forall id :: MetadataOf(after, id) == MetadataOf(mid, id) + RequestedMetadata(reqs[1..], id)
    ensures forall id :: MetadataOf(after, id) == MetadataOf(before, id) + RequestedMetadata(reqs, id)
  {
    forall id ensures MetadataOf(after, id) == MetadataOf(before, id) + RequestedMetadata(reqs, id) {
      var asked: Metadata := if reqs[0].id == id then reqs[0].metadata.GetOr(map[]) else map[];
      if reqs[0].id != id {
        MapUnionEmpty(MetadataOf(before, id));
      }
      RequestedMetadataUnfold(reqs, id);
      MapUnionAssoc(MetadataOf(before, id), asked, RequestedMetadata(reqs[1..], id));
    }
  }

  lemma RequestedMetadataUnfold(reqs: seq<CreateSegmentRequest>, id: UniqueId)
    requires |reqs| > 0
    ensures RequestedMetadata(reqs, id) ==
      (if reqs[0].id == id then reqs[0].metadata.GetOr(map[]) else map[]) + RequestedMetadata(reqs[1..], id)
  {
  }

  /** Creates the segments of `reqs` in order, each owned by `collection`,
      stopping at the first failure. When every id of `reqs` is fresh and no
      metadata is stored without its segment, nothing can stop it. */
  function CreateSegments(s: State, reqs: seq<CreateSegmentRequest>, collection: UniqueId, ts: int): (r: Step<()>)
    ensures r.result.Failure? ==> r.result.error == UniqueKeyViolation
    ensures r.result.Ok? ==> FreshIds(s.segments.Keys, reqs)
    ensures s.segmentMetadata.Keys <= s.segments.Keys && FreshIds(s.segments.Keys, reqs) ==> r.result.Ok?
    ensures r.result.Ok? ==> r.state.segments == s.segments + NewSegmentRows(reqs, collection, ts)
    ensures r.result.Ok? ==> forall id ::
      MetadataOf(r.state.segmentMetadata, id) == MetadataOf(s.segmentMetadata, id) + RequestedMetadata(reqs, id)
    ensures r.result.Ok? ==> r.state.segments.Keys == s.segments.Keys + RequestedIds(reqs)
    ensures r.result.Ok? ==> forall id :: id in s.segments ==> r.state.segments[id] == s.segments[id]
    ensures r.result.Ok? ==> forall id :: id in r.state.segments && id !in s.segments ==>
      r.state.segments[id].collection == Some(collection)
    ensures r.result.Ok? ==> r.state.segmentMetadata.Keys <= s.segmentMetadata.Keys + RequestedIds(reqs)
    ensures r.result.Ok? && NoEmptyMetadata(s.segmentMetadata) ==> NoEmptyMetadata(r.state.segmentMetadata)
    ensures r.state.tenants == s.tenants && r.state.databases == s.databases
    ensures r.state.collections == s.collections && r.state.collectionMetadata == s.collectionMetadata
    decreases |reqs|
  {
    if |reqs| == 0 then Step(Ok(()), s)
    else
      var first := CreateSegmentImpl(s, reqs[0].(collectionId := collection), ts);
      if first.result.Failure? then
        assert reqs[0].id in s.segments || MetadataOf(s.segmentMetadata, reqs[0].id) != map[];
        Step(Failure(first.result.error), first.state)
      else
        var rest := reqs[1..];
        var row := Segment(Some(collection), reqs[0].segmentType, reqs[0].scope, ts, map[]);
        assert first.state.segments == s.segments[reqs[0].id := row];
        assert RequestedIds(reqs) == {reqs[0].id} + RequestedIds(rest) by {
          assert forall q :: q in reqs <==> q == reqs[0] || q in rest;
        }
        assert first.state.segments.Keys == s.segments.Keys + {reqs[0].id};
        assert s.segmentMetadata.Keys <= s.segments.Keys ==> first.state.segmentMetadata.Keys <= first.state.segments.Keys;
        var rec := CreateSegments(first.state, rest, collection, ts);
        assert rec.result.Ok? ==> rec.state.segments == s.segments + NewSegmentRows(reqs, collection, ts) by {
          if rec.result.Ok? {
            NewSegmentRowsStep(s.segments, reqs, collection, ts, rec.state.segments);
          }
        }
        assert rec.result.Ok? ==> forall id ::
          MetadataOf(rec.state.segmentMetadata, id) == MetadataOf(s.segmentMetadata, id) + RequestedMetadata(reqs, id) by {
          if rec.result.Ok? {
            RequestedMetadataStep(s.segmentMetadata, first.state.segmentMetadata, rec.state.segmentMetadata, reqs);
          }
        }
        rec
  }

  /** Creates a collection and, when it is new, its segments, all in one
      transaction. When get-or-create finds an existing collection no
      segment is created; a refused segment aborts the whole call. */
  function CreateCollectionAndSegments(s: State, req: CreateCollectionRequest, segmentReqs: seq<CreateSegmentRequest>, ts: int, now: int): (r: Step<(CollectionModel, bool)>)
    requires UniqueNames(s.collections)
    ensures r.result.Failure? ==> r.state == s
    ensures r.result.Ok? && !r.result.value.1 ==> r.state == s
    ensures r.result.Ok? ==> r.result == CreateCollectionImpl(s, req, ts, now).result
    ensures r.result.Ok? && r.result.value.1 ==>
      && r.state.segments.Keys == s.segments.Keys + RequestedIds(segmentReqs)
      && FreshIds(s.segments.Keys, segmentReqs)
      && (forall id :: id in r.state.segments && id !in s.segments ==> r.state.segments[id].collection == Some(req.id))
      && r.state == CreateCollectionImpl(s, req, ts, now).state.(segments := r.state.segments,
                                                                 segmentMetadata := r.state.segmentMetadata)
    ensures r.result.Ok? && r.result.value.1 ==> r.state.segments == s.segments + NewSegmentRows(segmentReqs, req.id, ts)
    ensures r.result.Ok? && r.result.value.1 ==> forall id ::
      MetadataOf(r.state.segmentMetadata, id) == MetadataOf(s.segmentMetadata, id) + RequestedMetadata(segmentReqs, id)
    ensures
      && CreateCollectionImpl(s, req, ts, now).result.Ok? && CreateCollectionImpl(s, req, ts, now).result.value.1
      && s.segmentMetadata.Keys <= s.segments.Keys && FreshIds(s.segments.Keys, segmentReqs)
      ==> r.result.Ok?
  {
    var created := CreateCollectionImpl(s, req, ts, now);
    var body :=
      if created.result.Failure? || !created.result.value.1 then created
      else
        var segments := CreateSegments(created.state, segmentReqs, created.result.value.0.id, ts);
        if segments.result.Failure? then Step(Failure(segments.result.error), segments.state)
        else Step(created.result, segments.state);
    Transaction(s, body)
  }

  // ------------------------------------------------------------- delete

  /** The segments owned by collection `id`. */
  function OwnedSegments(segs: map<UniqueId, Segment>, id: UniqueId): set<UniqueId> {
    set sid | sid in segs && segs[sid].collection == Some(id)
  }

  /** Removes collection `req.id` for good, with its metadata, every segment
      it owns and their metadata. The entry lookup goes by id and database
      name and also finds soft-deleted rows. */
  function HardDeleteCollection(s: State, req: DeleteCollectionRequest): (r: Step<()>)
    ensures r.result.Ok? <==> req.id in s.collections && s.collections[req.id].database.name == req.databaseName
    ensures r.result.Failure? ==> r.result.error == CollectionDeleteNonExistingCollection && r.state == s
    ensures r.result.Ok? ==>
      && r.state.collections == s.collections - {req.id}
      && MetadataOf(r.state.collectionMetadata, req.id) == map[]
      && (forall j :: j != req.id ==> MetadataOf(r.state.collectionMetadata, j) == MetadataOf(s.collectionMetadata, j))
      && (forall sid :: sid in r.state.segments <==> sid in s.segments && s.segments[sid].collection != Some(req.id))
      && (forall sid :: sid in r.state.segments ==> r.state.segments[sid] == s.segments[sid])
      && (forall sid :: sid in s.segments && s.segments[sid].collection == Some(req.id) ==>
            MetadataOf(r.state.segmentMetadata, sid) == map[])
      && (forall sid :: sid in r.state.segments ==>
            MetadataOf(r.state.segmentMetadata, sid) == MetadataOf(s.segmentMetadata, sid))
      && r.state.segmentMetadata.Keys <= s.segmentMetadata.Keys
      && r.state.tenants == s.tenants && r.state.databases == s.databases
  {
    var body :=
      if !(req.id in s.collections && s.collections[req.id].database.name == req.databaseName) then
        Step(Failure(CollectionDeleteNonExistingCollection), s)
      else
        var (deletedCount, cols) := DeleteCollectionById(s.collections, req.id);
        if deletedCount == 0 then Step(Failure(CollectionDeleteNonExistingCollection), s)
        else
          var owned := OwnedSegments(s.segments, req.id);
          Step(Ok(()), s.(collections := cols,
                          collectionMetadata := DeleteAllMetadata(s.collectionMetadata, req.id),
                          segments := s.segments - owned,
                          segmentMetadata := s.segmentMetadata - owned));
    Transaction(s, body)
  }

  /** Marks the active collection `req.id` of the request's database as
      deleted and stamps it; its segments and metadata stay. */
  function SoftDeleteCollection(s: State, req: DeleteCollectionRequest, now: int): (r: Step<()>)
    ensures r.result.Ok? <==>
      && req.id in s.collections
      && !s.collections[req.id].isDeleted
      && s.collections[req.id].database == DatabaseKey(req.tenant, req.databaseName)
    ensures r.result.Failure? ==> r.result.error == CollectionDeleteNonExistingCollection && r.state == s
    ensures r.result.Ok? ==>
      && r.state == s.(collections := r.state.collections)
      && r.state.collections.Keys == s.collections.Keys
      && (forall j :: j in s.collections && j != req.id ==> r.state.collections[j] == s.collections[j])
      && r.state.collections[req.id].isDeleted
      && r.state.collections[req.id].ts == req.ts
      && r.state.collections[req.id].updatedAt == Some(now)
      && r.state.collections[req.id] == s.collections[req.id].(isDeleted := true, ts := req.ts, updatedAt := Some(now))
    ensures r.result.Ok? && UniqueNames(s.collections) ==> UniqueNames(r.state.collections)
  {
    var db := DatabaseKey(req.tenant, req.databaseName);
    var body :=
      if !(req.id in s.collections && !s.collections[req.id].isDeleted && s.collections[req.id].database == db) then
        Step(Failure(CollectionDeleteNonExistingCollection), s)
      else
        var c := s.collections[req.id];
        var cols := UpdateCollectionRow(s.collections, req.id, c.(isDeleted := true, ts := req.ts, updatedAt := Some(now)));
        Step(Ok(()), s.(collections := cols.value));
    Transaction(s, body)
  }

  /** Soft or hard deletion, as the caller asks. */
  function DeleteCollection(s: State, req: DeleteCollectionRequest, softDelete: bool, now: int): (r: Step<()>)
    ensures r.result.Failure? ==> r.result.error == CollectionDeleteNonExistingCollection && r.state == s
    ensures r.result.Ok? && softDelete ==>
      && req.id in r.state.collections
      && r.state.collections[req.id].isDeleted
      && r.state.segments == s.segments
      && r.state.collectionMetadata == s.collectionMetadata
    ensures r.result.Ok? && !softDelete ==>
      && req.id !in r.state.collections
      && (forall sid :: sid in r.state.segments ==> r.state.segments[sid].collection != Some(req.id))
  {
    if softDelete then SoftDeleteCollection(s, req, now) else HardDeleteCollection(s, req)
  }

  // ------------------------------------------------------------- update

  /** The metadata policy of a collection update: reset together with a new
      map is refused; reset alone deletes every row; a new map alone replaces
      all rows by its entries; neither leaves the rows as they are. */
  function ReplaceCollectionMetadata(t: MetadataTable, id: UniqueId, reset: bool, metadata: Option<Metadata>): (r: Result<MetadataTable>)
    ensures r.Failure? <==> reset && metadata.Some?
    ensures r.Failure? ==> r.error == InvalidMetadataUpdate
    ensures r.Ok? && reset ==> MetadataOf(r.value, id) == map[]
    ensures r.Ok? && !reset && metadata.Some? ==> MetadataOf(r.value, id) == metadata.value
    ensures r.Ok? && !reset && metadata.None? ==> r.value == t
    ensures r.Ok? ==> forall other :: other != id ==> MetadataOf(r.value, other) == MetadataOf(t, other)
    ensures r.Ok? ==> r.value.Keys <= t.Keys + {id}
    ensures r.Ok? && NoEmptyMetadata(t) ==> NoEmptyMetadata(r.value)
  {
    if reset then
      if metadata.Some? then Failure(InvalidMetadataUpdate)
      else Ok(DeleteAllMetadata(t, id))
    else if metadata.Some? then
      // Every row of `id` is deleted first, so the insert is never refused.
      InsertMetadata(DeleteAllMetadata(t, id), id, metadata.value)
    else Ok(t)
  }

  /** The update would give the row a name another row of its database
      carries, which the store refuses. */
  ghost predicate RenameCollides(s: State, req: UpdateCollectionRequest) {
    && req.id in s.collections
    && req.name.Some?
    && req.name.value != s.collections[req.id].name
    && NameTakenByOther(s.collections, req.id, s.collections[req.id].database, req.name.value)
  }

  /** The row `c` with the scalar fields of `req` applied. */
  function PatchCollection(c: Collection, req: UpdateCollectionRequest, ts: int): Collection {
    c.(name := req.name.GetOr(c.name),
       dimension := if req.dimension.Some? then req.dimension else c.dimension,
       ts := ts)
  }

  /** The transactional part of a collection update: the row, then the
      metadata policy, then the re-read of the active row. */
  function UpdateCollectionBody(s: State, req: UpdateCollectionRequest, ts: int): (r: Step<CollectionModel>)
    ensures RenameCollides(s, req) ==> r.result == Failure(UniqueKeyViolation)
    ensures !RenameCollides(s, req) && req.resetMetadata && req.metadata.Some? ==>
      r.result == Failure(InvalidMetadataUpdate)
    ensures r.result.Ok? <==>
      && !RenameCollides(s, req)
      && !(req.resetMetadata && req.metadata.Some?)
      && req.id in s.collections
      && !s.collections[req.id].isDeleted
      && s.collections[req.id].database == DatabaseKey(req.tenant, req.databaseName)
    ensures !RenameCollides(s, req) && !(req.resetMetadata && req.metadata.Some?) && r.result.Failure? ==>
      r.result.error == CollectionNotFound
    ensures r.result.Ok? ==>
      && r.state.collections == s.collections[req.id := PatchCollection(s.collections[req.id], req, ts)]
      && r.state.tenants == s.tenants && r.state.databases == s.databases
      && r.state.segments == s.segments && r.state.segmentMetadata == s.segmentMetadata
      && (forall j :: j != req.id ==> MetadataOf(r.state.collectionMetadata, j) == MetadataOf(s.collectionMetadata, j))
      && r.result.value == CollectionSnapshot(r.state, req.id)
    ensures r.result.Ok? && req.resetMetadata ==> MetadataOf(r.state.collectionMetadata, req.id) == map[]
    ensures r.result.Ok? && !req.resetMetadata && req.metadata.Some? ==>
      MetadataOf(r.state.collectionMetadata, req.id) == req.metadata.value
    ensures r.result.Ok? && !req.resetMetadata && req.metadata.None? ==>
      r.state.collectionMetadata == s.collectionMetadata
    ensures r.result.Ok? ==> r.state.collectionMetadata.Keys <= s.collectionMetadata.Keys + {req.id}
    ensures r.result.Ok? && NoEmptyMetadata(s.collectionMetadata) ==> NoEmptyMetadata(r.state.collectionMetadata)
    ensures r.result.Ok? && UniqueNames(s.collections) ==> UniqueNames(r.state.collections)
  {
    var patched :=
      if req.id in s.collections then UpdateCollectionRow(s.collections, req.id, PatchCollection(s.collections[req.id], req, ts))
      else Ok(s.collections);
    if patched.Failure? then Step(Failure(patched.error), s)
    else
      var updated := s.(collections := patched.value);
      var metadata := ReplaceCollectionMetadata(updated.collectionMetadata, req.id, req.resetMetadata, req.metadata);
      if metadata.Failure? then Step(Failure(metadata.error), updated)
      else
        var after := updated.(collectionMetadata := metadata.value);
        var db := DatabaseKey(req.tenant, req.databaseName);
        if req.id in after.collections && !after.collections[req.id].isDeleted && after.collections[req.id].database == db then
          Step(Ok(CollectionSnapshot(after, req.id)), after)
        else
          Step(Failure(CollectionNotFound), after)
  }

  /** Updates collection `req.id` in its own transaction. */
  function UpdateCollection(s: State, req: UpdateCollectionRequest, ts: int): (r: Step<CollectionModel>)
    ensures r.result == UpdateCollectionBody(s, req, ts).result
    ensures r.result.Failure? ==> r.state == s
    ensures r.result.Ok? ==> r.state == UpdateCollectionBody(s, req, ts).state
  {
    Transaction(s, UpdateCollectionBody(s, req, ts))
  }
}
