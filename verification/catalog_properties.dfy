/** Properties that relate several catalog calls: the well-formedness
    invariant across every mutation, get-or-create idempotence, reuse of a
    soft-deleted name, and reads after writes. */
module CatalogProperties {
  import opened CatalogTypes
  import opened MetaStore
  import opened TenantDatabase
  import opened SegmentLifecycle
  import opened CollectionLifecycle
  import opened Compaction

  // ------------------------------------------------- reads after writes

  /** A freshly reset catalog serves the default tenant and database, and
      nothing else. */
  lemma ResetThenRead(s: State, now: int, tenant: string, name: string)
    ensures GetTenants(ResetState(s, now).state, DefaultTenant) == Ok(TenantModel(DefaultTenant, now))
    ensures GetDatabases(ResetState(s, now).state, DefaultTenant, DefaultDatabase)
      == Ok(DatabaseModel(NilUniqueId, DefaultDatabase, DefaultTenant))
    ensures tenant != DefaultTenant ==> GetTenants(ResetState(s, now).state, tenant) == Failure(TenantNotFound)
    ensures (tenant, name) != (DefaultTenant, DefaultDatabase) ==>
      GetDatabases(ResetState(s, now).state, tenant, name) == Failure(DatabaseNotFound)
  {
  }

  /** A created tenant is read back with the compaction time it was given. */
  lemma CreateTenantThenGet(s: State, name: string, ts: int, now: int)
    requires CreateTenant(s, name, ts, now).result.Ok?
    ensures GetTenants(CreateTenant(s, name, ts, now).state, name) == Ok(TenantModel(name, now))
  {
  }

  /** A created database is read back as it was returned; creating it a
      second time is refused and changes nothing. */
  lemma CreateDatabaseThenGet(s: State, req: CreateDatabaseRequest, ts: int, ts2: int)
    requires CreateDatabase(s, req, ts).result.Ok?
    ensures GetDatabases(CreateDatabase(s, req, ts).state, req.tenant, req.name) == CreateDatabase(s, req, ts).result
    ensures CreateDatabase(CreateDatabase(s, req, ts).state, req, ts2).result == Failure(UniqueKeyViolation)
    ensures CreateDatabase(CreateDatabase(s, req, ts).state, req, ts2).state == CreateDatabase(s, req, ts).state
  {
  }

  /** A new collection is the one the name lookup of its database finds. */
  lemma CreatedCollectionFoundByName(s: State, req: CreateCollectionRequest, ts: int, now: int)
    requires UniqueNames(s.collections)
    requires CreateCollection(s, req, ts, now).result.Ok?
    ensures
      var r := CreateCollection(s, req, ts, now);
      FindByName(r.state.collections, DatabaseKey(req.tenant, req.databaseName), req.name, false)
        == Some(r.result.value.0.id)
  {
    var db := DatabaseKey(req.tenant, req.databaseName);
    var r := CreateCollection(s, req, ts, now);
    ActiveNamedResult(s, req, ts, now);
    var found := FindByName(r.state.collections, db, req.name, false);
    assert found.Some? by {
      assert r.result.value.0.id in r.state.collections;
    }
  }

  /** Whatever `CreateCollection` returns is a non-deleted collection of the
      requested name and database, snapshotted from the committed state. */
  lemma ActiveNamedResult(s: State, req: CreateCollectionRequest, ts: int, now: int)
    requires UniqueNames(s.collections)
    requires CreateCollection(s, req, ts, now).result.Ok?
    ensures
      var r := CreateCollection(s, req, ts, now);
      && DatabaseKey(req.tenant, req.databaseName) in r.state.databases
      && UniqueNames(r.state.collections)
      && IsActiveNamedSnapshot(r.state, r.result.value.0, DatabaseKey(req.tenant, req.databaseName), req.name)
  {
    var db := DatabaseKey(req.tenant, req.databaseName);
    var impl := CreateCollectionImpl(s, req, ts, now);
    assert db in s.databases;
    if !HasActiveNamed(s.collections, db, req.name) {
      var created := CreateNewCollection(s, req, db, ts, now);
      assert impl == created;
      assert created.result.value.0.id == req.id;
    }
  }

  /** Get-or-create is idempotent: asking again for a collection that the
      first call created or found returns the same collection, reports it
      as not created, and changes nothing. */
  lemma GetOrCreateIdempotent(s: State, req: CreateCollectionRequest, ts: int, now: int, ts2: int, now2: int)
    requires UniqueNames(s.collections)
    requires req.getOrCreate
    requires CreateCollection(s, req, ts, now).result.Ok?
    ensures
      var first := CreateCollection(s, req, ts, now);
      var second := CreateCollection(first.state, req, ts2, now2);
      && second.result == Ok((first.result.value.0, false))
      && second.state == first.state
  {
    var db := DatabaseKey(req.tenant, req.databaseName);
    var first := CreateCollection(s, req, ts, now);
    var m := first.result.value.0;
    ActiveNamedResult(s, req, ts, now);
    assert HasActiveNamed(first.state.collections, db, req.name) by {
      assert m.id in first.state.collections && Named(first.state.collections[m.id], db, req.name);
    }
    var second := CreateCollectionImpl(first.state, req, ts2, now2);
    var m2 := second.result.value.0;
    assert m2.id == m.id by {
      assert Named(first.state.collections[m2.id], db, req.name);
      assert Named(first.state.collections[m.id], db, req.name);
    }
  }

  /** Repeating a get-or-create of a collection with its segments creates
      nothing the second time: the same collection comes back as not
      created, and no segment is added. */
  lemma CreateCollectionAndSegmentsIdempotent(s: State, req: CreateCollectionRequest, segmentReqs: seq<CreateSegmentRequest>,
                                              ts: int, now: int, ts2: int, now2: int)
    requires UniqueNames(s.collections)
    requires req.getOrCreate
    requires CreateCollectionAndSegments(s, req, segmentReqs, ts, now).result.Ok?
    ensures
      var first := CreateCollectionAndSegments(s, req, segmentReqs, ts, now);
      var second := CreateCollectionAndSegments(first.state, req, segmentReqs, ts2, now2);
      && second.result == Ok((first.result.value.0, false))
      && second.state == first.state
  {
    var db := DatabaseKey(req.tenant, req.databaseName);
    var first := CreateCollectionAndSegments(s, req, segmentReqs, ts, now);
    var impl := CreateCollectionImpl(s, req, ts, now);
    var m := first.result.value.0;
    ActiveNamedResult(s, req, ts, now);
    assert IsActiveNamedSnapshot(first.state, m, db, req.name) by {
      assert first.state.collections == impl.state.collections;
      assert first.state.collectionMetadata == impl.state.collectionMetadata;
    }
    assert HasActiveNamed(first.state.collections, db, req.name) by {
      assert m.id in first.state.collections && Named(first.state.collections[m.id], db, req.name);
    }
    assert UniqueNames(first.state.collections);
    var second := CreateCollectionImpl(first.state, req, ts2, now2);
    var m2 := second.result.value.0;
    assert m2.id == m.id by {
      assert Named(first.state.collections[m2.id], db, req.name);
    }
  }

  /** A collection update that asks for a reset together with a new map is
      refused and leaves the catalog, its metadata included, unchanged. */
  lemma ResetWithMetadataRejected(s: State, req: UpdateCollectionRequest, ts: int)
    requires req.resetMetadata && req.metadata.Some?
    ensures UpdateCollection(s, req, ts).result.Failure?
    ensures UpdateCollection(s, req, ts).state == s
    ensures !RenameCollides(s, req) ==> UpdateCollection(s, req, ts).result == Failure(InvalidMetadataUpdate)
  {
  }

  /** Soft-deleting a collection frees its name: creating a collection of
      that name in the same database then succeeds, and the deleted row is
      renamed to the deleted-name form while keeping everything else. */
  lemma RecreateAfterSoftDelete(s: State, del: DeleteCollectionRequest, now: int, req: CreateCollectionRequest, ts: int, now2: int)
    requires Valid(s)
    requires SoftDeleteCollection(s, del, now).result.Ok?
    requires req.tenant == del.tenant && req.databaseName == del.databaseName
    requires req.name == s.collections[del.id].name
    requires req.id !in s.collections
    requires forall j :: j in s.collections ==>
      !Named(s.collections[j], DatabaseKey(req.tenant, req.databaseName), DeletedName(req.name, now2))
    ensures
      var deleted := SoftDeleteCollection(s, del, now).state;
      var r := CreateCollection(deleted, req, ts, now2);
      && r.result.Ok?
      && r.result.value.1
      && r.result.value.0.id == req.id
      && r.state.collections[del.id] == deleted.collections[del.id].(name := DeletedName(req.name, now2))
  {
    var db := DatabaseKey(req.tenant, req.databaseName);
    var deleted := SoftDeleteCollection(s, del, now).state;
    assert db in deleted.databases;
    assert !HasActiveNamed(deleted.collections, db, req.name) by {
      forall j | j in deleted.collections && j != del.id
        ensures !Named(deleted.collections[j], db, req.name)
      {
        assert deleted.collections[j] == s.collections[j];
      }
    }
    assert req.id !in deleted.collectionMetadata;
    forall j | j in deleted.collections
      ensures !Named(deleted.collections[j], db, DeletedName(req.name, now2))
    {
      assert deleted.collections[j].name == s.collections[j].name;
    }
    var created := CreateNewCollection(deleted, req, db, ts, now2);
    assert CreateCollectionImpl(deleted, req, ts, now2) == created;
    assert created.result.Ok?;
    assert Named(deleted.collections[del.id], db, req.name);
  }

  /** After a hard delete no segment is listed for the collection. */
  lemma HardDeleteLeavesNoSegments(s: State, req: DeleteCollectionRequest)
    requires HardDeleteCollection(s, req).result.Ok?
    ensures GetSegments(HardDeleteCollection(s, req).state, SegmentFilter(None, None, None, Some(req.id))) == {}
  {
  }

  /** The legacy segment delete leaves the segment listed. */
  lemma DeleteSegmentKeepsSegment(s: State, segmentId: UniqueId, collectionId: UniqueId)
    requires segmentId in s.segments
    ensures SegmentSnapshot(s, segmentId) in
      GetSegments(DeleteSegment(s, segmentId, collectionId).state, SegmentFilter(Some(segmentId), None, None, None))
  {
  }

  /** Collection and segment metadata updates differ on keys the new map
      does not name: a collection drops them, a segment keeps them. */
  lemma MetadataUpdateSemantics(s: State, creq: UpdateCollectionRequest, ts: int, sreq: UpdateSegmentRequest, k: string)
    requires !creq.resetMetadata && creq.metadata.Some? && k !in creq.metadata.value
    requires !sreq.resetMetadata && sreq.metadata.Some? && k !in sreq.metadata.value
    requires k in MetadataOf(s.segmentMetadata, sreq.id)
    ensures UpdateCollection(s, creq, ts).result.Ok? ==>
      k !in MetadataOf(UpdateCollection(s, creq, ts).state.collectionMetadata, creq.id)
    ensures UpdateSegment(s, sreq).result.Ok? ==>
      MetadataOf(UpdateSegment(s, sreq).state.segmentMetadata, sreq.id)[k] == MetadataOf(s.segmentMetadata, sreq.id)[k]
  {
  }

  // ---------------------------------------------------------- invariant

  lemma ValidAfterCreateDatabase(s: State, req: CreateDatabaseRequest, ts: int)
    requires Valid(s)
    ensures Valid(CreateDatabase(s, req, ts).state)
  {
  }

  lemma ValidAfterCreateTenant(s: State, name: string, ts: int, now: int)
    requires Valid(s)
    ensures Valid(CreateTenant(s, name, ts, now).state)
  {
  }

  /** The insert path of a collection creation keeps the invariant. */
  lemma ValidAfterCreateNewCollection(s: State, req: CreateCollectionRequest, db: DatabaseKey, ts: int, now: int)
    requires Valid(s)
    requires db in s.databases
    requires !HasActiveNamed(s.collections, db, req.name)
    requires CreateNewCollection(s, req, db, ts, now).result.Ok?
    ensures Valid(CreateNewCollection(s, req, db, ts, now).state)
  {
    var r := CreateNewCollection(s, req, db, ts, now);
    forall id | id in r.state.collections
      ensures r.state.collections[id].database in r.state.databases
    {
      if id != req.id {
        assert r.state.collections[id].database == s.collections[id].database;
      }
    }
  }

  lemma ValidAfterCreateCollection(s: State, req: CreateCollectionRequest, ts: int, now: int)
    requires Valid(s)
    ensures Valid(CreateCollection(s, req, ts, now).state)
  {
    var db := DatabaseKey(req.tenant, req.databaseName);
    if db in s.databases && !HasActiveNamed(s.collections, db, req.name)
       && CreateNewCollection(s, req, db, ts, now).result.Ok? {
      ValidAfterCreateNewCollection(s, req, db, ts, now);
    }
  }

  lemma ValidAfterCreateSegment(s: State, req: CreateSegmentRequest, ts: int)
    requires Valid(s)
    ensures Valid(CreateSegment(s, req, ts).state)
  {
  }

  lemma ValidAfterCreateCollectionAndSegments(s: State, req: CreateCollectionRequest, segmentReqs: seq<CreateSegmentRequest>, ts: int, now: int)
    requires Valid(s)
    ensures Valid(CreateCollectionAndSegments(s, req, segmentReqs, ts, now).state)
  {
    var r := CreateCollectionAndSegments(s, req, segmentReqs, ts, now);
    if r.result.Ok? && r.result.value.1 {
      ValidAfterCreateCollection(s, req, ts, now);
      var withCollection := CreateCollectionImpl(s, req, ts, now).state;
      var segments := CreateSegments(withCollection, segmentReqs, req.id, ts);
      assert segments.result.Ok? && r.state == segments.state;
    }
  }

  lemma ValidAfterHardDelete(s: State, req: DeleteCollectionRequest)
    requires Valid(s)
    ensures Valid(HardDeleteCollection(s, req).state)
  {
  }

  lemma ValidAfterSoftDelete(s: State, req: DeleteCollectionRequest, now: int)
    requires Valid(s)
    ensures Valid(SoftDeleteCollection(s, req, now).state)
  {
  }

  lemma ValidAfterUpdateCollection(s: State, req: UpdateCollectionRequest, ts: int)
    requires Valid(s)
    ensures Valid(UpdateCollection(s, req, ts).state)
  {
  }

  lemma ValidAfterUpdateSegment(s: State, req: UpdateSegmentRequest)
    requires Valid(s)
    ensures Valid(UpdateSegment(s, req).state)
  {
  }

  /** A compaction flush whose writes touch existing rows only preserves
      the invariant. */
  lemma ValidAfterFlush(s: State, req: FlushCollectionCompactionRequest, now: int, fx: FlushEffects)
    requires Valid(s)
    requires KeepsRows(fx)
    ensures Valid(FlushCollectionCompaction(s, req, now, fx).state)
  {
  }

  /** A segment request whose id is already taken aborts a creation that
      would otherwise have made a new collection. */
  lemma TakenSegmentIdAbortsCreation(s: State, req: CreateCollectionRequest, segmentReqs: seq<CreateSegmentRequest>, ts: int, now: int, i: int)
    requires UniqueNames(s.collections)
    requires 0 <= i < |segmentReqs| && segmentReqs[i].id in s.segments
    ensures
      var r := CreateCollectionAndSegments(s, req, segmentReqs, ts, now);
      r.result.Failure? || !r.result.value.1
  {
    var r := CreateCollectionAndSegments(s, req, segmentReqs, ts, now);
    if r.result.Ok? && r.result.value.1 {
      FreshIdsDistinct(s.segments.Keys, segmentReqs);
      assert false;
    }
  }

  /** When a new collection commits with its segments, every requested
      segment exists, is owned by the returned collection, and the
      requested ids were fresh and pairwise distinct. */
  lemma CreatedSegmentsOwned(s: State, req: CreateCollectionRequest, segmentReqs: seq<CreateSegmentRequest>, ts: int, now: int)
    requires UniqueNames(s.collections)
    requires CreateCollectionAndSegments(s, req, segmentReqs, ts, now).result.Ok?
    requires CreateCollectionAndSegments(s, req, segmentReqs, ts, now).result.value.1
    ensures
      var r := CreateCollectionAndSegments(s, req, segmentReqs, ts, now);
      forall i :: 0 <= i < |segmentReqs| ==>
        && segmentReqs[i].id !in s.segments
        && segmentReqs[i].id in r.state.segments
        && r.state.segments[segmentReqs[i].id].collection == Some(r.result.value.0.id)
    ensures forall i, j :: 0 <= i < j < |segmentReqs| ==> segmentReqs[i].id != segmentReqs[j].id
  {
    var r := CreateCollectionAndSegments(s, req, segmentReqs, ts, now);
    FreshIdsDistinct(s.segments.Keys, segmentReqs);
    assert r.result.value.0.id == req.id by {
      ActiveNamedResult(s, req, ts, now);
      assert CreateCollectionImpl(s, req, ts, now).result.value.0.id == req.id;
    }
    forall i | 0 <= i < |segmentReqs|
      ensures segmentReqs[i].id in r.state.segments
    {
      assert segmentReqs[i].id in RequestedIds(segmentReqs);
    }
  }

  /** When a new collection commits with its segments, request `i` got
      exactly the row it asked for, owned by the new collection, and, when
      no metadata was stored without its segment, exactly its metadata. */
  lemma CreatedSegmentsAsRequested(s: State, req: CreateCollectionRequest, segmentReqs: seq<CreateSegmentRequest>, ts: int, now: int, i: int)
    requires UniqueNames(s.collections)
    requires 0 <= i < |segmentReqs|
    requires CreateCollectionAndSegments(s, req, segmentReqs, ts, now).result.Ok?
    requires CreateCollectionAndSegments(s, req, segmentReqs, ts, now).result.value.1
    ensures
      var r := CreateCollectionAndSegments(s, req, segmentReqs, ts, now);
      && segmentReqs[i].id in r.state.segments
      && r.state.segments[segmentReqs[i].id]
         == Segment(Some(req.id), segmentReqs[i].segmentType, segmentReqs[i].scope, ts, map[])
    ensures s.segmentMetadata.Keys <= s.segments.Keys ==>
      var r := CreateCollectionAndSegments(s, req, segmentReqs, ts, now);
      MetadataOf(r.state.segmentMetadata, segmentReqs[i].id) == segmentReqs[i].metadata.GetOr(map[])
  {
    var r := CreateCollectionAndSegments(s, req, segmentReqs, ts, now);
    var id := segmentReqs[i].id;
    NewSegmentRowsAsRequested(s.segments.Keys, segmentReqs, req.id, ts);
    RequestedMetadataAsRequested(s.segments.Keys, segmentReqs);
    assert id in RequestedIds(segmentReqs);
    if s.segmentMetadata.Keys <= s.segments.Keys {
      FreshIdsDistinct(s.segments.Keys, segmentReqs);
      EmptyMapUnion(RequestedMetadata(segmentReqs, id));
    }
  }
}
