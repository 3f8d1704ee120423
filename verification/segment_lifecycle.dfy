/** Segment creation, reads, updates and the legacy delete of the catalog. */
module SegmentLifecycle {
  import opened CatalogTypes
  import opened MetaStore

  /** Inserts segment `req.id` owned by `req.collectionId`, then its
      metadata rows, and returns the stored segment. On failure the state
      reached so far is returned; the enclosing transaction discards it. */
  function CreateSegmentImpl(s: State, req: CreateSegmentRequest, ts: int): (r: Step<SegmentModel>)
    ensures r.result.Ok? <==>
      && req.id !in s.segments
      && (req.metadata.None? || req.metadata.value == map[]
          || MetadataOf(s.segmentMetadata, req.id).Keys !! req.metadata.value.Keys)
    ensures r.result.Failure? ==> r.result.error == UniqueKeyViolation
    ensures r.result.Ok? ==>
      r.state.segments == s.segments[req.id := Segment(Some(req.collectionId), req.segmentType, req.scope, ts, map[])]
    ensures r.result.Ok? ==>
      r.state.segmentMetadata == InsertMetadata(s.segmentMetadata, req.id, req.metadata.GetOr(map[])).value
    ensures r.result.Ok? ==> r.result.value == SegmentSnapshot(r.state, req.id)
    ensures r.state.tenants == s.tenants && r.state.databases == s.databases
    ensures r.state.collections == s.collections && r.state.collectionMetadata == s.collectionMetadata
  {
    var row := Segment(Some(req.collectionId), req.segmentType, req.scope, ts, map[]);
    var segments := InsertSegmentRow(s.segments, req.id, row);
    if segments.Failure? then Step(Failure(segments.error), s)
    else
      var withRow := s.(segments := segments.value);
      var metadata := InsertMetadata(withRow.segmentMetadata, req.id, req.metadata.GetOr(map[]));
      if metadata.Failure? then Step(Failure(metadata.error), withRow)
      else
        var withMetadata := withRow.(segmentMetadata := metadata.value);
        Step(Ok(SegmentSnapshot(withMetadata, req.id)), withMetadata)
  }

  /** Creates one segment in its own transaction. */
  function CreateSegment(s: State, req: CreateSegmentRequest, ts: int): (r: Step<SegmentModel>)
    ensures r.result.Failure? ==> r.state == s
    ensures r.result.Ok? ==>
      && req.id !in s.segments
      && r.state.segments == s.segments[req.id := Segment(Some(req.collectionId), req.segmentType, req.scope, ts, map[])]
      && r.result.value.collectionId == req.collectionId
  {
    Transaction(s, CreateSegmentImpl(s, req, ts))
  }

  /** Every segment passing filter `f`, as snapshots; a segment stored
      without a collection carries the nil identifier instead of an error. */
  function GetSegments(s: State, f: SegmentFilter): (r: set<SegmentModel>)
    ensures forall m :: m in r ==>
      && m.id in s.segments
      && SegmentMatches(m.id, s.segments[m.id], f)
      && m == SegmentSnapshot(s, m.id)
    ensures forall id :: id in s.segments && SegmentMatches(id, s.segments[id], f) ==> SegmentSnapshot(s, id) in r
    ensures forall m :: m in r && s.segments[m.id].collection.None? ==> m.collectionId == NilUniqueId
    ensures forall m :: m in r && s.segments[m.id].collection.Some? ==> m.collectionId == s.segments[m.id].collection.value
  {
    set id | id in s.segments && SegmentMatches(id, s.segments[id], f) :: SegmentSnapshot(s, id)
  }

  /** Kept so that older callers do not fail: segments go only with their
      collection's hard delete, so this never changes anything. */
  function DeleteSegment(s: State, segmentId: UniqueId, collectionId: UniqueId): (r: Step<()>)
    ensures r.result.Ok? && r.state == s
  {
    Step(Ok(()), s)
  }

  /** The non-nil entries of a segment metadata update. */
  function NonNilEntries(update: MetadataUpdate): (r: Metadata)
    ensures r.Keys <= update.Keys
    ensures forall k :: k in update ==> (k in r <==> update[k].Some?)
    ensures forall k :: k in r ==> update[k] == Some(r[k])
  {
    map k | k in update && update[k].Some? :: update[k].value
  }

  /** `after` is `before` with update `update` applied key by key: a nil
      value removes its key, any other value replaces or adds it, and keys
      the update does not name keep their rows. */
  ghost predicate KeyGranularUpdate(before: Metadata, update: MetadataUpdate, after: Metadata) {
    && (forall k :: k in update && update[k].None? ==> k !in after)
    && (forall k :: k in update && update[k].Some? ==> k in after && after[k] == update[k].value)
    && (forall k :: k !in update ==> (k in after <==> k in before))
    && (forall k :: k !in update && k in before ==> after[k] == before[k])
  }

  /** The replace branch of a segment metadata update: the rows of the keys
      the update names are deleted, then its non-nil entries are inserted. */
  function ApplySegmentMetadataUpdate(t: MetadataTable, id: UniqueId, update: MetadataUpdate): (r: MetadataTable)
    ensures KeyGranularUpdate(MetadataOf(t, id), update, MetadataOf(r, id))
    ensures forall other :: other != id ==> MetadataOf(r, other) == MetadataOf(t, other)
    ensures r.Keys <= t.Keys + {id}
    ensures NoEmptyMetadata(t) ==> NoEmptyMetadata(r)
  {
    var trimmed := DeleteMetadataKeys(t, id, update.Keys);
    // The deleted keys cover every key inserted, so the insert is never refused.
    InsertMetadata(trimmed, id, NonNilEntries(update)).value
  }

  /** The transactional part of an update of segment `req.id` whose caller
      named collection `collection`. */
  function UpdateSegmentBody(s: State, req: UpdateSegmentRequest, collection: UniqueId): (r: Step<SegmentModel>)
    ensures r.result.Ok? <==>
      && req.id in s.segments
      && s.segments[req.id].collection == Some(collection)
      && !(req.resetMetadata && req.metadata.Some?)
    ensures r.result.Failure? && !(req.id in s.segments && s.segments[req.id].collection == Some(collection)) ==>
      r.result.error == SegmentUpdateNonExistingSegment
    ensures r.result.Failure? && req.id in s.segments && s.segments[req.id].collection == Some(collection) ==>
      r.result.error == InvalidMetadataUpdate
    ensures r.result.Ok? ==>
      && r.state == s.(segmentMetadata := r.state.segmentMetadata)
      && (forall id :: id != req.id ==> MetadataOf(r.state.segmentMetadata, id) == MetadataOf(s.segmentMetadata, id))
      && r.result.value == SegmentSnapshot(r.state, req.id)
    ensures r.result.Ok? && req.resetMetadata ==> MetadataOf(r.state.segmentMetadata, req.id) == map[]
    ensures r.result.Ok? && !req.resetMetadata && req.metadata.None? ==> r.state == s
    ensures r.result.Ok? && !req.resetMetadata && req.metadata.Some? ==>
      KeyGranularUpdate(MetadataOf(s.segmentMetadata, req.id), req.metadata.value,
                        MetadataOf(r.state.segmentMetadata, req.id))
    ensures r.result.Ok? ==> r.state.segmentMetadata.Keys <= s.segmentMetadata.Keys + {req.id}
    ensures r.result.Ok? && NoEmptyMetadata(s.segmentMetadata) ==> NoEmptyMetadata(r.state.segmentMetadata)
  {
    var lookup := SegmentFilter(Some(req.id), None, None, Some(collection));
    if !(req.id in s.segments && SegmentMatches(req.id, s.segments[req.id], lookup)) then
      Step(Failure(SegmentUpdateNonExistingSegment), s)
    else
      // The collection reference written back is the one read from the row.
      var stored := s.segments[req.id].collection;
      var updated := s.(segments := s.segments[req.id := s.segments[req.id].(collection := stored)]);
      if req.resetMetadata then
        if req.metadata.Some? then Step(Failure(InvalidMetadataUpdate), updated)
        else
          var wiped := updated.(segmentMetadata := DeleteAllMetadata(updated.segmentMetadata, req.id));
          Step(Ok(SegmentSnapshot(wiped, req.id)), wiped)
      else if req.metadata.Some? then
        var replaced := updated.(segmentMetadata :=
          ApplySegmentMetadataUpdate(updated.segmentMetadata, req.id, req.metadata.value));
        Step(Ok(SegmentSnapshot(replaced, req.id)), replaced)
      else
        Step(Ok(SegmentSnapshot(updated, req.id)), updated)
  }

  /** Updates segment `req.id`. The caller must name the owning collection;
      the segment must exist under it; the reset flag and a metadata map are
      mutually exclusive; a metadata map is applied key by key. */
  function UpdateSegment(s: State, req: UpdateSegmentRequest): (r: Step<SegmentModel>)
    ensures req.collection.None? ==> r.result == Failure(MissingCollectionID)
    ensures req.collection.Some? && !(req.id in s.segments && s.segments[req.id].collection == req.collection) ==>
      r.result == Failure(SegmentUpdateNonExistingSegment)
    ensures req.collection.Some? && req.id in s.segments && s.segments[req.id].collection == req.collection ==>
      (req.resetMetadata && req.metadata.Some? ==> r.result == Failure(InvalidMetadataUpdate))
    ensures r.result.Ok? <==>
      && req.collection.Some?
      && req.id in s.segments
      && s.segments[req.id].collection == req.collection
      && !(req.resetMetadata && req.metadata.Some?)
    ensures r.result.Failure? ==> r.state == s
    ensures r.result.Ok? ==>
      && r.state.segments == s.segments
      && r.state.tenants == s.tenants && r.state.databases == s.databases
      && r.state.collections == s.collections && r.state.collectionMetadata == s.collectionMetadata
      && (forall id :: id != req.id ==> MetadataOf(r.state.segmentMetadata, id) == MetadataOf(s.segmentMetadata, id))
      && r.result.value == SegmentSnapshot(r.state, req.id)
    ensures r.result.Ok? && req.resetMetadata ==> MetadataOf(r.state.segmentMetadata, req.id) == map[]
    ensures r.result.Ok? && !req.resetMetadata && req.metadata.None? ==> r.state == s
    ensures r.result.Ok? && !req.resetMetadata && req.metadata.Some? ==>
      KeyGranularUpdate(MetadataOf(s.segmentMetadata, req.id), req.metadata.value,
                        MetadataOf(r.state.segmentMetadata, req.id))
    ensures r.result.Ok? ==> r.state.segmentMetadata.Keys <= s.segmentMetadata.Keys + {req.id}
    ensures r.result.Ok? && NoEmptyMetadata(s.segmentMetadata) ==> NoEmptyMetadata(r.state.segmentMetadata)
  {
    if req.collection.None? then Step(Failure(MissingCollectionID), s)
    else Transaction(s, UpdateSegmentBody(s, req, req.collection.value))
  }
}
