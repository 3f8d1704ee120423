/** Flushing the result of a compaction: the new file paths of the
    compacted segments, the collection's log position and version, and the
    tenant's last compaction time, written together or not at all. */
module Compaction {
  import opened CatalogTypes
  import opened MetaStore

  /** The three repository writes a flush performs. Their own logic lives in
      repositories outside this model, so each is an opaque function of the
      table it writes; each may fail. */
  datatype FlushEffects = FlushEffects(
    registerFilePaths: (map<UniqueId, Segment>, seq<FlushSegmentCompaction>) -> Result<map<UniqueId, Segment>>,
    updateLogPositionAndVersion: (map<UniqueId, Collection>, UniqueId, int, int) -> Result<(map<UniqueId, Collection>, int)>,
    updateTenantLastCompactionTime: (map<string, Tenant>, string, int) -> Result<map<string, Tenant>>)

  /** The writes of `fx` touch existing rows only: file paths go to
      existing segments, the log position and version to an existing
      collection without renaming or moving it, and the compaction time to
      an existing tenant. */
  ghost predicate KeepsRows(fx: FlushEffects) {
    && (forall segs, compactions :: fx.registerFilePaths(segs, compactions).Ok? ==>
          fx.registerFilePaths(segs, compactions).value.Keys == segs.Keys)
    && (forall cols, id, logPosition, version :: fx.updateLogPositionAndVersion(cols, id, logPosition, version).Ok? ==>
          && fx.updateLogPositionAndVersion(cols, id, logPosition, version).value.0.Keys == cols.Keys
          && forall j :: j in cols ==>
               Named(fx.updateLogPositionAndVersion(cols, id, logPosition, version).value.0[j], cols[j].database, cols[j].name))
    && (forall tenants, tenant, time :: fx.updateTenantLastCompactionTime(tenants, tenant, time).Ok? ==>
          fx.updateTenantLastCompactionTime(tenants, tenant, time).value.Keys == tenants.Keys)
  }

  /** The three writes in order, stopping at the first failure; returns the
      state reached so far, which the enclosing transaction discards on
      failure. */
  function FlushBody(s: State, req: FlushCollectionCompactionRequest, now: int, fx: FlushEffects): (r: Step<FlushCollectionInfo>)
    ensures r.result.Ok? <==>
      && fx.registerFilePaths(s.segments, req.segmentCompactions).Ok?
      && fx.updateLogPositionAndVersion(s.collections, req.collectionId, req.logPosition, req.currentCollectionVersion).Ok?
      && fx.updateTenantLastCompactionTime(s.tenants, req.tenant, now).Ok?
    ensures r.result.Ok? ==> r.result.value == FlushCollectionInfo(req.collectionId,
      fx.updateLogPositionAndVersion(s.collections, req.collectionId, req.logPosition, req.currentCollectionVersion).value.1, now)
    ensures r.state.databases == s.databases
    ensures r.state.collectionMetadata == s.collectionMetadata && r.state.segmentMetadata == s.segmentMetadata
  {
    var registered := fx.registerFilePaths(s.segments, req.segmentCompactions);
    if registered.Failure? then Step(Failure(registered.error), s)
    else
      var withPaths := s.(segments := registered.value);
      var versioned := fx.updateLogPositionAndVersion(withPaths.collections, req.collectionId, req.logPosition,
                                                      req.currentCollectionVersion);
      if versioned.Failure? then Step(Failure(versioned.error), withPaths)
      else
        var withVersion := withPaths.(collections := versioned.value.0);
        var stamped := fx.updateTenantLastCompactionTime(withVersion.tenants, req.tenant, now);
        if stamped.Failure? then Step(Failure(stamped.error), withVersion)
        else
          Step(Ok(FlushCollectionInfo(req.collectionId, versioned.value.1, now)),
               withVersion.(tenants := stamped.value))
  }

  /** Flushes a compaction in one transaction: either all three writes take
      effect, or none does and the first failing write's error is returned.
      The returned info carries the version the collection write reports
      and the compaction time `now` written to the tenant. */
  function FlushCollectionCompaction(s: State, req: FlushCollectionCompactionRequest, now: int, fx: FlushEffects): (r: Step<FlushCollectionInfo>)
    ensures r.result.Ok? <==>
      && fx.registerFilePaths(s.segments, req.segmentCompactions).Ok?
      && fx.updateLogPositionAndVersion(s.collections, req.collectionId, req.logPosition, req.currentCollectionVersion).Ok?
      && fx.updateTenantLastCompactionTime(s.tenants, req.tenant, now).Ok?
    ensures r.result.Failure? ==> r.state == s
    ensures fx.registerFilePaths(s.segments, req.segmentCompactions).Failure? ==>
      r.result == Failure(fx.registerFilePaths(s.segments, req.segmentCompactions).error)
    ensures
      && fx.registerFilePaths(s.segments, req.segmentCompactions).Ok?
      && fx.updateLogPositionAndVersion(s.collections, req.collectionId, req.logPosition, req.currentCollectionVersion).Failure?
      ==>
      r.result == Failure(fx.updateLogPositionAndVersion(s.collections, req.collectionId, req.logPosition,
                                                         req.currentCollectionVersion).error)
    ensures
      && fx.registerFilePaths(s.segments, req.segmentCompactions).Ok?
      && fx.updateLogPositionAndVersion(s.collections, req.collectionId, req.logPosition, req.currentCollectionVersion).Ok?
      && fx.updateTenantLastCompactionTime(s.tenants, req.tenant, now).Failure?
      ==>
      r.result == Failure(fx.updateTenantLastCompactionTime(s.tenants, req.tenant, now).error)
    ensures r.result.Ok? ==>
      && r.state.segments == fx.registerFilePaths(s.segments, req.segmentCompactions).value
      && r.state.collections == fx.updateLogPositionAndVersion(s.collections, req.collectionId, req.logPosition,
                                                               req.currentCollectionVersion).value.0
      && r.state.tenants == fx.updateTenantLastCompactionTime(s.tenants, req.tenant, now).value
      && r.result.value.collectionId == req.collectionId
      && r.result.value.collectionVersion == fx.updateLogPositionAndVersion(s.collections, req.collectionId, req.logPosition,
                                                                            req.currentCollectionVersion).value.1
      && r.result.value.tenantLastCompactionTime == now
    ensures r.state.databases == s.databases
    ensures r.state.collectionMetadata == s.collectionMetadata && r.state.segmentMetadata == s.segmentMetadata
  {
    Transaction(s, FlushBody(s, req, now, fx))
  }
}
