/** Bootstrap and the tenant and database operations of the catalog. */
module TenantDatabase {
  import opened CatalogTypes
  import opened MetaStore

  /** Name of the tenant and of the database that a reset re-creates (the
      constants of the common package). */
  const DefaultTenant := "default_tenant"
  const DefaultDatabase := "default_database"

  /** Wipes every table and re-inserts one default database and one default
      tenant whose last compaction time is `now`. No step of it can fail
      here, so it always commits. */
  function ResetState(s: State, now: int): (r: Step<()>)
    ensures r.result.Ok?
    ensures r.state.tenants.Keys == {DefaultTenant}
    ensures r.state.tenants[DefaultTenant].lastCompactionTime == now
    ensures r.state.databases.Keys == {DatabaseKey(DefaultTenant, DefaultDatabase)}
    ensures r.state.databases[DatabaseKey(DefaultTenant, DefaultDatabase)].id == NilUniqueId
    ensures r.state.collections == map[] && r.state.segments == map[]
    ensures r.state.collectionMetadata == map[] && r.state.segmentMetadata == map[]
    ensures Valid(r.state)
  {
    var wiped := s.(collectionMetadata := map[], collections := map[], segmentMetadata := map[],
                    segments := map[], databases := map[]);
    var withDatabase := wiped.(databases := map[DatabaseKey(DefaultTenant, DefaultDatabase) := Database(NilUniqueId, 0)]);
    var withTenant := withDatabase.(tenants := map[DefaultTenant := Tenant(0, now)]);
    Transaction(s, Step(Ok(()), withTenant))
  }

  /** Creates database `req.name` under `req.tenant`. The name and tenant
      checks run before the transaction; the insert is refused when the
      tenant already has a database of that name. */
  function CreateDatabase(s: State, req: CreateDatabaseRequest, ts: int): (r: Step<DatabaseModel>)
    ensures req.name == "" ==> r.result == Failure(DatabaseNameEmpty)
    ensures req.name != "" && req.tenant !in s.tenants ==> r.result == Failure(TenantNotFound)
    ensures req.name != "" && req.tenant in s.tenants && DatabaseKey(req.tenant, req.name) in s.databases ==>
      r.result == Failure(UniqueKeyViolation)
    ensures r.result.Ok? <==>
      req.name != "" && req.tenant in s.tenants && DatabaseKey(req.tenant, req.name) !in s.databases
    ensures r.result.Failure? ==> r.state == s
    ensures r.result.Ok? ==>
      && r.result.value == DatabaseModel(req.id, req.name, req.tenant)
      && r.state == s.(databases := s.databases[DatabaseKey(req.tenant, req.name) := Database(req.id, ts)])
  {
    if req.name == "" then Step(Failure(DatabaseNameEmpty), s)
    else if req.tenant !in s.tenants then Step(Failure(TenantNotFound), s)
    else
      var key := DatabaseKey(req.tenant, req.name);
      var body :=
        if key in s.databases then Step(Failure(UniqueKeyViolation), s)
        else
          var inserted := s.(databases := s.databases[key := Database(req.id, ts)]);
          Step(Ok(DatabaseSnapshot(inserted, key)), inserted);
      Transaction(s, body)
  }

  /** The snapshot of database `key`, as re-read after an insert. */
  function DatabaseSnapshot(s: State, key: DatabaseKey): DatabaseModel
    requires key in s.databases
  {
    DatabaseModel(s.databases[key].id, key.name, key.tenant)
  }

  /** Reads database `name` of `tenant`. */
  function GetDatabases(s: State, tenant: string, name: string): (r: Result<DatabaseModel>)
    ensures r.Ok? <==> DatabaseKey(tenant, name) in s.databases
    ensures r.Failure? ==> r.error == DatabaseNotFound
    ensures r.Ok? ==>
      && r.value.name == name
      && r.value.tenant == tenant
      && r.value.id == s.databases[DatabaseKey(tenant, name)].id
  {
    var key := DatabaseKey(tenant, name);
    if key in s.databases then Ok(DatabaseSnapshot(s, key)) else Failure(DatabaseNotFound)
  }

  /** Creates tenant `name` with last compaction time `now`; the insert is
      refused when the name is taken. */
  function CreateTenant(s: State, name: string, ts: int, now: int): (r: Step<TenantModel>)
    ensures r.result.Ok? <==> name !in s.tenants
    ensures r.result.Failure? ==> r.result.error == UniqueKeyViolation && r.state == s
    ensures r.result.Ok? ==>
      && r.result.value == TenantModel(name, now)
      && r.state == s.(tenants := s.tenants[name := Tenant(ts, now)])
  {
    var body :=
      if name in s.tenants then Step(Failure(UniqueKeyViolation), s)
      else
        var inserted := s.(tenants := s.tenants[name := Tenant(ts, now)]);
        Step(Ok(TenantModel(name, inserted.tenants[name].lastCompactionTime)), inserted);
    Transaction(s, body)
  }

  /** Reads tenant `name`. */
  function GetTenants(s: State, name: string): (r: Result<TenantModel>)
    ensures r.Ok? <==> name in s.tenants
    ensures r.Failure? ==> r.error == TenantNotFound
    ensures r.Ok? ==> r.value == TenantModel(name, s.tenants[name].lastCompactionTime)
  {
    if name in s.tenants then Ok(TenantModel(name, s.tenants[name].lastCompactionTime))
    else Failure(TenantNotFound)
  }
}
