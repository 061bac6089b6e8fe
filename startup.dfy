/** Choosing the data source at startup: `initDatabase` and the fallback in `main`. */
module Startup {
  import opened ProductModel
  import opened CatalogService

  /** The outcome of `otelsql.Open` followed by `PingContext` on the connection string. */
  datatype Connection = OpenFailed(cause: string) | PingFailed(cause: string) | Connected(db: Database)

  /** What `initDatabase` leaves behind: the `useDatabase` global and its two results. */
  datatype DbInit = DbInit(useDatabase: bool, db: Option<Database>, err: Option<string>)

  /** `initDatabase`, given `USE_DATABASE`, `DB_CONNECTION_STRING` (empty when unset) and what
      connecting would do. */
  function InitDatabase(useDatabaseEnv: string, connStr: string, connect: Connection): (r: DbInit)
    ensures r.db.Some? ==> r.err.None? && connect == Connected(r.db.value)
    ensures r.err.Some? ==> r.useDatabase && connStr != "" && !connect.Connected?
  {
    var useDatabase := useDatabaseEnv == "true" || useDatabaseEnv == "1";
    if !useDatabase then DbInit(false, None, None)
    else if connStr == "" then DbInit(false, None, None)
    else match connect
      case OpenFailed(c) => DbInit(true, None, Some("failed to open database: " + c))
      case PingFailed(c) => DbInit(true, None, Some("failed to ping database: " + c))
      case Connected(d) => DbInit(true, Some(d), None)
  }

  /** `main`: a database error switches `useDatabase` off and the file catalog is used. */
  function ResolveBackend(useDatabaseEnv: string, connStr: string, connect: Connection): (b: Backend)
    ensures b.useDatabase ==> b.db.Some?
  {
    var init := InitDatabase(useDatabaseEnv, connStr, connect);
    if init.err.Some? then Backend(false, init.db)
    else Backend(init.useDatabase, init.db)
  }

  /** Database mode holds exactly when `USE_DATABASE` is "true" or "1", a connection string is
      set, and connecting succeeded; then the handlers query that very database. */
  lemma DatabaseModeExactly(useDatabaseEnv: string, connStr: string, connect: Connection)
    ensures DatabaseMode(ResolveBackend(useDatabaseEnv, connStr, connect)) <==>
      (useDatabaseEnv == "true" || useDatabaseEnv == "1") && connStr != "" && connect.Connected?
    ensures DatabaseMode(ResolveBackend(useDatabaseEnv, connStr, connect)) ==>
      ResolveBackend(useDatabaseEnv, connStr, connect).db == Some(connect.db)
  {
  }
}
