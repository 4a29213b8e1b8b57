/**
 * The database settings check run before any connection is opened. The
 * connection itself is a parameter of `CreateConnection`.
 */
module DbConfig {
  import opened Results

  datatype DatabaseConfig = DatabaseConfig(
    host: string,
    port: int,
    user: string,
    password: string,
    dbName: string,
    sslMode: string,
    maxIdleConns: int,
    maxOpenConns: int,
    connMaxLifetime: int)

  /** The five settings a connection string cannot do without are present. */
  predicate HasRequiredSettings(cfg: DatabaseConfig)
  {
    cfg.host != "" && cfg.port != 0 && cfg.user != "" && cfg.password != "" && cfg.dbName != ""
  }

  /**
   * `validateConfig`: one error, "invalid database config", whichever of the
   * required settings is missing.
   */
  function ValidateConfig(cfg: DatabaseConfig): (r: Option<Error>)
    ensures r.None? <==> HasRequiredSettings(cfg)
    ensures r.Some? ==> r.value == InvalidDatabaseConfig && Message(r.value) == "invalid database config"
  {
    if cfg.host == "" || cfg.port == 0 || cfg.user == "" || cfg.password == "" || cfg.dbName == "" then
      Some(InvalidDatabaseConfig)
    else None
  }

  /** The TLS mode and the pool settings play no part in validation. */
  lemma ValidationIgnoresPool(cfg: DatabaseConfig, sslMode: string, idle: int, open: int, lifetime: int)
    ensures ValidateConfig(cfg.(sslMode := sslMode, maxIdleConns := idle, maxOpenConns := open,
                                connMaxLifetime := lifetime)) == ValidateConfig(cfg)
  {
  }

  /** Any non-zero port passes, negative ones included; only the zero value is refused. */
  lemma AnyNonZeroPortPasses(cfg: DatabaseConfig, port: int)
    requires HasRequiredSettings(cfg) && port != 0
    ensures ValidateConfig(cfg.(port := port)).None?
  {
  }

  /**
   * `createConnection`, up to the point where it hands over to the driver:
   * a config that fails validation never reaches `open`; a valid one gets
   * whatever `open` returns.
   */
  function CreateConnection<C>(cfg: DatabaseConfig, open: DatabaseConfig -> Result<C>): (r: Result<C>)
    ensures !HasRequiredSettings(cfg) ==> r == Err(InvalidDatabaseConfig)
    ensures HasRequiredSettings(cfg) ==> r == open(cfg)
  {
    match ValidateConfig(cfg)
    case Some(e) => Err(e)
    case None => open(cfg)
  }

  /** An invalid config is refused the same way whatever the driver would have done. */
  lemma InvalidConfigNeverOpens<C>(cfg: DatabaseConfig, open1: DatabaseConfig -> Result<C>, open2: DatabaseConfig -> Result<C>)
    requires !HasRequiredSettings(cfg)
    ensures CreateConnection(cfg, open1) == CreateConnection(cfg, open2)
  {
  }
}
