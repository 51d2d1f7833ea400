/**
 * Connection settings of a database (DbConnectionInfo.cs) and the check
 * that they are well formed. A null string is `None`; an empty string is
 * a present value.
 */
module DbConnection {
  import opened Wrappers

  /** The highest TCP port number. */
  const MaxPort: int := 65535

  datatype DbConnectionInfo = DbConnectionInfo(
    server: Option<string>,
    port: int,
    username: Option<string>,
    password: Option<string>,
    databaseName: Option<string>,
    commandTimeout: int)
  {
    /**
     * `Valid`: every name is set, the port is a TCP port, and the command
     * timeout is positive; a valid port fits the 16-bit port field and is not
     * the reserved port 0.
     */
    predicate Valid(): (valid: bool)
      ensures valid ==> 0 < port < 0x1_0000 && commandTimeout >= 1
      ensures valid ==> server.Some? && username.Some? && password.Some? && databaseName.Some?
    {
      server.Some? && port > 0 && port <= MaxPort && username.Some? && password.Some? &&
      databaseName.Some? && commandTimeout > 0
    }
  }

  /** A port outside 1..65535 makes the settings invalid. */
  lemma PortOutOfRangeInvalid(info: DbConnectionInfo)
    requires info.port <= 0 || info.port > MaxPort
    ensures !info.Valid()
  {
  }

  /** A missing server, user name, password or database name makes the settings invalid. */
  lemma MissingNameInvalid(info: DbConnectionInfo)
    requires info.server.None? || info.username.None? || info.password.None? || info.databaseName.None?
    ensures !info.Valid()
  {
  }

  /** A command timeout that is not positive makes the settings invalid. */
  lemma TimeoutInvalid(info: DbConnectionInfo)
    requires info.commandTimeout <= 0
    ensures !info.Valid()
  {
  }

  /** When all the conditions hold the settings are valid, even with empty names. */
  lemma AllConditionsValid(server: string, port: int, username: string, password: string,
                           databaseName: string, commandTimeout: int)
    requires 0 < port <= MaxPort && commandTimeout > 0
    ensures DbConnectionInfo(Some(server), port, Some(username), Some(password), Some(databaseName), commandTimeout).Valid()
  {
  }

  /** The boundaries of the port range: 1 and 65535 pass, 0 and 65536 do not. */
  lemma PortBoundaries()
    ensures DbConnectionInfo(Some(""), 1, Some(""), Some(""), Some(""), 1).Valid()
    ensures DbConnectionInfo(Some(""), MaxPort, Some(""), Some(""), Some(""), 1).Valid()
    ensures !DbConnectionInfo(Some(""), 0, Some(""), Some(""), Some(""), 1).Valid()
    ensures !DbConnectionInfo(Some(""), MaxPort + 1, Some(""), Some(""), Some(""), 1).Valid()
  {
  }
}
