/** The stored tables as the queries return them: a user with its role IDs and a channel with
    its overwrites, in whatever order the engine and the folds left them (see RowFolds). */
module Database {
  import opened Models
  import opened Ranks
  import opened Wrappers

  datatype Tables = Tables(defaults: Permissions, users: map<Snowflake, User>, roles: RoleTable,
                           channels: map<Snowflake, Channel>)

  ghost predicate ValidTables(t: Tables) {
    && (forall id :: id in t.users ==> t.users[id].ID == id && id != 0)
    && (forall id :: id in t.channels ==> t.channels[id].ID == id)
    && (forall id, o :: id in t.channels && o in t.channels[id].Overwrites ==> o.ID != 0)
    && ValidRoles(t.roles)
  }

  function GetUser(t: Tables, id: Snowflake): Option<User> {
    if id in t.users then Some(t.users[id]) else None
  }

  /** What GetUser hands back beside its error. */
  const NO_USER: User := User(0, [], [], [], [], 0, 0, PRESENCE_NONE, [], 0)
}
