/** The records shared by the index, the database and the request handlers. */
module Models {
  type Snowflake = int

  /** Go's int on a 64-bit platform. */
  newtype Int64 = x: int | -0x8000_0000_0000_0000 <= x < 0x8000_0000_0000_0000

  const MAX_INT: Int64 := 0x7FFF_FFFF_FFFF_FFFF

  newtype Byte = x: int | 0 <= x < 256

  type Text = seq<Byte>

  /** A set of permission bits, by bit number. */
  type Permissions = set<nat>

  const ADMINISTRATOR: nat := 0
  const MANAGE_ROLES: nat := 16
  const PERMISSION_ALL: Permissions := set k: nat | k < 31

  const PRESENCE_NONE := 0
  const PRESENCE_OFFLINE := 1
  const PRESENCE_ONLINE := 2

  datatype User = User(ID: Snowflake, UserName: Text, DisplayName: Text, StatusMessage: Text, ProfileMessage: Text,
                       ProfileColor: int, AvatarModified: int, Presence: int, Roles: seq<Snowflake>,
                       PresenceSticky: int)
  {
    predicate IsOnline() { Presence != PRESENCE_OFFLINE }
  }

  datatype Role = Role(ID: Snowflake, Position: Int64, Permissions: Permissions, Hoisted: bool)

  datatype OverwriteType = OverwriteTypeRole | OverwriteTypeUser

  datatype Overwrite = Overwrite(ID: Snowflake, Type: OverwriteType, Allow: Permissions, Deny: Permissions)

  datatype Channel = Channel(ID: Snowflake, Type: int, Name: Text, Description: Text, Position: int,
                             ParentID: Snowflake, Overwrites: seq<Overwrite>)
}
