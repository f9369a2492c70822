/** Folding joined rows back into nested records, as QueryChannels and QueryUsers do. */
module RowFolds {
  import opened Models
  import opened Sorting
  import opened Wrappers

  // ---------------------------------------------------------------- rows by ID

  /** ORDER BY the ID leaves the rows of one ID together; their order among themselves is the
      engine's choice. */
  ghost predicate Contiguous(ids: seq<Snowflake>) {
    forall i, j, k :: 0 <= i < j < k < |ids| && ids[i] == ids[k] ==> ids[j] == ids[i]
  }

  /** The indices at which an ID comes for the first time. */
  function FirstIndices(ids: seq<Snowflake>): (r: seq<nat>)
    ensures forall k :: 0 <= k < |r| ==> r[k] < |ids|
  {
    if ids == [] then []
    else
      var n := |ids| - 1;
      if ids[n] in ids[..n] then FirstIndices(ids[..n]) else FirstIndices(ids[..n]) + [n]
  }

  lemma {:induction false} FirstIndicesExact(ids: seq<Snowflake>)
    ensures var r := FirstIndices(ids);
            && (forall k, l :: 0 <= k < l < |r| ==> r[k] < r[l])
            && (forall i: nat :: i in r <==> i < |ids| && ids[i] !in ids[..i])
  {
    if ids == [] {
    } else {
      var n := |ids| - 1;
      var r, front := FirstIndices(ids), FirstIndices(ids[..n]);
      FirstIndicesExact(ids[..n]);
      forall i: nat ensures i in r <==> i < |ids| && ids[i] !in ids[..i] {
        assert i in r <==> i in front || (i == n && ids[n] !in ids[..n]);
        if i < n {
          assert ids[..n][i] == ids[i] && ids[..n][..i] == ids[..i];
        }
      }
    }
  }

  lemma FirstIndicesDistinct(ids: seq<Snowflake>)
    ensures var r := FirstIndices(ids); forall k, l :: 0 <= k < l < |r| ==> ids[r[k]] != ids[r[l]]
  {
    FirstIndicesExact(ids);
    var r := FirstIndices(ids);
    forall k, l | 0 <= k < l < |r| ensures ids[r[k]] != ids[r[l]] {
      assert r[l] in r && ids[..r[l]][r[k]] == ids[r[k]];
    }
  }

  lemma {:induction false} FirstIndicesComplete(ids: seq<Snowflake>, id: Snowflake) returns (k: nat)
    requires id in ids
    ensures k < |FirstIndices(ids)| && ids[FirstIndices(ids)[k]] == id
  {
    var n := |ids| - 1;
    assert ids == ids[..n] + [ids[n]];
    if id in ids[..n] {
      k := FirstIndicesComplete(ids[..n], id);
    } else {
      k := |FirstIndices(ids[..n])|;
    }
  }

  lemma FirstIndicesAppend(ids: seq<Snowflake>, id: Snowflake)
    ensures FirstIndices(ids + [id]) == FirstIndices(ids) + if id in ids then [] else [|ids|]
  {
    assert (ids + [id])[..|ids|] == ids;
  }

  /** In contiguous rows the last ID to come for the first time is the last ID. */
  lemma {:induction false} LastBlock(ids: seq<Snowflake>)
    requires Contiguous(ids) && ids != []
    ensures var r := FirstIndices(ids); r != [] && ids[r[|r| - 1]] == ids[|ids| - 1]
  {
    var n := |ids| - 1;
    if ids[n] !in ids[..n] {
    } else {
      var i :| 0 <= i < n && ids[..n][i] == ids[n];
      assert ids[n - 1] == ids[n];
      LastBlock(ids[..n]);
    }
  }

  lemma LastHead(ids: seq<Snowflake>)
    requires Contiguous(ids) && ids != []
    ensures var r := FirstIndices(ids);
            forall k :: 0 <= k < |r| ==> (ids[r[k]] == ids[|ids| - 1] <==> k == |r| - 1)
  {
    LastBlock(ids);
    FirstIndicesDistinct(ids);
  }

  /** A row that does not continue the last block begins a new one. */
  lemma NewBlock(ids: seq<Snowflake>, id: Snowflake)
    requires Contiguous(ids + [id]) && ids != [] && ids[|ids| - 1] != id
    ensures id !in ids
  {
    var all := ids + [id];
    forall i | 0 <= i < |ids| ensures ids[i] != id {
      assert all[i] == ids[i] && all[|ids| - 1] == ids[|ids| - 1] && all[|ids|] == id;
    }
  }

  /** What the rows of one ID carry, in row order. */
  function Gather<T>(ids: seq<Snowflake>, items: seq<seq<T>>, id: Snowflake): seq<T>
    requires |ids| == |items|
  {
    if ids == [] then []
    else
      var n := |ids| - 1;
      Gather(ids[..n], items[..n], id) + if ids[n] == id then items[n] else []
  }

  lemma GatherAppend<T>(ids: seq<Snowflake>, items: seq<seq<T>>, id: Snowflake, item: seq<T>, x: Snowflake)
    requires |ids| == |items|
    ensures Gather(ids + [id], items + [item], x) == Gather(ids, items, x) + if id == x then item else []
  {
    assert (ids + [id])[..|ids|] == ids && (items + [item])[..|ids|] == items;
  }

  lemma {:induction false} GatherElements<T>(ids: seq<Snowflake>, items: seq<seq<T>>, id: Snowflake, x: T)
    requires |ids| == |items|
    ensures x in Gather(ids, items, id) <==> exists i :: 0 <= i < |ids| && ids[i] == id && x in items[i]
  {
    if ids == [] {
    } else {
      var n := |ids| - 1;
      GatherElements(ids[..n], items[..n], id, x);
      assert ids == ids[..n] + [ids[n]] && items == items[..n] + [items[n]];
      if i :| 0 <= i < n && ids[i] == id && x in items[i] {
        assert ids[..n][i] == id && x in items[..n][i];
      }
    }
  }

  lemma {:induction false} GatherNothing<T>(ids: seq<Snowflake>, items: seq<seq<T>>, id: Snowflake)
    requires |ids| == |items| && id !in ids
    ensures Gather(ids, items, id) == []
  {
    if ids == [] {
    } else {
      var n := |ids| - 1;
      assert ids == ids[..n] + [ids[n]];
      GatherNothing(ids[..n], items[..n], id);
    }
  }

  // ---------------------------------------------------------------- users and their roles

  /** A row of users LEFT JOIN user_roles. */
  datatype UserRow = UserRow(columns: User, role: Option<Snowflake>)

  function RoleOfRow(r: UserRow): seq<Snowflake> {
    if r.role.Some? then [r.role.value] else []
  }

  function UserIds(rows: seq<UserRow>): (ids: seq<Snowflake>)
    ensures |ids| == |rows| && forall i :: 0 <= i < |rows| ==> ids[i] == rows[i].columns.ID
  {
    seq(|rows|, i requires 0 <= i < |rows| => rows[i].columns.ID)
  }

  function RoleLists(rows: seq<UserRow>): (lists: seq<seq<Snowflake>>)
    ensures |lists| == |rows| && forall i :: 0 <= i < |rows| ==> lists[i] == RoleOfRow(rows[i])
  {
    seq(|rows|, i requires 0 <= i < |rows| => RoleOfRow(rows[i]))
  }

  function RolesOf(rows: seq<UserRow>, id: Snowflake): seq<Snowflake> {
    Gather(UserIds(rows), RoleLists(rows), id)
  }

  /** The user of a row, with given roles; the index decides presence. */
  function UserOfRow(r: UserRow, roles: seq<Snowflake>): User {
    r.columns.(Presence := PRESENCE_NONE, Roles := roles)
  }

  /** One user for every ID, in order of first appearance: its first row's columns, and all of
      its rows' roles in order. */
  ghost predicate IsUserFold(rows: seq<UserRow>, users: seq<User>) {
    var heads := FirstIndices(UserIds(rows));
    && |users| == |heads|
    && forall k :: 0 <= k < |heads| ==>
         users[k] == UserOfRow(rows[heads[k]], RolesOf(rows, rows[heads[k]].columns.ID))
  }

  lemma UserRowsAppend(rows: seq<UserRow>, r: UserRow, id: Snowflake)
    ensures UserIds(rows + [r]) == UserIds(rows) + [r.columns.ID]
    ensures RolesOf(rows + [r], id) == RolesOf(rows, id) + if r.columns.ID == id then RoleOfRow(r) else []
  {
    assert UserIds(rows + [r]) == UserIds(rows) + [r.columns.ID];
    assert RoleLists(rows + [r]) == RoleLists(rows) + [RoleOfRow(r)];
    GatherAppend(UserIds(rows), RoleLists(rows), r.columns.ID, RoleOfRow(r), id);
  }

  lemma FoldNewUser(rows: seq<UserRow>, users: seq<User>, r: UserRow)
    requires IsUserFold(rows, users) && r.columns.ID !in UserIds(rows)
    ensures IsUserFold(rows + [r], users + [UserOfRow(r, RoleOfRow(r))])
  {
    var ids, heads := UserIds(rows), FirstIndices(UserIds(rows));
    FirstIndicesAppend(ids, r.columns.ID);
    GatherNothing(ids, RoleLists(rows), r.columns.ID);
    UserRowsAppend(rows, r, r.columns.ID);
    forall k | 0 <= k < |heads|
      ensures RolesOf(rows + [r], rows[heads[k]].columns.ID) == RolesOf(rows, rows[heads[k]].columns.ID)
    {
      assert ids[heads[k]] in ids;
      UserRowsAppend(rows, r, rows[heads[k]].columns.ID);
    }
  }

  lemma FoldSameUser(rows: seq<UserRow>, users: seq<User>, u: User, r: UserRow)
    requires IsUserFold(rows, users + [u]) && Contiguous(UserIds(rows))
    requires rows != [] && rows[|rows| - 1].columns.ID == r.columns.ID
    ensures IsUserFold(rows + [r], users + [u.(Roles := u.Roles + RoleOfRow(r))])
  {
    var ids, heads, id := UserIds(rows), FirstIndices(UserIds(rows)), r.columns.ID;
    assert ids[|rows| - 1] == id;
    FirstIndicesAppend(ids, id);
    LastHead(ids);
    UserRowsAppend(rows, r, id);
    assert u == (users + [u])[|users|];
    forall k | 0 <= k < |users|
      ensures users[k] == UserOfRow(rows[heads[k]], RolesOf(rows + [r], rows[heads[k]].columns.ID))
    {
      assert users[k] == (users + [u])[k];
      UserRowsAppend(rows, r, rows[heads[k]].columns.ID);
    }
  }

  method QueryUsers(rows: seq<UserRow>) returns (users: seq<User>)
    requires Contiguous(UserIds(rows))
    ensures IsUserFold(rows, users)
  {
    users := [];
    var current: Option<User> := None;
    for k := 0 to |rows|
      invariant k == 0 <==> current == None
      invariant k == 0 ==> users == []
      invariant k > 0 ==> current.value.ID == rows[k - 1].columns.ID && IsUserFold(rows[..k], users + [current.value])
    {
      var r := rows[k];
      assert rows[..k + 1] == rows[..k] + [r];
      assert UserIds(rows[..k]) == UserIds(rows)[..k];
      assert UserIds(rows)[..k + 1] == UserIds(rows[..k]) + [r.columns.ID];
      var user := UserOfRow(r, RoleOfRow(r));
      if current.None? {
        FoldNewUser([], [], r);
        current := Some(user);
      } else if current.value.ID == r.columns.ID {
        FoldSameUser(rows[..k], users, current.value, r);
        current := Some(current.value.(Roles := current.value.Roles + user.Roles));
      } else {
        NewBlock(UserIds(rows[..k]), r.columns.ID);
        FoldNewUser(rows[..k], users + [current.value], r);
        users := users + [current.value];
        current := Some(user);
      }
    }
    assert rows[..|rows|] == rows;
    if current.Some? {
      users := users + [current.value];
    }
  }

  /** One user for every ID, in the order of their first rows, with the columns of that row but no
      presence. */
  lemma UserFoldRows(rows: seq<UserRow>, users: seq<User>) returns (first: seq<nat>)
    requires IsUserFold(rows, users)
    ensures |first| == |users| && forall k, l :: 0 <= k < l < |first| ==> first[k] < first[l]
    ensures forall i: nat :: i in first <==>
              i < |rows| && forall j: nat :: j < i ==> rows[j].columns.ID != rows[i].columns.ID
    ensures forall k :: 0 <= k < |users| ==>
              first[k] < |rows| && users[k] == rows[first[k]].columns.(Presence := 0, Roles := users[k].Roles)
  {
    first := FirstIndices(UserIds(rows));
    FirstRows(UserIds(rows));
  }

  lemma FirstRows(ids: seq<Snowflake>)
    ensures var r := FirstIndices(ids);
            && (forall k, l :: 0 <= k < l < |r| ==> r[k] < r[l])
            && (forall i: nat :: i in r <==> i < |ids| && forall j: nat :: j < i ==> ids[j] != ids[i])
  {
    FirstIndicesExact(ids);
    forall i: nat | i < |ids| ensures ids[i] !in ids[..i] <==> forall j: nat :: j < i ==> ids[j] != ids[i] {
      assert forall j: nat :: j < i ==> ids[..i][j] == ids[j];
    }
  }

  /** The roles of a user are those of its rows, in row order; `at` is the rows that have one. */
  lemma UserFoldRoles(rows: seq<UserRow>, users: seq<User>, k: nat) returns (at: seq<nat>)
    requires IsUserFold(rows, users) && k < |users|
    ensures |at| == |users[k].Roles| && forall l, m :: 0 <= l < m < |at| ==> at[l] < at[m]
    ensures forall i: nat :: i in at <==> i < |rows| && rows[i].columns.ID == users[k].ID && rows[i].role.Some?
    ensures forall m :: 0 <= m < |at| ==> at[m] < |rows| && rows[at[m]].role == Some(users[k].Roles[m])
  {
    at := RolesInOrder(rows, users[k].ID);
  }

  lemma {:induction false} RolesInOrder(rows: seq<UserRow>, id: Snowflake) returns (at: seq<nat>)
    ensures var roles := RolesOf(rows, id);
            && |at| == |roles|
            && (forall l, m :: 0 <= l < m < |at| ==> at[l] < at[m])
            && (forall i: nat :: i in at <==> i < |rows| && rows[i].columns.ID == id && rows[i].role.Some?)
            && forall m :: 0 <= m < |at| ==> at[m] < |rows| && rows[at[m]].role == Some(roles[m])
  {
    if rows == [] {
      at := [];
    } else {
      var n := |rows| - 1;
      at := RolesInOrder(rows[..n], id);
      UserRowsAppend(rows[..n], rows[n], id);
      assert rows == rows[..n] + [rows[n]];
      if rows[n].columns.ID == id && rows[n].role.Some? {
        LargerLast(at, n);
        at := at + [n];
      }
    }
  }

  lemma LargerLast(at: seq<nat>, n: nat)
    requires (forall i: nat :: i in at ==> i < n) && forall l, m :: 0 <= l < m < |at| ==> at[l] < at[m]
    ensures forall l, m :: 0 <= l < m < |at + [n]| ==> (at + [n])[l] < (at + [n])[m]
    ensures forall i: nat :: i in at + [n] <==> i in at || i == n
  {
    assert forall m :: 0 <= m < |at| ==> at[m] in at;
  }

  /** The rows of the LEFT JOIN with user_roles, where (user, role) is a key. */
  ghost predicate IsUserJoin(stored: map<Snowflake, User>, userRoles: set<(Snowflake, Snowflake)>, rows: seq<UserRow>) {
    && (forall i, j :: 0 <= i < j < |rows| && rows[i].columns.ID == rows[j].columns.ID ==> rows[i].role != rows[j].role)
    && (forall r :: r in rows ==> r.columns.ID in stored && r.columns == stored[r.columns.ID])
    && (forall r :: r in rows && r.role.Some? ==> (r.columns.ID, r.role.value) in userRoles)
    && (forall id, role :: id in stored && (id, role) in userRoles ==> UserRow(stored[id], Some(role)) in rows)
    && (forall id :: id in stored ==> id in UserIds(rows))
  }

  lemma RolesOfElements(rows: seq<UserRow>, id: Snowflake, role: Snowflake)
    ensures role in RolesOf(rows, id) <==> exists r :: r in rows && r.columns.ID == id && r.role == Some(role)
  {
    var ids, items := UserIds(rows), RoleLists(rows);
    GatherElements(ids, items, id, role);
    if i :| 0 <= i < |rows| && ids[i] == id && role in items[i] {
      assert rows[i] in rows && rows[i].role == Some(role);
    }
    if r :| r in rows && r.columns.ID == id && r.role == Some(role) {
      var i :| 0 <= i < |rows| && rows[i] == r;
      assert ids[i] == id && role in items[i];
    }
  }

  lemma {:induction false} RolesOfDistinct(rows: seq<UserRow>, id: Snowflake)
    requires forall i, j :: 0 <= i < j < |rows| && rows[i].columns.ID == rows[j].columns.ID ==>
              rows[i].role != rows[j].role
    ensures Distinct(RolesOf(rows, id))
  {
    if rows == [] {
    } else {
      var n := |rows| - 1;
      var front, last := RolesOf(rows[..n], id), rows[n];
      RolesOfDistinct(rows[..n], id);
      UserRowsAppend(rows[..n], last, id);
      assert rows == rows[..n] + [last];
      if last.columns.ID == id && last.role.Some? {
        RolesOfElements(rows[..n], id, last.role.value);
        assert last.role.value !in front;
      }
    }
  }

  /** As stored, with each of its roles once. */
  ghost predicate IsStoredUser(stored: map<Snowflake, User>, userRoles: set<(Snowflake, Snowflake)>, u: User) {
    && u.ID in stored && u == stored[u.ID].(Presence := PRESENCE_NONE, Roles := u.Roles)
    && Distinct(u.Roles) && forall role :: role in u.Roles <==> (u.ID, role) in userRoles
  }

  lemma FoldedUserIsStored(stored: map<Snowflake, User>, userRoles: set<(Snowflake, Snowflake)>, rows: seq<UserRow>,
                           r: UserRow)
    requires IsUserJoin(stored, userRoles, rows) && r in rows
    ensures IsStoredUser(stored, userRoles, UserOfRow(r, RolesOf(rows, r.columns.ID)))
  {
    var id := r.columns.ID;
    RolesOfDistinct(rows, id);
    forall role ensures role in RolesOf(rows, id) <==> (id, role) in userRoles {
      RolesOfElements(rows, id, role);
    }
  }

  /** Each user comes out once, as stored, with each of its roles once. */
  lemma UserFoldIsLossless(stored: map<Snowflake, User>, userRoles: set<(Snowflake, Snowflake)>, rows: seq<UserRow>,
                           users: seq<User>)
    requires IsUserJoin(stored, userRoles, rows) && IsUserFold(rows, users)
    ensures forall k, l :: 0 <= k < l < |users| ==> users[k].ID != users[l].ID
    ensures forall id :: id in stored <==> exists k :: 0 <= k < |users| && users[k].ID == id
    ensures forall u :: u in users ==> IsStoredUser(stored, userRoles, u)
  {
    var ids, heads := UserIds(rows), FirstIndices(UserIds(rows));
    FirstIndicesDistinct(ids);
    forall k | 0 <= k < |users| ensures IsStoredUser(stored, userRoles, users[k]) && users[k].ID == ids[heads[k]] {
      assert rows[heads[k]] in rows;
      FoldedUserIsStored(stored, userRoles, rows, rows[heads[k]]);
    }
    forall id | id in stored ensures exists k :: 0 <= k < |users| && users[k].ID == id {
      var k := FirstIndicesComplete(ids, id);
      assert users[k].ID == id;
    }
  }

  // ---------------------------------------------------------------- channels and their overwrites

  /** One side of a permission row: whom it is for, and what it allows and denies. */
  datatype Grant = Grant(ID: Snowflake, Allow: Permissions, Deny: Permissions)

  /** A row of channels LEFT JOIN channel_role_permissions LEFT JOIN channel_user_permissions. */
  datatype ChannelRow = ChannelRow(columns: Channel, role: Option<Grant>, user: Option<Grant>)

  function RoleOverwrite(g: Grant): Overwrite {
    Overwrite(g.ID, OverwriteTypeRole, g.Allow, g.Deny)
  }

  function UserOverwrite(g: Grant): Overwrite {
    Overwrite(g.ID, OverwriteTypeUser, g.Allow, g.Deny)
  }

  /** A row's overwrites, the role's first. */
  function Given(r: ChannelRow): seq<Overwrite> {
    (if r.role.Some? then [RoleOverwrite(r.role.value)] else []) +
        (if r.user.Some? then [UserOverwrite(r.user.value)] else [])
  }

  function ChannelIds(rows: seq<ChannelRow>): (ids: seq<Snowflake>)
    ensures |ids| == |rows| && forall i :: 0 <= i < |rows| ==> ids[i] == rows[i].columns.ID
  {
    seq(|rows|, i requires 0 <= i < |rows| => rows[i].columns.ID)
  }

  function GivenLists(rows: seq<ChannelRow>): (lists: seq<seq<Overwrite>>)
    ensures |lists| == |rows| && forall i :: 0 <= i < |rows| ==> lists[i] == Given(rows[i])
  {
    seq(|rows|, i requires 0 <= i < |rows| => Given(rows[i]))
  }

  /** All overwrites that the rows of a channel give it, repetitions included. */
  function GivenTo(rows: seq<ChannelRow>, id: Snowflake): seq<Overwrite> {
    Gather(ChannelIds(rows), GivenLists(rows), id)
  }

  function OverwriteIds(os: seq<Overwrite>): (ids: seq<Snowflake>)
    ensures |ids| == |os| && forall i :: 0 <= i < |os| ==> ids[i] == os[i].ID
  {
    seq(|os|, i requires 0 <= i < |os| => os[i].ID)
  }

  /** Of the overwrites for the same ID, the one that comes first. */
  function FirstPerId(os: seq<Overwrite>): seq<Overwrite> {
    var heads := FirstIndices(OverwriteIds(os));
    seq(|heads|, k requires 0 <= k < |heads| => os[heads[k]])
  }

  /** The overwrites a channel ends up with. */
  function OverwritesFor(rows: seq<ChannelRow>, id: Snowflake): seq<Overwrite> {
    FirstPerId(GivenTo(rows, id))
  }

  /** One channel for every ID, in order of first appearance: its first row's columns, and the
      overwrites given for its ID. */
  ghost predicate IsFoldWith(rows: seq<ChannelRow>, overwrites: Snowflake -> seq<Overwrite>, channels: seq<Channel>) {
    var heads := FirstIndices(ChannelIds(rows));
    && |channels| == |heads|
    && forall k :: 0 <= k < |heads| ==>
         channels[k] == rows[heads[k]].columns.(Overwrites := overwrites(rows[heads[k]].columns.ID))
  }

  ghost function AllOverwrites(rows: seq<ChannelRow>): Snowflake -> seq<Overwrite> {
    id => OverwritesFor(rows, id)
  }

  /** The overwrites of each channel are the first for each ID among all that its rows give it. */
  ghost predicate IsChannelFold(rows: seq<ChannelRow>, channels: seq<Channel>) {
    IsFoldWith(rows, AllOverwrites(rows), channels)
  }

  lemma FirstPerIdAppend(os: seq<Overwrite>, o: Overwrite)
    ensures OverwriteIds(os + [o]) == OverwriteIds(os) + [o.ID]
    ensures FirstPerId(os + [o]) == FirstPerId(os) + if o.ID in OverwriteIds(os) then [] else [o]
  {
    assert OverwriteIds(os + [o]) == OverwriteIds(os) + [o.ID];
    FirstIndicesAppend(OverwriteIds(os), o.ID);
  }

  lemma FirstPerIdDistinct(os: seq<Overwrite>)
    ensures Distinct(OverwriteIds(FirstPerId(os)))
    ensures forall o :: o in FirstPerId(os) ==> o in os
    ensures forall id :: id in OverwriteIds(FirstPerId(os)) <==> id in OverwriteIds(os)
  {
    var ids, kept := OverwriteIds(os), FirstPerId(os);
    FirstIndicesDistinct(ids);
    forall id | id in ids ensures id in OverwriteIds(kept) {
      var k := FirstIndicesComplete(ids, id);
      assert OverwriteIds(kept)[k] == id;
    }
    forall id | id in OverwriteIds(kept) ensures id in ids {
      var k :| 0 <= k < |kept| && OverwriteIds(kept)[k] == id;
      assert ids[FirstIndices(ids)[k]] == id;
    }
  }

  /** An overwrite is kept exactly when none before it has its ID. */
  lemma FirstPerIdIsFirst(os: seq<Overwrite>, o: Overwrite)
    ensures o in FirstPerId(os) <==> exists i :: 0 <= i < |os| && os[i] == o && o.ID !in OverwriteIds(os)[..i]
  {
    var ids, kept := OverwriteIds(os), FirstPerId(os);
    FirstIndicesExact(ids);
    if o in kept {
      var k :| 0 <= k < |kept| && kept[k] == o;
      assert FirstIndices(ids)[k] in FirstIndices(ids);
    }
    if i: nat :| i < |os| && os[i] == o && o.ID !in ids[..i] {
      var k :| 0 <= k < |FirstIndices(ids)| && FirstIndices(ids)[k] == i;
      assert kept[k] == o;
    }
  }

  /** What a row adds to the overwrites collected so far from `os`, whose IDs have been seen. */
  method RowOverwrites(r: ChannelRow, seen: set<Snowflake>, ghost os: seq<Overwrite>)
    returns (added: seq<Overwrite>, seen': set<Snowflake>)
    requires forall id :: id in seen <==> id in OverwriteIds(os)
    ensures FirstPerId(os + Given(r)) == FirstPerId(os) + added
    ensures forall id :: id in seen' <==> id in OverwriteIds(os + Given(r))
  {
    added, seen' := [], seen;
    ghost var all := os;
    if r.role.Some? {
      var overwrite := RoleOverwrite(r.role.value);
      FirstPerIdAppend(all, overwrite);
      all := all + [overwrite];
      if overwrite.ID !in seen' {
        added := added + [overwrite];
        seen' := seen' + {overwrite.ID};
      }
    }
    assert FirstPerId(all) == FirstPerId(os) + added;
    if r.user.Some? {
      var overwrite := UserOverwrite(r.user.value);
      FirstPerIdAppend(all, overwrite);
      all := all + [overwrite];
      if overwrite.ID !in seen' {
        added := added + [overwrite];
        seen' := seen' + {overwrite.ID};
      }
    }
    assert all == os + Given(r);
  }

  lemma ChannelRowsAppend(rows: seq<ChannelRow>, r: ChannelRow, id: Snowflake)
    ensures ChannelIds(rows + [r]) == ChannelIds(rows) + [r.columns.ID]
    ensures GivenTo(rows + [r], id) == GivenTo(rows, id) + if r.columns.ID == id then Given(r) else []
  {
    assert ChannelIds(rows + [r]) == ChannelIds(rows) + [r.columns.ID];
    assert GivenLists(rows + [r]) == GivenLists(rows) + [Given(r)];
    GatherAppend(ChannelIds(rows), GivenLists(rows), r.columns.ID, Given(r), id);
  }

  lemma OtherChannelRow(rows: seq<ChannelRow>, r: ChannelRow, id: Snowflake)
    requires r.columns.ID != id
    ensures GivenTo(rows + [r], id) == GivenTo(rows, id)
  {
    ChannelRowsAppend(rows, r, id);
    assert GivenTo(rows, id) + [] == GivenTo(rows, id);
  }

  lemma GivenToNobody(rows: seq<ChannelRow>, id: Snowflake)
    requires id !in ChannelIds(rows)
    ensures GivenTo(rows, id) == []
  {
    GatherNothing(ChannelIds(rows), GivenLists(rows), id);
  }

  /** A row's overwrites `added` to what has been collected before. */
  ghost predicate Adds(rows: seq<ChannelRow>, r: ChannelRow, added: seq<Overwrite>) {
    FirstPerId(GivenTo(rows, r.columns.ID) + Given(r)) == OverwritesFor(rows, r.columns.ID) + added
  }

  /** A first row for its ID, which gets the overwrites `added`. */
  lemma FoldNewChannel(rows: seq<ChannelRow>, before: Snowflake -> seq<Overwrite>, after: Snowflake -> seq<Overwrite>,
                       channels: seq<Channel>, r: ChannelRow, added: seq<Overwrite>)
    requires IsFoldWith(rows, before, channels) && r.columns.ID !in ChannelIds(rows)
    requires forall id :: after(id) == if id == r.columns.ID then added else before(id)
    ensures IsFoldWith(rows + [r], after, channels + [r.columns.(Overwrites := added)])
  {
    var ids, heads := ChannelIds(rows), FirstIndices(ChannelIds(rows));
    assert ChannelIds(rows + [r]) == ids + [r.columns.ID];
    FirstIndicesAppend(ids, r.columns.ID);
    assert forall k :: 0 <= k < |heads| ==> ids[heads[k]] in ids;
  }

  /** A further row for the last ID, which gains the overwrites `added`. */
  lemma FoldSameChannel(rows: seq<ChannelRow>, before: Snowflake -> seq<Overwrite>, after: Snowflake -> seq<Overwrite>,
                        channels: seq<Channel>, c: Channel, r: ChannelRow, added: seq<Overwrite>)
    requires IsFoldWith(rows, before, channels + [c]) && Contiguous(ChannelIds(rows))
    requires rows != [] && rows[|rows| - 1].columns.ID == r.columns.ID
    requires forall id :: after(id) == if id == r.columns.ID then before(id) + added else before(id)
    ensures IsFoldWith(rows + [r], after, channels + [c.(Overwrites := c.Overwrites + added)])
  {
    var ids, heads, n := ChannelIds(rows), FirstIndices(ChannelIds(rows)), |channels|;
    assert ChannelIds(rows + [r]) == ids + [r.columns.ID];
    assert ids[|ids| - 1] in ids;
    FirstIndicesAppend(ids, r.columns.ID);
    LastHead(ids);
    var was, now := channels + [c], channels + [c.(Overwrites := c.Overwrites + added)];
    assert was[n] == c;
    forall k | 0 <= k <= n ensures now[k] == rows[heads[k]].columns.(Overwrites := after(rows[heads[k]].columns.ID)) {
      assert ids[heads[k]] == r.columns.ID <==> k == n;
      assert k < n ==> now[k] == was[k];
    }
  }

  /** What one row does to the overwrites of every channel. */
  lemma OverwritesAppend(rows: seq<ChannelRow>, r: ChannelRow, added: seq<Overwrite>)
    requires Adds(rows, r, added)
    ensures forall id :: AllOverwrites(rows + [r])(id) ==
                         if id == r.columns.ID then AllOverwrites(rows)(id) + added else AllOverwrites(rows)(id)
  {
    ChannelRowsAppend(rows, r, r.columns.ID);
    forall id | id != r.columns.ID ensures OverwritesFor(rows + [r], id) == OverwritesFor(rows, id) {
      OtherChannelRow(rows, r, id);
    }
  }

  lemma NewChannelStep(rows: seq<ChannelRow>, channels: seq<Channel>, r: ChannelRow, added: seq<Overwrite>)
    requires IsChannelFold(rows, channels) && r.columns.ID !in ChannelIds(rows) && Adds(rows, r, added)
    ensures IsChannelFold(rows + [r], channels + [r.columns.(Overwrites := added)])
  {
    OverwritesAppend(rows, r, added);
    GivenToNobody(rows, r.columns.ID);
    assert AllOverwrites(rows)(r.columns.ID) + added == added;
    FoldNewChannel(rows, AllOverwrites(rows), AllOverwrites(rows + [r]), channels, r, added);
  }

  lemma SameChannelStep(rows: seq<ChannelRow>, channels: seq<Channel>, c: Channel, r: ChannelRow, added: seq<Overwrite>)
    requires IsChannelFold(rows, channels + [c]) && Contiguous(ChannelIds(rows))
    requires rows != [] && rows[|rows| - 1].columns.ID == r.columns.ID && Adds(rows, r, added)
    ensures IsChannelFold(rows + [r], channels + [c.(Overwrites := c.Overwrites + added)])
  {
    OverwritesAppend(rows, r, added);
    FoldSameChannel(rows, AllOverwrites(rows), AllOverwrites(rows + [r]), channels, c, r, added);
  }

  /** The IDs seen so far, by channel. */
  ghost predicate SeenIs(rows: seq<ChannelRow>, seen: map<Snowflake, set<Snowflake>>) {
    && (forall id :: id in seen <==> id in ChannelIds(rows))
    && (forall id, w :: id in seen ==> (w in seen[id] <==> w in OverwriteIds(GivenTo(rows, id))))
  }

  lemma SeenAppend(rows: seq<ChannelRow>, seen: map<Snowflake, set<Snowflake>>, r: ChannelRow, now: set<Snowflake>)
    requires SeenIs(rows, seen)
    requires forall w :: w in now <==> w in OverwriteIds(GivenTo(rows, r.columns.ID) + Given(r))
    ensures SeenIs(rows + [r], seen[r.columns.ID := now])
  {
    ChannelRowsAppend(rows, r, r.columns.ID);
    forall id | id != r.columns.ID ensures GivenTo(rows + [r], id) == GivenTo(rows, id) {
      OtherChannelRow(rows, r, id);
    }
    assert forall id :: id in ChannelIds(rows + [r]) <==> id in ChannelIds(rows) || id == r.columns.ID;
  }

  lemma FrontOfChannels(rows: seq<ChannelRow>, k: nat)
    requires Contiguous(ChannelIds(rows)) && k < |rows|
    ensures rows[..k + 1] == rows[..k] + [rows[k]]
    ensures Contiguous(ChannelIds(rows[..k]))
    ensures k > 0 && rows[k - 1].columns.ID != rows[k].columns.ID ==> rows[k].columns.ID !in ChannelIds(rows[..k])
  {
    var ids := ChannelIds(rows);
    assert ChannelIds(rows[..k]) == ids[..k];
    if k > 0 && ids[k - 1] != ids[k] {
      assert ids[..k] + [ids[k]] == ids[..k + 1];
      NewBlock(ids[..k], ids[k]);
    }
  }

  /** The fold has come through `rows`: finished channels, the one it is at, the IDs seen. */
  ghost predicate FoldedUpTo(rows: seq<ChannelRow>, channels: seq<Channel>, current: Option<Channel>,
                             seen: map<Snowflake, set<Snowflake>>)
  {
    && (rows == [] <==> current == None)
    && (rows != [] ==> current.value.ID == rows[|rows| - 1].columns.ID)
    && IsChannelFold(rows, channels + if current.Some? then [current.value] else [])
    && SeenIs(rows, seen)
  }

  lemma NewChannelRow(rows: seq<ChannelRow>, channels: seq<Channel>, current: Option<Channel>,
                      seen: map<Snowflake, set<Snowflake>>, r: ChannelRow, added: seq<Overwrite>, now: set<Snowflake>)
    requires FoldedUpTo(rows, channels, current, seen) && r.columns.ID !in ChannelIds(rows) && Adds(rows, r, added)
    requires forall w :: w in now <==> w in OverwriteIds(GivenTo(rows, r.columns.ID) + Given(r))
    ensures FoldedUpTo(rows + [r], channels + (if current.Some? then [current.value] else []),
                       Some(r.columns.(Overwrites := added)), seen[r.columns.ID := now])
  {
    NewChannelStep(rows, channels + if current.Some? then [current.value] else [], r, added);
    SeenAppend(rows, seen, r, now);
  }

  lemma SameChannelRow(rows: seq<ChannelRow>, channels: seq<Channel>, c: Channel,
                       seen: map<Snowflake, set<Snowflake>>, r: ChannelRow, added: seq<Overwrite>, now: set<Snowflake>)
    requires FoldedUpTo(rows, channels, Some(c), seen) && Contiguous(ChannelIds(rows))
    requires c.ID == r.columns.ID && Adds(rows, r, added)
    requires forall w :: w in now <==> w in OverwriteIds(GivenTo(rows, r.columns.ID) + Given(r))
    ensures FoldedUpTo(rows + [r], channels, Some(c.(Overwrites := c.Overwrites + added)), seen[r.columns.ID := now])
  {
    SameChannelStep(rows, channels, c, r, added);
    SeenAppend(rows, seen, r, now);
  }

  method QueryChannels(rows: seq<ChannelRow>) returns (channels: seq<Channel>)
    requires Contiguous(ChannelIds(rows))
    ensures IsChannelFold(rows, channels)
  {
    channels := [];
    var current: Option<Channel> := None;
    var seen: map<Snowflake, set<Snowflake>> := map[];
    for k := 0 to |rows|
      invariant FoldedUpTo(rows[..k], channels, current, seen)
    {
      var r := rows[k];
      ghost var front, id := rows[..k], r.columns.ID;
      FrontOfChannels(rows, k);
      if id !in seen {
        GivenToNobody(front, id);
      }
      var added, now := RowOverwrites(r, if r.columns.ID in seen then seen[r.columns.ID] else {}, GivenTo(front, id));
      if current.None? {
        NewChannelRow(front, channels, current, seen, r, added, now);
        assert channels + [] == channels;
        current := Some(r.columns.(Overwrites := added));
      } else if current.value.ID == r.columns.ID {
        SameChannelRow(front, channels, current.value, seen, r, added, now);
        current := Some(current.value.(Overwrites := current.value.Overwrites + added));
      } else {
        NewChannelRow(front, channels, current, seen, r, added, now);
        channels := channels + [current.value];
        current := Some(r.columns.(Overwrites := added));
      }
      seen := seen[r.columns.ID := now];
    }
    assert rows[..|rows|] == rows;
    if current.Some? {
      channels := channels + [current.value];
    } else {
      assert channels + [] == channels;
    }
  }

  /** One channel for every ID, in the order of their first rows, with the columns of that row. */
  lemma ChannelFoldRows(rows: seq<ChannelRow>, channels: seq<Channel>) returns (first: seq<nat>)
    requires IsChannelFold(rows, channels)
    ensures |first| == |channels| && forall k, l :: 0 <= k < l < |first| ==> first[k] < first[l]
    ensures forall i: nat :: i in first <==>
              i < |rows| && forall j: nat :: j < i ==> rows[j].columns.ID != rows[i].columns.ID
    ensures forall k :: 0 <= k < |channels| ==>
              first[k] < |rows| && channels[k] == rows[first[k]].columns.(Overwrites := channels[k].Overwrites)
  {
    first := FirstIndices(ChannelIds(rows));
    FirstRows(ChannelIds(rows));
  }

  /** The overwrites of a channel: going through its rows, the role's side of each before the
      user's, every overwrite for an ID that none before it was for. `at` is where they come
      from: a row, and whether it is its user's side. */
  lemma ChannelFoldOverwrites(rows: seq<ChannelRow>, channels: seq<Channel>, k: nat) returns (at: seq<(nat, bool)>)
    requires IsChannelFold(rows, channels) && k < |channels|
    ensures |at| == |channels[k].Overwrites|
    ensures forall l, m :: 0 <= l < m < |at| ==> at[l].0 < at[m].0 || (at[l].0 == at[m].0 && !at[l].1 && at[m].1)
    ensures forall m :: 0 <= m < |at| ==>
              && at[m].0 < |rows|
              && var r, o := rows[at[m].0], channels[k].Overwrites[m];
              && r.columns.ID == channels[k].ID
              && (if at[m].1 then r.user else r.role).Some?
              && var g := (if at[m].1 then r.user else r.role).value;
              o == Overwrite(g.ID, if at[m].1 then OverwriteTypeUser else OverwriteTypeRole, g.Allow, g.Deny)
    ensures forall i: nat :: i < |rows| && rows[i].columns.ID == channels[k].ID && rows[i].role.Some? ==>
              ((i, false) in at <==>
                forall j: nat :: j < i && rows[j].columns.ID == channels[k].ID ==>
                  && (rows[j].role.Some? ==> rows[j].role.value.ID != rows[i].role.value.ID)
                  && (rows[j].user.Some? ==> rows[j].user.value.ID != rows[i].role.value.ID))
    ensures forall i: nat :: i < |rows| && rows[i].columns.ID == channels[k].ID && rows[i].user.Some? ==>
              ((i, true) in at <==>
                && (rows[i].role.Some? ==> rows[i].role.value.ID != rows[i].user.value.ID)
                && forall j: nat :: j < i && rows[j].columns.ID == channels[k].ID ==>
                     && (rows[j].role.Some? ==> rows[j].role.value.ID != rows[i].user.value.ID)
                     && (rows[j].user.Some? ==> rows[j].user.value.ID != rows[i].user.value.ID))
  {
    var id := channels[k].ID;
    at := KeptSides(rows, id);
    forall i: nat | i < |rows| && rows[i].columns.ID == id && rows[i].role.Some?
      ensures (i, false) in at <==> NoneBefore(rows, i, id, rows[i].role.value.ID)
    {
      SeenBefore(rows, i, id, rows[i].role.value.ID);
    }
    forall i: nat | i < |rows| && rows[i].columns.ID == id && rows[i].user.Some?
      ensures (i, true) in at <==>
                && (rows[i].role.Some? ==> rows[i].role.value.ID != rows[i].user.value.ID)
                && NoneBefore(rows, i, id, rows[i].user.value.ID)
    {
      SeenBefore(rows, i, id, rows[i].user.value.ID);
    }
  }

  ghost predicate HasNoneFor(r: ChannelRow, who: Snowflake) {
    (r.role.Some? ==> r.role.value.ID != who) && (r.user.Some? ==> r.user.value.ID != who)
  }

  /** No row of the channel before row i has an overwrite for `who`. */
  ghost predicate NoneBefore(rows: seq<ChannelRow>, i: nat, id: Snowflake, who: Snowflake)
    requires i <= |rows|
  {
    forall j: nat :: j < i && rows[j].columns.ID == id ==> HasNoneFor(rows[j], who)
  }

  lemma SeenBefore(rows: seq<ChannelRow>, i: nat, id: Snowflake, who: Snowflake)
    requires i <= |rows|
    ensures who !in OverwriteIds(GivenTo(rows[..i], id)) <==> NoneBefore(rows, i, id, who)
  {
    SeenIn(rows[..i], id, who);
    assert forall j: nat :: j < i ==> rows[..i][j] == rows[j];
  }

  lemma {:induction false} SeenIn(rows: seq<ChannelRow>, id: Snowflake, who: Snowflake)
    ensures who !in OverwriteIds(GivenTo(rows, id)) <==>
              forall j: nat :: j < |rows| && rows[j].columns.ID == id ==> HasNoneFor(rows[j], who)
  {
    if rows == [] {
    } else {
      var front, r := rows[..|rows| - 1], rows[|rows| - 1];
      SeenIn(front, id, who);
      assert rows == front + [r];
      if r.columns.ID == id {
        ChannelRowsAppend(front, r, id);
        SeenAppended(GivenTo(front, id), r, who);
      } else {
        OtherChannelRow(front, r, id);
      }
    }
  }

  lemma SeenAppended(os: seq<Overwrite>, r: ChannelRow, who: Snowflake)
    ensures who !in OverwriteIds(os + Given(r)) <==> who !in OverwriteIds(os) && HasNoneFor(r, who)
  {
    assert OverwriteIds(os + Given(r)) == OverwriteIds(os) + OverwriteIds(Given(r));
    assert r.role.Some? ==> OverwriteIds(Given(r))[0] == r.role.value.ID;
    assert r.user.Some? ==> OverwriteIds(Given(r))[|Given(r)| - 1] == r.user.value.ID;
  }

  predicate RoleKept(os: seq<Overwrite>, r: ChannelRow) {
    r.role.Some? && r.role.value.ID !in OverwriteIds(os)
  }

  predicate UserKept(os: seq<Overwrite>, r: ChannelRow) {
    && r.user.Some? && r.user.value.ID !in OverwriteIds(os)
    && (r.role.Some? ==> r.role.value.ID != r.user.value.ID)
  }

  /** What one row adds to the overwrites kept. */
  function KeptOf(os: seq<Overwrite>, r: ChannelRow): seq<Overwrite> {
    (if RoleKept(os, r) then [RoleOverwrite(r.role.value)] else []) +
        (if UserKept(os, r) then [UserOverwrite(r.user.value)] else [])
  }

  lemma KeptOfRow(os: seq<Overwrite>, r: ChannelRow)
    ensures FirstPerId(os + Given(r)) == FirstPerId(os) + KeptOf(os, r)
  {
    var all := os;
    if r.role.Some? {
      FirstPerIdAppend(all, RoleOverwrite(r.role.value));
      all := all + [RoleOverwrite(r.role.value)];
    }
    assert FirstPerId(all) == FirstPerId(os) + if RoleKept(os, r) then [RoleOverwrite(r.role.value)] else [];
    if r.user.Some? {
      FirstPerIdAppend(all, UserOverwrite(r.user.value));
      all := all + [UserOverwrite(r.user.value)];
    }
    assert all == os + Given(r);
  }

  /** Overwrite `o` is the side of a row that a place stands for. */
  ghost predicate IsSide(rows: seq<ChannelRow>, id: Snowflake, at: (nat, bool), o: Overwrite) {
    && at.0 < |rows|
    && var r := rows[at.0];
    && r.columns.ID == id
    && if at.1 then r.user.Some? && o == UserOverwrite(r.user.value)
       else r.role.Some? && o == RoleOverwrite(r.role.value)
  }

  ghost predicate ComesEarlier(a: (nat, bool), b: (nat, bool)) {
    a.0 < b.0 || (a.0 == b.0 && !a.1 && b.1)
  }

  ghost predicate SidesKept(rows: seq<ChannelRow>, id: Snowflake, os: seq<Overwrite>, at: seq<(nat, bool)>) {
    && |at| == |os|
    && (forall l, m :: 0 <= l < m < |at| ==> ComesEarlier(at[l], at[m]))
    && (forall m :: 0 <= m < |at| ==> IsSide(rows, id, at[m], os[m]))
    && (forall i: nat :: i < |rows| && rows[i].columns.ID == id ==>
          && ((i, false) in at <==> RoleKept(GivenTo(rows[..i], id), rows[i]))
          && ((i, true) in at <==> UserKept(GivenTo(rows[..i], id), rows[i])))
  }

  lemma {:induction false} KeptSides(rows: seq<ChannelRow>, id: Snowflake) returns (at: seq<(nat, bool)>)
    ensures SidesKept(rows, id, OverwritesFor(rows, id), at)
  {
    if rows == [] {
      at := [];
    } else {
      var n := |rows| - 1;
      var front, r := rows[..n], rows[n];
      at := KeptSides(front, id);
      assert rows == front + [r];
      if r.columns.ID == id {
        ChannelRowsAppend(front, r, id);
        KeptOfRow(GivenTo(front, id), r);
        at := KeptSidesStep(front, r, id, OverwritesFor(front, id), at);
      } else {
        OtherChannelRow(front, r, id);
        OtherSidesStep(front, r, id, OverwritesFor(front, id), at);
      }
    }
  }

  lemma OtherSidesStep(rows: seq<ChannelRow>, r: ChannelRow, id: Snowflake, os: seq<Overwrite>, at: seq<(nat, bool)>)
    requires SidesKept(rows, id, os, at) && r.columns.ID != id
    ensures SidesKept(rows + [r], id, os, at)
  {
    var all := rows + [r];
    assert forall i: nat :: i < |rows| ==> all[i] == rows[i] && all[..i] == rows[..i];
  }

  lemma KeptSidesStep(rows: seq<ChannelRow>, r: ChannelRow, id: Snowflake, os: seq<Overwrite>, front: seq<(nat, bool)>)
    returns (at: seq<(nat, bool)>)
    requires SidesKept(rows, id, os, front) && r.columns.ID == id
    ensures SidesKept(rows + [r], id, os + KeptOf(GivenTo(rows, id), r), at)
  {
    var n, given := |rows|, GivenTo(rows, id);
    var more := (if RoleKept(given, r) then [(n, false)] else []) + (if UserKept(given, r) then [(n, true)] else []);
    at := front + more;
    assert forall m :: 0 <= m < |front| ==> IsSide(rows, id, front[m], os[m]);
    LaterSides(front, more, n);
    SidesAppend(rows, r, id, os, front, more, KeptOf(given, r));
    SidesExact(rows, r, id, front, more);
  }

  lemma LaterSides(front: seq<(nat, bool)>, more: seq<(nat, bool)>, n: nat)
    requires forall m :: 0 <= m < |front| ==> front[m].0 < n
    requires forall l, m :: 0 <= l < m < |front| ==> ComesEarlier(front[l], front[m])
    requires |more| <= 2 && (|more| == 2 ==> more == [(n, false), (n, true)]) && (|more| == 1 ==> more[0].0 == n)
    ensures forall l, m :: 0 <= l < m < |front + more| ==> ComesEarlier((front + more)[l], (front + more)[m])
  {
  }

  lemma SidesAppend(rows: seq<ChannelRow>, r: ChannelRow, id: Snowflake, os: seq<Overwrite>, front: seq<(nat, bool)>,
                    more: seq<(nat, bool)>, added: seq<Overwrite>)
    requires |front| == |os| && forall m :: 0 <= m < |front| ==> IsSide(rows, id, front[m], os[m])
    requires |more| == |added| && forall m :: 0 <= m < |more| ==> IsSide(rows + [r], id, more[m], added[m])
    ensures forall m :: 0 <= m < |front + more| ==> IsSide(rows + [r], id, (front + more)[m], (os + added)[m])
  {
  }

  /** The places behind row i do not depend on later rows. */
  lemma SidesExact(rows: seq<ChannelRow>, r: ChannelRow, id: Snowflake, front: seq<(nat, bool)>,
                   more: seq<(nat, bool)>)
    requires forall i: nat :: i < |rows| && rows[i].columns.ID == id ==>
               && ((i, false) in front <==> RoleKept(GivenTo(rows[..i], id), rows[i]))
               && ((i, true) in front <==> UserKept(GivenTo(rows[..i], id), rows[i]))
    requires forall m :: 0 <= m < |front| ==> front[m].0 < |rows|
    requires forall m :: 0 <= m < |more| ==> more[m].0 == |rows|
    requires (|rows|, false) in more <==> RoleKept(GivenTo(rows, id), r)
    requires (|rows|, true) in more <==> UserKept(GivenTo(rows, id), r)
    ensures forall i: nat :: i <= |rows| && (rows + [r])[i].columns.ID == id ==>
              && ((i, false) in front + more <==> RoleKept(GivenTo((rows + [r])[..i], id), (rows + [r])[i]))
              && ((i, true) in front + more <==> UserKept(GivenTo((rows + [r])[..i], id), (rows + [r])[i]))
  {
    var all := rows + [r];
    forall i: nat | i <= |rows| && all[i].columns.ID == id
      ensures (i, false) in front + more <==> RoleKept(GivenTo(all[..i], id), all[i])
      ensures (i, true) in front + more <==> UserKept(GivenTo(all[..i], id), all[i])
    {
      assert all[..i] == rows[..i];
      assert rows[..|rows|] == rows;
      assert forall side: bool :: (i, side) in front + more <==> (i, side) in if i < |rows| then front else more;
    }
  }

  // ---------------------------------------------------------------- the join and its fold

  type GrantTable = map<(Snowflake, Snowflake), (Permissions, Permissions)>

  /** The channel table, and the overwrite tables keyed by channel and role or user. */
  datatype Tables = Tables(channels: map<Snowflake, Channel>, roleGrants: GrantTable, userGrants: GrantTable)

  ghost predicate HasGrant(t: GrantTable, id: Snowflake, g: Grant) {
    (id, g.ID) in t && t[(id, g.ID)] == (g.Allow, g.Deny)
  }

  ghost predicate AnyGrant(t: GrantTable, id: Snowflake) {
    exists who :: (id, who) in t
  }

  /** One side of a LEFT JOIN: a matching row, or NULL when there is none. */
  ghost predicate JoinSide(t: GrantTable, id: Snowflake, side: Option<Grant>) {
    if AnyGrant(t, id) then side.Some? && HasGrant(t, id, side.value) else side == None
  }

  /** The rows of the double LEFT JOIN: every combination of a channel's two sides. */
  ghost predicate IsJoin(t: Tables, rows: seq<ChannelRow>) {
    && (forall id :: id in t.channels ==> t.channels[id].ID == id)
    && forall r :: r in rows <==>
         && r.columns.ID in t.channels && r.columns == t.channels[r.columns.ID]
         && JoinSide(t.roleGrants, r.columns.ID, r.role) && JoinSide(t.userGrants, r.columns.ID, r.user)
  }

  /** The overwrites the tables hold for a channel. */
  ghost predicate Tabled(t: Tables, id: Snowflake, o: Overwrite) {
    HasGrant(if o.Type.OverwriteTypeRole? then t.roleGrants else t.userGrants, id, Grant(o.ID, o.Allow, o.Deny))
  }

  lemma SideExists(t: GrantTable, id: Snowflake) returns (side: Option<Grant>)
    ensures JoinSide(t, id, side)
  {
    if AnyGrant(t, id) {
      var who :| (id, who) in t;
      side := Some(Grant(who, t[(id, who)].0, t[(id, who)].1));
    } else {
      side := None;
    }
  }

  lemma GivenToElements(rows: seq<ChannelRow>, id: Snowflake, o: Overwrite)
    ensures o in GivenTo(rows, id) <==> exists r :: r in rows && r.columns.ID == id && o in Given(r)
  {
    var ids, items := ChannelIds(rows), GivenLists(rows);
    GatherElements(ids, items, id, o);
    if i :| 0 <= i < |rows| && ids[i] == id && o in items[i] {
      assert rows[i] in rows && o in Given(rows[i]);
    }
    if r :| r in rows && r.columns.ID == id && o in Given(r) {
      var i := RowIndex(rows, r);
      assert ids[i] == id && o in items[i];
    }
  }

  /** The product of the two sides neither invents nor drops a table row. */
  lemma JoinSupplies(t: Tables, rows: seq<ChannelRow>, id: Snowflake, o: Overwrite)
    requires IsJoin(t, rows) && id in t.channels
    ensures o in GivenTo(rows, id) <==> Tabled(t, id, o)
    ensures id in ChannelIds(rows)
  {
    GivenToElements(rows, id, o);
    var role := SideExists(t.roleGrants, id);
    var user := SideExists(t.userGrants, id);
    var _ := RowIndex(rows, ChannelRow(t.channels[id], role, user));
    if Tabled(t, id, o) {
      var r := JoinSuppliesRow(t, rows, id, o, role, user);
    }
  }

  lemma JoinSuppliesRow(t: Tables, rows: seq<ChannelRow>, id: Snowflake, o: Overwrite, role: Option<Grant>,
                        user: Option<Grant>)
    returns (r: ChannelRow)
    requires IsJoin(t, rows) && id in t.channels && Tabled(t, id, o)
    requires JoinSide(t.roleGrants, id, role) && JoinSide(t.userGrants, id, user)
    ensures r in rows && r.columns.ID == id && o in Given(r)
  {
    var g := Grant(o.ID, o.Allow, o.Deny);
    var isRole := o.Type.OverwriteTypeRole?;
    r := ChannelRow(t.channels[id], if isRole then Some(g) else role, if isRole then user else Some(g));
    assert o == if isRole then RoleOverwrite(g) else UserOverwrite(g);
  }

  lemma RowIndex(rows: seq<ChannelRow>, r: ChannelRow) returns (i: nat)
    requires r in rows
    ensures i < |rows| && rows[i] == r && ChannelIds(rows)[i] == r.columns.ID && r.columns.ID in ChannelIds(rows)
  {
    i :| 0 <= i < |rows| && rows[i] == r;
    assert ChannelIds(rows)[i] in ChannelIds(rows);
  }

  /** No ID is both a role and a user with an overwrite in this channel. */
  ghost predicate NoSharedIds(t: Tables, id: Snowflake) {
    forall who :: !((id, who) in t.roleGrants && (id, who) in t.userGrants)
  }

  /** As stored, with table rows for overwrites, one for each ID, and all of them exactly when
      no ID is used on both sides. */
  ghost predicate IsStoredChannel(t: Tables, c: Channel) {
    && c.ID in t.channels && c == t.channels[c.ID].(Overwrites := c.Overwrites)
    && Distinct(OverwriteIds(c.Overwrites))
    && (forall o :: o in c.Overwrites ==> Tabled(t, c.ID, o))
    && ((forall o :: Tabled(t, c.ID, o) ==> o in c.Overwrites) <==> NoSharedIds(t, c.ID))
  }

  lemma FoldedChannelIsStored(t: Tables, rows: seq<ChannelRow>, r: ChannelRow)
    requires IsJoin(t, rows) && r in rows
    ensures IsStoredChannel(t, r.columns.(Overwrites := OverwritesFor(rows, r.columns.ID)))
  {
    var id := r.columns.ID;
    forall o ensures o in GivenTo(rows, id) <==> Tabled(t, id, o) {
      JoinSupplies(t, rows, id, o);
    }
    FirstPerIdDistinct(GivenTo(rows, id));
    KeptIsLossless(t, id, GivenTo(rows, id), OverwritesFor(rows, id));
  }

  /** Lossless: each channel comes out once, as stored, and its overwrites are exactly its
      table rows, each once, if and only if no ID is used on both sides. With a shared ID one
      of the two overwrites is lost. */
  lemma FoldIsLossless(t: Tables, rows: seq<ChannelRow>, channels: seq<Channel>)
    requires IsJoin(t, rows) && IsChannelFold(rows, channels)
    ensures forall k, l :: 0 <= k < l < |channels| ==> channels[k].ID != channels[l].ID
    ensures forall id :: id in t.channels <==> exists k :: 0 <= k < |channels| && channels[k].ID == id
    ensures forall c :: c in channels ==> IsStoredChannel(t, c)
  {
    var ids, heads := ChannelIds(rows), FirstIndices(ChannelIds(rows));
    FirstIndicesDistinct(ids);
    forall k | 0 <= k < |channels| ensures IsStoredChannel(t, channels[k]) && channels[k].ID == ids[heads[k]] {
      var r := rows[heads[k]];
      assert channels[k] == r.columns.(Overwrites := AllOverwrites(rows)(r.columns.ID));
      FoldedChannelIsStored(t, rows, r);
    }
    forall id | id in t.channels ensures exists k :: 0 <= k < |channels| && channels[k].ID == id {
      JoinSupplies(t, rows, id, Overwrite(0, OverwriteTypeRole, {}, {}));
      var k := FirstIndicesComplete(ids, id);
      assert channels[k].ID == id;
    }
  }

  lemma OneOverwriteById(os: seq<Overwrite>, x: Overwrite, y: Overwrite)
    requires Distinct(OverwriteIds(os)) && x in os && y in os && x.ID == y.ID
    ensures x == y
  {
    var i :| 0 <= i < |os| && os[i] == x;
    var j :| 0 <= j < |os| && os[j] == y;
    assert OverwriteIds(os)[i] == OverwriteIds(os)[j];
  }

  lemma KeptIsLossless(t: Tables, id: Snowflake, os: seq<Overwrite>, kept: seq<Overwrite>)
    requires forall o :: o in os <==> Tabled(t, id, o)
    requires kept == FirstPerId(os)
    ensures (forall o :: Tabled(t, id, o) ==> o in kept) <==> NoSharedIds(t, id)
  {
    FirstPerIdDistinct(os);
    if NoSharedIds(t, id) {
      forall o | Tabled(t, id, o) ensures o in kept {
        var i :| 0 <= i < |os| && os[i] == o;
        assert OverwriteIds(os)[i] in OverwriteIds(kept);
        var k :| 0 <= k < |kept| && OverwriteIds(kept)[k] == o.ID;
        assert kept[k] in kept && Tabled(t, id, kept[k]);
      }
    }
    if forall o :: Tabled(t, id, o) ==> o in kept {
      forall who | (id, who) in t.roleGrants ensures (id, who) !in t.userGrants {
        var a := t.roleGrants[(id, who)];
        var x := Overwrite(who, OverwriteTypeRole, a.0, a.1);
        assert Tabled(t, id, x);
        if (id, who) in t.userGrants {
          var b := t.userGrants[(id, who)];
          var y := Overwrite(who, OverwriteTypeUser, b.0, b.1);
          assert Tabled(t, id, y);
          OneOverwriteById(kept, x, y);
        }
      }
    }
  }
}
