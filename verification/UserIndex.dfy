/** The index object: every method is proved to take the step that IndexRuns reasons about. */
module UserIndex {
  import opened Models
  import opened Ranks
  import opened Sorting
  import opened UserLists
  import opened Incremental
  import opened ListBuilding
  import opened ViewChanges

  type Channels = map<Snowflake, Channel>

  datatype IndexState = IndexState(defaults: Permissions, users: Users, infos: UserInfos, roles: RoleTable,
                                   channels: Channels, list: UserList, stale: bool, changes: seq<IndexRange>)

  datatype Op =
    | UserAdded(user: User)
    | UserUpdated(user: User)
    | UserDeleted(id: Snowflake)
    | RoleSet(role: Role)       // AddRole and UpdateRole
    | RoleDeleted(id: Snowflake)
    | ChannelSet(channel: Channel)  // AddChannel and UpdateChannel
    | ChannelDeleted(id: Snowflake)
    | ListUpdated
    | ChangesPopped

  datatype UserListResponse = UserListResponse(Start: int, End: int, Slice: seq<Snowflake>, Groups: seq<UserListGroup>)

  function ClampInt(value: int, min: int, max: int): int {
    if value < min then min else if value > max then max else value
  }

  function SliceBounds(total: nat, start: int, end: int, limit: int): (bounds: (int, int))
    ensures 0 <= bounds.0 <= bounds.1 <= total
  {
    var from := ClampInt(start, 0, total);
    var to := ClampInt(end, from, total);
    (from, if limit > 0 && to - from > limit then from + limit else to)
  }

  /** The index decides presence itself, and everyone starts offline. */
  function ProcessUser(u: User): User {
    u.(Presence := PRESENCE_OFFLINE)
  }

  ghost predicate Repositioned(users: Users, infos: UserInfos, id: Snowflake, before: UserList, after: UserList) {
    if id in users && id in infos && Listed(before, id) then
      exists g0, j: nat, k: nat :: Moved(users, id, before, g0, j, UserGroup(users[id], infos[id]), k, after)
    else after == before
  }

  ghost function RepositionChanges(users: Users, id: Snowflake, before: UserList, after: UserList): seq<IndexRange> {
    if id in users && Listed(before, id) then MoveChanges(before.View, after.View, id) else []
  }

  /** What a reposition does to the groups: the user leaves its place and enters the group of its
      hoist, or else online or offline, behind nobody it should precede by name and ID and before
      somebody it does. Who is unknown or not listed stays as it is. */
  lemma RepositionedGroups(users: Users, infos: UserInfos, id: Snowflake, before: UserList, after: UserList)
    returns (g0: Snowflake, j: nat, g1: Snowflake, k: nat)
    requires Repositioned(users, infos, id, before, after)
    requires id in users && id in infos && exists g :: g in before.Groups && id in before.Groups[g]
    ensures g1 == if infos[id].Hoist != 0 then infos[id].Hoist else if users[id].Presence != 1 then 2 else 1
    ensures g0 in before.Groups && j < |before.Groups[g0]| && before.Groups[g0][j] == id
    ensures after.GroupOrder == before.GroupOrder && after.View == Flatten(after.GroupOrder, after.Groups)
    ensures var rest := before.Groups[g0 := before.Groups[g0][..j] + before.Groups[g0][j + 1..]];
            var target := if g1 in rest then rest[g1] else [];
            && k <= |target|
            && after.Groups == rest[g1 := target[..k] + [id] + target[k..]]
            && forall l :: 0 <= l < |target| && k - 1 <= l <= k ==>
                 var x := users[id].DisplayName;
                 var y := if target[l] in users then users[target[l]].DisplayName else [];
                 l == k <==>
                   || (x == y && id < target[l])
                   || exists n: nat :: n <= |x| && n < |y| && x[..n] == y[..n] && (n == |x| || x[n] < y[n])
  {
    g1 := UserGroup(users[id], infos[id]);
    g0, j, k :| Moved(users, id, before, g0, j, g1, k, after);
    MovedGroups(users, id, before, g0, j, g1, k, after);
  }

  lemma RepositionedOtherwise(users: Users, infos: UserInfos, id: Snowflake, before: UserList, after: UserList)
    requires Repositioned(users, infos, id, before, after)
    requires id !in users || id !in infos || forall g :: g in before.Groups ==> id !in before.Groups[g]
    ensures after == before
  {
  }

  /** What a reposition records, p and q being the user's first index in the old view and in the
      new one, or -1: the stretch between the two, or nothing when the user is in no new place. */
  lemma RepositionRecords(users: Users, id: Snowflake, before: UserList, after: UserList, p: int, q: int)
    requires id in users && exists g :: g in before.Groups && id in before.Groups[g]
    requires if p == -1 then id !in before.View
             else 0 <= p < |before.View| && before.View[p] == id && id !in before.View[..p]
    requires if q == -1 then id !in after.View
             else 0 <= q < |after.View| && after.View[q] == id && id !in after.View[..q]
    ensures RepositionChanges(users, id, before, after) ==
              if q == -1 then [] else if p <= q then [IndexRange(p, q + 1)] else [IndexRange(q, p + 1)]
  {
    FirstIndexUnique(before.View, id, p, FirstIndex(before.View, id));
    FirstIndexUnique(after.View, id, q, FirstIndex(after.View, id));
  }

  /** One operation. UpdateUserList is nondeterministic in how it breaks position ties, and
      UpdateUser in where a binary search over an unsorted group ends. */
  ghost predicate Next(s: IndexState, op: Op, s': IndexState) {
    match op
    case UserAdded(u) =>
      s' == s.(users := s.users[u.ID := ProcessUser(u)],
               infos := s.infos[u.ID := InfoOf(s.roles, s.defaults, u)], stale := true)
    case UserUpdated(u) =>
      && s'.users == s.users[u.ID := ProcessUser(u)]
      && s'.infos == s.infos[u.ID := InfoOf(s.roles, s.defaults, u)]
      && Repositioned(s'.users, s'.infos, u.ID, s.list, s'.list)
      && s'.changes == s.changes + RepositionChanges(s'.users, u.ID, s.list, s'.list)
      && s' == s.(users := s'.users, infos := s'.infos, list := s'.list, changes := s'.changes)
    case UserDeleted(id) =>
      s' == s.(users := s.users - {id}, infos := s.infos - {id}, stale := true)
    case RoleSet(r) =>
      s' == s.(roles := s.roles[r.ID := r], stale := true)
    case RoleDeleted(id) =>
      s' == s.(roles := s.roles - {id}, stale := true)
    case ChannelSet(c) =>
      s' == s.(channels := s.channels[c.ID := c], stale := true)
    case ChannelDeleted(id) =>
      s' == s.(channels := s.channels - {id}, stale := true)
    case ListUpdated =>
      && IsRebuild(s.users, s.infos, s.roles, s'.list)
      && |s.changes| <= |s'.changes| && s'.changes[..|s.changes|] == s.changes
      && IsDiff(s.list.View, s'.list.View, s'.changes[|s.changes|..])
      && s' == s.(list := s'.list, stale := false, changes := s'.changes)
    case ChangesPopped =>
      s' == s.(changes := [])
  }

  /** UpdateUserList replaces the list by a rebuild and appends the diff of the views; nothing else
      changes, and the list is not stale any more. */
  lemma RebuildStep(s: IndexState, s': IndexState) returns (found: seq<IndexRange>)
    requires Next(s, ListUpdated, s')
    ensures IsRebuild(s.users, s.infos, s.roles, s'.list)
    ensures IsDiff(s.list.View, s'.list.View, found)
    ensures s' == s.(list := s'.list, stale := false, changes := s.changes + found)
  {
    found := s'.changes[|s.changes|..];
    assert s'.changes == s.changes + found;
  }

  lemma MoveRepositions(users: Users, infos: UserInfos, id: Snowflake, before: UserList, g0: Snowflake, j: nat,
                        after: UserList)
    requires id in users && id in infos
    requires exists k: nat :: Moved(users, id, before, g0, j, UserGroup(users[id], infos[id]), k, after)
    ensures Listed(before, id) && Repositioned(users, infos, id, before, after)
    ensures RepositionChanges(users, id, before, after) == MoveChanges(before.View, after.View, id)
  {
    assert id in before.Groups[g0];
  }

  lemma UpdateIsStep(s: IndexState, u: User, s': IndexState)
    requires s' == s.(users := s'.users, infos := s'.infos, list := s'.list, changes := s'.changes)
    requires s'.users == s.users[u.ID := ProcessUser(u)]
    requires s'.infos == s.infos[u.ID := InfoOf(s.roles, s.defaults, u)]
    requires Repositioned(s'.users, s'.infos, u.ID, s.list, s'.list)
    requires s'.changes == s.changes + RepositionChanges(s'.users, u.ID, s.list, s'.list)
    ensures Next(s, UserUpdated(u), s')
  {
  }

  /** What holds in every state, whatever the operations. */
  ghost predicate Consistent(s: IndexState) {
    && DisjointIds(s.users, s.roles)
    && ValidRoles(s.roles)
    && s.infos.Keys == s.users.Keys
    && Shape(s.list)
  }

  lemma RebuildIsConsistent(s: IndexState)
    requires DisjointIds(s.users, s.roles) && ValidRoles(s.roles) && s.infos.Keys == s.users.Keys
    requires IsRebuild(s.users, s.infos, s.roles, s.list)
    ensures Consistent(s)
  {
    RebuildHasShape(s.users, s.infos, s.roles, s.list);
  }

  /** Exactly the stored users, each as stored but offline. */
  ghost predicate Populated(rows: seq<User>, users: Users) {
    && (forall u :: u in rows ==> u.ID in users)
    && forall id :: id in users ==> exists u :: u in rows && u.ID == id && users[id] == ProcessUser(u)
  }

  /** Every stored row's ID is a user, and every user is some row, offline (1). */
  lemma PopulatedUsers(rows: seq<User>, users: Users, id: Snowflake)
    requires Populated(rows, users)
    ensures id in users <==> exists u :: u in rows && u.ID == id
    ensures id in users ==> exists u :: u in rows && u.ID == id && users[id] == u.(Presence := 1)
  {
  }

  lemma PopulatedDisjoint(rows: seq<User>, users: Users, roles: RoleTable)
    requires Populated(rows, users)
    requires forall u :: u in rows ==> u.ID !in roles && u.ID != PRESENCE_ONLINE && u.ID != PRESENCE_OFFLINE
    requires PRESENCE_ONLINE !in roles && PRESENCE_OFFLINE !in roles
    ensures DisjointIds(users, roles)
  {
    forall id | id in users ensures id !in roles && id != PRESENCE_ONLINE && id != PRESENCE_OFFLINE {
      var u :| u in rows && u.ID == id && users[id] == ProcessUser(u);
    }
  }

  method PopulateUsers(rows: seq<User>) returns (users: Users, infos: UserInfos)
    ensures Populated(rows, users) && infos.Keys == users.Keys
  {
    users, infos := map[], map[];
    for k := 0 to |rows|
      invariant Populated(rows[..k], users)
      invariant infos.Keys == users.Keys
    {
      assert rows[..k + 1] == rows[..k] + [rows[k]];
      users := users[rows[k].ID := ProcessUser(rows[k])];
      infos := infos[rows[k].ID := UserInfo(0, 0, {})];
    }
    assert rows[..|rows|] == rows;
  }

  ghost predicate InfoIsFresh(s: IndexState, id: Snowflake) {
    id in s.users && id in s.infos ==> s.infos[id] == InfoOf(s.roles, s.defaults, s.users[id])
  }

  /** The workers before this one are done, and this one has come to idx. */
  ghost predicate PassedTo(s: IndexState, ids: seq<Snowflake>, worker: nat, idx: nat) {
    forall p :: 0 <= p < |ids| && (p % 8 < worker || (p % 8 == worker && p < idx)) ==> InfoIsFresh(s, ids[p])
  }

  /** Between two indices of a stride of 8 there is none of the same remainder. */
  lemma StrideSkips(idx: nat)
    ensures forall p :: idx < p < idx + 8 ==> p % 8 != idx % 8
  {
  }

  lemma PassKeepsOn(s: IndexState, ids: seq<Snowflake>, worker: nat, idx: nat, s': IndexState)
    requires PassedTo(s, ids, worker, idx) && idx < |ids| && idx % 8 == worker
    requires s' == s.(infos := s'.infos)
    requires s'.infos == if ids[idx] in s.users
                         then s.infos[ids[idx] := InfoOf(s.roles, s.defaults, s.users[ids[idx]])] else s.infos
    ensures PassedTo(s', ids, worker, idx + 8)
  {
    StrideSkips(idx);
  }

  lemma PassEnds(s: IndexState, ids: seq<Snowflake>, worker: nat, idx: nat)
    requires PassedTo(s, ids, worker, idx) && idx >= |ids|
    ensures PassedTo(s, ids, worker + 1, worker + 1)
  {
  }

  lemma AllPassed(s: IndexState, ids: seq<Snowflake>)
    requires PassedTo(s, ids, 8, 8) && forall id :: id in s.infos ==> id in ids
    ensures forall id :: id in s.infos ==> InfoIsFresh(s, id)
  {
    forall id | id in s.infos ensures InfoIsFresh(s, id) {
      var p :| 0 <= p < |ids| && ids[p] == id;
      assert p % 8 < 8;
    }
  }

  lemma AllFresh(s: IndexState)
    requires s.infos.Keys == s.users.Keys && forall id :: id in s.infos ==> InfoIsFresh(s, id)
    ensures forall id :: id in s.users ==> s.infos[id] == InfoOf(s.roles, s.defaults, s.users[id])
  {
    forall id | id in s.users ensures s.infos[id] == InfoOf(s.roles, s.defaults, s.users[id]) {
      assert InfoIsFresh(s, id);
    }
  }

  lemma BuiltState(s: IndexState, s': IndexState)
    requires DisjointIds(s.users, s.roles) && ValidRoles(s.roles) && s.infos.Keys == s.users.Keys
    requires (forall id :: id in s.infos ==> InfoIsFresh(s, id)) && Next(s, ListUpdated, s')
    ensures Consistent(s') && IsRebuild(s'.users, s'.infos, s'.roles, s'.list)
    ensures s' == s.(list := s'.list, stale := false, changes := s'.changes)
    ensures forall id :: id in s'.users ==> s'.infos[id] == InfoOf(s'.roles, s'.defaults, s'.users[id])
  {
    AllFresh(s);
    RebuildIsConsistent(s');
  }

  class Index {
    const defaultPermissions: Permissions
    var users: Users
    var userInfos: UserInfos
    var roles: RoleTable
    var channels: Channels
    var list: UserList
    var stale: bool
    var changes: seq<IndexRange>

    /** The state that the properties of runs speak about. */
    ghost function State(): IndexState
      reads this
    {
      IndexState(defaultPermissions, users, userInfos, roles, channels, list, stale, changes)
    }

    /** Build: populate from the stored rows, compute all infos, rebuild the list. */
    constructor Build(defaults: Permissions, storedUsers: seq<User>, storedRoles: RoleTable, storedChannels: Channels)
      requires ValidRoles(storedRoles)
      requires forall u :: u in storedUsers ==>
                 u.ID !in storedRoles && u.ID != PRESENCE_ONLINE && u.ID != PRESENCE_OFFLINE
      requires PRESENCE_ONLINE !in storedRoles && PRESENCE_OFFLINE !in storedRoles
      ensures Consistent(State())
      ensures Populated(storedUsers, users)
      ensures forall id :: id in users ==> userInfos[id] == InfoOf(roles, defaultPermissions, users[id])
      ensures IsRebuild(users, userInfos, roles, list) && !stale
      ensures defaultPermissions == defaults && roles == storedRoles && channels == storedChannels
    {
      defaultPermissions, roles, channels := defaults, storedRoles, storedChannels;
      users, userInfos := map[], map[];
      list := UserList([], map[], []);
      stale, changes := false, [];
      new;
      users, userInfos := PopulateUsers(storedUsers);
      UpdateUserInfos();
      PopulatedDisjoint(storedUsers, users, roles);
      ghost var before := State();
      UpdateUserList();
      BuiltState(before, State());
    }

    /** A read-only pass over the user's roles. */
    method ComputeUserInfo(u: User) returns (info: UserInfo)
      ensures info == InfoOf(roles, defaultPermissions, u)
    {
      var rank, hoistRank, hoist, perms := MAX_INT, MAX_INT, 0, defaultPermissions;
      for k := 0 to |u.Roles|
        invariant rank == RankOf(roles, u.Roles[..k])
        invariant Hoist(hoistRank, hoist) == BestHoist(roles, u.Roles[..k])
        invariant perms == RolePermissions(roles, defaultPermissions, u.Roles[..k])
      {
        var roleID := u.Roles[k];
        assert u.Roles[..k + 1][..k] == u.Roles[..k];
        if roleID in roles {
          var role := roles[roleID];
          if role.Position < rank {
            rank := role.Position;
          }
          if role.Hoisted && role.Position < hoistRank {
            hoistRank := role.Position;
            hoist := role.ID;
          }
          perms := perms + role.Permissions;
        }
      }
      assert u.Roles[..|u.Roles|] == u.Roles;
      if ADMINISTRATOR in perms {
        perms := PERMISSION_ALL;
      }
      info := UserInfo(rank, hoist, perms);
    }

    /** The strided workers, one after the other; Workers shows any interleaving does the same. */
    method UpdateUserInfos()
      modifies this`userInfos
      ensures userInfos.Keys == old(userInfos.Keys)
      ensures forall id :: id in userInfos ==> InfoIsFresh(State(), id)
    {
      var ids := CollectIds(userInfos);
      for worker := 0 to 8
        invariant userInfos.Keys == old(userInfos.Keys)
        invariant PassedTo(State(), ids, worker, worker)
      {
        var idx := worker;
        while idx < |ids|
          invariant idx >= worker && idx % 8 == worker
          invariant userInfos.Keys == old(userInfos.Keys)
          invariant PassedTo(State(), ids, worker, idx)
        {
          ghost var before := State();
          var id := ids[idx];
          if id in users {
            var info := ComputeUserInfo(users[id]);
            userInfos := userInfos[id := info];
          }
          PassKeepsOn(before, ids, worker, idx, State());
          idx := idx + 8;
        }
        PassEnds(State(), ids, worker, idx);
      }
      AllPassed(State(), ids);
    }

    method UpdateUserList()
      requires userInfos.Keys == users.Keys
      modifies this`list, this`stale, this`changes
      ensures Next(old(State()), ListUpdated, State())
    {
      var next := BuildList(users, userInfos, roles);
      var found := DiffViews(list.View, next.View);
      assert (changes + found)[..|changes|] == changes && (changes + found)[|changes|..] == found;
      list := next;
      stale := false;
      changes := changes + found;
    }

    method AddUser(user: User) returns (stored: User)
      modifies this`users, this`userInfos, this`stale
      ensures Next(old(State()), UserAdded(user), State())
      ensures stored == user.(Presence := 1) && users == old(users)[user.ID := stored] && stale
      ensures userInfos == old(userInfos)[user.ID := InfoOf(roles, defaultPermissions, user)]
    {
      users := users[user.ID := ProcessUser(user)];
      var info := ComputeUserInfo(user);
      userInfos := userInfos[user.ID := info];
      stale := true;
      stored := users[user.ID];
    }

    method UpdateUser(user: User) returns (stored: User)
      requires Consistent(State())
      modifies this`users, this`userInfos, this`list, this`changes
      ensures Next(old(State()), UserUpdated(user), State())
      ensures stored == user.(Presence := 1) && users == old(users)[user.ID := stored]
      ensures userInfos == old(userInfos)[user.ID := InfoOf(roles, defaultPermissions, user)]
    {
      ghost var before := State();
      users := users[user.ID := ProcessUser(user)];
      var info := ComputeUserInfo(user);
      userInfos := userInfos[user.ID := info];
      RepositionUser(user.ID);
      UpdateIsStep(before, user, State());
      stored := users[user.ID];
    }

    method DeleteUser(id: Snowflake)
      modifies this`users, this`userInfos, this`stale
      ensures Next(old(State()), UserDeleted(id), State())
      ensures users == old(users) - {id} && userInfos == old(userInfos) - {id} && stale
    {
      users := users - {id};
      userInfos := userInfos - {id};
      stale := true;
    }

    method SetRole(role: Role)
      modifies this`roles, this`stale
      ensures Next(old(State()), RoleSet(role), State())
      ensures roles == old(roles)[role.ID := role] && stale
    {
      roles := roles[role.ID := role];
      stale := true;
    }

    method DeleteRole(id: Snowflake)
      modifies this`roles, this`stale
      ensures Next(old(State()), RoleDeleted(id), State())
      ensures roles == old(roles) - {id} && stale
    {
      roles := roles - {id};
      stale := true;
    }

    method SetChannel(channel: Channel)
      modifies this`channels, this`stale
      ensures Next(old(State()), ChannelSet(channel), State())
      ensures channels == old(channels)[channel.ID := channel] && stale
    {
      channels := channels[channel.ID := channel];
      stale := true;
    }

    method DeleteChannel(id: Snowflake)
      modifies this`channels, this`stale
      ensures Next(old(State()), ChannelDeleted(id), State())
      ensures channels == old(channels) - {id} && stale
    {
      channels := channels - {id};
      stale := true;
    }

    method PopAllChanges() returns (popped: seq<IndexRange>)
      modifies this`changes
      ensures popped == old(changes) && changes == []
      ensures Next(old(State()), ChangesPopped, State())
    {
      popped := changes;
      changes := [];
    }

    /** The part of the view between start and end that exists, cut to the limit if there is
        one, and the size of every group. */
    method GetUserListSlice(start: int, end: int, limit: int) returns (resp: UserListResponse)
      ensures 0 <= resp.Start <= resp.End <= |list.View|
      ensures resp.Slice == list.View[resp.Start..resp.End]
      ensures resp.Start < resp.End ==> start <= resp.Start && resp.End <= end
      ensures forall i :: start <= i < end && 0 <= i < |list.View| ==>
                list.View[i] in resp.Slice || (limit > 0 && |resp.Slice| == limit)
      ensures limit > 0 ==> |resp.Slice| <= limit
      ensures |resp.Groups| == |list.GroupOrder| && forall k :: 0 <= k < |resp.Groups| ==>
                var g := list.GroupOrder[k];
                resp.Groups[k] == UserListGroup(g, if g in list.Groups then |list.Groups[g]| else 0)
      ensures resp.Groups == CountsOf(list.GroupOrder, list.Groups)
      ensures (resp.Start, resp.End) == SliceBounds(|list.View|, start, end, limit)
      ensures resp.Start == if start < 0 then 0 else if start > |list.View| then |list.View| else start
      ensures var to := if end < resp.Start then resp.Start else if end > |list.View| then |list.View| else end;
              resp.End == if limit > 0 && to - resp.Start > limit then resp.Start + limit else to
    {
      var total := |list.View|;
      var from := ClampInt(start, 0, total);
      var to := ClampInt(end, from, total);
      if limit > 0 && to - from > limit {
        to := from + limit;
      }
      var groups: seq<UserListGroup> := [];
      for k := 0 to |list.GroupOrder|
        invariant groups == CountsOf(list.GroupOrder, list.Groups)[..k]
      {
        groups := groups + [UserListGroup(list.GroupOrder[k], |GroupOf(list.Groups, list.GroupOrder[k])|)];
      }
      resp := UserListResponse(from, to, list.View[from..to], groups);
      assert forall i :: from <= i < to ==> list.View[from..to][i - from] == list.View[i];
    }

    method RepositionUser(id: Snowflake)
      requires userInfos.Keys == users.Keys
      modifies this`list, this`changes
      ensures Repositioned(users, userInfos, id, old(list), list)
      ensures changes == old(changes) + RepositionChanges(users, id, old(list), list)
    {
      if id !in users {
        return;
      }
      var g0, j := FindInGroups(list.Groups, id);
      if j == -1 {
        return;
      }
      var oldViewPos := FindFirst(list.View, id);
      var next := MoveUser(users, id, list, g0, j, UserGroup(users[id], userInfos[id]));
      var newViewPos := FindFirst(next.View, id);
      MoveRepositions(users, userInfos, id, list, g0, j, next);
      list := next;
      if newViewPos == -1 {
        return;
      }
      var from, to := oldViewPos, newViewPos;
      if from > to {
        from, to := to, from;
      }
      changes := changes + [IndexRange(from, to + 1)];
    }
  }

  /** The binary search for the place of user `id` in a group. */
  method SearchGroup(users: Users, id: Snowflake, group: seq<Snowflake>) returns (k: nat)
    ensures k <= |group|
    ensures k > 0 ==> !Precedes(users, id, group[k - 1])
    ensures k < |group| ==> Precedes(users, id, group[k])
    ensures forall l :: 0 <= l < |group| && k - 1 <= l <= k ==>
              var x := if id in users then users[id].DisplayName else [];
              var y := if group[l] in users then users[group[l]].DisplayName else [];
              l == k <==>
                || (x == y && id < group[l])
                || exists n: nat :: n <= |x| && n < |y| && x[..n] == y[..n] && (n == |x| || x[n] < y[n])
  {
    var lo, hi := 0, |group|;
    while lo < hi
      invariant 0 <= lo <= hi <= |group|
      invariant lo > 0 ==> !Precedes(users, id, group[lo - 1])
      invariant hi < |group| ==> Precedes(users, id, group[hi])
    {
      var mid := (lo + hi) / 2;
      if Precedes(users, id, group[mid]) {
        hi := mid;
      } else {
        lo := mid + 1;
      }
    }
    k := lo;
    if k > 0 { PrecedesIff(users, id, group[k - 1]); }
    if k < |group| { PrecedesIff(users, id, group[k]); }
  }

  /** Out of place j of group g0, into the searched place of group g1, and flatten again. */
  method MoveUser(users: Users, id: Snowflake, list: UserList, g0: Snowflake, j: nat, g1: Snowflake)
    returns (next: UserList)
    requires g0 in list.Groups && j < |list.Groups[g0]| && list.Groups[g0][j] == id
    ensures exists k: nat :: Moved(users, id, list, g0, j, g1, k, next)
  {
    var oldGroup := list.Groups[g0];
    oldGroup := oldGroup[..j] + oldGroup[j + 1..];
    var groups := list.Groups[g0 := oldGroup];
    var newGroup := GroupOf(groups, g1);
    var k := SearchGroup(users, id, newGroup);
    newGroup := newGroup[..k] + [id] + newGroup[k..];
    groups := groups[g1 := newGroup];
    var view := FlattenView(list.GroupOrder, groups);
    next := UserList(list.GroupOrder, groups, view);
    assert Moved(users, id, list, g0, j, g1, k, next);
  }

  method FindFirst(s: seq<Snowflake>, x: Snowflake) returns (i: int)
    ensures i == FirstIndex(s, x)
  {
    i := -1;
    for k := 0 to |s|
      invariant i == -1
      invariant forall l :: 0 <= l < k ==> s[l] != x
    {
      if s[k] == x {
        FirstIndexUnique(s, x, k, FirstIndex(s, x));
        return k;
      }
    }
    FirstIndexUnique(s, x, -1, FirstIndex(s, x));
  }

  method CollectIds(infos: UserInfos) returns (ids: seq<Snowflake>)
    ensures Distinct(ids)
    ensures forall id :: id in ids <==> id in infos
  {
    ids := [];
    var rest := infos.Keys;
    while rest != {}
      invariant rest <= infos.Keys && Distinct(ids)
      invariant forall id :: id in ids <==> id in infos && id !in rest
    {
      SomeId(rest);
      var id :| id in rest;
      rest := rest - {id};
      ids := ids + [id];
    }
  }

  /** Which group lists the user, and where. */
  method FindInGroups(groups: Groups, id: Snowflake) returns (g: Snowflake, j: int)
    ensures j == -1 ==> forall h :: h in groups ==> id !in groups[h]
    ensures j != -1 ==> g in groups && 0 <= j < |groups[g]| && groups[g][j] == id
  {
    g, j := 0, -1;
    var rest := groups.Keys;
    while rest != {} && j == -1
      invariant rest <= groups.Keys
      invariant j == -1 ==> forall h :: h in groups && h !in rest ==> id !in groups[h]
      invariant j != -1 ==> g in groups && 0 <= j < |groups[g]| && groups[g][j] == id
    {
      SomeId(rest);
      var h :| h in rest;
      rest := rest - {h};
      var pos := FindFirst(groups[h], id);
      if pos != -1 {
        g, j := h, pos;
      }
    }
  }
}
