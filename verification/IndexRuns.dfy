/** Whole runs of the index: what is kept by every operation, when the list is fresh, and
    whether a client can miss a change of its window. */
module IndexRuns {
  import opened Models
  import opened Ranks
  import opened Sorting
  import opened UserLists
  import opened Incremental
  import opened ViewChanges
  import opened UserIndex
  import opened RoleChanges
  import opened Wrappers

  /** IDs are issued so that users, roles, the presence groups and "none" never collide. */
  ghost predicate ProperIds(s: IndexState, op: Op) {
    match op
    case UserAdded(u) => u.ID !in s.roles && u.ID != PRESENCE_ONLINE && u.ID != PRESENCE_OFFLINE
    case UserUpdated(u) => u.ID !in s.roles && u.ID != PRESENCE_ONLINE && u.ID != PRESENCE_OFFLINE
    case RoleSet(r) => r.ID !in s.users && r.ID != PRESENCE_ONLINE && r.ID != PRESENCE_OFFLINE && r.ID != 0
    case _ => true
  }

  lemma UpdateKeepsShape(s: IndexState, u: User, s': IndexState)
    requires Shape(s.list) && Next(s, UserUpdated(u), s')
    ensures Shape(s'.list)
  {
    if Listed(s.list, u.ID) {
      var g1 := UserGroup(s'.users[u.ID], s'.infos[u.ID]);
      var g0, j: nat, k: nat :| Moved(s'.users, u.ID, s.list, g0, j, g1, k, s'.list);
      MovedKeepsShape(s'.users, u.ID, s.list, g0, j, g1, k, s'.list);
    }
  }

  /** Every operation, role updates and deletions included, keeps the index consistent. */
  lemma NextKeepsConsistent(s: IndexState, op: Op, s': IndexState)
    requires Consistent(s) && ProperIds(s, op) && Next(s, op, s')
    ensures Consistent(s')
  {
    match op
    case UserUpdated(u) => UpdateKeepsShape(s, u, s');
    case ListUpdated =>
      RebuildHasShape(s.users, s.infos, s.roles, s'.list);
    case _ =>
  }

  // ---------------------------------------------------------------- freshness

  ghost predicate FreshInfos(s: IndexState) {
    forall id :: id in s.users && id in s.infos ==> s.infos[id] == InfoOf(s.roles, s.defaults, s.users[id])
  }

  /** Infos are up to date, and the list is a full rebuild unless it is marked stale. */
  ghost predicate Fresh(s: IndexState) {
    && Consistent(s)
    && FreshInfos(s)
    && (!s.stale ==> IsRebuild(s.users, s.infos, s.roles, s.list))
  }

  ghost predicate ChangesRole(op: Op) {
    op.RoleSet? || op.RoleDeleted?
  }

  function ChangedRole(op: Op): Snowflake
    requires ChangesRole(op)
  {
    if op.RoleSet? then op.role.ID else op.id
  }

  function RoleAfter(op: Op): Option<Role>
    requires ChangesRole(op)
  {
    if op.RoleSet? then Some(op.role) else None
  }

  /** Nobody who holds the role notices that it changes. */
  ghost predicate RoleUnnoticed(s: IndexState, op: Op)
    requires ChangesRole(op)
  {
    forall id :: id in s.users && ChangedRole(op) in s.users[id].Roles ==>
      Unnoticed(s.roles, s.defaults, s.users[id].Roles, ChangedRole(op), RoleAfter(op))
  }

  /** The operations that keep the index fresh: all but the update of an unknown user on a list
      that is not stale, and the change of a role that one of its holders notices. */
  ghost predicate KeepsFresh(s: IndexState, op: Op) {
    match op
    case UserUpdated(u) => s.stale || u.ID in s.users
    case RoleSet(_) => RoleUnnoticed(s, op)
    case RoleDeleted(_) => RoleUnnoticed(s, op)
    case _ => true
  }

  /** Setting or deleting a role keeps the infos up to date exactly when no holder notices. */
  lemma RoleChangeInfosIff(s: IndexState, op: Op, s': IndexState)
    requires Consistent(s) && FreshInfos(s) && ProperIds(s, op) && ChangesRole(op) && Next(s, op, s')
    ensures FreshInfos(s') <==> RoleUnnoticed(s, op)
  {
    NextKeepsConsistent(s, op, s');
    var r := ChangedRole(op);
    assert ChangesOnly(s.roles, s'.roles, r) && Find(s'.roles, r) == RoleAfter(op);
    forall id | id in s.users
      ensures InfoOf(s'.roles, s.defaults, s.users[id]) == s.infos[id] <==>
                (r in s.users[id].Roles ==> Unnoticed(s.roles, s.defaults, s.users[id].Roles, r, RoleAfter(op)))
    {
      if r in s.users[id].Roles {
        InfoUnnoticedIff(s.roles, s'.roles, s.defaults, s.users[id], r);
      } else {
        InfoIgnoresOtherRoles(s.roles, s'.roles, s.users[id].Roles, s.defaults);
      }
    }
  }

  /** Infos that are up to date stay so under every operation but a noticed change of a role. */
  lemma NextKeepsInfos(s: IndexState, op: Op, s': IndexState)
    requires Consistent(s) && FreshInfos(s) && ProperIds(s, op) && Next(s, op, s')
    ensures FreshInfos(s') <==> (ChangesRole(op) ==> RoleUnnoticed(s, op))
  {
    if ChangesRole(op) {
      RoleChangeInfosIff(s, op, s');
    }
  }

  lemma RoleChangeFreshIff(s: IndexState, op: Op, s': IndexState)
    requires Fresh(s) && ProperIds(s, op) && ChangesRole(op) && Next(s, op, s')
    ensures Fresh(s') <==> RoleUnnoticed(s, op)
  {
    NextKeepsConsistent(s, op, s');
    RoleChangeInfosIff(s, op, s');
  }

  lemma FreshListsKnownUsers(s: IndexState, id: Snowflake)
    requires Fresh(s) && !s.stale
    ensures Listed(s.list, id) <==> id in s.users
  {
    if id in s.users {
      var g := UserGroup(s.users[id], s.infos[id]);
      assert Lists(s.users, s.infos, g, GroupOf(s.list.Groups, g)) && BelongsTo(s.users, s.infos, g, id);
      assert id in GroupOf(s.list.Groups, g);
    }
    forall g | g in s.list.Groups && id in s.list.Groups[g] ensures id in s.users {
      assert Lists(s.users, s.infos, g, GroupOf(s.list.Groups, g));
    }
  }

  lemma UpdateKeepsFresh(s: IndexState, u: User, s': IndexState)
    requires Fresh(s) && Next(s, UserUpdated(u), s') && u.ID in s.users && Consistent(s')
    ensures Fresh(s')
  {
    if !s.stale {
      FreshListsKnownUsers(s, u.ID);
      var info := InfoOf(s.roles, s.defaults, u);
      var g1 := UserGroup(s'.users[u.ID], s'.infos[u.ID]);
      var g0, j: nat, k: nat :| Moved(s'.users, u.ID, s.list, g0, j, g1, k, s'.list);
      IncrementalEqualsRebuild(s.users, s.infos, s.roles, u.ID, ProcessUser(u), info, s.list, g0, j, k, s'.list);
    }
  }

  /** Updating a user on a fresh list leaves the list fresh exactly when the index knew the
      user: an unknown one is added without being listed or marking the list stale. */
  lemma UpdateFreshIffKnown(s: IndexState, u: User, s': IndexState)
    requires Fresh(s) && !s.stale && ProperIds(s, UserUpdated(u)) && Next(s, UserUpdated(u), s')
    ensures Fresh(s') <==> u.ID in s.users
  {
    NextKeepsConsistent(s, UserUpdated(u), s');
    if u.ID in s.users {
      UpdateKeepsFresh(s, u, s');
    } else {
      FreshListsKnownUsers(s, u.ID);
      assert s'.list == s.list;
      if Fresh(s') {
        FreshListsKnownUsers(s', u.ID);
      }
    }
  }

  /** Operation by operation, exactly those that KeepsFresh names keep the index fresh. */
  lemma NextKeepsFresh(s: IndexState, op: Op, s': IndexState)
    requires Fresh(s) && ProperIds(s, op) && Next(s, op, s')
    ensures Fresh(s') <==> KeepsFresh(s, op)
  {
    NextKeepsConsistent(s, op, s');
    match op
    case UserUpdated(u) =>
      if !s.stale {
        UpdateFreshIffKnown(s, u, s');
      }
    case RoleSet(_) => RoleChangeFreshIff(s, op, s');
    case RoleDeleted(_) => RoleChangeFreshIff(s, op, s');
    case _ =>
  }

  // ---------------------------------------------------------------- runs

  ghost predicate IsRun(states: seq<IndexState>, ops: seq<Op>) {
    && |states| == |ops| + 1
    && forall k :: 0 <= k < |ops| ==> ProperIds(states[k], ops[k]) && Next(states[k], ops[k], states[k + 1])
  }

  lemma {:induction false} RunKeepsConsistent(states: seq<IndexState>, ops: seq<Op>, n: nat)
    requires IsRun(states, ops) && Consistent(states[0]) && n < |states|
    ensures Consistent(states[n])
  {
    if n == 0 {
    } else {
      RunKeepsConsistent(states, ops, n - 1);
      NextKeepsConsistent(states[n - 1], ops[n - 1], states[n]);
    }
  }

  /** In every state of a run from a fresh one: the same keys, every info as computed, and a
      full rebuild whenever the list is not marked stale. */
  lemma {:induction false} RunKeepsFresh(states: seq<IndexState>, ops: seq<Op>, n: nat)
    requires IsRun(states, ops) && Fresh(states[0]) && n < |states|
    requires forall k :: 0 <= k < n ==> KeepsFresh(states[k], ops[k])
    ensures Fresh(states[n])
  {
    if n == 0 {
    } else {
      RunKeepsFresh(states, ops, n - 1);
      NextKeepsFresh(states[n - 1], ops[n - 1], states[n]);
    }
  }

  /** With fresh infos every user's group is listed, so a fresh list shows every user once. */
  lemma FreshShowsEveryone(s: IndexState)
    requires Fresh(s) && !s.stale
    ensures Distinct(s.list.View)
    ensures |s.list.View| == |s.users| + |s.list.GroupOrder|
    ensures forall id :: id in s.users ==> id in s.list.View
  {
    RebuildConservesUsers(s.users, s.infos, s.roles, s.list);
    GroupOrderElements(s.roles, s.list.GroupOrder);
    forall id | id in s.users && id in s.infos ensures UserGroup(s.users[id], s.infos[id]) in s.list.GroupOrder {
      FreshGroupListed(s.roles, s.defaults, s.users[id], s.list.GroupOrder);
    }
  }

  /** The groups of the order are the hoistable roles and the two presence groups. */
  ghost predicate OrderIsCurrent(roles: RoleTable, order: seq<Snowflake>) {
    forall g :: g in order <==> Hoistable(roles, g) || g == PRESENCE_ONLINE || g == PRESENCE_OFFLINE
  }

  lemma FreshGroupListed(roles: RoleTable, defaults: Permissions, u: User, order: seq<Snowflake>)
    requires ValidRoles(roles) && OrderIsCurrent(roles, order)
    ensures UserGroup(u, InfoOf(roles, defaults, u)) in order
  {
    HoistIsFirstMinimum(roles, u.Roles);
  }

  lemma StoredHoist(s: IndexState, id: Snowflake)
    requires Consistent(s) && FreshInfos(s) && id in s.users
    ensures var hoist := s.infos[id].Hoist;
            hoist == 0 || (Hoistable(s.roles, hoist) && hoist != PRESENCE_ONLINE && hoist != PRESENCE_OFFLINE)
  {
    HoistIsFirstMinimum(s.roles, s.users[id].Roles);
  }

  /** A rebuild shows a user unless its stored hoist is no hoisted role. */
  lemma RebuildShowsIff(s: IndexState, list: UserList, id: Snowflake)
    requires Consistent(s) && IsRebuild(s.users, s.infos, s.roles, list) && id in s.users
    requires s.infos[id].Hoist != PRESENCE_ONLINE && s.infos[id].Hoist != PRESENCE_OFFLINE
    ensures id in list.View <==> s.infos[id].Hoist == 0 || Hoistable(s.roles, s.infos[id].Hoist)
  {
    ViewMembers(s.users, s.infos, s.roles, list, id);
    GroupOrderElements(s.roles, list.GroupOrder);
  }

  lemma HoistableAfter(s: IndexState, op: Op, s': IndexState, r: Snowflake)
    requires ChangesRole(op) && Next(s, op, s') && (r == 0 || Hoistable(s.roles, r))
    ensures r != 0 ==> (Hoistable(s'.roles, r) <==> (r == ChangedRole(op) ==> op.RoleSet? && op.role.Hoisted))
  {
  }

  /** After a role is set or deleted, the next rebuild drops a user from the view exactly when
      the role was its hoist and is hoisted no more: the stored info still names it. */
  lemma UnhoistingDropsUser(s: IndexState, op: Op, s1: IndexState, s2: IndexState, id: Snowflake)
    requires Fresh(s) && ProperIds(s, op) && id in s.users && ChangesRole(op)
    requires Next(s, op, s1) && Next(s1, ListUpdated, s2)
    ensures id !in s2.list.View <==>
              s.infos[id].Hoist == ChangedRole(op) && s.infos[id].Hoist != 0 && (op.RoleSet? ==> !op.role.Hoisted)
  {
    NextKeepsConsistent(s, op, s1);
    StoredHoist(s, id);
    RebuildShowsIff(s1, s2.list, id);
    HoistableAfter(s, op, s1, s.infos[id].Hoist);
  }

  /** A user missing from a rebuilt list had been shown as long as the list was fresh, and the
      list is not fresh now. */
  lemma DroppedUserWasShown(s: IndexState, s': IndexState, id: Snowflake)
    requires Fresh(s) && !s.stale && id in s.users
    requires !s'.stale && id in s'.users && id !in s'.list.View
    ensures id in s.list.View && !Fresh(s')
  {
    FreshShowsEveryone(s);
    if Fresh(s') {
      FreshShowsEveryone(s');
    }
  }

  // ---------------------------------------------------------------- no missed push

  /** The update moves the user within the view, or leaves it outside. */
  ghost predicate StaysInView(s: IndexState, op: Op) {
    op.UserUpdated? && Listed(s.list, op.user.ID) ==>
      (op.user.ID in s.list.View <==>
        UserGroup(ProcessUser(op.user), InfoOf(s.roles, s.defaults, op.user)) in s.list.GroupOrder)
  }

  /** Every stored hoist is a hoisted role, though not always the one a fresh info would name. */
  ghost predicate HoistsStand(s: IndexState) {
    forall id :: id in s.infos && s.infos[id].Hoist != 0 ==> Hoistable(s.roles, s.infos[id].Hoist)
  }

  /** Only groups of the order have users, and a rebuild keeps it so. Otherwise the list and the
      infos may be as stale as they like. */
  ghost predicate Grouped(s: IndexState) {
    && Consistent(s)
    && HoistsStand(s)
    && forall g, id :: g in s.list.Groups && id in s.list.Groups[g] ==> g in s.list.GroupOrder
  }

  ghost predicate IsSomeHoist(s: IndexState, r: Snowflake) {
    r != 0 && exists id :: id in s.infos && s.infos[id].Hoist == r
  }

  /** No hoist in use is unhoisted or deleted, and no listed user is updated into a group that
      the list does not have yet. */
  ghost predicate KeepsGrouped(s: IndexState, op: Op) {
    match op
    case UserUpdated(u) =>
      Listed(s.list, u.ID) ==> UserGroup(ProcessUser(u), InfoOf(s.roles, s.defaults, u)) in s.list.GroupOrder
    case RoleSet(r) => r.Hoisted || !IsSomeHoist(s, r.ID)
    case RoleDeleted(id) => !IsSomeHoist(s, id)
    case _ => true
  }

  lemma StandingGroupListed(roles: RoleTable, u: User, info: UserInfo, order: seq<Snowflake>)
    requires OrderIsCurrent(roles, order) && (info.Hoist != 0 ==> Hoistable(roles, info.Hoist))
    ensures UserGroup(u, info) in order
  {
  }

  lemma RebuildIsGrouped(s: IndexState)
    requires Consistent(s) && HoistsStand(s) && IsRebuild(s.users, s.infos, s.roles, s.list)
    ensures Grouped(s)
  {
    GroupOrderElements(s.roles, s.list.GroupOrder);
    forall g, id | g in s.list.Groups && id in s.list.Groups[g] ensures g in s.list.GroupOrder {
      assert Lists(s.users, s.infos, g, GroupOf(s.list.Groups, g));
      StandingGroupListed(s.roles, s.users[id], s.infos[id], s.list.GroupOrder);
    }
  }

  lemma ComputedHoist(roles: RoleTable, defaults: Permissions, u: User)
    requires ValidRoles(roles)
    ensures var hoist := InfoOf(roles, defaults, u).Hoist; hoist != 0 ==> Hoistable(roles, hoist)
  {
    HoistIsFirstMinimum(roles, u.Roles);
  }

  lemma FreshHoistsStand(s: IndexState)
    requires Consistent(s) && FreshInfos(s)
    ensures HoistsStand(s)
  {
    forall id | id in s.infos ensures s.infos[id].Hoist != 0 ==> Hoistable(s.roles, s.infos[id].Hoist) {
      ComputedHoist(s.roles, s.defaults, s.users[id]);
    }
  }

  lemma FreshIsGrouped(s: IndexState)
    requires Fresh(s) && !s.stale
    ensures Grouped(s)
  {
    FreshHoistsStand(s);
    RebuildIsGrouped(s);
  }

  /** Operation by operation, exactly those that KeepsGrouped names keep a list grouped. */
  lemma NextKeepsGrouped(s: IndexState, op: Op, s': IndexState)
    requires Grouped(s) && ProperIds(s, op) && Next(s, op, s')
    ensures Grouped(s') <==> KeepsGrouped(s, op)
  {
    NextKeepsConsistent(s, op, s');
    match op
    case UserAdded(u) => ComputedHoist(s.roles, s.defaults, u);
    case UserUpdated(u) => UpdateKeepsGrouped(s, u, s');
    case RoleSet(_) => RoleKeepsGrouped(s, op, s');
    case RoleDeleted(_) => RoleKeepsGrouped(s, op, s');
    case ListUpdated => RebuildIsGrouped(s');
    case _ =>
  }

  lemma RoleKeepsGrouped(s: IndexState, op: Op, s': IndexState)
    requires Grouped(s) && ChangesRole(op) && Next(s, op, s') && Consistent(s')
    ensures Grouped(s') <==> KeepsGrouped(s, op)
  {
    if Grouped(s') {
      forall id | id in s.infos && s.infos[id].Hoist != 0
        ensures s.infos[id].Hoist == ChangedRole(op) ==> op.RoleSet? && op.role.Hoisted
      {
        assert Hoistable(s'.roles, s.infos[id].Hoist);
      }
    }
  }

  /** With infos up to date, a role change that no holder notices takes no hoist away. */
  lemma UnnoticedKeepsGrouped(s: IndexState, op: Op, s': IndexState)
    requires Grouped(s) && FreshInfos(s) && ProperIds(s, op) && Next(s, op, s')
    requires ChangesRole(op) && RoleUnnoticed(s, op)
    ensures KeepsGrouped(s, op)
  {
    NextKeepsConsistent(s, op, s');
    RoleChangeInfosIff(s, op, s');
    FreshHoistsStand(s');
    RoleKeepsGrouped(s, op, s');
  }

  lemma UpdateKeepsGrouped(s: IndexState, u: User, s': IndexState)
    requires Grouped(s) && Next(s, UserUpdated(u), s') && Consistent(s')
    ensures Grouped(s') <==> KeepsGrouped(s, UserUpdated(u))
  {
    ComputedHoist(s.roles, s.defaults, u);
    if Listed(s.list, u.ID) {
      var g1 := UserGroup(s'.users[u.ID], s'.infos[u.ID]);
      var g0, j: nat, k: nat :| Moved(s'.users, u.ID, s.list, g0, j, g1, k, s'.list);
      MovedElements(s'.users, u.ID, s.list, g0, j, g1, k, s'.list);
      assert u.ID in GroupOf(s'.list.Groups, g1);
      forall g, id | g in s'.list.Groups && id in s'.list.Groups[g] && id != u.ID ensures g in s'.list.GroupOrder {
        assert id in GroupOf(s'.list.Groups, g) && id in GroupOf(s.list.Groups, g);
      }
      forall g | g in s'.list.Groups && u.ID in s'.list.Groups[g] ensures g == g1 {
        assert u.ID in GroupOf(s'.list.Groups, g);
      }
    }
  }

  lemma GroupedInView(list: UserList, id: Snowflake)
    requires Shape(list) && Listed(list, id)
    requires forall g, x :: g in list.Groups && x in list.Groups[g] ==> g in list.GroupOrder
    ensures id in list.View
  {
    var g :| g in list.Groups && id in list.Groups[g];
    assert id in GroupOf(list.Groups, g);
    FlattenElements(list.GroupOrder, list.Groups, id);
  }

  /** On a grouped list, an update stays in view or out of it exactly when it keeps the list
      grouped. */
  lemma GroupedStaysInView(s: IndexState, op: Op)
    requires Grouped(s) && op.UserUpdated?
    ensures StaysInView(s, op) <==> KeepsGrouped(s, op)
  {
    if Listed(s.list, op.user.ID) {
      GroupedInView(s.list, op.user.ID);
    }
  }

  lemma {:induction false} RunKeepsGrouped(states: seq<IndexState>, ops: seq<Op>, n: nat)
    requires IsRun(states, ops) && Grouped(states[0]) && n < |states|
    requires forall k :: 0 <= k < n ==> KeepsGrouped(states[k], ops[k])
    ensures Grouped(states[n])
  {
    if n == 0 {
    } else {
      RunKeepsGrouped(states, ops, n - 1);
      NextKeepsGrouped(states[n - 1], ops[n - 1], states[n]);
    }
  }

  /** A grouped list whose order is that of the present roles. */
  ghost predicate Settled(s: IndexState) {
    Grouped(s) && OrderIsCurrent(s.roles, s.list.GroupOrder)
  }

  /** All operations but those by which a role begins or ceases to be hoisted. */
  ghost predicate KeepsSettled(s: IndexState, op: Op) {
    match op
    case RoleSet(r) => r.Hoisted <==> Hoistable(s.roles, r.ID)
    case RoleDeleted(id) => !Hoistable(s.roles, id)
    case _ => true
  }

  lemma FreshIsSettled(s: IndexState)
    requires Fresh(s) && !s.stale
    ensures Settled(s)
  {
    FreshIsGrouped(s);
    GroupOrderElements(s.roles, s.list.GroupOrder);
  }

  /** On a settled list no update can lead into a group that is not listed. */
  lemma SettledKeepsGrouped(s: IndexState, op: Op)
    requires Settled(s) && KeepsSettled(s, op)
    ensures KeepsGrouped(s, op)
  {
    match op
    case UserUpdated(u) => FreshGroupListed(s.roles, s.defaults, ProcessUser(u), s.list.GroupOrder);
    case _ =>
  }

  lemma NextKeepsSettled(s: IndexState, op: Op, s': IndexState)
    requires Settled(s) && ProperIds(s, op) && Next(s, op, s') && KeepsSettled(s, op)
    ensures Settled(s')
  {
    SettledKeepsGrouped(s, op);
    NextKeepsGrouped(s, op, s');
    match op
    case UserUpdated(_) => assert s'.list.GroupOrder == s.list.GroupOrder;
    case ListUpdated => GroupOrderElements(s'.roles, s'.list.GroupOrder);
    case _ =>
  }

  /** Nobody can leave or enter the view of a settled list by an update. */
  lemma SettledStaysInView(s: IndexState, op: Op)
    requires Settled(s)
    ensures StaysInView(s, op)
  {
    if op.UserUpdated? {
      SettledKeepsGrouped(s, op);
      GroupedStaysInView(s, op);
    }
  }

  lemma {:induction false} RunKeepsSettled(states: seq<IndexState>, ops: seq<Op>, n: nat)
    requires IsRun(states, ops) && Settled(states[0]) && n < |states|
    requires forall k :: 0 <= k < n ==> KeepsSettled(states[k], ops[k])
    ensures Settled(states[n])
  {
    if n == 0 {
    } else {
      RunKeepsSettled(states, ops, n - 1);
      NextKeepsSettled(states[n - 1], ops[n - 1], states[n]);
    }
  }

  /** As long as no role begins or ceases to be hoisted, every update of a run from a settled
      state keeps the list grouped. */
  lemma SettledRunKeepsGrouped(states: seq<IndexState>, ops: seq<Op>, n: nat)
    requires IsRun(states, ops) && Settled(states[0]) && n < |states|
    requires forall k :: 0 <= k < n ==> KeepsSettled(states[k], ops[k])
    ensures forall k :: 0 <= k < n ==> KeepsGrouped(states[k], ops[k])
  {
    forall k | 0 <= k < n ensures KeepsGrouped(states[k], ops[k]) {
      RunKeepsSettled(states, ops, k);
      SettledKeepsGrouped(states[k], ops[k]);
    }
  }

  /** An update that stays in view or out of it declares every change of the view, and so does
      any other operation. */
  lemma StepDeclaresChanges(s: IndexState, op: Op, s': IndexState)
    requires Consistent(s) && Next(s, op, s') && op != ChangesPopped && StaysInView(s, op)
    ensures |s.changes| <= |s'.changes| && s'.changes[..|s.changes|] == s.changes
    ensures CoversDiff(s.list.View, s'.list.View, s'.changes[|s.changes|..])
  {
    if op.ListUpdated? {
      DiffDeclaresExactly(s.list.View, s'.list.View, s'.changes[|s.changes|..]);
    } else if op.UserUpdated? {
      var u := op.user;
      var added := RepositionChanges(s'.users, u.ID, s.list, s'.list);
      assert s'.changes[|s.changes|..] == added;
      if Listed(s.list, u.ID) {
        var g1 := UserGroup(s'.users[u.ID], s'.infos[u.ID]);
        var g0, j: nat, k: nat :| Moved(s'.users, u.ID, s.list, g0, j, g1, k, s'.list);
        RepositionDeclaresChangesIff(s'.users, u.ID, s.list, g0, j, g1, k, s'.list);
        var common := MovedViews(s'.users, u.ID, s.list, g0, j, g1, k, s'.list);
      }
    } else {
      assert s'.list == s.list;
    }
  }

  /** On a grouped list, what an update records declares every change of the view exactly when
      the update keeps the list grouped. */
  lemma UpdateDeclaresIff(s: IndexState, u: User, s': IndexState)
    requires Grouped(s) && Next(s, UserUpdated(u), s')
    ensures |s.changes| <= |s'.changes| && s'.changes[..|s.changes|] == s.changes
    ensures CoversDiff(s.list.View, s'.list.View, s'.changes[|s.changes|..]) <==> KeepsGrouped(s, UserUpdated(u))
  {
    GroupedStaysInView(s, UserUpdated(u));
    var added := RepositionChanges(s'.users, u.ID, s.list, s'.list);
    assert s'.changes[|s.changes|..] == added;
    if KeepsGrouped(s, UserUpdated(u)) {
      StepDeclaresChanges(s, UserUpdated(u), s');
    } else {
      GroupedInView(s.list, u.ID);
      var g1 := UserGroup(s'.users[u.ID], s'.infos[u.ID]);
      var g0, j: nat, k: nat :| Moved(s'.users, u.ID, s.list, g0, j, g1, k, s'.list);
      assert g0 in s.list.GroupOrder && g1 !in s.list.GroupOrder;
      RepositionDeclaresChangesIff(s'.users, u.ID, s.list, g0, j, g1, k, s'.list);
    }
  }

  lemma ExtendDeclared(view: seq<Snowflake>, before: seq<Snowflake>, after: seq<Snowflake>,
                       changes: seq<IndexRange>, added: seq<IndexRange>, i: nat)
    requires i < |view| && (Differs(view, before, i) ==> Declared(changes, i)) && CoversDiff(before, after, added)
    ensures Differs(view, after, i) ==> Declared(changes + added, i)
  {
    DeclaredAppend(changes, added);
  }

  lemma StepExtendsDeclared(view: seq<Snowflake>, s: IndexState, op: Op, s': IndexState, i: nat)
    requires Consistent(s) && Next(s, op, s') && op != ChangesPopped && StaysInView(s, op)
    requires i < |view| && (Differs(view, s.list.View, i) ==> Declared(s.changes, i))
    ensures Differs(view, s'.list.View, i) ==> Declared(s'.changes, i)
  {
    StepDeclaresChanges(s, op, s');
    var added := s'.changes[|s.changes|..];
    assert s'.changes == s.changes + added;
    ExtendDeclared(view, s.list.View, s'.list.View, s.changes, added, i);
  }

  /** Index by index: over a run without a pop in which every update stays in view or out of
      it, whatever index shows something else at the end than at the start lies in a declared
      change, even if it was restored, cut off or refilled in between. */
  lemma {:induction false} RunDeclaresChanges(states: seq<IndexState>, ops: seq<Op>, n: nat, i: nat)
    requires IsRun(states, ops) && Consistent(states[0]) && n < |states|
    requires forall k :: 0 <= k < n ==> ops[k] != ChangesPopped && StaysInView(states[k], ops[k])
    requires i < |states[0].list.View| && Differs(states[0].list.View, states[n].list.View, i)
    ensures Declared(states[n].changes, i)
  {
    if n == 0 {
    } else {
      RunKeepsConsistent(states, ops, n - 1);
      if Differs(states[0].list.View, states[n - 1].list.View, i) {
        RunDeclaresChanges(states, ops, n - 1, i);
      }
      StepExtendsDeclared(states[0].list.View, states[n - 1], ops[n - 1], states[n], i);
    }
  }

  const WINDOW_LIMIT := 128

  /** What a client with this window is shown: GetUserListSlice with the gateway's limit. */
  function WindowOf(view: seq<Snowflake>, window: IndexRange): seq<Snowflake> {
    var bounds := SliceBounds(|view|, window.From, window.To, WINDOW_LIMIT);
    view[bounds.0..bounds.1]
  }

  /** The index of the view that entry j of a window shows. */
  function IndexOfEntry(window: IndexRange, j: nat): nat {
    (if window.From < 0 then 0 else window.From) + j
  }

  lemma WindowEntries(view: seq<Snowflake>, window: IndexRange)
    ensures forall j :: 0 <= j < |WindowOf(view, window)| ==>
              && window.Has(IndexOfEntry(window, j))
              && IndexOfEntry(window, j) < |view|
              && WindowOf(view, window)[j] == view[IndexOfEntry(window, j)]
    ensures |WindowOf(view, window)| <= WINDOW_LIMIT
  {
  }

  ghost predicate Touched(window: IndexRange, changes: seq<IndexRange>) {
    exists c :: c in changes && window.Overlaps(c)
  }

  lemma TouchedIffDeclared(window: IndexRange, changes: seq<IndexRange>)
    ensures Touched(window, changes) <==> exists i :: window.Has(i) && Declared(changes, i)
  {
    if c :| c in changes && window.Overlaps(c) {
      OverlapsIffShared(window, c);
      var i :| window.Has(i) && c.Has(i);
      assert Declared(changes, i);
    }
    if i :| window.Has(i) && Declared(changes, i) {
      var c :| c in changes && c.Has(i);
      OverlapsIffShared(window, c);
    }
  }

  /** No missed push: over a run without a pop that begins with a grouped list, if a window shows
      something else at the end than at the start, and not merely more behind the same, then a
      change waiting to be popped overlaps the window. List and infos may go stale and the list
      be rebuilt any number of times, and roles may come, go and change; only a hoist in use
      must stay hoisted, and a listed user must not be updated into a group not listed yet. */
  lemma NoMissedPush(states: seq<IndexState>, ops: seq<Op>, n: nat, window: IndexRange)
    requires IsRun(states, ops) && Grouped(states[0]) && n < |states|
    requires forall k :: 0 <= k < n ==> ops[k] != ChangesPopped && KeepsGrouped(states[k], ops[k])
    requires !(WindowOf(states[0].list.View, window) <= WindowOf(states[n].list.View, window))
    ensures Touched(window, states[n].changes)
  {
    forall k | 0 <= k < n ensures StaysInView(states[k], ops[k]) {
      RunKeepsGrouped(states, ops, k);
      if ops[k].UserUpdated? {
        GroupedStaysInView(states[k], ops[k]);
      }
    }
    var i := WindowDiffers(states[0].list.View, states[n].list.View, window);
    RunDeclaresChanges(states, ops, n, i);
    TouchedIffDeclared(window, states[n].changes);
  }

  lemma WindowDiffers(before: seq<Snowflake>, after: seq<Snowflake>, window: IndexRange) returns (i: nat)
    requires !(WindowOf(before, window) <= WindowOf(after, window))
    ensures i < |before| && window.Has(i) && Differs(before, after, i)
  {
    var bounds := SliceBounds(|before|, window.From, window.To, WINDOW_LIMIT);
    if forall j :: bounds.0 <= j < bounds.1 ==> !Differs(before, after, j) {
      SameEntriesSameWindow(before, after, window);
    }
    i :| bounds.0 <= i < bounds.1 && Differs(before, after, i);
  }

  lemma SameEntriesSameWindow(before: seq<Snowflake>, after: seq<Snowflake>, window: IndexRange)
    requires var bounds := SliceBounds(|before|, window.From, window.To, WINDOW_LIMIT);
             forall j :: bounds.0 <= j < bounds.1 ==> !Differs(before, after, j)
    ensures WindowOf(before, window) <= WindowOf(after, window)
  {
    var a := SliceBounds(|before|, window.From, window.To, WINDOW_LIMIT);
    var b := SliceBounds(|after|, window.From, window.To, WINDOW_LIMIT);
    if a.0 < a.1 {
      assert !Differs(before, after, a.1 - 1);
      BoundsInLongerView(|before|, |after|, window);
      assert forall j :: a.0 <= j < a.1 ==> !Differs(before, after, j);
      SameStretch(before, after, a.0, a.1, b.1);
    }
  }

  lemma BoundsInLongerView(m: nat, n: nat, window: IndexRange)
    requires var a := SliceBounds(m, window.From, window.To, WINDOW_LIMIT); a.0 < a.1 <= n
    ensures var a := SliceBounds(m, window.From, window.To, WINDOW_LIMIT);
            var b := SliceBounds(n, window.From, window.To, WINDOW_LIMIT);
            b.0 == a.0 && a.1 <= b.1
  {
  }

  lemma SameStretch(before: seq<Snowflake>, after: seq<Snowflake>, from: nat, to: nat, end: nat)
    requires from <= to <= |before| && to <= end <= |after|
    requires forall j :: from <= j < to ==> !Differs(before, after, j)
    ensures before[from..to] <= after[from..end]
  {
    var x, y := before[from..to], after[from..to];
    forall k | 0 <= k < |x| ensures x[k] == y[k] {
      assert !Differs(before, after, from + k);
    }
    assert x == y;
    assert after[from..end][..to - from] == after[from..to];
  }

  /** No wider than a slice may be. */
  predicate WithinLimit(window: IndexRange) {
    window.To - (if window.From < 0 then 0 else window.From) <= WINDOW_LIMIT
  }

  lemma DifferenceShows(before: seq<Snowflake>, after: seq<Snowflake>, window: IndexRange, i: nat)
    requires WithinLimit(window) && i < |before| && window.Has(i) && Differs(before, after, i)
    ensures !(WindowOf(before, window) <= WindowOf(after, window))
  {
    var j := i - IndexOfEntry(window, 0);
    WindowEntries(before, window);
    WindowEntries(after, window);
    assert j < |WindowOf(before, window)|;
  }

  /** What a rebuild records touches a window exactly when an entry the window showed is
      another now or gone. A list that only grows inside the window is not pushed. */
  lemma RebuildTouchesIff(s: IndexState, s': IndexState, window: IndexRange)
    requires Next(s, ListUpdated, s') && WithinLimit(window)
    ensures Touched(window, s'.changes[|s.changes|..]) <==>
              !(WindowOf(s.list.View, window) <= WindowOf(s'.list.View, window))
  {
    var before, after, found := s.list.View, s'.list.View, s'.changes[|s.changes|..];
    DiffDeclaresExactly(before, after, found);
    TouchedIffDeclared(window, found);
    if i :| window.Has(i) && Declared(found, i) {
      DifferenceShows(before, after, window, i);
    }
    if !(WindowOf(before, window) <= WindowOf(after, window)) {
      var i := WindowDiffers(before, after, window);
      assert Declared(found, i);
    }
  }

  /** The gap in the promise: after a new hoisted role is set and before the rebuild, an update
      that makes it a user's hoist takes the user out of the view without declaring anything. */
  lemma {:induction false} NewHoistLeavesViewSilently(s: IndexState, r: Role, s1: IndexState, u: User, s2: IndexState)
    requires Fresh(s) && !s.stale && ProperIds(s, RoleSet(r)) && r.ID !in s.roles && r.Hoisted
    requires Next(s, RoleSet(r), s1)
    requires u.ID in s.users && ProperIds(s1, UserUpdated(u)) && Next(s1, UserUpdated(u), s2)
    requires InfoOf(s1.roles, s1.defaults, u).Hoist == r.ID
    ensures u.ID in s.list.View && u.ID !in s2.list.View
    ensures s2.changes == s.changes
    ensures Differs(s.list.View, s2.list.View, FirstIndex(s.list.View, u.ID))
  {
    FreshListsKnownUsers(s, u.ID);
    FreshShowsEveryone(s);
    GroupOrderElements(s.roles, s.list.GroupOrder);
    var g1 := UserGroup(s2.users[u.ID], s2.infos[u.ID]);
    var g0, j: nat, k: nat :| Moved(s2.users, u.ID, s.list, g0, j, g1, k, s2.list);
    var common := MovedViews(s2.users, u.ID, s.list, g0, j, g1, k, s2.list);
    var p := FirstIndex(s.list.View, u.ID);
    assert p < |s2.list.View| ==> s2.list.View[p] in common;
  }
}
