/** Concrete runs and inputs on which the code does not keep what one would expect of it. The
    general conditions are in the modules these use. */
module Counterexamples {
  import opened Models
  import opened Ranks
  import opened Sorting
  import opened UserLists
  import opened Incremental
  import opened ViewChanges
  import opened UserIndex
  import opened IndexRuns
  import opened Wrappers
  import CacheRanges
  import CacheStore
  import ChannelPermissions
  import Database
  import Hierarchy
  import Paging
  import RowFolds
  import Server

  // ---------------------------------------------------------------- a push that is missed

  const FIRST := Role(10, 0, {}, true)
  const SECOND := Role(11, 5, {}, true)

  function Named(id: Snowflake, name: Text, roles: seq<Snowflake>): User {
    User(id, name, name, [], [], 0, 0, PRESENCE_OFFLINE, roles, PRESENCE_NONE)
  }

  function Alice(role: Snowflake): User { Named(20, [97], [role]) }

  const BOB := Named(21, [98], [10])

  /** Alice and Bob under the first role. */
  const BEFORE := UserList([10, 2, 1], map[10 := [20, 21], 2 := [], 1 := []], [10, 20, 21, 2, 1])

  /** Alice has the second role now, whose group is not listed yet. */
  const BETWEEN := UserList([10, 2, 1], map[10 := [21], 2 := [], 1 := [], 11 := [20]], [10, 21, 2, 1])

  const REBUILT := UserList([10, 11, 2, 1], map[10 := [21], 11 := [20], 2 := [], 1 := []], [10, 21, 11, 20, 2, 1])

  function AtFirst(): IndexState {
    IndexState({}, map[20 := Alice(10), 21 := BOB], map[20 := UserInfo(0, 10, {}), 21 := UserInfo(0, 10, {})],
               map[10 := FIRST], map[], BEFORE, false, [])
  }

  function SecondSet(): IndexState {
    IndexState({}, map[20 := Alice(10), 21 := BOB], map[20 := UserInfo(0, 10, {}), 21 := UserInfo(0, 10, {})],
               map[10 := FIRST, 11 := SECOND], map[], BEFORE, true, [])
  }

  function AliceMoved(): IndexState {
    IndexState({}, map[20 := Alice(11), 21 := BOB], map[20 := UserInfo(5, 11, {}), 21 := UserInfo(0, 10, {})],
               map[10 := FIRST, 11 := SECOND], map[], BETWEEN, true, [])
  }

  function AllRebuilt(): IndexState {
    AliceMoved().(list := REBUILT, stale := false, changes := [IndexRange(2, 4)])
  }

  lemma InfoOfOneRole(roles: RoleTable, u: User, r: Snowflake)
    requires u.Roles == [r] && r in roles && roles[r].ID == r && roles[r].Hoisted && roles[r].Position < MAX_INT
    requires roles[r].Permissions == {}
    ensures InfoOf(roles, {}, u) == UserInfo(roles[r].Position, r, {})
  {
    var ids := u.Roles;
    assert ids[..|ids| - 1] == [] && ids[|ids| - 1] == r;
    assert RankOf(roles, []) == MAX_INT && BestHoist(roles, []) == Hoist(MAX_INT, 0);
    assert RolePermissions(roles, {}, []) == {};
    assert RankOf(roles, ids) == roles[r].Position;
    assert BestHoist(roles, ids).role == r;
    assert RolePermissions(roles, {}, ids) == {};
  }

  lemma FlattenOf(order: seq<Snowflake>, groups: Groups, head: Snowflake, rest: seq<Snowflake>)
    requires order == [head] + rest
    ensures Flatten(order, groups) == [head] + GroupOf(groups, head) + Flatten(rest, groups)
  {
    assert order[1..] == rest;
  }

  /** A rebuild where every group has at most two users. */
  lemma SmallRebuild(s: IndexState, list: UserList)
    requires IsGroupOrder(s.roles, list.GroupOrder) && list.View == Flatten(list.GroupOrder, list.Groups)
    requires forall g :: g in list.GroupOrder ==> g in list.Groups && |list.Groups[g]| <= 2
    requires forall g :: g in list.Groups && |list.Groups[g]| == 2 ==>
              Precedes(s.users, list.Groups[g][0], list.Groups[g][1])
    requires forall g :: Lists(s.users, s.infos, g, GroupOf(list.Groups, g))
    ensures IsRebuild(s.users, s.infos, s.roles, list)
  {
    forall g | g in list.GroupOrder ensures Ordered(s.users, list.Groups[g]) {
      ShortIsOrdered(s.users, list.Groups[g]);
    }
  }

  lemma ShortIsOrdered(users: Users, s: seq<Snowflake>)
    requires |s| <= 2 && (|s| == 2 ==> Precedes(users, s[0], s[1]))
    ensures Ordered(users, s)
  {
  }

  lemma BeforeOrder()
    ensures IsGroupOrder(AtFirst().roles, [10, 2, 1])
  {
    assert [10, 2, 1][1..] == [2, 1] && [10, 2, 1][..1] == [10];
  }

  lemma BeforeGroups()
    ensures var s := AtFirst(); forall g :: Lists(s.users, s.infos, g, GroupOf(BEFORE.Groups, g))
  {
    var s := AtFirst();
    forall g ensures Lists(s.users, s.infos, g, GroupOf(BEFORE.Groups, g)) {
      assert forall id :: BelongsTo(s.users, s.infos, g, id) <==> g == 10 && (id == 20 || id == 21);
    }
  }

  lemma BeforeIsRebuild()
    ensures var s := AtFirst(); IsRebuild(s.users, s.infos, s.roles, s.list)
  {
    var s := AtFirst();
    BeforeView();
    BeforeOrder();
    BeforeGroups();
    assert Precedes(s.users, 20, 21);
    SmallRebuild(s, BEFORE);
  }

  lemma BeforeView()
    ensures Flatten([10, 2, 1], BEFORE.Groups) == BEFORE.View
  {
    FlattenOf([10, 2, 1], BEFORE.Groups, 10, [2, 1]);
    FlattenOf([2, 1], BEFORE.Groups, 2, [1]);
    FlattenOf([1], BEFORE.Groups, 1, []);
  }

  lemma RebuiltOrder()
    ensures IsGroupOrder(AliceMoved().roles, [10, 11, 2, 1])
  {
    assert [10, 11, 2, 1][2..] == [2, 1] && [10, 11, 2, 1][..2] == [10, 11];
  }

  lemma RebuiltIsRebuild()
    ensures var s := AliceMoved(); IsRebuild(s.users, s.infos, s.roles, REBUILT)
  {
    var s := AliceMoved();
    RebuiltView();
    RebuiltOrder();
    RebuiltGroups();
    SmallRebuild(s, REBUILT);
  }

  lemma RebuiltGroups()
    ensures var s := AliceMoved(); forall g :: Lists(s.users, s.infos, g, GroupOf(REBUILT.Groups, g))
  {
    var s := AliceMoved();
    forall g ensures Lists(s.users, s.infos, g, GroupOf(REBUILT.Groups, g)) {
      assert forall id :: BelongsTo(s.users, s.infos, g, id) <==> (g == 10 && id == 21) || (g == 11 && id == 20);
    }
  }

  lemma RebuiltView()
    ensures Flatten([10, 11, 2, 1], REBUILT.Groups) == REBUILT.View
  {
    FlattenOf([10, 11, 2, 1], REBUILT.Groups, 10, [11, 2, 1]);
    FlattenOf([11, 2, 1], REBUILT.Groups, 11, [2, 1]);
    FlattenOf([2, 1], REBUILT.Groups, 2, [1]);
    FlattenOf([1], REBUILT.Groups, 1, []);
  }

  lemma AliceMoves()
    ensures var s := AliceMoved(); Moved(s.users, 20, BEFORE, 10, 0, 11, 0, BETWEEN)
  {
    var groups := BETWEEN.Groups;
    FlattenOf([10, 2, 1], groups, 10, [2, 1]);
    FlattenOf([2, 1], groups, 2, [1]);
    FlattenOf([1], groups, 1, []);
    assert RemoveAt([20, 21], 0) == [21];
    assert InsertAt([], 0, 20) == [20];
  }

  lemma RebuiltDiff()
    ensures IsDiff(BETWEEN.View, REBUILT.View, [IndexRange(2, 4)])
  {
    OneRunIsDiff([10, 21, 2, 1], [10, 21, 11, 20, 2, 1], 2);
  }

  /** Everything from `from` on changed or went, nothing before it did. */
  lemma OneRunIsDiff(before: seq<Snowflake>, after: seq<Snowflake>, from: nat)
    requires from < |before| && forall i :: 0 <= i < |before| ==> (Differs(before, after, i) <==> i >= from)
    ensures IsDiff(before, after, [IndexRange(from, |before|)])
  {
    var c := IndexRange(from, |before|);
    DeclaredOne([], c);
    assert [] + [c] == [c] && [c][..1] == [c];
  }

  lemma FirstInfos()
    ensures var s := AtFirst();
            FreshInfos(s) && DisjointIds(s.users, s.roles) && ValidRoles(s.roles) && s.infos.Keys == s.users.Keys
  {
    InfoOfOneRole(AtFirst().roles, Alice(10), 10);
    InfoOfOneRole(AtFirst().roles, BOB, 10);
  }

  lemma StartsFresh()
    ensures Fresh(AtFirst()) && !AtFirst().stale
  {
    FirstInfos();
    BeforeIsRebuild();
    RebuildIsConsistent(AtFirst());
  }

  lemma LeavingIsNotRecorded(before: seq<Snowflake>, after: seq<Snowflake>, id: Snowflake)
    requires id !in after
    ensures MoveChanges(before, after, id) == []
  {
    assert FirstIndex(after, id) == -1;
  }

  lemma MovedBetween(users: Users, infos: UserInfos)
    requires 20 in users && 20 in infos && UserGroup(users[20], infos[20]) == 11
    requires Moved(users, 20, BEFORE, 10, 0, 11, 0, BETWEEN)
    ensures Repositioned(users, infos, 20, BEFORE, BETWEEN) && RepositionChanges(users, 20, BEFORE, BETWEEN) == []
  {
    MoveRepositions(users, infos, 20, BEFORE, 10, 0, BETWEEN);
    LeavingIsNotRecorded(BEFORE.View, BETWEEN.View, 20);
  }

  lemma AliceStored()
    ensures AliceMoved().users == SecondSet().users[20 := ProcessUser(Alice(11))]
    ensures AliceMoved().infos == SecondSet().infos[20 := InfoOf(SecondSet().roles, SecondSet().defaults, Alice(11))]
  {
    InfoOfOneRole(SecondSet().roles, Alice(11), 11);
  }

  lemma AliceUpdated()
    ensures Next(SecondSet(), UserUpdated(Alice(11)), AliceMoved())
  {
    AliceStored();
    AliceMoves();
    MovedBetween(AliceMoved().users, AliceMoved().infos);
    UpdateIsStep(SecondSet(), Alice(11), AliceMoved());
  }

  lemma RebuildIsStep(s: IndexState, list: UserList, found: seq<IndexRange>, s': IndexState)
    requires IsRebuild(s.users, s.infos, s.roles, list) && IsDiff(s.list.View, list.View, found)
    requires s' == s.(list := list, stale := false, changes := s.changes + found)
    ensures Next(s, ListUpdated, s')
  {
    assert s'.changes[..|s.changes|] == s.changes && s'.changes[|s.changes|..] == found;
  }

  lemma RebuiltState()
    ensures var s := AliceMoved();
            AllRebuilt() == s.(list := REBUILT, stale := false, changes := s.changes + [IndexRange(2, 4)])
  {
    assert [] + [IndexRange(2, 4)] == [IndexRange(2, 4)];
  }

  lemma ListRebuilt()
    ensures Next(AliceMoved(), ListUpdated, AllRebuilt())
  {
    RebuiltIsRebuild();
    RebuiltDiff();
    RebuiltState();
    RebuildIsStep(AliceMoved(), REBUILT, [IndexRange(2, 4)], AllRebuilt());
  }

  lemma SecondRoleAppears()
    ensures Next(AtFirst(), RoleSet(SECOND), SecondSet())
  {
    assert map[10 := FIRST][11 := SECOND] == map[10 := FIRST, 11 := SECOND];
  }

  lemma TwoSteps(s0: IndexState, a: Op, s1: IndexState, b: Op, s2: IndexState)
    requires ProperIds(s0, a) && Next(s0, a, s1) && ProperIds(s1, b) && Next(s1, b, s2)
    ensures IsRun([s0, s1, s2], [a, b])
  {
  }

  lemma OneMore(states: seq<IndexState>, ops: seq<Op>, op: Op, s: IndexState)
    requires IsRun(states, ops) && ProperIds(states[|ops|], op) && Next(states[|ops|], op, s)
    ensures IsRun(states + [s], ops + [op])
  {
  }

  lemma MissedPushIsProper()
    ensures ProperIds(AtFirst(), RoleSet(SECOND)) && ProperIds(SecondSet(), UserUpdated(Alice(11)))
  {
  }

  lemma TwoOfThree()
    ensures IsRun([AtFirst(), SecondSet(), AliceMoved()], [RoleSet(SECOND), UserUpdated(Alice(11))])
  {
    MissedPushIsProper();
    SecondRoleAppears();
    AliceUpdated();
    TwoSteps(AtFirst(), RoleSet(SECOND), SecondSet(), UserUpdated(Alice(11)), AliceMoved());
  }

  lemma MissedPushIsRun()
    ensures IsRun([AtFirst(), SecondSet(), AliceMoved()] + [AllRebuilt()],
              [RoleSet(SECOND), UserUpdated(Alice(11))] + [ListUpdated])
  {
    TwoOfThree();
    ListRebuilt();
    OneMore([AtFirst(), SecondSet(), AliceMoved()], [RoleSet(SECOND), UserUpdated(Alice(11))], ListUpdated,
        AllRebuilt());
  }

  /** Within one rebuild interval: the second role appears and Alice gets it instead of the
      first. A client looking at the first two entries saw Alice and should see Bob, but
      nothing recorded overlaps its window. */
  lemma MissedPush()
    ensures IsRun([AtFirst(), SecondSet(), AliceMoved(), AllRebuilt()],
              [RoleSet(SECOND), UserUpdated(Alice(11)), ListUpdated])
    ensures var window := IndexRange(0, 2);
            && WindowOf(AtFirst().list.View, window) == [10, 20]
            && WindowOf(AllRebuilt().list.View, window) == [10, 21]
            && !Touched(window, AllRebuilt().changes)
  {
    MissedPushIsRun();
    assert [AtFirst(), SecondSet(), AliceMoved()] + [AllRebuilt()] ==
        [AtFirst(), SecondSet(), AliceMoved(), AllRebuilt()];
    assert [RoleSet(SECOND), UserUpdated(Alice(11))] + [ListUpdated] ==
        [RoleSet(SECOND), UserUpdated(Alice(11)), ListUpdated];
  }

  // ---------------------------------------------------------------- a small list

  /** Nobody is online and no role is hoisted. */
  function OfflineList(users: seq<Snowflake>): UserList {
    UserList([2, 1], map[2 := [], 1 := users], [2, 1] + users)
  }

  lemma OfflineView(groups: Groups, users: seq<Snowflake>)
    requires GroupOf(groups, 2) == [] && GroupOf(groups, 1) == users
    ensures Flatten([2, 1], groups) == [2, 1] + users
  {
    FlattenOf([2, 1], groups, 2, [1]);
    FlattenOf([1], groups, 1, []);
  }

  lemma NothingHoisted(roles: RoleTable)
    requires forall r :: !Hoistable(roles, r)
    ensures IsGroupOrder(roles, [2, 1])
  {
    assert [2, 1][0..] == [2, 1] && [2, 1][..0] == [];
  }

  lemma NoHoist(roles: RoleTable, defaults: Permissions, u: User)
    requires ValidRoles(roles) && forall r :: !Hoistable(roles, r)
    ensures InfoOf(roles, defaults, u).Hoist == 0
  {
    HoistIsFirstMinimum(roles, u.Roles);
  }

  /** Everyone is offline and in name order. */
  lemma OfflineIsRebuild(users: Users, infos: UserInfos, roles: RoleTable, ids: seq<Snowflake>)
    requires forall r :: !Hoistable(roles, r)
    requires infos.Keys == users.Keys && forall id :: id in users <==> id in ids
    requires forall id :: id in users ==> UserGroup(users[id], infos[id]) == PRESENCE_OFFLINE
    requires Distinct(ids) && Ordered(users, ids)
    ensures IsRebuild(users, infos, roles, OfflineList(ids))
  {
    var list := OfflineList(ids);
    NothingHoisted(roles);
    OfflineView(list.Groups, ids);
    forall g ensures Lists(users, infos, g, GroupOf(list.Groups, g)) {
      assert GroupOf(list.Groups, g) == if g == 1 then ids else [];
    }
  }

  /** An index without roles. */
  function SmallIndex(defaults: Permissions, users: Users, infos: UserInfos, list: UserList, stale: bool,
                      changes: seq<IndexRange>): IndexState
  {
    IndexState(defaults, users, infos, map[], map[], list, stale, changes)
  }

  function Empty(defaults: Permissions): IndexState {
    SmallIndex(defaults, map[], map[], OfflineList([]), false, [])
  }

  lemma OfflineIsFresh(s: IndexState, ids: seq<Snowflake>)
    requires ValidRoles(s.roles) && DisjointIds(s.users, s.roles) && forall r :: !Hoistable(s.roles, r)
    requires s.infos.Keys == s.users.Keys && FreshInfos(s)
    requires forall id :: id in s.users <==> id in ids
    requires forall id :: id in s.users ==> s.users[id].Presence == PRESENCE_OFFLINE
    requires Distinct(ids) && Ordered(s.users, ids) && s.list == OfflineList(ids)
    ensures Fresh(s)
  {
    forall id | id in s.users ensures UserGroup(s.users[id], s.infos[id]) == PRESENCE_OFFLINE {
      NoHoist(s.roles, s.defaults, s.users[id]);
    }
    OfflineIsRebuild(s.users, s.infos, s.roles, ids);
    RebuildHasShape(s.users, s.infos, s.roles, s.list);
  }

  lemma EmptyIsFresh(defaults: Permissions)
    ensures Fresh(Empty(defaults)) && !Empty(defaults).stale
  {
    OfflineIsFresh(Empty(defaults), []);
  }

  const CAROL := Named(30, [99], [])

  /** Carol is known to the index. */
  function WithCarol(defaults: Permissions, list: UserList, stale: bool, changes: seq<IndexRange>): IndexState {
    SmallIndex(defaults, map[30 := CAROL], map[30 := InfoOf(map[], defaults, CAROL)], list, stale, changes)
  }

  lemma CarolIsStored(defaults: Permissions)
    ensures ProcessUser(CAROL) == CAROL
    ensures var s, s' := Empty(defaults), WithCarol(defaults, OfflineList([]), false, []);
            s'.users == s.users[30 := CAROL] && s'.infos == s.infos[30 := InfoOf(s.roles, s.defaults, CAROL)]
  {
  }

  lemma CarolIsProper(defaults: Permissions)
    ensures ProperIds(Empty(defaults), UserUpdated(CAROL)) && ProperIds(Empty(defaults), UserAdded(CAROL))
    ensures CAROL.ID !in Empty(defaults).users
  {
  }

  lemma CarolUpdated(defaults: Permissions)
    ensures Next(Empty(defaults), UserUpdated(CAROL), WithCarol(defaults, OfflineList([]), false, []))
  {
    CarolIsStored(defaults);
    assert !Listed(Empty(defaults).list, 30);
    UpdateIsStep(Empty(defaults), CAROL, WithCarol(defaults, OfflineList([]), false, []));
  }

  /** Carol is updated on the fresh empty index: she is stored, not shown, and the list, no
      rebuild of the users any more, is not marked stale. */
  lemma UnknownUserIsNotListed(defaults: Permissions)
    ensures var s := WithCarol(defaults, OfflineList([]), false, []);
            && Next(Empty(defaults), UserUpdated(CAROL), s)
            && 30 in s.users && 30 !in s.list.View && !s.stale && !Fresh(s)
  {
    CarolUpdated(defaults);
    StrayIsNotFresh(WithCarol(defaults, OfflineList([]), false, []));
  }

  lemma StrayIsNotFresh(s: IndexState)
    requires 30 in s.users && !s.stale && s.list == OfflineList([])
    ensures !Fresh(s)
  {
    if Fresh(s) {
      FreshListsKnownUsers(s, 30);
    }
  }

  // ---------------------------------------------------------------- growth is not pushed

  function Joined(defaults: Permissions): IndexState {
    WithCarol(defaults, OfflineList([]), true, [])
  }

  function Shown(defaults: Permissions): IndexState {
    WithCarol(defaults, OfflineList([30]), false, [IndexRange(2, 2)])
  }

  lemma CarolJoins(defaults: Permissions)
    ensures Next(Empty(defaults), UserAdded(CAROL), Joined(defaults))
  {
    CarolIsStored(defaults);
  }

  lemma GrowthIsMarked()
    ensures IsDiff(OfflineList([]).View, OfflineList([30]).View, [IndexRange(2, 2)])
  {
    var marker := [IndexRange(2, 2)];
    assert marker[..0] == [] && marker[0..] == marker;
  }

  lemma NewUserIsShown(s: IndexState, s': IndexState)
    requires s.roles == map[] && s.list == OfflineList([]) && s.changes == []
    requires s.users.Keys == {30} && s.infos.Keys == {30}
    requires s.users[30].Presence == PRESENCE_OFFLINE && s.infos[30].Hoist == 0
    requires s' == s.(list := OfflineList([30]), stale := false, changes := [IndexRange(2, 2)])
    ensures Next(s, ListUpdated, s')
  {
    assert [] + [IndexRange(2, 2)] == [IndexRange(2, 2)];
    OfflineIsRebuild(s.users, s.infos, s.roles, [30]);
    GrowthIsMarked();
    RebuildIsStep(s, OfflineList([30]), [IndexRange(2, 2)], s');
  }

  lemma CarolIsShown(defaults: Permissions)
    ensures Next(Joined(defaults), ListUpdated, Shown(defaults))
  {
    NoHoist(map[], defaults, CAROL);
    NewUserIsShown(Joined(defaults), Shown(defaults));
  }

  lemma WindowGrows(window: IndexRange, before: seq<Snowflake>, after: seq<Snowflake>)
    requires window == IndexRange(0, 10) && |before| <= 10 && |after| <= 10
    ensures WindowOf(before, window) == before && WindowOf(after, window) == after
    ensures !Touched(window, [IndexRange(2, 2)])
  {
  }

  /** Carol joins the fresh empty index, and the next rebuild shows her at the end. A client
      looking at the first ten entries should see her, but nothing recorded overlaps its window. */
  lemma GrowthIsNotPushed(defaults: Permissions)
    ensures IsRun([Empty(defaults), Joined(defaults), Shown(defaults)], [UserAdded(CAROL), ListUpdated])
    ensures var window := IndexRange(0, 10);
            && WindowOf(Empty(defaults).list.View, window) == [2, 1]
            && WindowOf(Shown(defaults).list.View, window) == [2, 1, 30]
            && !Touched(window, Shown(defaults).changes)
  {
    CarolIsProper(defaults);
    CarolJoins(defaults);
    CarolIsShown(defaults);
    TwoSteps(Empty(defaults), UserAdded(CAROL), Joined(defaults), ListUpdated, Shown(defaults));
    WindowGrows(IndexRange(0, 10), [2, 1], [2, 1, 30]);
  }

  // ---------------------------------------------------------------- a hoist taken away

  const UNHOISTED := FIRST.(Hoisted := false)

  /** What a rebuild leaves when the infos still name the first role. */
  const DROPPED := UserList([2, 1], map[2 := [], 1 := [], 10 := [20, 21]], [2, 1])

  lemma DroppedGroups(s: IndexState)
    requires s.users == AtFirst().users && s.infos == AtFirst().infos
    ensures forall g :: Lists(s.users, s.infos, g, GroupOf(DROPPED.Groups, g))
  {
    forall g ensures Lists(s.users, s.infos, g, GroupOf(DROPPED.Groups, g)) {
      assert forall id :: BelongsTo(s.users, s.infos, g, id) <==> g == 10 && (id == 20 || id == 21);
    }
  }

  lemma DroppedIsRebuild(s: IndexState)
    requires s.users == AtFirst().users && s.infos == AtFirst().infos
    requires forall r :: !Hoistable(s.roles, r)
    ensures IsRebuild(s.users, s.infos, s.roles, DROPPED)
  {
    NothingHoisted(s.roles);
    OfflineView(DROPPED.Groups, []);
    DroppedGroups(s);
    assert Precedes(s.users, 20, 21);
    SmallRebuild(s, DROPPED);
  }

  lemma EverythingChanged()
    ensures IsDiff(BEFORE.View, DROPPED.View, [IndexRange(0, 5)])
  {
    OneRunIsDiff([10, 20, 21, 2, 1], [2, 1], 0);
  }

  lemma RoleGone(op: Op, s1: IndexState)
    requires op == RoleSet(UNHOISTED) || op == RoleDeleted(10)
    requires Next(AtFirst(), op, s1)
    ensures s1.users == AtFirst().users && s1.infos == AtFirst().infos
    ensures s1.list == BEFORE && s1.changes == [] && forall r :: !Hoistable(s1.roles, r)
  {
  }

  /** Alice and Bob are shown under the first role. It is unhoisted, or deleted, and the next
      rebuild shows neither of them. */
  lemma UnhoistingDropsAlice(op: Op, s1: IndexState, s2: IndexState)
    requires op == RoleSet(UNHOISTED) || op == RoleDeleted(10)
    requires Next(AtFirst(), op, s1)
    requires s2 == s1.(list := DROPPED, stale := false, changes := [IndexRange(0, 5)])
    ensures Next(s1, ListUpdated, s2)
    ensures 20 in BEFORE.View && 21 in BEFORE.View && 20 !in s2.list.View && 21 !in s2.list.View
  {
    RoleGone(op, s1);
    DropIsStep(s1, s2);
  }

  lemma DropIsStep(s1: IndexState, s2: IndexState)
    requires s1.users == AtFirst().users && s1.infos == AtFirst().infos
    requires s1.list == BEFORE && s1.changes == [] && forall r :: !Hoistable(s1.roles, r)
    requires s2 == s1.(list := DROPPED, stale := false, changes := [IndexRange(0, 5)])
    ensures Next(s1, ListUpdated, s2)
  {
    DroppedIsRebuild(s1);
    EverythingChanged();
    assert [] + [IndexRange(0, 5)] == [IndexRange(0, 5)];
    RebuildIsStep(s1, DROPPED, [IndexRange(0, 5)], s2);
  }

  // ---------------------------------------------------------------- cache requests

  /** A writer closed at byte 5 before its first byte. A request for bytes 3 to 8, all
      uncached, is cut there although the miss goes on. */
  lemma EmptyRangeCutsMiss()
    ensures var ranges := [CacheRanges.CacheRangeSpec(5, 4)];
            && CacheRanges.Canonical(ranges)
            && CacheRanges.Answer(ranges, CacheRanges.CacheRangeSpec(3, 8), 8, false, CacheRanges.CacheRangeSpec(3, 4))
            && CacheRanges.Extendable(ranges, 8, false, CacheRanges.CacheRangeSpec(3, 4))
  {
    var empty := CacheRanges.CacheRangeSpec(5, 4);
    var ranges := [empty];
    assert empty in ranges;
    assert forall b :: !CacheRanges.Covers(ranges, b);
    assert CacheRanges.Uniform(ranges, false, CacheRanges.CacheRangeSpec(3, 8));
  }

  /** Five bytes, all cached. A request for everything from byte 10 on is answered as a hit
      whose length is -5. */
  lemma InvertedRequestHits()
    ensures var ranges := [CacheRanges.CacheRangeSpec(0, 4)];
            var request := CacheRanges.CacheRangeSpec(10, -1);
            && CacheRanges.Canonical(ranges)
            && CacheRanges.Answer(ranges, request, CacheRanges.ResolvedEnd(5, request), true,
                 CacheRanges.CacheRangeSpec(10, 4))
  {
    var r := CacheRanges.CacheRangeSpec(0, 4);
    assert r in [r] && CacheRanges.HasByte(r, 4);
  }

  /** Three of five bytes are cached. A request without a range header is promised five bytes
      and sent three. */
  method CachedPrefixCutsShort() returns (resp: CacheStore.Response)
    ensures resp == CacheStore.Full("text/plain", 5, [1, 2, 3])
  {
    var cached := CacheRanges.CacheRangeSpec(0, 2);
    var cacheFile := new CacheStore.SparseFile();
    var metaFile := new CacheStore.MetadataFile();
    cacheFile.bytes := [1, 2, 3];
    metaFile.content := Some(CacheRanges.CacheMetadata("text/plain", 5, [cached]));
    ghost var ranges := [cached];
    assert cached in ranges;
    assert CacheRanges.HasByte(cached, 0) && CacheRanges.HasByte(cached, 1) && CacheRanges.HasByte(cached, 2);
    assert forall b :: CacheRanges.Covers(ranges, b) <==> 0 <= b <= 2;
    resp := CacheStore.TryServeCached(cacheFile, metaFile, None, [1, 2, 3, 4, 5]);
    assert !CacheRanges.Covers(ranges, 3) && ranges == metaFile.content.value.Ranges;
    assert |resp.body| == 3;
  }

  // ---------------------------------------------------------------- pages

  function Post(id: Snowflake): Paging.Message { Paging.Message(id, 0, 1, 0, false, 20, 0, [], 0) }

  /** Messages 5 and 7 of channel 1. */
  const POSTS: Paging.MessageTable := map[5 := Post(5), 7 := Post(7)]

  /** What surrounds the missing message 6 has an empty message in the middle. */
  lemma MissingAnchorLeavesHole()
    ensures Paging.ValidTable(POSTS) && Paging.IsHistory(POSTS, 1, [5, 7])
    ensures Paging.Surrounds(POSTS, 1, 6, 10, [5, 0, 7]) && !Paging.IsSegment([5, 7], [5, 0, 7])
  {
    assert Paging.IsPage(POSTS, 1, 6, 10, true, [5]);
    assert Paging.IsPage(POSTS, 1, 6, 10, false, [7]);
    assert [5] + [0] + [7] == [5, 0, 7];
    Paging.TwoSidedIsSegmentIff(POSTS, 1, [5, 7], 6, 10, [5, 0, 7]);
  }

  /** With limit 0 the first page is empty and paging is over. */
  lemma LimitZeroEndsPaging()
    ensures Paging.IsHistory(POSTS, 1, [5, 7])
    ensures Paging.BackwardWalk(POSTS, 1, 0, 0, [[]]) && Paging.Ended([[]]) && Paging.JoinBackward([[]]) == []
  {
    assert Paging.IsPage(POSTS, 1, 0, 0, true, []);
    assert Paging.JoinBackward([[]][1..]) == [];
  }

  // ---------------------------------------------------------------- crossing index updates

  const MANAGER_ROLE := Role(10, 0, {MANAGE_ROLES}, false)
  const ROLES: RoleTable := map[10 := MANAGER_ROLE, 11 := Role(11, 5, {}, false), 12 := Role(12, 6, {}, false)]

  /** Dave may manage roles; Alice has these. */
  const DAVE := Named(21, [98], [10])

  function AliceWith(roles: seq<Snowflake>): User { Named(20, [97], roles) }

  function CrossingTables(defaults: Permissions, roles: seq<Snowflake>): Database.Tables {
    Database.Tables(defaults, map[20 := AliceWith(roles), 21 := DAVE], ROLES, map[])
  }

  function CrossingIndex(defaults: Permissions, roles: seq<Snowflake>, changes: seq<IndexRange>): IndexState {
    IndexState(defaults, map[20 := AliceWith(roles), 21 := DAVE],
               map[20 := InfoOf(ROLES, defaults, AliceWith(roles)), 21 := InfoOf(ROLES, defaults, DAVE)],
               ROLES, map[], OfflineList([20, 21]), false, changes)
  }

  const MOVED := [IndexRange(2, 3)]

  /** Dave gives Alice role 11, and then role 12. */
  const FIRST_REQUEST := Hierarchy.AddRole(21, 20, 11)
  const SECOND_REQUEST := Hierarchy.AddRole(21, 20, 12)
  const FIRST_COMMIT := Server.Commit(AliceWith([11]), Some(11))
  const SECOND_COMMIT := Server.Commit(AliceWith([11, 12]), Some(12))

  function CrossingStart(defaults: Permissions): Server.State {
    Server.State(CrossingTables(defaults, []).users, CrossingTables(defaults, []),
        CrossingIndex(defaults, [], []), [], {}, map[])
  }

  lemma DaveMay(defaults: Permissions, roles: seq<Snowflake>, r: Snowflake)
    requires r == 11 || r == 12
    requires r !in roles && forall q :: q in roles ==> q == 11 || q == 12
    ensures Hierarchy.Decide(CrossingTables(defaults, roles), Hierarchy.AddRole(21, 20, r)) == Hierarchy.Done
  {
    RankIsMinimum(ROLES, roles);
    RankIsMinimum(ROLES, [10]);
    RolePermissionsAreUnion(ROLES, defaults, [10]);
    assert Holds(ROLES, [10], 10);
    assert MANAGE_ROLES in RolePermissions(ROLES, defaults, [10]);
    assert RankOf(ROLES, [10]) == 0 && RankOf(ROLES, roles) > 0;
  }

  lemma RoleIsCommitted(defaults: Permissions, before: seq<Snowflake>, r: Snowflake, after: seq<Snowflake>,
                        s: Server.State, s': Server.State)
    requires (r == 11 || r == 12) && r !in before && forall q :: q in before ==> q == 11 || q == 12
    requires after == before + [r] && s.tables == CrossingTables(defaults, before)
    requires s' == s.(tables := CrossingTables(defaults, after),
                      log := s.log + [Server.Commit(AliceWith(after), Some(r))],
                      pending := s.pending + {|s.log|})
    ensures Server.Next(s, Server.RoleCommitted(Hierarchy.AddRole(21, 20, r)), s')
  {
    DaveMay(defaults, before, r);
    assert s.tables.users[20 := AliceWith(after)] == CrossingTables(defaults, after).users;
    assert Hierarchy.Toggled(AliceWith(before), Hierarchy.AddRole(21, 20, r), AliceWith(after));
  }

  lemma AliceStaysListed(users: Users)
    requires 20 in users && 21 in users && users[20].DisplayName == [97] && users[21].DisplayName == [98]
    ensures Moved(users, 20, OfflineList([20, 21]), 1, 0, 1, 0, OfflineList([20, 21]))
    ensures MoveChanges(OfflineList([20, 21]).View, OfflineList([20, 21]).View, 20) == MOVED
  {
    var list := OfflineList([20, 21]);
    OfflineView(list.Groups, [20, 21]);
    assert RemoveAt([20, 21], 0) == [21] && InsertAt([21], 0, 20) == [20, 21];
    assert Without(list, 1, 0)[1 := [20, 21]] == list.Groups;
    FirstIndexUnique(list.View, 20, 2, FirstIndex(list.View, 20));
  }

  /** Alice's update leaves her where she was in the list. */
  lemma AliceStays(defaults: Permissions, before: seq<Snowflake>, after: seq<Snowflake>, changes: seq<IndexRange>)
    ensures Next(CrossingIndex(defaults, before, changes), UserUpdated(AliceWith(after)),
                 CrossingIndex(defaults, after, changes + MOVED))
  {
    var u := AliceWith(after);
    var s, s' := CrossingIndex(defaults, before, changes), CrossingIndex(defaults, after, changes + MOVED);
    NoHoist(ROLES, defaults, u);
    AliceStaysListed(s'.users);
    assert ProcessUser(u) == u;
    assert s'.users == s.users[20 := u] && s'.infos == s.infos[20 := InfoOf(ROLES, defaults, u)];
    assert UserGroup(s'.users[20], s'.infos[20]) == 1;
    assert Moved(s'.users, 20, s.list, 1, 0, UserGroup(s'.users[20], s'.infos[20]), 0, s.list);
    MoveRepositions(s'.users, s'.infos, 20, s.list, 1, 0, s.list);
    UpdateIsStep(s, u, s');
  }

  /** Update n, with these roles, is applied to the index. */
  lemma UpdateApplied(defaults: Permissions, before: seq<Snowflake>, changes: seq<IndexRange>, n: nat,
                      after: seq<Snowflake>, s: Server.State, s': Server.State)
    requires s.index == CrossingIndex(defaults, before, changes)
    requires n in s.pending && n < |s.log| && s.log[n].user == AliceWith(after)
    requires s' == s.(index := CrossingIndex(defaults, after, changes + MOVED), pending := s.pending - {n},
                      applied := s.applied[20 := n])
    ensures Server.Next(s, Server.IndexUpdated(n), s')
  {
    AliceStays(defaults, before, after, changes);
  }

  lemma CrossingIds(defaults: Permissions)
    ensures var s := CrossingIndex(defaults, [], []);
            && ValidRoles(s.roles) && DisjointIds(s.users, s.roles) && (forall r :: !Hoistable(s.roles, r))
            && s.infos.Keys == s.users.Keys && FreshInfos(s)
            && (forall id :: id in s.users <==> id in [20, 21])
            && (forall id :: id in s.users ==> s.users[id].Presence == PRESENCE_OFFLINE)
  {
  }

  lemma OrderedPair(users: Users, a: Snowflake, b: Snowflake)
    requires Precedes(users, a, b) && a != b
    ensures Ordered(users, [a, b]) && Distinct([a, b])
  {
  }

  lemma CrossingIndexIsFresh(defaults: Permissions)
    ensures Fresh(CrossingIndex(defaults, [], []))
  {
    CrossingIds(defaults);
    OrderedPair(CrossingIndex(defaults, [], []).users, 20, 21);
    OfflineIsFresh(CrossingIndex(defaults, [], []), [20, 21]);
  }

  lemma CrossingStarts(defaults: Permissions)
    ensures Server.Start(CrossingStart(defaults))
  {
    CrossingIndexIsFresh(defaults);
  }

  lemma BothCommitted(defaults: Permissions) returns (s1: Server.State, s2: Server.State)
    ensures Server.Next(CrossingStart(defaults), Server.RoleCommitted(FIRST_REQUEST), s1)
    ensures Server.Next(s1, Server.RoleCommitted(SECOND_REQUEST), s2)
    ensures s2.tables == CrossingTables(defaults, [11, 12]) && s2.index == CrossingIndex(defaults, [], [])
    ensures s2.log == [FIRST_COMMIT, SECOND_COMMIT] && s2.pending == {0, 1}
  {
    var s := CrossingStart(defaults);
    s1 := s.(tables := CrossingTables(defaults, [11]), log := s.log + [FIRST_COMMIT], pending := s.pending + {|s.log|});
    RoleIsCommitted(defaults, [], 11, [11], s, s1);
    s2 := s1.(tables := CrossingTables(defaults, [11, 12]), log := s1.log + [SECOND_COMMIT],
              pending := s1.pending + {|s1.log|});
    RoleIsCommitted(defaults, [11], 12, [11, 12], s1, s2);
  }

  lemma BothApplied(defaults: Permissions, s2: Server.State) returns (s3: Server.State, s4: Server.State)
    requires s2.index == CrossingIndex(defaults, [], [])
    requires s2.log == [FIRST_COMMIT, SECOND_COMMIT] && s2.pending == {0, 1}
    ensures Server.Next(s2, Server.IndexUpdated(1), s3) && Server.Next(s3, Server.IndexUpdated(0), s4)
    ensures s4.tables == s2.tables && s4.index == CrossingIndex(defaults, [11], MOVED + MOVED) && s4.pending == {}
  {
    s3 := s2.(index := CrossingIndex(defaults, [11, 12], MOVED), pending := s2.pending - {1},
              applied := s2.applied[20 := 1]);
    assert [] + MOVED == MOVED;
    UpdateApplied(defaults, [], [], 1, [11, 12], s2, s3);
    s4 := s3.(index := CrossingIndex(defaults, [11], MOVED + MOVED), pending := s3.pending - {0},
              applied := s3.applied[20 := 0]);
    UpdateApplied(defaults, [11, 12], MOVED, 0, [11], s3, s4);
  }

  lemma RoleNotMirrored(defaults: Permissions, changes: seq<IndexRange>)
    ensures var s, t := CrossingIndex(defaults, [11], changes), CrossingTables(defaults, [11, 12]);
            12 in t.users[20].Roles && 12 !in s.users[20].Roles && !ChannelPermissions.Mirrors(s, t)
  {
  }

  /** Two requests give Alice roles 11 and 12. The first commits before the second, and the
      second updates the index before the first. Nothing is outstanding then, and the index
      does not know of role 12. */
  lemma CrossedUpdatesDisagree(defaults: Permissions)
    returns (s1: Server.State, s2: Server.State, s3: Server.State, s4: Server.State)
    ensures Server.Next(CrossingStart(defaults), Server.RoleCommitted(FIRST_REQUEST), s1)
    ensures Server.Next(s1, Server.RoleCommitted(SECOND_REQUEST), s2)
    ensures Server.Next(s2, Server.IndexUpdated(1), s3) && Server.Next(s3, Server.IndexUpdated(0), s4)
    ensures s4.pending == {} && 20 in s4.tables.users && 20 in s4.index.users
    ensures 12 in s4.tables.users[20].Roles && 12 !in s4.index.users[20].Roles
    ensures !ChannelPermissions.Mirrors(s4.index, s4.tables)
  {
    s1, s2 := BothCommitted(defaults);
    s3, s4 := BothApplied(defaults, s2);
    RoleNotMirrored(defaults, MOVED + MOVED);
  }

  // ---------------------------------------------------------------- folding rows

  const ROW := RowFolds.ChannelRow(Channel(1, 0, [], [], 0, 0, []),
                                   Some(RowFolds.Grant(7, {1}, {})), Some(RowFolds.Grant(7, {}, {2})))

  const ROLE_7 := Overwrite(7, OverwriteTypeRole, {1}, {})
  const USER_7 := Overwrite(7, OverwriteTypeUser, {}, {2})

  lemma NoneKept()
    ensures RowFolds.FirstPerId([]) == []
  {
  }

  lemma OneKept(x: Overwrite)
    ensures RowFolds.FirstPerId([x]) == [x]
  {
    NoneKept();
    RowFolds.FirstPerIdAppend([], x);
    assert [] + [x] == [x] && x.ID !in RowFolds.OverwriteIds([]);
  }

  lemma FirstOfShared(x: Overwrite, y: Overwrite)
    requires x.ID == y.ID
    ensures RowFolds.FirstPerId([x, y]) == [x]
  {
    OneKept(x);
    RowFolds.FirstPerIdAppend([x], y);
    assert [x] + [y] == [x, y] && RowFolds.OverwriteIds([x]) == [x.ID];
  }

  lemma GivenByRow()
    ensures RowFolds.GivenTo([ROW], 1) == [ROLE_7, USER_7]
    ensures RowFolds.FirstIndices(RowFolds.ChannelIds([ROW])) == [0]
  {
    RowFolds.ChannelRowsAppend([], ROW, 1);
    RowFolds.GivenToNobody([], 1);
    RowFolds.FirstIndicesAppend([], 1);
    assert [] + [ROW] == [ROW] && RowFolds.Given(ROW) == [ROLE_7, USER_7];
    assert RowFolds.ChannelIds([]) == [] && [] + [1] == [1];
  }

  /** Channel 1 has an overwrite for role 7 and one for user 7. Both come in the only joined
      row, and the user's is dropped. */
  lemma SharedIdLosesOverwrite(channels: seq<Channel>)
    requires RowFolds.IsChannelFold([ROW], channels)
    ensures channels == [Channel(1, 0, [], [], 0, 0, [ROLE_7])]
  {
    GivenByRow();
    FirstOfShared(ROLE_7, USER_7);
    assert RowFolds.AllOverwrites([ROW])(1) == [ROLE_7];
  }
}
