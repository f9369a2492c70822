/** The fast form refines the slow one: repositioning one user in a full rebuild of the old
    users gives a full rebuild of the new users. */
module Incremental {
  import opened Models
  import opened Ranks
  import opened Sorting
  import opened UserLists

  /** IDs of users, roles and the two presence groups are pairwise disjoint. */
  ghost predicate DisjointIds(users: Users, roles: RoleTable) {
    && users.Keys !! roles.Keys
    && PRESENCE_ONLINE !in users && PRESENCE_OFFLINE !in users
    && PRESENCE_ONLINE !in roles && PRESENCE_OFFLINE !in roles
  }

  lemma GroupOrderElements(roles: RoleTable, order: seq<Snowflake>)
    requires IsGroupOrder(roles, order)
    ensures forall g :: g in order <==> Hoistable(roles, g) || g == PRESENCE_ONLINE || g == PRESENCE_OFFLINE
    ensures PRESENCE_ONLINE !in roles && PRESENCE_OFFLINE !in roles ==> Distinct(order)
  {
    var n := |order| - 2;
    assert order == order[..n] + order[n..];
    assert forall i :: 0 <= i < n ==> order[i] in order[..n];
  }

  lemma RebuildHasShape(users: Users, infos: UserInfos, roles: RoleTable, list: UserList)
    requires IsRebuild(users, infos, roles, list) && DisjointIds(users, roles)
    ensures Shape(list)
  {
    GroupOrderElements(roles, list.GroupOrder);
    forall g, id | g in list.Groups && id in list.Groups[g] ensures BelongsTo(users, infos, g, id) {
      assert Lists(users, infos, g, GroupOf(list.Groups, g));
    }
    forall g | g in list.Groups ensures Distinct(list.Groups[g]) {
      assert Lists(users, infos, g, GroupOf(list.Groups, g));
    }
  }

  lemma OrderedWithoutUser(users: Users, id: Snowflake, u: User, s: seq<Snowflake>)
    requires id !in s && Ordered(users, s)
    ensures Ordered(users[id := u], s)
  {
    forall i | 0 <= i < |s| ensures EntryOf(users[id := u], s[i]) == EntryOf(users, s[i]) {
      assert s[i] in s;
    }
    forall i, j | 0 <= i < j < |s| ensures Precedes(users[id := u], s[i], s[j]) {
      assert Precedes(users, s[i], s[j]);
    }
  }

  /** Whatever mix of name and group change the update brought. */
  lemma IncrementalEqualsRebuild(users: Users, infos: UserInfos, roles: RoleTable, id: Snowflake, u: User,
                                 info: UserInfo, before: UserList, g0: Snowflake, j: nat, k: nat, after: UserList)
    requires IsRebuild(users, infos, roles, before) && DisjointIds(users, roles)
    requires id in users
    requires Moved(users[id := u], id, before, g0, j, UserGroup(u, info), k, after)
    ensures IsRebuild(users[id := u], infos[id := info], roles, after)
  {
    var users', infos', g1 := users[id := u], infos[id := info], UserGroup(u, info);
    RebuildHasShape(users, infos, roles, before);
    MovedElements(users', id, before, g0, j, g1, k, after);
    forall g ensures Lists(users', infos', g, GroupOf(after.Groups, g)) {
      assert Lists(users, infos, g, GroupOf(before.Groups, g));
      forall x ensures x in GroupOf(after.Groups, g) <==> BelongsTo(users', infos', g, x) {
        assert x != id ==> (BelongsTo(users', infos', g, x) <==> BelongsTo(users, infos, g, x));
      }
    }
    WithoutUser(before, g0, j, id);
    var groups := Without(before, g0, j);
    forall g | g in after.GroupOrder ensures g in after.Groups && Ordered(users', after.Groups[g]) {
      if g == g0 {
        RemoveKeepsOrdered(users, before.Groups[g0], j);
      }
      assert id !in GroupOf(groups, g);
      OrderedWithoutUser(users, id, u, groups[g]);
      if g == g1 {
        InsertKeepsOrdered(users', groups[g], k, id);
      }
    }
  }

  // ---------------------------------------------------------------- conservation

  /** Every group a user belongs to is a group of the list. */
  ghost predicate AllGrouped(users: Users, infos: UserInfos, order: seq<Snowflake>) {
    forall id :: id in users && id in infos ==> UserGroup(users[id], infos[id]) in order
  }

  /** A user is in the view exactly when its group is listed. */
  lemma ViewMembers(users: Users, infos: UserInfos, roles: RoleTable, list: UserList, x: Snowflake)
    requires IsRebuild(users, infos, roles, list)
    ensures x in list.View <==>
              x in list.GroupOrder || (x in users && x in infos && UserGroup(users[x], infos[x]) in list.GroupOrder)
  {
    FlattenElements(list.GroupOrder, list.Groups, x);
    forall g | g in list.GroupOrder ensures x in GroupOf(list.Groups, g) <==> BelongsTo(users, infos, g, x) {
      assert Lists(users, infos, g, GroupOf(list.Groups, g));
    }
    if x in users && x in infos {
      assert BelongsTo(users, infos, UserGroup(users[x], infos[x]), x);
    }
  }

  lemma {:induction false} FlattenDistinct(order: seq<Snowflake>, groups: Groups)
    requires Distinct(order)
    requires forall g :: g in order ==> Distinct(GroupOf(groups, g))
    requires forall g, h, x :: g in order && h in order && x in GroupOf(groups, g) && x in GroupOf(groups, h) ==> g == h
    requires forall g, x :: g in order && x in GroupOf(groups, g) ==> x !in order
    ensures Distinct(Flatten(order, groups))
  {
    if order == [] {
    } else {
      var rest := order[1..];
      assert order == [order[0]] + rest && order[0] in order && forall g :: g in rest ==> g in order;
      FlattenDistinct(rest, groups);
      var block, back := Block(groups, order[0]), Flatten(rest, groups);
      DistinctConcat(GroupOf(groups, order[0]), [order[0]], block);
      forall x | x in back ensures x !in block {
        NotInFirstBlock(order, groups, x);
      }
      DistinctConcat(block, back, block + back);
    }
  }

  /** What later groups show is not in the first block. */
  lemma NotInFirstBlock(order: seq<Snowflake>, groups: Groups, x: Snowflake)
    requires order != [] && Distinct(order) && x in Flatten(order[1..], groups)
    requires forall g, h, y :: g in order && h in order && y in GroupOf(groups, g) && y in GroupOf(groups, h) ==> g == h
    requires forall g, y :: g in order && y in GroupOf(groups, g) ==> y !in order
    ensures x !in Block(groups, order[0])
  {
    var rest := order[1..];
    assert order == [order[0]] + rest && order[0] in order;
    FlattenElements(rest, groups, x);
    assert x in Block(groups, order[0]) <==> x == order[0] || x in GroupOf(groups, order[0]);
    if i :| 0 <= i < |rest| && rest[i] == x {
      assert order[i + 1] == x && x in order;
    } else {
      var g :| g in rest && x in GroupOf(groups, g);
      var k :| 0 <= k < |rest| && rest[k] == g;
      assert order[k + 1] == g && g in order;
    }
  }

  lemma DistinctConcat(a: seq<Snowflake>, b: seq<Snowflake>, s: seq<Snowflake>)
    requires Distinct(a) && Distinct(b) && forall x :: x in b ==> x !in a
    requires s == a + b || s == b + a
    ensures Distinct(s)
  {
    assert forall i, j :: 0 <= i < |a| && 0 <= j < |b| ==> a[i] != b[j] by {
      forall i, j | 0 <= i < |a| && 0 <= j < |b| ensures a[i] != b[j] {
        assert b[j] in b && a[i] in a;
      }
    }
  }

  /** Nothing is shown twice, in a fresh or a stale list. */
  lemma ViewDistinct(list: UserList)
    requires Shape(list)
    ensures Distinct(list.View)
  {
    forall g | g in list.GroupOrder ensures Distinct(GroupOf(list.Groups, g)) {
    }
    FlattenDistinct(list.GroupOrder, list.Groups);
  }

  /** Conservation: a rebuild shows every user exactly once, and |Users| + |GroupOrder| entries,
      exactly when every user's group is listed. */
  lemma RebuildConservesUsers(users: Users, infos: UserInfos, roles: RoleTable, list: UserList)
    requires IsRebuild(users, infos, roles, list) && DisjointIds(users, roles) && infos.Keys == users.Keys
    ensures Distinct(list.View)
    ensures |list.View| <= |users| + |list.GroupOrder|
    ensures |list.View| == |users| + |list.GroupOrder| <==> AllGrouped(users, infos, list.GroupOrder)
    ensures (forall id :: id in users ==> id in list.View) <==> AllGrouped(users, infos, list.GroupOrder)
  {
    RebuildHasShape(users, infos, roles, list);
    ViewDistinct(list);
    ViewSet(users, infos, roles, list);
    ShownIsAll(users, infos, list.GroupOrder);
    CountView(list.View, list.GroupOrder, Shown(users, infos, list.GroupOrder), users.Keys);
  }

  lemma CountView(view: seq<Snowflake>, order: seq<Snowflake>, shown: set<Snowflake>, all: set<Snowflake>)
    requires Distinct(view) && Distinct(order) && shown <= all
    requires forall x :: x in view <==> x in order || x in shown
    requires forall x :: x in order ==> x !in all
    ensures |view| <= |all| + |order|
    ensures |view| == |all| + |order| <==> shown == all
    ensures (forall x :: x in all ==> x in view) <==> shown == all
  {
    SetOfView(view, order, shown);
    DistinctCount(view);
    DistinctCount(order);
    SubsetCount(shown, all);
    if forall x :: x in all ==> x in view {
      assert forall x :: x in all ==> x in shown;
    }
  }

  ghost function Shown(users: Users, infos: UserInfos, order: seq<Snowflake>): set<Snowflake>
    requires infos.Keys == users.Keys
  {
    set id | id in users && UserGroup(users[id], infos[id]) in order
  }

  lemma ShownIsAll(users: Users, infos: UserInfos, order: seq<Snowflake>)
    requires infos.Keys == users.Keys
    ensures Shown(users, infos, order) <= users.Keys
    ensures Shown(users, infos, order) == users.Keys <==> AllGrouped(users, infos, order)
  {
    if AllGrouped(users, infos, order) {
      forall id | id in users ensures id in Shown(users, infos, order) {
      }
    }
    if Shown(users, infos, order) == users.Keys {
      forall id | id in users ensures UserGroup(users[id], infos[id]) in order {
        assert id in Shown(users, infos, order);
      }
    }
  }

  lemma ViewSet(users: Users, infos: UserInfos, roles: RoleTable, list: UserList)
    requires IsRebuild(users, infos, roles, list) && DisjointIds(users, roles) && infos.Keys == users.Keys
    ensures forall x :: x in list.View <==> x in list.GroupOrder || x in Shown(users, infos, list.GroupOrder)
    ensures forall x :: x in list.GroupOrder ==> x !in users
  {
    GroupOrderElements(roles, list.GroupOrder);
    forall x ensures x in list.View <==> x in list.GroupOrder || x in Shown(users, infos, list.GroupOrder) {
      ViewMembers(users, infos, roles, list, x);
    }
  }

  lemma SetOfView(view: seq<Snowflake>, order: seq<Snowflake>, shown: set<Snowflake>)
    requires forall x :: x in view <==> x in order || x in shown
    requires forall x :: x in order ==> x !in shown
    ensures var headers := set g | g in order;
            (set x | x in view) == shown + headers && |shown + headers| == |shown| + |headers|
  {
    var headers := set g | g in order;
    assert forall x :: x in headers ==> x in order && x !in shown;
    var viewed := set x | x in view;
    assert forall x :: x in viewed <==> x in shown + headers;
    assert viewed == shown + headers;
  }

  // ---------------------------------------------------------------- counts locate headers

  /** A group and how many users it has, as sent along with a slice of the view. */
  datatype UserListGroup = UserListGroup(ID: Snowflake, Count: nat)

  function CountsOf(order: seq<Snowflake>, groups: Groups): seq<UserListGroup> {
    seq(|order|, k requires 0 <= k < |order| => UserListGroup(order[k], |GroupOf(groups, order[k])|))
  }

  /** What a client knowing only the counts takes for the index of header k. */
  function HeaderIndex(counts: seq<UserListGroup>, k: nat): nat
    requires k <= |counts|
  {
    if k == 0 then 0 else HeaderIndex(counts, k - 1) + 1 + counts[k - 1].Count
  }

  lemma {:induction false} HeaderIndexIsPrefixLength(order: seq<Snowflake>, groups: Groups, k: nat)
    requires k <= |order|
    ensures HeaderIndex(CountsOf(order, groups), k) == |Flatten(order[..k], groups)|
  {
    if k == 0 {
    } else {
      HeaderIndexIsPrefixLength(order, groups, k - 1);
      FlattenSplit(order[..k], groups, k - 1);
      assert order[..k][..k - 1] == order[..k - 1] && order[..k][k..] == [];
    }
  }

  /** The prefix sums of the counts locate every header, and the users under it. */
  lemma CountsLocateHeaders(list: UserList, k: nat)
    requires list.View == Flatten(list.GroupOrder, list.Groups) && k < |list.GroupOrder|
    ensures var counts := CountsOf(list.GroupOrder, list.Groups);
            var at, next := HeaderIndex(counts, k), HeaderIndex(counts, k + 1);
            && at < next <= |list.View|
            && list.View[at] == counts[k].ID
            && list.View[at + 1..next] == GroupOf(list.Groups, counts[k].ID)
  {
    HeaderIndexIsPrefixLength(list.GroupOrder, list.Groups, k);
    FlattenSplit(list.GroupOrder, list.Groups, k);
  }

  /** Where the headers are, and at the end where the view ends. */
  function HeaderIndices(counts: seq<UserListGroup>): (at: seq<nat>)
    ensures |at| == |counts| + 1 && forall m: nat :: m <= |counts| ==> at[m] == HeaderIndex(counts, m)
  {
    seq(|counts| + 1, m requires 0 <= m <= |counts| => HeaderIndex(counts, m))
  }

  lemma HeaderAt(list: UserList, at: seq<nat>, m: nat)
    requires list.View == Flatten(list.GroupOrder, list.Groups) && m < |list.GroupOrder|
    requires at == HeaderIndices(CountsOf(list.GroupOrder, list.Groups))
    ensures var group := GroupOf(list.Groups, list.GroupOrder[m]);
            && at[m + 1] == at[m] + 1 + |group| <= |list.View|
            && list.View[at[m]] == list.GroupOrder[m]
            && list.View[at[m] + 1..at[m + 1]] == group
  {
    CountsLocateHeaders(list, m);
  }

  /** The layout of any view: each header of the order, one after the other, with the users of
      its group behind it. */
  lemma ViewLayout(list: UserList) returns (at: seq<nat>)
    requires list.View == Flatten(list.GroupOrder, list.Groups)
    ensures |at| == |list.GroupOrder| + 1 && at[0] == 0 && at[|list.GroupOrder|] == |list.View|
    ensures forall m {:trigger list.GroupOrder[m]} :: 0 <= m < |list.GroupOrder| ==>
              var g := list.GroupOrder[m];
              var group := if g in list.Groups then list.Groups[g] else [];
              && at[m + 1] == at[m] + 1 + |group| <= |list.View|
              && list.View[at[m]] == g
              && list.View[at[m] + 1..at[m + 1]] == group
  {
    var order := list.GroupOrder;
    at := HeaderIndices(CountsOf(order, list.Groups));
    assert at[|order|] == |list.View| by {
      HeaderIndexIsPrefixLength(order, list.Groups, |order|);
      assert order[..|order|] == order;
    }
    forall m {:trigger list.GroupOrder[m]} | 0 <= m < |list.GroupOrder|
      ensures var g := list.GroupOrder[m];
              var group := if g in list.Groups then list.Groups[g] else [];
              && at[m + 1] == at[m] + 1 + |group| <= |list.View|
              && list.View[at[m]] == g
              && list.View[at[m] + 1..at[m + 1]] == group
    {
      HeaderAt(list, at, m);
    }
  }

  lemma {:induction false} HeaderIndexIncreasing(counts: seq<UserListGroup>, k: nat, l: nat)
    requires k < l <= |counts|
    ensures HeaderIndex(counts, k) < HeaderIndex(counts, l)
  {
    if k == l - 1 {
    } else {
      HeaderIndexIncreasing(counts, k, l - 1);
    }
  }

  lemma {:induction false} FindHeader(counts: seq<UserListGroup>, i: nat, n: nat) returns (k: nat)
    requires n <= |counts| && i < HeaderIndex(counts, n)
    ensures k < n && HeaderIndex(counts, k) <= i < HeaderIndex(counts, k + 1)
  {
    if HeaderIndex(counts, n - 1) <= i {
      k := n - 1;
    } else {
      k := FindHeader(counts, i, n - 1);
    }
  }

  lemma OneHeader(counts: seq<UserListGroup>, i: nat, k: nat, l: nat)
    requires k < |counts| && HeaderIndex(counts, k) <= i < HeaderIndex(counts, k + 1)
    requires l < |counts| && HeaderIndex(counts, l) <= i < HeaderIndex(counts, l + 1)
    ensures l == k
  {
    if l + 1 < k { HeaderIndexIncreasing(counts, l + 1, k); }
    if k + 1 < l { HeaderIndexIncreasing(counts, k + 1, l); }
  }

  /** Every index of the view falls under exactly one header, and shows that header or one
      of that group's users. */
  lemma CountsRecoverGroup(list: UserList, i: nat) returns (k: nat)
    requires list.View == Flatten(list.GroupOrder, list.Groups) && i < |list.View|
    ensures k < |list.GroupOrder|
    ensures var counts := CountsOf(list.GroupOrder, list.Groups);
            && HeaderIndex(counts, k) <= i < HeaderIndex(counts, k + 1)
            && (forall l: nat :: l < |counts| && HeaderIndex(counts, l) <= i < HeaderIndex(counts, l + 1) ==> l == k)
            && (if i == HeaderIndex(counts, k) then list.View[i] == counts[k].ID
                else list.View[i] in GroupOf(list.Groups, counts[k].ID))
  {
    var order := list.GroupOrder;
    var counts := CountsOf(order, list.Groups);
    k := HeaderAbove(list, i);
    forall l: nat | l < |counts| && HeaderIndex(counts, l) <= i < HeaderIndex(counts, l + 1) ensures l == k {
      OneHeader(counts, i, k, l);
    }
    CountsLocateHeaders(list, k);
    var at, next := HeaderIndex(counts, k), HeaderIndex(counts, k + 1);
    UserBelowHeader(list.View, GroupOf(list.Groups, counts[k].ID), at, next, i);
  }

  lemma HeaderAbove(list: UserList, i: nat) returns (k: nat)
    requires list.View == Flatten(list.GroupOrder, list.Groups) && i < |list.View|
    ensures k < |list.GroupOrder|
    ensures var counts := CountsOf(list.GroupOrder, list.Groups);
            HeaderIndex(counts, k) <= i < HeaderIndex(counts, k + 1)
  {
    var order := list.GroupOrder;
    HeaderIndexIsPrefixLength(order, list.Groups, |order|);
    assert order[..|order|] == order;
    k := FindHeader(CountsOf(order, list.Groups), i, |order|);
  }

  lemma UserBelowHeader(view: seq<Snowflake>, group: seq<Snowflake>, at: nat, next: nat, i: nat)
    requires at < next <= |view| && view[at + 1..next] == group && at <= i < next
    ensures i > at ==> view[i] in group
  {
    if i > at {
      assert view[at + 1..next][i - at - 1] == view[i];
    }
  }
}
