/** The grouped, sorted and flattened user list: what a full rebuild is, and what moving one
    user within it does. */
module UserLists {
  import opened Models
  import opened Names
  import opened Ranks
  import opened Sorting

  datatype UserInfo = UserInfo(Rank: Int64, Hoist: Snowflake, Permissions: Permissions)

  type Users = map<Snowflake, User>
  type UserInfos = map<Snowflake, UserInfo>
  type Groups = map<Snowflake, seq<Snowflake>>

  datatype UserList = UserList(GroupOrder: seq<Snowflake>, Groups: Groups, View: seq<Snowflake>)

  /** What computeUserInfo yields for a user. */
  function InfoOf(roles: RoleTable, defaults: Permissions, u: User): UserInfo {
    UserInfo(RankOf(roles, u.Roles), BestHoist(roles, u.Roles).role, Widen(RolePermissions(roles, defaults, u.Roles)))
  }

  /** The rank is the best position of a held role, the largest integer without any. The hoist is
      the first held hoisted role of the best position, 0 without any. The permissions are those
      of the defaults and the held roles, or all of them. */
  lemma InfoParts(roles: RoleTable, defaults: Permissions, u: User)
    requires ValidRoles(roles)
    ensures var info := InfoOf(roles, defaults, u);
            && (forall r :: r in u.Roles && r in roles ==> info.Rank <= roles[r].Position)
            && (info.Rank != 0x7FFF_FFFF_FFFF_FFFF ==>
                  exists r :: r in u.Roles && r in roles && roles[r].Position == info.Rank)
            && (info.Hoist == 0 ==> forall r :: r in u.Roles && r in roles && roles[r].Hoisted ==>
                  roles[r].Position == 0x7FFF_FFFF_FFFF_FFFF)
            && (info.Hoist != 0 ==>
                  && info.Hoist in roles && roles[info.Hoist].Hoisted
                  && roles[info.Hoist].Position < 0x7FFF_FFFF_FFFF_FFFF
                  && exists k :: 0 <= k < |u.Roles| && u.Roles[k] == info.Hoist &&
                       forall l :: 0 <= l < |u.Roles| && u.Roles[l] in roles && roles[u.Roles[l]].Hoisted ==>
                         || roles[info.Hoist].Position < roles[u.Roles[l]].Position
                         || (roles[info.Hoist].Position == roles[u.Roles[l]].Position && k <= l))
            && forall p: nat :: p in info.Permissions <==>
                 if 0 in defaults || exists r :: r in u.Roles && r in roles && 0 in roles[r].Permissions then p < 31
                 else p in defaults || exists r :: r in u.Roles && r in roles && p in roles[r].Permissions
  {
    WidenedPermissions(roles, defaults, u.Roles);
    RankParts(roles, u.Roles);
    HoistParts(roles, u.Roles);
  }

  function UserGroup(u: User, info: UserInfo): Snowflake {
    if info.Hoist != 0 then info.Hoist
    else if u.IsOnline() then PRESENCE_ONLINE
    else PRESENCE_OFFLINE
  }

  /** A missing group reads as an empty one. */
  function GroupOf(groups: Groups, g: Snowflake): seq<Snowflake> {
    if g in groups then groups[g] else []
  }

  /** A header and the users under it. */
  function Block(groups: Groups, g: Snowflake): seq<Snowflake> {
    [g] + GroupOf(groups, g)
  }

  function Flatten(order: seq<Snowflake>, groups: Groups): seq<Snowflake> {
    if order == [] then [] else Block(groups, order[0]) + Flatten(order[1..], groups)
  }

  /** A user that is listed but no longer known sorts under the empty name. */
  function EntryOf(users: Users, id: Snowflake): SortEntry {
    SortEntry(id, if id in users then users[id].DisplayName else [])
  }

  predicate Precedes(users: Users, a: Snowflake, b: Snowflake) {
    EntryLess(EntryOf(users, a), EntryOf(users, b))
  }

  ghost predicate Ordered(users: Users, s: seq<Snowflake>) {
    forall i, j :: 0 <= i < j < |s| ==> Precedes(users, s[i], s[j])
  }

  /** By display name bytewise, and by ID among equal names. */
  lemma PrecedesIff(users: Users, a: Snowflake, b: Snowflake)
    ensures var x := if a in users then users[a].DisplayName else [];
            var y := if b in users then users[b].DisplayName else [];
            Precedes(users, a, b) <==>
              || (x == y && a < b)
              || exists n: nat :: n <= |x| && n < |y| && x[..n] == y[..n] && (n == |x| || x[n] < y[n])
  {
    TextLessIff(EntryOf(users, a).Key, EntryOf(users, b).Key);
  }

  // ---------------------------------------------------------------- a full rebuild

  predicate PositionLe(roles: RoleTable, a: Snowflake, b: Snowflake)
  {
    (if a in roles then roles[a].Position else 0) <= (if b in roles then roles[b].Position else 0)
  }

  /** The hoisted roles in some order by position, then online and offline. */
  ghost predicate IsGroupOrder(roles: RoleTable, order: seq<Snowflake>) {
    var n := |order| - 2;
    && n >= 0
    && order[n..] == [PRESENCE_ONLINE, PRESENCE_OFFLINE]
    && Distinct(order[..n])
    && (forall r :: r in order[..n] <==> Hoistable(roles, r))
    && (forall i, j :: 0 <= i < j < n ==> PositionLe(roles, order[i], order[j]))
  }

  ghost predicate BelongsTo(users: Users, infos: UserInfos, g: Snowflake, id: Snowflake) {
    id in users && id in infos && UserGroup(users[id], infos[id]) == g
  }

  /** `s` lists the users of group g, each once. */
  ghost predicate Lists(users: Users, infos: UserInfos, g: Snowflake, s: seq<Snowflake>) {
    Distinct(s) && forall id :: id in s <==> BelongsTo(users, infos, g, id)
  }

  ghost predicate IsRebuild(users: Users, infos: UserInfos, roles: RoleTable, list: UserList) {
    && IsGroupOrder(roles, list.GroupOrder)
    && (forall g :: g in list.GroupOrder ==> g in list.Groups && Ordered(users, list.Groups[g]))
    && (forall g :: Lists(users, infos, g, GroupOf(list.Groups, g)))
    && list.View == Flatten(list.GroupOrder, list.Groups)
  }

  /** The headers: the hoisted roles, each once and by position, then online (2) and offline (1). */
  lemma GroupOrderHeaders(roles: RoleTable, order: seq<Snowflake>) returns (hoisted: seq<Snowflake>)
    requires IsGroupOrder(roles, order)
    ensures order == hoisted + [2, 1]
    ensures forall r :: r in hoisted <==> r in roles && roles[r].Hoisted
    ensures forall i, j :: 0 <= i < j < |hoisted| ==>
              && hoisted[i] != hoisted[j] && hoisted[i] in roles && hoisted[j] in roles
              && roles[hoisted[i]].Position <= roles[hoisted[j]].Position
  {
    var n := |order| - 2;
    hoisted := order[..n];
    assert order == hoisted + order[n..];
    HoistedHeaders(roles, hoisted);
  }

  lemma HoistedHeaders(roles: RoleTable, hoisted: seq<Snowflake>)
    requires forall r :: r in hoisted <==> Hoistable(roles, r)
    requires forall i, j :: 0 <= i < j < |hoisted| ==> PositionLe(roles, hoisted[i], hoisted[j])
    ensures forall i, j :: 0 <= i < j < |hoisted| ==>
              && hoisted[i] in roles && hoisted[j] in roles
              && roles[hoisted[i]].Position <= roles[hoisted[j]].Position
  {
    forall i | 0 <= i < |hoisted| ensures hoisted[i] in roles {
      var r := hoisted[i];
      assert r in hoisted && Hoistable(roles, r);
    }
    forall i, j | 0 <= i < j < |hoisted| ensures roles[hoisted[i]].Position <= roles[hoisted[j]].Position {
      assert PositionLe(roles, hoisted[i], hoisted[j]);
    }
  }

  /** The users of a group of a rebuild: everyone whose hoist it is, or who has no hoist and is
      online or offline accordingly, each once, by display name bytewise and then by ID. */
  lemma RebuildGroup(users: Users, infos: UserInfos, roles: RoleTable, list: UserList, g: Snowflake)
    requires IsRebuild(users, infos, roles, list) && g in list.GroupOrder
    ensures g in list.Groups
    ensures forall id :: id in list.Groups[g] <==>
              && id in users && id in infos
              && g == if infos[id].Hoist != 0 then infos[id].Hoist else if users[id].Presence != 1 then 2 else 1
    ensures forall i, j :: 0 <= i < j < |list.Groups[g]| ==>
              var a, b := list.Groups[g][i], list.Groups[g][j];
              && a != b && a in users && b in users
              && var x, y := users[a].DisplayName, users[b].DisplayName;
              || (x == y && a < b)
              || exists n: nat :: n <= |x| && n < |y| && x[..n] == y[..n] && (n == |x| || x[n] < y[n])
  {
    var s := list.Groups[g];
    assert Lists(users, infos, g, GroupOf(list.Groups, g));
    forall i | 0 <= i < |s| ensures s[i] in users {
      var id := s[i];
      assert id in s && BelongsTo(users, infos, g, id);
    }
    forall i, j | 0 <= i < j < |s|
      ensures var x, y := users[s[i]].DisplayName, users[s[j]].DisplayName;
              || (x == y && s[i] < s[j])
              || exists n: nat :: n <= |x| && n < |y| && x[..n] == y[..n] && (n == |x| || x[n] < y[n])
    {
      assert Precedes(users, s[i], s[j]);
      PrecedesIff(users, s[i], s[j]);
    }
  }

  /** A strictly ordered sequence is determined by its elements. */
  lemma {:induction false} OrderedUnique(users: Users, a: seq<Snowflake>, b: seq<Snowflake>)
    requires Ordered(users, a) && Ordered(users, b)
    requires forall id :: id in a <==> id in b
    ensures a == b
  {
    if a == [] {
      assert forall i :: 0 <= i < |b| ==> b[i] in b;
    } else {
      assert a[0] in a && b != [];
      assert b[0] in b;
      EntryOrder(EntryOf(users, a[0]), EntryOf(users, b[0]), EntryOf(users, a[0]));
      assert a[0] == b[0];
      OrderedTail(users, a);
      OrderedTail(users, b);
      OrderedUnique(users, a[1..], b[1..]);
      assert a == [a[0]] + a[1..] && b == [b[0]] + b[1..];
    }
  }

  lemma OrderedTail(users: Users, s: seq<Snowflake>)
    requires Ordered(users, s) && s != []
    ensures Ordered(users, s[1..])
    ensures forall id :: id in s[1..] <==> id in s && id != s[0]
  {
    assert s == [s[0]] + s[1..];
    forall i | 0 < i < |s| ensures s[i] != s[0] {
      EntryOrder(EntryOf(users, s[0]), EntryOf(users, s[i]), EntryOf(users, s[0]));
    }
  }

  /** Two rebuilds that break position ties alike are the same on every listed group and
      show the same view. */
  lemma RebuildUnique(users: Users, infos: UserInfos, roles: RoleTable, a: UserList, b: UserList)
    requires IsRebuild(users, infos, roles, a) && IsRebuild(users, infos, roles, b)
    requires a.GroupOrder == b.GroupOrder
    ensures forall g :: g in a.GroupOrder ==> a.Groups[g] == b.Groups[g]
    ensures a.View == b.View
  {
    forall g | g in a.GroupOrder ensures GroupOf(a.Groups, g) == GroupOf(b.Groups, g) {
      assert Lists(users, infos, g, GroupOf(a.Groups, g)) && Lists(users, infos, g, GroupOf(b.Groups, g));
      OrderedUnique(users, a.Groups[g], b.Groups[g]);
    }
    FlattenSame(a.GroupOrder, a.Groups, b.Groups);
  }

  // ---------------------------------------------------------------- flattening

  lemma {:induction false} FlattenSame(order: seq<Snowflake>, a: Groups, b: Groups)
    requires forall g :: g in order ==> GroupOf(a, g) == GroupOf(b, g)
    ensures Flatten(order, a) == Flatten(order, b)
  {
    if order == [] {
    } else {
      assert order == [order[0]] + order[1..];
      FlattenSame(order[1..], a, b);
    }
  }

  lemma Associate(a: seq<Snowflake>, b: seq<Snowflake>, c: seq<Snowflake>, d: seq<Snowflake>)
    ensures a + (b + c + d) == (a + b) + c + d
  {
  }

  lemma {:induction false} FlattenSplit(order: seq<Snowflake>, groups: Groups, k: nat)
    requires k < |order|
    ensures Flatten(order, groups) == Flatten(order[..k], groups) + Block(groups, order[k]) +
              Flatten(order[k + 1..], groups)
  {
    var head := Block(groups, order[0]);
    if k == 0 {
      assert Flatten(order[..0], groups) == [];
      assert [] + head == head;
    } else {
      var rest := order[1..];
      FlattenSplit(rest, groups, k - 1);
      assert rest[k..] == order[k + 1..];
      assert order[..k][1..] == rest[..k - 1];
      Associate(head, Flatten(rest[..k - 1], groups), Block(groups, order[k]), Flatten(order[k + 1..], groups));
    }
  }

  lemma {:induction false} FlattenElements(order: seq<Snowflake>, groups: Groups, x: Snowflake)
    ensures x in Flatten(order, groups) <==> x in order || exists g :: g in order && x in GroupOf(groups, g)
  {
    if order == [] {
    } else {
      FlattenElements(order[1..], groups, x);
      assert order == [order[0]] + order[1..];
    }
  }

  // ---------------------------------------------------------------- moving one user

  function InsertAt(s: seq<Snowflake>, k: nat, x: Snowflake): seq<Snowflake>
    requires k <= |s|
  {
    s[..k] + [x] + s[k..]
  }

  function RemoveAt(s: seq<Snowflake>, k: nat): seq<Snowflake>
    requires k < |s|
  {
    s[..k] + s[k + 1..]
  }

  /** The shape every list has in every state, fresh or stale: no user is listed twice, no
      user is also a group, and the view is the flattening of the groups. */
  ghost predicate Shape(list: UserList) {
    && Distinct(list.GroupOrder)
    && (forall g :: g in list.Groups ==> Distinct(list.Groups[g]))
    && (forall g, h, id ::
          g in list.Groups && h in list.Groups && id in list.Groups[g] && id in list.Groups[h] ==> g == h)
    && (forall g, id :: g in list.Groups && id in list.Groups[g] ==> id !in list.GroupOrder)
    && list.View == Flatten(list.GroupOrder, list.Groups)
  }

  ghost predicate Listed(list: UserList, id: Snowflake) {
    exists g :: g in list.Groups && id in list.Groups[g]
  }

  function Without(list: UserList, g: Snowflake, j: nat): Groups
    requires g in list.Groups && j < |list.Groups[g]|
  {
    list.Groups[g := RemoveAt(list.Groups[g], j)]
  }

  /** User `id` is taken out of place j of group g0 and put into place k of group g1, which
      is a place the binary search may stop at: not before the left neighbour, before the
      right one. */
  ghost predicate Moved(users: Users, id: Snowflake, before: UserList, g0: Snowflake, j: nat, g1: Snowflake, k: nat,
                        after: UserList)
  {
    && g0 in before.Groups && j < |before.Groups[g0]| && before.Groups[g0][j] == id
    && var target := GroupOf(Without(before, g0, j), g1);
    && k <= |target|
    && (k > 0 ==> !Precedes(users, id, target[k - 1]))
    && (k < |target| ==> Precedes(users, id, target[k]))
    && after.GroupOrder == before.GroupOrder
    && after.Groups == Without(before, g0, j)[g1 := InsertAt(target, k, id)]
    && after.View == Flatten(after.GroupOrder, after.Groups)
  }

  /** A move in terms of the groups alone: taken out, put in behind nobody it should precede and
      before somebody it does, every other group as it was. */
  lemma MovedGroups(users: Users, id: Snowflake, before: UserList, g0: Snowflake, j: nat, g1: Snowflake, k: nat,
                    after: UserList)
    requires Moved(users, id, before, g0, j, g1, k, after)
    ensures g0 in before.Groups && j < |before.Groups[g0]| && before.Groups[g0][j] == id
    ensures after.GroupOrder == before.GroupOrder
    ensures var rest := before.Groups[g0 := before.Groups[g0][..j] + before.Groups[g0][j + 1..]];
            var target := if g1 in rest then rest[g1] else [];
            && k <= |target|
            && after.Groups == rest[g1 := target[..k] + [id] + target[k..]]
            && forall l :: 0 <= l < |target| && k - 1 <= l <= k ==>
                 var x := if id in users then users[id].DisplayName else [];
                 var y := if target[l] in users then users[target[l]].DisplayName else [];
                 l == k <==>
                   || (x == y && id < target[l])
                   || exists n: nat :: n <= |x| && n < |y| && x[..n] == y[..n] && (n == |x| || x[n] < y[n])
  {
    var target := GroupOf(Without(before, g0, j), g1);
    forall l | 0 <= l < |target| && k - 1 <= l <= k ensures l == k <==> Precedes(users, id, target[l]) {
    }
    forall l | 0 <= l < |target| && k - 1 <= l <= k
      ensures var x := if id in users then users[id].DisplayName else [];
              var y := if target[l] in users then users[target[l]].DisplayName else [];
              l == k <==>
                || (x == y && id < target[l])
                || exists n: nat :: n <= |x| && n < |y| && x[..n] == y[..n] && (n == |x| || x[n] < y[n])
    {
      PrecedesIff(users, id, target[l]);
    }
  }

  lemma InsertInMiddle(front: seq<Snowflake>, s: seq<Snowflake>, back: seq<Snowflake>, k: nat, id: Snowflake)
    requires k <= |s|
    ensures front + InsertAt(s, k, id) + back == InsertAt(front + s + back, |front| + k, id)
  {
    assert s == s[..k] + s[k..];
    var whole, p := front + s + back, |front| + k;
    assert whole == (front + s[..k]) + (s[k..] + back);
    assert whole[..p] == front + s[..k];
    assert whole[p..] == s[k..] + back;
  }

  lemma InsertInBlock(g: Snowflake, s: seq<Snowflake>, k: nat, id: Snowflake)
    requires k <= |s|
    ensures [g] + InsertAt(s, k, id) == InsertAt([g] + s, k + 1, id)
  {
    assert ([g] + s)[..k + 1] == [g] + s[..k];
  }

  lemma InsertIntoListed(order: seq<Snowflake>, groups: Groups, m: nat, k: nat, id: Snowflake) returns (p: nat)
    requires Distinct(order) && m < |order| && k <= |GroupOf(groups, order[m])|
    ensures 0 < p <= |Flatten(order, groups)| && p == |Flatten(order[..m], groups)| + 1 + k
    ensures Flatten(order, groups[order[m] := InsertAt(GroupOf(groups, order[m]), k, id)]) ==
              InsertAt(Flatten(order, groups), p, id)
  {
    var g := order[m];
    var s := GroupOf(groups, g);
    var groups' := groups[g := InsertAt(s, k, id)];
    FlattenSplit(order, groups, m);
    FlattenSplit(order, groups', m);
    FlattenSame(order[..m], groups, groups');
    FlattenSame(order[m + 1..], groups, groups');
    var front, back := Flatten(order[..m], groups), Flatten(order[m + 1..], groups);
    p := |front| + (k + 1);
    InsertInBlock(g, s, k, id);
    InsertInMiddle(front, Block(groups, g), back, k + 1, id);
  }

  /** Inserting into a listed group inserts into the view; into an unlisted one does not. */
  lemma InsertIntoView(order: seq<Snowflake>, groups: Groups, g: Snowflake, k: nat, id: Snowflake) returns (p: int)
    requires Distinct(order) && k <= |GroupOf(groups, g)|
    ensures g in order <==> p >= 0
    ensures var after := Flatten(order, groups[g := InsertAt(GroupOf(groups, g), k, id)]);
            && (p < 0 ==> after == Flatten(order, groups))
            && (p >= 0 ==> 0 < p <= |Flatten(order, groups)| && after == InsertAt(Flatten(order, groups), p, id))
    ensures forall m: nat :: m < |order| && order[m] == g ==> p == |Flatten(order[..m], groups)| + 1 + k
  {
    if m: nat :| m < |order| && order[m] == g {
      p := InsertIntoListed(order, groups, m, k, id);
    } else {
      p := -1;
      FlattenSame(order, groups, groups[g := InsertAt(GroupOf(groups, g), k, id)]);
    }
  }

  lemma RemovedElements(s: seq<Snowflake>, j: nat)
    requires Distinct(s) && j < |s|
    ensures Distinct(RemoveAt(s, j))
    ensures forall x :: x in RemoveAt(s, j) <==> x in s && x != s[j]
  {
    var t := RemoveAt(s, j);
    assert forall a :: 0 <= a < |t| ==> t[a] == s[if a < j then a else a + 1];
    forall x | x in s && x != s[j] ensures x in t {
      var i :| 0 <= i < |s| && s[i] == x;
      assert t[if i < j then i else i - 1] == x;
    }
  }

  lemma InsertedElements(s: seq<Snowflake>, k: nat, id: Snowflake)
    requires Distinct(s) && k <= |s| && id !in s
    ensures Distinct(InsertAt(s, k, id))
    ensures forall x :: x in InsertAt(s, k, id) <==> x in s || x == id
  {
    var t := InsertAt(s, k, id);
    assert forall a :: 0 <= a < |t| && a != k ==> t[a] == s[if a < k then a else a - 1];
    assert t[k] == id;
    forall x | x in s ensures x in t {
      var i :| 0 <= i < |s| && s[i] == x;
      assert t[if i < k then i else i + 1] == x;
    }
  }

  lemma RemoveThenInsert(s: seq<Snowflake>, j: nat)
    requires j < |s|
    ensures InsertAt(RemoveAt(s, j), j, s[j]) == s
  {
  }

  /** Without the user that is being moved. */
  lemma WithoutUser(list: UserList, g: Snowflake, j: nat, id: Snowflake)
    requires Shape(list) && g in list.Groups && j < |list.Groups[g]| && list.Groups[g][j] == id
    ensures forall h :: id !in GroupOf(Without(list, g, j), h)
    ensures id !in list.GroupOrder
    ensures id !in Flatten(list.GroupOrder, Without(list, g, j))
  {
    var groups := Without(list, g, j);
    RemovedElements(list.Groups[g], j);
    assert id in list.Groups[g];
    FlattenElements(list.GroupOrder, groups, id);
  }

  predicate IsFirstIndex(s: seq<Snowflake>, x: Snowflake, i: int) {
    if i == -1 then x !in s else 0 <= i < |s| && s[i] == x && forall k :: 0 <= k < i ==> s[k] != x
  }

  lemma {:induction false} FirstIndexExists(s: seq<Snowflake>, x: Snowflake) returns (i: int)
    ensures IsFirstIndex(s, x, i)
  {
    if s == [] {
      i := -1;
    } else if s[0] == x {
      i := 0;
    } else {
      i := FirstIndexExists(s[1..], x);
      assert s == [s[0]] + s[1..];
      if i != -1 {
        i := i + 1;
      }
    }
  }

  lemma FirstIndexUnique(s: seq<Snowflake>, x: Snowflake, i: int, j: int)
    requires IsFirstIndex(s, x, i) && IsFirstIndex(s, x, j)
    ensures i == j
  {
    assert forall k :: 0 <= k < |s| ==> s[k] in s;
  }

  /** Where a linear scan for x stops; -1 when it runs out. */
  ghost function FirstIndex(s: seq<Snowflake>, x: Snowflake): (i: int)
    ensures IsFirstIndex(s, x, i)
  {
    assert exists i :: IsFirstIndex(s, x, i) by {
      var i := FirstIndexExists(s, x);
    }
    var i :| IsFirstIndex(s, x, i);
    i
  }

  lemma FirstIndexOfInserted(s: seq<Snowflake>, p: nat, x: Snowflake)
    requires p <= |s| && x !in s
    ensures FirstIndex(InsertAt(s, p, x), x) == p
  {
    var t := InsertAt(s, p, x);
    assert t[p] == x;
    FirstIndexUnique(t, x, p, FirstIndex(t, x));
  }

  /** The view before and after a move: one common list without the user, with the user at
      its first index in each view where its group is listed. */
  lemma MovedViews(users: Users, id: Snowflake, before: UserList, g0: Snowflake, j: nat, g1: Snowflake, k: nat,
                   after: UserList)
    returns (common: seq<Snowflake>)
    requires Shape(before) && Moved(users, id, before, g0, j, g1, k, after)
    ensures id !in common
    ensures var p := FirstIndex(before.View, id);
            && (g0 in before.GroupOrder <==> p >= 0)
            && (if p >= 0 then 0 < p <= |common| && before.View == InsertAt(common, p, id) else before.View == common)
    ensures var q := FirstIndex(after.View, id);
            && (g1 in before.GroupOrder <==> q >= 0)
            && (if q >= 0 then 0 < q <= |common| && after.View == InsertAt(common, q, id) else after.View == common)
            && forall m: nat :: m < |before.GroupOrder| && before.GroupOrder[m] == g1 ==>
                 q == |Flatten(before.GroupOrder[..m], Without(before, g0, j))| + 1 + k
  {
    var groups := Without(before, g0, j);
    common := Flatten(before.GroupOrder, groups);
    WithoutUser(before, g0, j, id);
    RemoveThenInsert(before.Groups[g0], j);
    var p := InsertIntoView(before.GroupOrder, groups, g0, j, id);
    assert groups[g0 := before.Groups[g0]] == before.Groups;
    var q := InsertIntoView(before.GroupOrder, groups, g1, k, id);
    if p >= 0 { FirstIndexOfInserted(common, p, id); }
    if q >= 0 { FirstIndexOfInserted(common, q, id); }
  }

  /** Who is in which group after a move. */
  lemma MovedElements(users: Users, id: Snowflake, before: UserList, g0: Snowflake, j: nat, g1: Snowflake, k: nat,
                      after: UserList)
    requires Shape(before) && Moved(users, id, before, g0, j, g1, k, after)
    ensures forall g :: Distinct(GroupOf(after.Groups, g))
    ensures forall g, x :: x in GroupOf(after.Groups, g) <==>
              if x == id then g == g1 else x in GroupOf(before.Groups, g)
  {
    WithoutUser(before, g0, j, id);
    var groups := Without(before, g0, j);
    RemovedElements(before.Groups[g0], j);
    InsertedElements(GroupOf(groups, g1), k, id);
    forall g, x ensures x in GroupOf(after.Groups, g) <==> if x == id then g == g1 else x in GroupOf(before.Groups, g) {
      assert x != id ==> (x in GroupOf(groups, g) <==> x in GroupOf(before.Groups, g));
      assert g != g1 ==> GroupOf(after.Groups, g) == GroupOf(groups, g);
    }
  }

  /** A move keeps the shape, whatever the list is and however stale. */
  lemma MovedKeepsShape(users: Users, id: Snowflake, before: UserList, g0: Snowflake, j: nat, g1: Snowflake, k: nat,
                        after: UserList)
    requires Shape(before) && Moved(users, id, before, g0, j, g1, k, after)
    ensures Shape(after)
  {
    MovedElements(users, id, before, g0, j, g1, k, after);
    assert id in before.Groups[g0];
    forall g | g in after.Groups ensures Distinct(after.Groups[g]) {
      assert GroupOf(after.Groups, g) == after.Groups[g];
    }
    forall g, x | g in after.Groups && x in after.Groups[g] ensures x !in after.GroupOrder {
      assert x in GroupOf(after.Groups, g);
      assert x != id ==> x in GroupOf(before.Groups, g);
    }
    forall g, h, x | g in after.Groups && h in after.Groups && x in after.Groups[g] && x in after.Groups[h]
      ensures g == h
    {
      assert x in GroupOf(after.Groups, g) && x in GroupOf(after.Groups, h);
      assert x != id ==> x in GroupOf(before.Groups, g) && x in GroupOf(before.Groups, h);
    }
  }

  /** Ordered insertion: between its two neighbours is between all. */
  lemma InsertKeepsOrdered(users: Users, s: seq<Snowflake>, k: nat, id: Snowflake)
    requires Ordered(users, s) && k <= |s| && id !in s
    requires k > 0 ==> !Precedes(users, id, s[k - 1])
    requires k < |s| ==> Precedes(users, id, s[k])
    ensures Ordered(users, InsertAt(s, k, id))
  {
    var t := InsertAt(s, k, id);
    forall i | 0 <= i < k ensures Precedes(users, s[i], id) {
      BehindNeighbour(users, s, k, id, i);
    }
    forall i | k <= i < |s| ensures Precedes(users, id, s[i]) {
      if i > k {
        EntryOrder(EntryOf(users, id), EntryOf(users, s[k]), EntryOf(users, s[i]));
      }
    }
    forall a, b | 0 <= a < b < |t| ensures Precedes(users, t[a], t[b]) {
      assert a != k ==> t[a] == s[if a < k then a else a - 1];
      assert b != k ==> t[b] == s[if b < k then b else b - 1];
    }
  }

  lemma BehindNeighbour(users: Users, s: seq<Snowflake>, k: nat, id: Snowflake, i: nat)
    requires Ordered(users, s) && i < k <= |s| && id !in s && !Precedes(users, id, s[k - 1])
    ensures Precedes(users, s[i], id)
  {
    assert s[i] != id && s[k - 1] != id;
    EntryOrder(EntryOf(users, id), EntryOf(users, s[k - 1]), EntryOf(users, id));
    if i < k - 1 {
      EntryOrder(EntryOf(users, s[i]), EntryOf(users, s[k - 1]), EntryOf(users, id));
    }
  }

  lemma RemoveKeepsOrdered(users: Users, s: seq<Snowflake>, j: nat)
    requires Ordered(users, s) && j < |s|
    ensures Ordered(users, RemoveAt(s, j))
  {
    var t := RemoveAt(s, j);
    forall a, b | 0 <= a < b < |t| ensures Precedes(users, t[a], t[b]) {
      assert t[a] == s[if a < j then a else a + 1] && t[b] == s[if b < j then b else b + 1];
    }
  }
}
