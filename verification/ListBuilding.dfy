/** The stages of UpdateUserList, each on values. */
module ListBuilding {
  import opened Models
  import opened Names
  import opened Ranks
  import opened Sorting
  import opened UserLists

  lemma SomeId(ids: set<Snowflake>)
    requires ids != {}
    ensures exists id :: id in ids
  {
    assert (forall id :: id !in ids) ==> ids == {};
  }

  /** The hoisted roles, in whatever order the map yields them. */
  method HoistedRoles(roles: RoleTable) returns (order: seq<Snowflake>)
    ensures Distinct(order)
    ensures forall r :: r in order <==> Hoistable(roles, r)
  {
    order := [];
    var rest := roles.Keys;
    while rest != {}
      invariant rest <= roles.Keys
      invariant Distinct(order)
      invariant forall r :: r in order <==> Hoistable(roles, r) && r !in rest
    {
      SomeId(rest);
      var r :| r in rest;
      rest := rest - {r};
      if roles[r].Hoisted {
        order := order + [r];
      }
    }
  }

  lemma PositionPreorder(roles: RoleTable)
    ensures TotalPreorder((a, b) => PositionLe(roles, a, b))
  {
  }

  method OrderGroups(roles: RoleTable) returns (order: seq<Snowflake>)
    ensures IsGroupOrder(roles, order)
  {
    var hoisted := HoistedRoles(roles);
    PositionPreorder(roles);
    var le := (a, b) => PositionLe(roles, a, b);
    var sorted := SortFunc(hoisted, le);
    PermutationDistinct(hoisted, sorted);
    forall r ensures r in sorted <==> r in hoisted { SameElements(sorted, hoisted, r); }
    order := sorted + [PRESENCE_ONLINE, PRESENCE_OFFLINE];
    assert order[..|order| - 2] == sorted;
    assert forall i, j :: 0 <= i < j < |sorted| ==> le(sorted[i], sorted[j]);
  }

  /** Each user goes into the group it belongs to. A group outside the order is created on
      the way. */
  method GroupUsers(users: Users, infos: UserInfos, order: seq<Snowflake>) returns (groups: Groups)
    requires infos.Keys == users.Keys
    ensures forall g :: g in order ==> g in groups
    ensures forall g :: Lists(users, infos, g, GroupOf(groups, g))
  {
    groups := map[];
    for k := 0 to |order|
      invariant forall g :: g in groups ==> groups[g] == []
      invariant forall i :: 0 <= i < k ==> order[i] in groups
    {
      groups := groups[order[k] := []];
    }
    var rest := users.Keys;
    while rest != {}
      invariant rest <= users.Keys
      invariant forall g :: g in order ==> g in groups
      invariant forall g :: Distinct(GroupOf(groups, g))
      invariant forall g, id :: id in GroupOf(groups, g) <==> BelongsTo(users, infos, g, id) && id !in rest
    {
      SomeId(rest);
      var uid :| uid in rest;
      rest := rest - {uid};
      var group := UserGroup(users[uid], infos[uid]);
      ghost var before := groups;
      groups := groups[group := GroupOf(groups, group) + [uid]];
      assert forall g :: g != group ==> GroupOf(groups, g) == GroupOf(before, g);
    }
  }

  lemma EntryPreorder()
    ensures TotalPreorder((a: SortEntry, b: SortEntry) => !EntryLess(b, a))
  {
    var le := (a: SortEntry, b: SortEntry) => !EntryLess(b, a);
    forall a, b ensures le(a, b) || le(b, a) {
      EntryOrder(a, b, a);
    }
    forall a, b, c | le(a, b) && le(b, c) ensures le(a, c) {
      EntryOrder(c, a, b);
      EntryOrder(b, c, a);
      EntryOrder(a, b, c);
    }
  }

  method SortGroup(users: Users, s: seq<Snowflake>) returns (r: seq<Snowflake>)
    requires Distinct(s)
    ensures Ordered(users, r) && Distinct(r)
    ensures forall id :: id in r <==> id in s
    ensures forall i, j :: 0 <= i < j < |r| ==>
              var x := if r[i] in users then users[r[i]].DisplayName else [];
              var y := if r[j] in users then users[r[j]].DisplayName else [];
              || (x == y && r[i] < r[j])
              || exists n: nat :: n <= |x| && n < |y| && x[..n] == y[..n] && (n == |x| || x[n] < y[n])
  {
    var entries := seq(|s|, i requires 0 <= i < |s| => EntryOf(users, s[i]));
    assert forall i :: 0 <= i < |s| ==> entries[i].ID == s[i];
    EntryPreorder();
    var sorted := SortFunc(entries, (a: SortEntry, b: SortEntry) => !EntryLess(b, a));
    PermutationDistinct(entries, sorted);
    r := seq(|sorted|, i requires 0 <= i < |sorted| => sorted[i].ID);
    SortedEntries(users, s, entries, sorted, r);
    OrderedByName(users, r);
  }

  lemma OrderedByName(users: Users, s: seq<Snowflake>)
    requires Ordered(users, s)
    ensures forall i, j :: 0 <= i < j < |s| ==>
              var x := if s[i] in users then users[s[i]].DisplayName else [];
              var y := if s[j] in users then users[s[j]].DisplayName else [];
              || (x == y && s[i] < s[j])
              || exists n: nat :: n <= |x| && n < |y| && x[..n] == y[..n] && (n == |x| || x[n] < y[n])
  {
    forall i, j | 0 <= i < j < |s|
      ensures var x := if s[i] in users then users[s[i]].DisplayName else [];
              var y := if s[j] in users then users[s[j]].DisplayName else [];
              || (x == y && s[i] < s[j])
              || exists n: nat :: n <= |x| && n < |y| && x[..n] == y[..n] && (n == |x| || x[n] < y[n])
    {
      PrecedesIff(users, s[i], s[j]);
    }
  }

  lemma SortedEntries(users: Users, s: seq<Snowflake>, entries: seq<SortEntry>, sorted: seq<SortEntry>,
                      r: seq<Snowflake>)
    requires |entries| == |s| && forall i :: 0 <= i < |s| ==> entries[i] == EntryOf(users, s[i])
    requires multiset(sorted) == multiset(entries) && Distinct(sorted)
    requires SortedBy(sorted, (a: SortEntry, b: SortEntry) => !EntryLess(b, a))
    requires |r| == |sorted| && forall i :: 0 <= i < |r| ==> r[i] == sorted[i].ID
    ensures Ordered(users, r) && Distinct(r)
    ensures forall id :: id in r <==> id in s
  {
    forall e ensures e in sorted <==> e in entries { SameElements(sorted, entries, e); }
    forall i | 0 <= i < |r| ensures sorted[i] == EntryOf(users, r[i]) && r[i] in s {
      assert sorted[i] in sorted;
      var k :| 0 <= k < |entries| && entries[k] == sorted[i];
    }
    forall id | id in s ensures id in r {
      var k :| 0 <= k < |s| && s[k] == id;
      assert entries[k] in entries;
      var i :| 0 <= i < |sorted| && sorted[i] == entries[k];
      assert r[i] == id;
    }
    forall i, j | 0 <= i < j < |r| ensures Precedes(users, r[i], r[j]) && r[i] != r[j] {
      var le := (a: SortEntry, b: SortEntry) => !EntryLess(b, a);
      assert le(sorted[i], sorted[j]);
      EntryOrder(sorted[i], sorted[j], sorted[i]);
    }
  }

  method SortGroups(users: Users, order: seq<Snowflake>, groups: Groups) returns (r: Groups)
    requires forall g :: g in order ==> g in groups
    requires forall g :: Distinct(GroupOf(groups, g))
    ensures r.Keys == groups.Keys
    ensures forall g :: g in order ==> Ordered(users, r[g])
    ensures forall g :: Distinct(GroupOf(r, g))
    ensures forall g, id :: id in GroupOf(r, g) <==> id in GroupOf(groups, g)
  {
    r := groups;
    for k := 0 to |order|
      invariant r.Keys == groups.Keys
      invariant forall i :: 0 <= i < k ==> order[i] in r && Ordered(users, r[order[i]])
      invariant forall g :: Distinct(GroupOf(r, g))
      invariant forall g, id :: id in GroupOf(r, g) <==> id in GroupOf(groups, g)
    {
      var g := order[k];
      assert GroupOf(r, g) == r[g];
      var sorted := SortGroup(users, r[g]);
      ghost var before := r;
      r := r[g := sorted];
      assert forall h :: h != g ==> GroupOf(r, h) == GroupOf(before, h);
    }
  }

  method FlattenView(order: seq<Snowflake>, groups: Groups) returns (view: seq<Snowflake>)
    ensures view == Flatten(order, groups)
  {
    view := [];
    for k := 0 to |order|
      invariant view == Flatten(order[..k], groups)
    {
      FlattenSplit(order[..k + 1], groups, k);
      assert order[..k + 1][..k] == order[..k] && order[..k + 1][k + 1..] == [];
      view := view + [order[k]];
      view := view + GroupOf(groups, order[k]);
      assert view == Flatten(order[..k], groups) + Block(groups, order[k]);
    }
    assert order[..|order|] == order;
  }

  /** The list UpdateUserList computes from the users, their infos and the roles. */
  method BuildList(users: Users, infos: UserInfos, roles: RoleTable) returns (list: UserList)
    requires infos.Keys == users.Keys
    ensures IsRebuild(users, infos, roles, list)
  {
    var order := OrderGroups(roles);
    var unsorted := GroupUsers(users, infos, order);
    forall g ensures Distinct(GroupOf(unsorted, g)) {
      assert Lists(users, infos, g, GroupOf(unsorted, g));
    }
    var groups := SortGroups(users, order, unsorted);
    forall g ensures Lists(users, infos, g, GroupOf(groups, g)) {
      assert Lists(users, infos, g, GroupOf(unsorted, g));
    }
    var view := FlattenView(order, groups);
    list := UserList(order, groups, view);
  }
}
