/** What setting or deleting one role does to what is computed for the users who hold it. */
module RoleChanges {
  import opened Models
  import opened Ranks
  import opened UserLists
  import opened Wrappers

  function PositionOf(role: Option<Role>): Int64 {
    if role.Some? then role.value.Position else MAX_INT
  }

  function PermissionsOf(role: Option<Role>): Permissions {
    if role.Some? then role.value.Permissions else {}
  }

  /** Beside other roles of the best position `others`. */
  predicate SameRank(others: Int64, before: Option<Role>, after: Option<Role>) {
    PositionOf(before) == PositionOf(after) || (PositionOf(before) >= others && PositionOf(after) >= others)
  }

  /** Beside the permissions `others` of the defaults and the other roles. */
  predicate SamePermissions(others: Permissions, before: Option<Role>, after: Option<Role>) {
    var p, q := PermissionsOf(before), PermissionsOf(after);
    || ADMINISTRATOR in others
    || (ADMINISTRATOR in p && ADMINISTRATOR in q)
    || (ADMINISTRATOR !in p && ADMINISTRATOR !in q && p - others == q - others)
  }

  /** A holder of `ids` does not notice when role r becomes `after`: its position matters no
      more or less than before, it is the hoist if it was, and it adds the same permissions to
      those of the other roles. */
  ghost predicate Unnoticed(roles: RoleTable, defaults: Permissions, ids: seq<Snowflake>, r: Snowflake,
                            after: Option<Role>)
  {
    var before, others := Find(roles, r), Except(ids, r);
    && SameRank(RankOf(roles, others), before, after)
    && (Outranks(roles, ids, r, before) <==> Outranks(roles, ids, r, after))
    && SamePermissions(RolePermissions(roles, defaults, others), before, after)
  }

  ghost predicate ChangesOnly(roles: RoleTable, roles': RoleTable, r: Snowflake) {
    forall q :: q != r ==> Find(roles, q) == Find(roles', q)
  }

  lemma {:induction false} InfoIgnoresOtherRoles(roles: RoleTable, roles': RoleTable, ids: seq<Snowflake>,
                                                 base: Permissions)
    requires forall r :: r in ids ==> Find(roles, r) == Find(roles', r)
    ensures RankOf(roles, ids) == RankOf(roles', ids)
    ensures BestHoist(roles, ids) == BestHoist(roles', ids)
    ensures RolePermissions(roles, base, ids) == RolePermissions(roles', base, ids)
  {
    if ids == [] {
    } else {
      var last := ids[|ids| - 1];
      assert last in ids && Find(roles, last) == Find(roles', last);
      InfoIgnoresOtherRoles(roles, roles', ids[..|ids| - 1], base);
    }
  }

  lemma OthersUnchanged(roles: RoleTable, roles': RoleTable, ids: seq<Snowflake>, r: Snowflake, base: Permissions)
    requires ChangesOnly(roles, roles', r)
    ensures RankOf(roles, Except(ids, r)) == RankOf(roles', Except(ids, r))
    ensures BestHoist(roles, Except(ids, r)) == BestHoist(roles', Except(ids, r))
    ensures RolePermissions(roles, base, Except(ids, r)) == RolePermissions(roles', base, Except(ids, r))
  {
    ExceptElements(ids, r);
    InfoIgnoresOtherRoles(roles, roles', Except(ids, r), base);
  }

  lemma RankUnnoticedIff(roles: RoleTable, roles': RoleTable, ids: seq<Snowflake>, r: Snowflake)
    requires ChangesOnly(roles, roles', r) && r in ids
    ensures RankOf(roles', ids) == RankOf(roles, ids) <==>
              SameRank(RankOf(roles, Except(ids, r)), Find(roles, r), Find(roles', r))
  {
    OthersUnchanged(roles, roles', ids, r, {});
    RankWithRole(roles, ids, r);
    RankWithRole(roles', ids, r);
  }

  lemma PermissionsUnnoticedIff(roles: RoleTable, roles': RoleTable, base: Permissions, ids: seq<Snowflake>,
                                r: Snowflake)
    requires ChangesOnly(roles, roles', r) && r in ids
    ensures Widen(RolePermissions(roles', base, ids)) == Widen(RolePermissions(roles, base, ids)) <==>
              SamePermissions(RolePermissions(roles, base, Except(ids, r)), Find(roles, r), Find(roles', r))
  {
    OthersUnchanged(roles, roles', ids, r, base);
    PermissionsWithRole(roles, base, ids, r);
    PermissionsWithRole(roles', base, ids, r);
    WidenedUnions(RolePermissions(roles, base, Except(ids, r)), PermissionsOf(Find(roles, r)),
        PermissionsOf(Find(roles', r)));
  }

  lemma WidenedUnions(u: Permissions, p: Permissions, q: Permissions)
    ensures Widen(u + p) == Widen(u + q) <==>
              || ADMINISTRATOR in u
              || (ADMINISTRATOR in p && ADMINISTRATOR in q)
              || (ADMINISTRATOR !in p && ADMINISTRATOR !in q && p - u == q - u)
  {
    assert ADMINISTRATOR in PERMISSION_ALL;
    assert u + p == u + (p - u) && u + q == u + (q - u);
    assert (u + p) - u == p - u && (u + q) - u == q - u;
  }

  lemma OutranksIgnoresItsOwn(roles: RoleTable, roles': RoleTable, ids: seq<Snowflake>, r: Snowflake,
                              role: Option<Role>)
    requires ChangesOnly(roles, roles', r)
    ensures Outranks(roles, ids, r, role) <==> Outranks(roles', ids, r, role)
  {
    forall q | q != r ensures (q in roles <==> q in roles') && (q in roles ==> roles[q] == roles'[q]) {
      assert Find(roles, q) == Find(roles', q);
    }
  }

  lemma HoistUnnoticedIff(roles: RoleTable, roles': RoleTable, ids: seq<Snowflake>, r: Snowflake)
    requires ValidRoles(roles) && ValidRoles(roles') && ChangesOnly(roles, roles', r) && r in ids && r != 0
    ensures BestHoist(roles', ids).role == BestHoist(roles, ids).role <==>
              (Outranks(roles, ids, r, Find(roles, r)) <==> Outranks(roles, ids, r, Find(roles', r)))
  {
    OthersUnchanged(roles, roles', ids, r, {});
    OutranksIgnoresItsOwn(roles, roles', ids, r, Find(roles', r));
    HoistIsRoleIff(roles, ids, r);
    HoistIsRoleIff(roles', ids, r);
    HoistWithRole(roles, ids, r);
    HoistWithRole(roles', ids, r);
    ExceptElements(ids, r);
    HoistIsFirstMinimum(roles, Except(ids, r));
  }

  /** The info of a holder is computed the same after the change exactly when the change goes
      unnoticed. */
  lemma InfoUnnoticedIff(roles: RoleTable, roles': RoleTable, defaults: Permissions, u: User, r: Snowflake)
    requires ValidRoles(roles) && ValidRoles(roles') && ChangesOnly(roles, roles', r) && r in u.Roles
    ensures InfoOf(roles', defaults, u) == InfoOf(roles, defaults, u) <==>
              Unnoticed(roles, defaults, u.Roles, r, Find(roles', r))
  {
    RankUnnoticedIff(roles, roles', u.Roles, r);
    PermissionsUnnoticedIff(roles, roles', defaults, u.Roles, r);
    if Find(roles, r) == Find(roles', r) {
      InfoIgnoresOtherRoles(roles, roles', u.Roles, defaults);
    } else {
      HoistUnnoticedIff(roles, roles', u.Roles, r);
    }
  }
}
