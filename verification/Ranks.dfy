/** What a list of role IDs amounts to against a role table: best rank, hoist, permissions.
    Roles that are no longer in the table are skipped. */
module Ranks {
  import opened Models
  import opened Wrappers

  type RoleTable = map<Snowflake, Role>

  /** The roles are filed under their own IDs, and no ID is the "none" ID. */
  ghost predicate ValidRoles(roles: RoleTable) {
    forall r :: r in roles ==> roles[r].ID == r && r != 0
  }

  // ---------------------------------------------------------------- rank

  /** The lowest position among the first to the last of `ids`, MAX_INT when there is none. */
  function RankOf(roles: RoleTable, ids: seq<Snowflake>): Int64 {
    if ids == [] then MAX_INT
    else
      var rest := RankOf(roles, ids[..|ids| - 1]);
      var last := ids[|ids| - 1];
      if last in roles && roles[last].Position < rest then roles[last].Position else rest
  }

  ghost predicate Holds(roles: RoleTable, ids: seq<Snowflake>, r: Snowflake) {
    r in ids && r in roles
  }

  /** The rank is the minimum position over the held roles that exist. */
  lemma {:induction false} RankIsMinimum(roles: RoleTable, ids: seq<Snowflake>)
    ensures forall r :: Holds(roles, ids, r) ==> RankOf(roles, ids) <= roles[r].Position
    ensures RankOf(roles, ids) == MAX_INT || exists r :: Holds(roles, ids, r) && roles[r].Position == RankOf(roles, ids)
  {
    if ids == [] {
    } else {
      var rest, last := ids[..|ids| - 1], ids[|ids| - 1];
      assert ids == rest + [last];
      RankIsMinimum(roles, rest);
      assert forall r :: Holds(roles, ids, r) <==> Holds(roles, rest, r) || (r == last && last in roles);
      if RankOf(roles, ids) != MAX_INT {
        if last in roles && roles[last].Position == RankOf(roles, ids) {
          assert Holds(roles, ids, last);
        } else {
          var r :| Holds(roles, rest, r) && roles[r].Position == RankOf(roles, rest);
          assert Holds(roles, ids, r);
        }
      }
    }
  }

  lemma RankParts(roles: RoleTable, ids: seq<Snowflake>)
    ensures forall r :: r in ids && r in roles ==> RankOf(roles, ids) <= roles[r].Position
    ensures RankOf(roles, ids) != 0x7FFF_FFFF_FFFF_FFFF ==>
              exists r :: r in ids && r in roles && roles[r].Position == RankOf(roles, ids)
  {
    RankIsMinimum(roles, ids);
    forall r | r in ids && r in roles ensures RankOf(roles, ids) <= roles[r].Position {
      assert Holds(roles, ids, r);
    }
  }

  /** Whether a rank is better than some position, on the role table itself. */
  lemma RankBelowIff(roles: RoleTable, ids: seq<Snowflake>, bound: Int64)
    ensures RankOf(roles, ids) < bound <==>
              exists r :: r in ids && r in roles && roles[r].Position < bound
  {
    RankIsMinimum(roles, ids);
    if r :| r in ids && r in roles && roles[r].Position < bound {
      assert Holds(roles, ids, r);
    }
  }

  lemma RanksBelowIff(roles: RoleTable, a: seq<Snowflake>, b: seq<Snowflake>)
    ensures RankOf(roles, a) < RankOf(roles, b) <==>
              exists r :: r in a && r in roles && roles[r].Position < 0x7FFF_FFFF_FFFF_FFFF &&
                forall q :: q in b && q in roles ==> roles[r].Position < roles[q].Position
  {
    RankParts(roles, a);
    RankParts(roles, b);
  }

  /** The minimum of a set: neither order nor repetition of the role IDs matters. */
  lemma RankOfSameRoles(roles: RoleTable, a: seq<Snowflake>, b: seq<Snowflake>)
    requires forall r :: r in a <==> r in b
    ensures RankOf(roles, a) == RankOf(roles, b)
  {
    RankIsMinimum(roles, a);
    RankIsMinimum(roles, b);
    assert forall r :: Holds(roles, a, r) <==> Holds(roles, b, r);
  }

  // ---------------------------------------------------------------- hoist

  datatype Hoist = Hoist(rank: Int64, role: Snowflake)

  predicate Hoistable(roles: RoleTable, r: Snowflake) {
    r in roles && roles[r].Hoisted
  }

  function BetterHoist(roles: RoleTable, h: Hoist, r: Snowflake): Hoist {
    if Hoistable(roles, r) && roles[r].Position < h.rank then Hoist(roles[r].Position, roles[r].ID) else h
  }

  function BestHoist(roles: RoleTable, ids: seq<Snowflake>): Hoist {
    if ids == [] then Hoist(MAX_INT, 0)
    else BetterHoist(roles, BestHoist(roles, ids[..|ids| - 1]), ids[|ids| - 1])
  }

  /** The hoist is the first, among the held hoisted roles of the lowest position. It is 0
      only when no held hoisted role has a position below MAX_INT. */
  lemma {:induction false} HoistIsFirstMinimum(roles: RoleTable, ids: seq<Snowflake>)
    requires ValidRoles(roles)
    ensures var h := BestHoist(roles, ids);
            && (forall k :: 0 <= k < |ids| && Hoistable(roles, ids[k]) ==> h.rank <= roles[ids[k]].Position)
            && (h.role == 0 <==> h.rank == MAX_INT)
            && (h.role != 0 ==>
                  exists k ::
                    && 0 <= k < |ids| && ids[k] == h.role
                    && Hoistable(roles, h.role) && h.rank == roles[h.role].Position
                    && forall j :: 0 <= j < k && Hoistable(roles, ids[j]) ==> h.rank < roles[ids[j]].Position)
  {
    if ids == [] {
    } else {
      var n := |ids| - 1;
      var rest, last := ids[..n], ids[n];
      HoistIsFirstMinimum(roles, rest);
      var h0, h := BestHoist(roles, rest), BestHoist(roles, ids);
      assert forall k :: 0 <= k < n ==> ids[k] == rest[k];
      if Hoistable(roles, last) && roles[last].Position < h0.rank {
        assert ids[n] == h.role;
      } else if h0.role != 0 {
        var k :| 0 <= k < n && rest[k] == h0.role && Hoistable(roles, h0.role) && h0.rank == roles[h0.role].Position
              && forall j :: 0 <= j < k && Hoistable(roles, rest[j]) ==> h0.rank < roles[rest[j]].Position;
        assert ids[k] == h.role;
      }
    }
  }

  lemma HoistParts(roles: RoleTable, ids: seq<Snowflake>)
    requires ValidRoles(roles)
    ensures var hoist := BestHoist(roles, ids).role;
            && (hoist == 0 ==> forall r :: r in ids && r in roles && roles[r].Hoisted ==>
                  roles[r].Position == 0x7FFF_FFFF_FFFF_FFFF)
            && (hoist != 0 ==>
                  && hoist in roles && roles[hoist].Hoisted && roles[hoist].Position < 0x7FFF_FFFF_FFFF_FFFF
                  && exists k :: 0 <= k < |ids| && ids[k] == hoist &&
                       forall l :: 0 <= l < |ids| && ids[l] in roles && roles[ids[l]].Hoisted ==>
                         || roles[hoist].Position < roles[ids[l]].Position
                         || (roles[hoist].Position == roles[ids[l]].Position && k <= l))
  {
    HoistIsFirstMinimum(roles, ids);
    var h := BestHoist(roles, ids);
    if h.role == 0 {
      forall r | r in ids && r in roles && roles[r].Hoisted ensures roles[r].Position == MAX_INT {
        var k :| 0 <= k < |ids| && ids[k] == r;
        assert Hoistable(roles, ids[k]);
      }
    } else {
      var k :| 0 <= k < |ids| && ids[k] == h.role && Hoistable(roles, h.role) && h.rank == roles[h.role].Position
            && forall j :: 0 <= j < k && Hoistable(roles, ids[j]) ==> h.rank < roles[ids[j]].Position;
      forall l | 0 <= l < |ids| && ids[l] in roles && roles[ids[l]].Hoisted
        ensures roles[h.role].Position < roles[ids[l]].Position ||
                (roles[h.role].Position == roles[ids[l]].Position && k <= l)
      {
        assert Hoistable(roles, ids[l]);
      }
    }
  }

  // ---------------------------------------------------------------- permissions

  /** An administrator may do everything. */
  function Widen(p: Permissions): Permissions {
    if ADMINISTRATOR in p then PERMISSION_ALL else p
  }

  function RolePermissions(roles: RoleTable, base: Permissions, ids: seq<Snowflake>): Permissions {
    if ids == [] then base
    else
      var rest := RolePermissions(roles, base, ids[..|ids| - 1]);
      var last := ids[|ids| - 1];
      if last in roles then rest + roles[last].Permissions else rest
  }

  /** The base and every held role's permissions, and nothing else. */
  lemma {:induction false} RolePermissionsAreUnion(roles: RoleTable, base: Permissions, ids: seq<Snowflake>)
    ensures forall p :: p in RolePermissions(roles, base, ids) <==>
              p in base || exists r :: Holds(roles, ids, r) && p in roles[r].Permissions
  {
    if ids == [] {
    } else {
      var rest, last := ids[..|ids| - 1], ids[|ids| - 1];
      assert ids == rest + [last];
      RolePermissionsAreUnion(roles, base, rest);
      assert forall r :: Holds(roles, ids, r) <==> Holds(roles, rest, r) || (r == last && last in roles);
    }
  }

  /** With the administrator bit, 0, in the base or in a held role: the bits 0 to 30. Otherwise the
      bits of the base and of the held roles. */
  lemma WidenedPermissions(roles: RoleTable, base: Permissions, ids: seq<Snowflake>)
    ensures forall p: nat :: p in Widen(RolePermissions(roles, base, ids)) <==>
              if 0 in base || exists r :: r in ids && r in roles && 0 in roles[r].Permissions then p < 31
              else p in base || exists r :: r in ids && r in roles && p in roles[r].Permissions
  {
    RolePermissionsAreUnion(roles, base, ids);
    forall p: nat ensures p in RolePermissions(roles, base, ids) <==>
        p in base || exists r :: r in ids && r in roles && p in roles[r].Permissions
    {
      if r :| r in ids && r in roles && p in roles[r].Permissions {
        assert Holds(roles, ids, r);
      }
    }
  }

  lemma RolePermissionsOfSameRoles(roles: RoleTable, base: Permissions, a: seq<Snowflake>, b: seq<Snowflake>)
    requires forall r :: r in a <==> r in b
    ensures RolePermissions(roles, base, a) == RolePermissions(roles, base, b)
  {
    RolePermissionsAreUnion(roles, base, a);
    RolePermissionsAreUnion(roles, base, b);
    assert forall r :: Holds(roles, a, r) <==> Holds(roles, b, r);
  }

  // ---------------------------------------------------------------- without one role

  /** The role IDs other than r. */
  function Except(ids: seq<Snowflake>, r: Snowflake): seq<Snowflake> {
    if ids == [] then []
    else Except(ids[..|ids| - 1], r) + if ids[|ids| - 1] == r then [] else [ids[|ids| - 1]]
  }

  lemma {:induction false} ExceptElements(ids: seq<Snowflake>, r: Snowflake)
    ensures forall q :: q in Except(ids, r) <==> q in ids && q != r
  {
    if ids == [] {
    } else {
      var n := |ids| - 1;
      ExceptElements(ids[..n], r);
      assert ids == ids[..n] + [ids[n]];
    }
  }

  /** Appending an ID appends it, or nothing if it is r. */
  lemma ExceptLast(ids: seq<Snowflake>, r: Snowflake)
    requires ids != []
    ensures var n := |ids| - 1;
            Except(ids, r) == if ids[n] == r then Except(ids[..n], r) else Except(ids[..n], r) + [ids[n]]
    ensures ids[|ids| - 1] != r ==> Except(ids, r)[..|Except(ids, r)| - 1] == Except(ids[..|ids| - 1], r)
  {
  }

  lemma HoldsLast(roles: RoleTable, ids: seq<Snowflake>, r: Snowflake)
    requires ids != []
    ensures Holds(roles, ids, r) <==> Holds(roles, ids[..|ids| - 1], r) || (ids[|ids| - 1] == r && r in roles)
  {
    assert ids == ids[..|ids| - 1] + [ids[|ids| - 1]];
  }

  lemma {:induction false} RankWithRole(roles: RoleTable, ids: seq<Snowflake>, r: Snowflake)
    ensures var others := RankOf(roles, Except(ids, r));
            RankOf(roles, ids) ==
              if Holds(roles, ids, r) && roles[r].Position < others then roles[r].Position else others
  {
    if ids == [] {
    } else {
      var n := |ids| - 1;
      RankWithRole(roles, ids[..n], r);
      ExceptLast(ids, r);
      HoldsLast(roles, ids, r);
    }
  }

  lemma {:induction false} PermissionsWithRole(roles: RoleTable, base: Permissions, ids: seq<Snowflake>, r: Snowflake)
    ensures RolePermissions(roles, base, ids) ==
            RolePermissions(roles, base, Except(ids, r)) + if Holds(roles, ids, r) then roles[r].Permissions else {}
  {
    if ids == [] {
    } else {
      var n := |ids| - 1;
      PermissionsWithRole(roles, base, ids[..n], r);
      ExceptLast(ids, r);
      HoldsLast(roles, ids, r);
    }
  }

  /** `others` is what h would be without r. */
  predicate HoistWithout(h: Hoist, others: Hoist, r: Snowflake) {
    h.rank <= others.rank && (h == others || h.role == r)
  }

  lemma BetterHoistWithout(roles: RoleTable, h: Hoist, others: Hoist, r: Snowflake, last: Snowflake)
    requires ValidRoles(roles) && HoistWithout(h, others, r)
    ensures HoistWithout(BetterHoist(roles, h, last), if last == r then others else BetterHoist(roles, others, last), r)
  {
  }

  /** Either r is the hoist, or the hoist is as without r. */
  lemma {:induction false} HoistWithRole(roles: RoleTable, ids: seq<Snowflake>, r: Snowflake)
    requires ValidRoles(roles)
    ensures HoistWithout(BestHoist(roles, ids), BestHoist(roles, Except(ids, r)), r)
  {
    if ids == [] {
    } else {
      var n := |ids| - 1;
      HoistWithRole(roles, ids[..n], r);
      ExceptLast(ids, r);
      BetterHoistWithout(roles, BestHoist(roles, ids[..n]), BestHoist(roles, Except(ids[..n], r)), r, ids[n]);
    }
  }

  /** With these properties r would be the hoist among `ids`: hoisted, of a real position, and
      before every other hoisted role by position, or at the same position by order. */
  ghost predicate Outranks(roles: RoleTable, ids: seq<Snowflake>, r: Snowflake, role: Option<Role>) {
    && role.Some? && role.value.Hoisted && role.value.Position < MAX_INT
    && forall q :: q in ids && q != r && Hoistable(roles, q) ==>
         || role.value.Position < roles[q].Position
         || (role.value.Position == roles[q].Position && ComesBefore(ids, r, q))
  }

  ghost predicate ComesBefore(ids: seq<Snowflake>, r: Snowflake, q: Snowflake) {
    exists i :: 0 <= i < |ids| && ids[i] == r && q !in ids[..i]
  }

  function Find(roles: RoleTable, r: Snowflake): Option<Role> {
    if r in roles then Some(roles[r]) else None
  }

  lemma HoistIsRoleIff(roles: RoleTable, ids: seq<Snowflake>, r: Snowflake)
    requires ValidRoles(roles) && r in ids && r != 0
    ensures BestHoist(roles, ids).role == r <==> Outranks(roles, ids, r, Find(roles, r))
  {
    var h := BestHoist(roles, ids);
    HoistIsFirstMinimum(roles, ids);
    if h.role == r {
      HoistOutranks(roles, ids, r);
    }
    if Outranks(roles, ids, r, Find(roles, r)) {
      var i :| 0 <= i < |ids| && ids[i] == r;
      assert h.rank <= roles[r].Position;
      var k :| 0 <= k < |ids| && ids[k] == h.role && Hoistable(roles, h.role) && h.rank == roles[h.role].Position
            && forall j :: 0 <= j < k && Hoistable(roles, ids[j]) ==> h.rank < roles[ids[j]].Position;
      assert forall l :: k < l < |ids| ==> ids[..l][k] == h.role;
    }
  }

  lemma HoistOutranks(roles: RoleTable, ids: seq<Snowflake>, r: Snowflake)
    requires ValidRoles(roles) && r != 0 && BestHoist(roles, ids).role == r
    ensures Outranks(roles, ids, r, Find(roles, r))
  {
    var h := BestHoist(roles, ids);
    HoistIsFirstMinimum(roles, ids);
    var k :| 0 <= k < |ids| && ids[k] == r && Hoistable(roles, r) && h.rank == roles[r].Position
          && forall j :: 0 <= j < k && Hoistable(roles, ids[j]) ==> h.rank < roles[ids[j]].Position;
    forall q | q in ids && q != r && Hoistable(roles, q)
      ensures h.rank < roles[q].Position || (h.rank == roles[q].Position && ComesBefore(ids, r, q))
    {
      var l :| 0 <= l < |ids| && ids[l] == q;
      assert h.rank <= roles[ids[l]].Position;
      if h.rank == roles[q].Position {
        forall j | 0 <= j < k ensures ids[..k][j] != q {
        }
        assert q !in ids[..k];
      }
    }
  }
}
