/** The permissions of a user in a channel, computed once from the database and once from the
    index. */
module ChannelPermissions {
  import opened Models
  import opened Ranks
  import opened UserIndex
  import opened IndexRuns
  import opened Database

  predicate Matches(u: User, o: Overwrite) {
    if o.Type.OverwriteTypeRole? then o.ID in u.Roles else o.ID == u.ID
  }

  /** A permission that some matching overwrite allows, or denies. */
  ghost predicate Allowed(u: User, os: seq<Overwrite>, p: nat) {
    exists o :: o in os && Matches(u, o) && p in o.Allow
  }

  ghost predicate Denied(u: User, os: seq<Overwrite>, p: nat) {
    exists o :: o in os && Matches(u, o) && p in o.Deny
  }

  ghost predicate Granted(base: Permissions, u: User, os: seq<Overwrite>, p: nat) {
    (p in base || Allowed(u, os, p)) && !Denied(u, os, p)
  }

  /** The base and every matching allow, less every matching deny, with the administrator bit
      widened at the end. The order of roles and overwrites does not enter. */
  ghost predicate IsEffective(base: Permissions, u: User, os: seq<Overwrite>, result: Permissions) {
    if Granted(base, u, os, ADMINISTRATOR) then result == PERMISSION_ALL
    else forall p :: p in result <==> Granted(base, u, os, p)
  }

  /** The bits 0 to 30 when bit 0 comes out granted, and otherwise exactly the bits that are: in
      the base or allowed, and not denied, by an overwrite for a role of the user or for the
      user. */
  lemma EffectivePermissions(base: Permissions, u: User, os: seq<Overwrite>, result: Permissions)
    requires IsEffective(base, u, os, result)
    ensures var mine := set o | o in os && if o.Type == OverwriteTypeRole then o.ID in u.Roles else o.ID == u.ID;
            forall p: nat :: p in result <==>
              if (0 in base || exists o :: o in mine && 0 in o.Allow) && forall o :: o in mine ==> 0 !in o.Deny
              then p < 31
              else (p in base || exists o :: o in mine && p in o.Allow) && forall o :: o in mine ==> p !in o.Deny
  {
    var mine := set o | o in os && if o.Type == OverwriteTypeRole then o.ID in u.Roles else o.ID == u.ID;
    assert forall o :: o in mine <==> o in os && Matches(u, o);
    forall p: nat
      ensures Allowed(u, os, p) <==> exists o :: o in mine && p in o.Allow
      ensures Denied(u, os, p) <==> exists o :: o in mine && p in o.Deny
    {
    }
  }

  lemma EffectiveUnique(base: Permissions, u: User, v: User, os: seq<Overwrite>, qs: seq<Overwrite>, a: Permissions,
                        b: Permissions)
    requires IsEffective(base, u, os, a) && IsEffective(base, v, qs, b)
    requires forall o :: o in os <==> o in qs
    requires forall r :: r in u.Roles <==> r in v.Roles
    requires u.ID == v.ID
    ensures a == b
  {
    assert forall o :: Matches(u, o) <==> Matches(v, o);
    forall p ensures Granted(base, u, os, p) <==> Granted(base, v, qs, p) {
      assert Allowed(u, os, p) <==> Allowed(v, qs, p);
      assert Denied(u, os, p) <==> Denied(v, qs, p);
    }
  }

  /** The loop both computations share: fold the overwrites, subtract, widen. */
  method ApplyOverwrites(base: Permissions, user: User, overwrites: seq<Overwrite>) returns (result: Permissions)
    ensures IsEffective(base, user, overwrites, result)
  {
    var allow, deny := base, {};
    for k := 0 to |overwrites|
      invariant forall p :: p in allow <==> p in base || Allowed(user, overwrites[..k], p)
      invariant forall p :: p in deny <==> Denied(user, overwrites[..k], p)
    {
      var overwrite := overwrites[k];
      assert overwrites[..k + 1] == overwrites[..k] + [overwrite];
      assert forall o :: o in overwrites[..k + 1] <==> o in overwrites[..k] || o == overwrite;
      ghost var allow0, deny0 := allow, deny;
      if overwrite.Type == OverwriteTypeRole {
        for l := 0 to |user.Roles|
          invariant overwrite.ID !in user.Roles[..l]
          invariant allow == allow0 && deny == deny0
        {
          if overwrite.ID == user.Roles[l] {
            allow := allow + overwrite.Allow;
            deny := deny + overwrite.Deny;
            break;
          }
        }
        assert user.Roles[..|user.Roles|] == user.Roles;
      } else if overwrite.Type == OverwriteTypeUser {
        if overwrite.ID == user.ID {
          allow := allow + overwrite.Allow;
          deny := deny + overwrite.Deny;
        }
      }
      assert Matches(user, overwrite) ==> allow == allow0 + overwrite.Allow && deny == deny0 + overwrite.Deny;
      assert !Matches(user, overwrite) ==> allow == allow0 && deny == deny0;
    }
    assert overwrites[..|overwrites|] == overwrites;
    var permissions := allow - deny;
    assert forall p :: p in permissions <==> Granted(base, user, overwrites, p);
    result := if ADMINISTRATOR in permissions then PERMISSION_ALL else permissions;
  }

  // ---------------------------------------------------------------- from the database

  method GetPermissionsByUser(t: Tables, userID: Snowflake) returns (allow: Permissions, user: User)
    ensures userID !in t.users ==> allow == {} && user == NO_USER
    ensures userID in t.users ==>
              user == t.users[userID] && allow == Widen(RolePermissions(t.roles, t.defaults, user.Roles))
  {
    allow := t.defaults;
    var found := GetUser(t, userID);
    if found.None? {
      return {}, NO_USER;
    }
    user := found.value;
    for k := 0 to |user.Roles|
      invariant allow == RolePermissions(t.roles, t.defaults, user.Roles[..k])
    {
      assert user.Roles[..k + 1][..k] == user.Roles[..k];
      if user.Roles[k] in t.roles {
        allow := allow + t.roles[user.Roles[k]].Permissions;
      }
    }
    assert user.Roles[..|user.Roles|] == user.Roles;
    if ADMINISTRATOR in allow {
      allow := PERMISSION_ALL;
    }
  }

  function OverwritesOf(channels: map<Snowflake, Channel>, channelID: Snowflake): seq<Overwrite> {
    if channelID != 0 && channelID in channels then channels[channelID].Overwrites else []
  }

  /** Known user: base permissions with the channel's overwrites. Unknown user: nothing. */
  ghost predicate DatabaseGrants(t: Tables, userID: Snowflake, channelID: Snowflake, result: Permissions) {
    if userID in t.users then
      IsEffective(Widen(RolePermissions(t.roles, t.defaults, t.users[userID].Roles)), t.users[userID],
                  OverwritesOf(t.channels, channelID), result)
    else result == {}
  }

  method TransactionGetPermissionsByChannel(t: Tables, userID: Snowflake, channelID: Snowflake)
    returns (result: Permissions)
    requires ValidTables(t)
    ensures DatabaseGrants(t, userID, channelID, result)
  {
    var allow, user := GetPermissionsByUser(t, userID);
    var overwrites: seq<Overwrite> := [];
    if channelID != 0 && channelID in t.channels {
      overwrites := t.channels[channelID].Overwrites;
    }
    result := ApplyOverwrites(allow, user, overwrites);
    if userID !in t.users {
      assert forall o :: o in overwrites ==> !Matches(NO_USER, o);
    }
  }

  /** An unknown user has no permissions. A known one has, without a channel or in an unknown one,
      those of the defaults and its roles, and in a known channel what the channel's own
      overwrites make of them. */
  lemma DatabasePermissions(t: Tables, userID: Snowflake, channelID: Snowflake, result: Permissions)
    returns (base: Permissions)
    requires DatabaseGrants(t, userID, channelID, result)
    ensures userID !in t.users ==> result == {}
    ensures userID in t.users ==>
              forall p: nat :: p in base <==>
                var ids := t.users[userID].Roles;
                if 0 in t.defaults || exists r :: r in ids && r in t.roles && 0 in t.roles[r].Permissions then p < 31
                else p in t.defaults || exists r :: r in ids && r in t.roles && p in t.roles[r].Permissions
    ensures userID in t.users && (channelID == 0 || channelID !in t.channels) ==> result == base
    ensures userID in t.users && channelID != 0 && channelID in t.channels ==>
              IsEffective(base, t.users[userID], t.channels[channelID].Overwrites, result)
  {
    base := {};
    if userID in t.users {
      base := Widen(RolePermissions(t.roles, t.defaults, t.users[userID].Roles));
      WidenedPermissions(t.roles, t.defaults, t.users[userID].Roles);
      if channelID == 0 || channelID !in t.channels {
        EffectivePermissions(base, t.users[userID], [], result);
      }
    }
  }

  // ---------------------------------------------------------------- from the index

  ghost predicate IndexGrants(s: IndexState, userID: Snowflake, channelID: Snowflake, result: Permissions) {
    if userID in s.users then
      IsEffective(if userID in s.infos then s.infos[userID].Permissions else {}, s.users[userID],
                  OverwritesOf(s.channels, channelID), result)
    else result == {}
  }

  method IndexGetPermissionsByChannel(index: Index, userID: Snowflake, channelID: Snowflake)
    returns (result: Permissions)
    ensures IndexGrants(index.State(), userID, channelID, result)
  {
    var allow: Permissions := if userID in index.userInfos then index.userInfos[userID].Permissions else {};
    if userID !in index.users {
      return {};
    }
    var overwrites: seq<Overwrite> := [];
    if channelID != 0 && channelID in index.channels {
      overwrites := index.channels[channelID].Overwrites;
    }
    result := ApplyOverwrites(allow, index.users[userID], overwrites);
  }

  /** The same from the index as long as its infos are up to date. */
  lemma IndexPermissions(s: IndexState, userID: Snowflake, channelID: Snowflake, result: Permissions)
    returns (base: Permissions)
    requires Consistent(s) && FreshInfos(s) && IndexGrants(s, userID, channelID, result)
    ensures userID !in s.users ==> result == {}
    ensures userID in s.users ==>
              forall p: nat :: p in base <==>
                var ids := s.users[userID].Roles;
                if 0 in s.defaults || exists r :: r in ids && r in s.roles && 0 in s.roles[r].Permissions then p < 31
                else p in s.defaults || exists r :: r in ids && r in s.roles && p in s.roles[r].Permissions
    ensures userID in s.users && (channelID == 0 || channelID !in s.channels) ==> result == base
    ensures userID in s.users && channelID != 0 && channelID in s.channels ==>
              IsEffective(base, s.users[userID], s.channels[channelID].Overwrites, result)
  {
    base := {};
    if userID in s.users {
      base := s.infos[userID].Permissions;
      WidenedPermissions(s.roles, s.defaults, s.users[userID].Roles);
      if channelID == 0 || channelID !in s.channels {
        EffectivePermissions(base, s.users[userID], [], result);
      }
    }
  }

  // ---------------------------------------------------------------- agreement

  /** The index holds what the tables hold; roles of a user and overwrites of a channel may
      come in different orders. */
  ghost predicate Mirrors(s: IndexState, t: Tables) {
    && s.defaults == t.defaults && s.roles == t.roles
    && s.users.Keys == t.users.Keys && s.channels.Keys == t.channels.Keys
    && (forall id :: id in t.users ==>
          s.users[id].ID == t.users[id].ID && forall r :: r in s.users[id].Roles <==> r in t.users[id].Roles)
    && (forall id :: id in t.channels ==>
          forall o :: o in s.channels[id].Overwrites <==> o in t.channels[id].Overwrites)
  }

  /** For every user and channel, known or not, both computations give the same answer. */
  lemma IndexAgreesWithDatabase(s: IndexState, t: Tables, userID: Snowflake, channelID: Snowflake, a: Permissions,
                                b: Permissions)
    requires Fresh(s) && Mirrors(s, t)
    requires IndexGrants(s, userID, channelID, a) && DatabaseGrants(t, userID, channelID, b)
    ensures a == b
  {
    if userID in t.users {
      var u, v := s.users[userID], t.users[userID];
      RolePermissionsOfSameRoles(t.roles, t.defaults, u.Roles, v.Roles);
      var os, qs := OverwritesOf(s.channels, channelID), OverwritesOf(t.channels, channelID);
      EffectiveUnique(s.infos[userID].Permissions, u, v, os, qs, a, b);
    }
  }

  /** The rank kept in the index is the rank the database gives. */
  lemma IndexRankAgrees(s: IndexState, t: Tables, userID: Snowflake)
    requires Fresh(s) && Mirrors(s, t) && userID in t.users
    ensures s.infos[userID].Rank == RankOf(t.roles, t.users[userID].Roles)
  {
    RankOfSameRoles(t.roles, s.users[userID].Roles, t.users[userID].Roles);
  }

  /** Whoever ends up with the administrator bit may do everything in the channel, and nobody
      else gets a permission that is denied them there. */
  lemma AdministratorOrDenied(base: Permissions, u: User, os: seq<Overwrite>, result: Permissions, p: nat)
    requires IsEffective(base, u, os, result) && p in result && Denied(u, os, p)
    ensures ADMINISTRATOR in base || Allowed(u, os, ADMINISTRATOR)
    ensures result == PERMISSION_ALL
  {
  }
}
