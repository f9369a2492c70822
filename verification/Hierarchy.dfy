/** Granting and revoking roles: who may change whom. */
module Hierarchy {
  import opened Models
  import opened Ranks
  import opened Sorting
  import opened UserIndex
  import opened Database
  import opened ChannelPermissions
  import opened IndexRuns

  // ---------------------------------------------------------------- memoised rank

  /** Whatever the cache knows is what the role table says. */
  ghost predicate CacheAgrees(roles: RoleTable, cache: map<Snowflake, Int64>) {
    forall r :: r in cache ==> r in roles && cache[r] == roles[r].Position
  }

  method ComputeEffectiveRank(roles: RoleTable, user: User, cache: map<Snowflake, Int64>)
    returns (rank: Int64, cache': map<Snowflake, Int64>)
    requires CacheAgrees(roles, cache)
    ensures rank == RankOf(roles, user.Roles)
    ensures CacheAgrees(roles, cache') && cache'.Keys == cache.Keys + set r | r in user.Roles && r in roles
  {
    rank, cache' := MAX_INT, cache;
    for k := 0 to |user.Roles|
      invariant rank == RankOf(roles, user.Roles[..k])
      invariant CacheAgrees(roles, cache')
      invariant cache'.Keys == cache.Keys + set r | r in user.Roles[..k] && r in roles
    {
      var roleID := user.Roles[k];
      assert user.Roles[..k + 1][..k] == user.Roles[..k];
      assert user.Roles[..k + 1] == user.Roles[..k] + [roleID];
      if roleID in cache' {
        var pos := cache'[roleID];
        if pos < rank {
          rank := pos;
        }
        continue;
      }
      if roleID !in roles {
        continue;
      }
      var role := roles[roleID];
      cache' := cache'[roleID := role.Position];
      if role.Position < rank {
        rank := role.Position;
      }
    }
    assert user.Roles[..|user.Roles|] == user.Roles;
  }

  // ---------------------------------------------------------------- requests

  datatype Request =
    | AddRole(actor: Snowflake, user: Snowflake, role: Snowflake)
    | RemoveRole(actor: Snowflake, user: Snowflake, role: Snowflake)

  datatype Outcome = Done | NothingToDo | NoPermission | InvalidRequest

  function UserPermissions(t: Tables, id: Snowflake): Permissions {
    if id in t.users then Widen(RolePermissions(t.roles, t.defaults, t.users[id].Roles)) else {}
  }

  function RankIn(t: Tables, id: Snowflake): Int64
    requires id in t.users
  {
    RankOf(t.roles, t.users[id].Roles)
  }

  /** What the checks of a request decide, with ranks computed directly. */
  function Decide(t: Tables, req: Request): Outcome {
    if MANAGE_ROLES !in UserPermissions(t, req.actor) then NoPermission
    else if req.user !in t.users then InvalidRequest
    else if req.role !in t.roles then InvalidRequest
    else if (req.role in t.users[req.user].Roles) == req.AddRole? then NothingToDo
    else if req.actor !in t.users then InvalidRequest
    else if req.user != req.actor && RankIn(t, req.user) <= RankIn(t, req.actor) then NoPermission
    else if t.roles[req.role].Position <= RankIn(t, req.actor) then NoPermission
    else Done
  }

  /** A request is done exactly when actor, target and role exist; the defaults or a role of the
      actor have bit 0 or bit 16; the target has the role if it is to lose it and has not if it
      is to get it; some role of the actor comes before the role in question; and the target is
      the actor, or some role of the actor comes before all of the target's. */
  lemma DoneIff(t: Tables, req: Request)
    ensures Decide(t, req) == Done <==>
              && req.actor in t.users && req.user in t.users && req.role in t.roles
              && var mine, theirs := t.users[req.actor].Roles, t.users[req.user].Roles;
              && (|| 0 in t.defaults || 16 in t.defaults
                  || exists r :: r in mine && r in t.roles &&
                       (0 in t.roles[r].Permissions || 16 in t.roles[r].Permissions))
              && (req.role in theirs <==> req.RemoveRole?)
              && (exists r :: r in mine && r in t.roles && t.roles[r].Position < t.roles[req.role].Position)
              && (|| req.user == req.actor
                  || exists r :: r in mine && r in t.roles && t.roles[r].Position < 0x7FFF_FFFF_FFFF_FFFF &&
                       forall q :: q in theirs && q in t.roles ==> t.roles[r].Position < t.roles[q].Position)
  {
    MayManageIff(t, req.actor);
    if req.actor in t.users && req.user in t.users && req.role in t.roles {
      RankBelowIff(t.roles, t.users[req.actor].Roles, t.roles[req.role].Position);
      RanksBelowIff(t.roles, t.users[req.actor].Roles, t.users[req.user].Roles);
    }
  }

  lemma MayManageIff(t: Tables, actor: Snowflake)
    ensures MANAGE_ROLES in UserPermissions(t, actor) <==>
              && actor in t.users
              && (|| 0 in t.defaults || 16 in t.defaults
                  || exists r :: r in t.users[actor].Roles && r in t.roles &&
                       (0 in t.roles[r].Permissions || 16 in t.roles[r].Permissions))
  {
    if actor in t.users {
      WidenedPermissions(t.roles, t.defaults, t.users[actor].Roles);
    }
  }

  /** The other outcomes: a known actor with the permission is told of an unknown target or role,
      and then of a role that is held already or not held. Every other request that is not done
      is refused for lack of permission. */
  lemma OtherOutcomesIff(t: Tables, req: Request, may: bool)
    requires may <==>
               && req.actor in t.users
               && (|| 0 in t.defaults || 16 in t.defaults
                   || exists r :: r in t.users[req.actor].Roles && r in t.roles &&
                        (0 in t.roles[r].Permissions || 16 in t.roles[r].Permissions))
    ensures Decide(t, req) == InvalidRequest <==> may && (req.user !in t.users || req.role !in t.roles)
    ensures Decide(t, req) == NothingToDo <==>
              && may && req.user in t.users && req.role in t.roles
              && (req.role in t.users[req.user].Roles <==> req.AddRole?)
  {
    MayManageIff(t, req.actor);
  }

  /** The target as it is read back: as before but for the role, its role rows in whatever order
      the engine yields them. */
  ghost predicate Toggled(before: User, req: Request, after: User) {
    && after == before.(Roles := after.Roles)
    && forall r :: r in after.Roles <==> if r == req.role then req.AddRole? else r in before.Roles
  }

  /** The tables after a request: unchanged unless it is done. */
  ghost predicate Applied(t: Tables, req: Request, t': Tables) {
    if Decide(t, req) != Done then t' == t
    else
      && req.user in t'.users && Toggled(t.users[req.user], req, t'.users[req.user])
      && t' == t.(users := t.users[req.user := t'.users[req.user]])
  }

  /** The engine's choice of order, known only by the rows it keeps. */
  method ReadRoles(stored: seq<Snowflake>) returns (rows: seq<Snowflake>)
    ensures multiset(rows) == multiset(stored)
  {
    rows := stored;
  }

  method HasRole(user: User, role: Snowflake) returns (has: bool)
    ensures has <==> role in user.Roles
  {
    for k := 0 to |user.Roles|
      invariant role !in user.Roles[..k]
    {
      if user.Roles[k] == role {
        return true;
      }
    }
    assert user.Roles[..|user.Roles|] == user.Roles;
    has := false;
  }

  lemma ToggledRoles(before: User, req: Request, stored: seq<Snowflake>, rows: seq<Snowflake>)
    requires multiset(rows) == multiset(stored)
    requires stored == if req.AddRole? then before.Roles + [req.role] else Except(before.Roles, req.role)
    ensures Toggled(before, req, before.(Roles := rows))
  {
    ExceptElements(before.Roles, req.role);
    forall r ensures r in rows <==> r in stored { SameElements(rows, stored, r); }
  }

  class Transaction {
    var tables: Tables

    constructor (tables: Tables)
      ensures this.tables == tables
    {
      this.tables := tables;
    }

    /** The checks of both handlers, in their order. */
    method Check(req: Request) returns (outcome: Outcome)
      requires ValidTables(tables)
      ensures outcome == Decide(tables, req)
    {
      var perms, _ := GetPermissionsByUser(tables, req.actor);
      if MANAGE_ROLES !in perms {
        return NoPermission;
      }
      if req.user !in tables.users {
        return InvalidRequest;
      }
      var targetUser := tables.users[req.user];
      if req.role !in tables.roles {
        return InvalidRequest;
      }
      var role := tables.roles[req.role];
      var hasRole := HasRole(targetUser, role.ID);
      if hasRole == req.AddRole? {
        return NothingToDo;
      }
      if req.actor !in tables.users {
        return InvalidRequest;
      }
      var roleCache := map[role.ID := role.Position];
      var actorRank, cache1 := ComputeEffectiveRank(tables.roles, tables.users[req.actor], roleCache);
      var targetRank, cache2 := ComputeEffectiveRank(tables.roles, targetUser, cache1);
      if req.user != req.actor && targetRank <= actorRank {
        return NoPermission;
      }
      if role.Position <= actorRank {
        return NoPermission;
      }
      outcome := Done;
    }

    /** HandleUserRoleAddRequest, or HandleUserRoleDeleteRequest: they differ only in the
        check for the role and in the statement they execute. No other handler comes between
        the commit and the index update here; in Server any number may. */
    method Handle(req: Request, index: Index) returns (outcome: Outcome)
      requires ValidTables(tables) && Consistent(index.State())
      modifies this, index
      ensures outcome == Decide(old(tables), req)
      ensures Applied(old(tables), req, tables)
      ensures if outcome == Done then Next(old(index.State()), UserUpdated(tables.users[req.user]), index.State())
              else index.State() == old(index.State())
      ensures outcome != Done ==> tables == old(tables)
      ensures outcome == Done ==>
                && req.user in old(tables).users && req.user in tables.users
                && var was, now := old(tables).users[req.user], tables.users[req.user];
                && tables == old(tables).(users := old(tables).users[req.user := now])
                && now == was.(Roles := now.Roles)
                && (forall r :: r in now.Roles <==> if r == req.role then req.AddRole? else r in was.Roles)
                && index.users == old(index.users)[req.user := now.(Presence := 1)]
    {
      outcome := Check(req);
      if outcome != Done {
        return;
      }
      var targetUser := tables.users[req.user];
      var newRoles := if req.AddRole? then targetUser.Roles + [req.role] else Except(targetUser.Roles, req.role);
      var readBack := ReadRoles(newRoles);
      ToggledRoles(targetUser, req, newRoles, readBack);
      tables := tables.(users := tables.users[req.user := targetUser.(Roles := readBack)]);
      var _ := index.UpdateUser(tables.users[req.user]);
    }
  }

  // ---------------------------------------------------------------- one request

  /** Adding or removing a role below `bound` leaves alone whether the rank is at or above it,
      and leaves alone every rank that is. */
  lemma ToggleBelow(roles: RoleTable, before: User, req: Request, after: User, bound: Int64)
    requires req.role in roles && roles[req.role].Position > bound && Toggled(before, req, after)
    ensures RankOf(roles, before.Roles) <= bound ==> RankOf(roles, after.Roles) == RankOf(roles, before.Roles)
    ensures RankOf(roles, before.Roles) > bound ==> RankOf(roles, after.Roles) > bound
  {
    RankIsMinimum(roles, before.Roles);
    RankIsMinimum(roles, after.Roles);
    assert forall r :: r != req.role ==> (Holds(roles, after.Roles, r) <==> Holds(roles, before.Roles, r));
  }

  /** A request never changes its own actor's rank, leaves everybody but its target alone, and
      keeps a target other than the actor strictly below the actor. */
  lemma RequestRespectsRanks(t: Tables, req: Request, t': Tables)
    requires req.actor in t.users && Applied(t, req, t')
    ensures t'.users.Keys == t.users.Keys && t'.roles == t.roles
    ensures RankIn(t', req.actor) == RankIn(t, req.actor)
    ensures forall id :: id in t.users && id != req.user ==> t'.users[id] == t.users[id]
    ensures Decide(t, req) == Done && req.user != req.actor ==>
              RankIn(t, req.user) > RankIn(t, req.actor) && RankIn(t', req.user) > RankIn(t, req.actor)
  {
    if Decide(t, req) == Done {
      ToggleBelow(t.roles, t.users[req.user], req, t'.users[req.user], RankIn(t, req.actor));
    }
  }

  /** Rank k and better is out of reach of an actor of rank k or worse. */
  lemma RequestKeepsUpperRanks(t: Tables, req: Request, t': Tables, k: Int64, id: Snowflake)
    requires Applied(t, req, t') && (req.actor in t.users ==> RankIn(t, req.actor) >= k)
    requires id in t.users
    ensures id in t'.users && t'.users.Keys == t.users.Keys && t'.roles == t.roles
    ensures RankIn(t, id) <= k ==> RankIn(t', id) == RankIn(t, id)
    ensures RankIn(t, id) > k ==> RankIn(t', id) > k
  {
    if Decide(t, req) == Done && id == req.user {
      ToggleBelow(t.roles, t.users[id], req, t'.users[id], k);
    }
  }

  // ---------------------------------------------------------------- runs

  ghost predicate IsRequestRun(states: seq<Tables>, reqs: seq<Request>) {
    && |states| == |reqs| + 1
    && forall k :: 0 <= k < |reqs| ==> Applied(states[k], reqs[k], states[k + 1])
  }

  /** Role-hierarchy safety: whatever a group of actors of rank k or worse requests, in any
      order and number, the users of rank k or better stay the same, each with its rank; and
      no actor ever climbs above k. */
  lemma {:induction false} HierarchySafety(states: seq<Tables>, reqs: seq<Request>, k: Int64, n: nat)
    requires IsRequestRun(states, reqs) && n < |states|
    requires forall i :: 0 <= i < n && reqs[i].actor in states[0].users ==> RankIn(states[0], reqs[i].actor) >= k
    ensures states[n].users.Keys == states[0].users.Keys && states[n].roles == states[0].roles
    ensures forall id :: id in states[0].users ==>
              (RankIn(states[n], id) <= k <==> RankIn(states[0], id) <= k)
    ensures forall id :: id in states[0].users && RankIn(states[0], id) <= k ==>
              RankIn(states[n], id) == RankIn(states[0], id)
  {
    if n == 0 {
    } else {
      HierarchySafety(states, reqs, k, n - 1);
      var s, req := states[n - 1], reqs[n - 1];
      assert Applied(s, req, states[n]);
      if req.actor in s.users {
        assert RankIn(s, req.actor) >= k;
      }
      forall id | id in s.users
        ensures id in states[n].users
        ensures RankIn(s, id) <= k ==> RankIn(states[n], id) == RankIn(s, id)
        ensures RankIn(s, id) > k ==> RankIn(states[n], id) > k
      {
        RequestKeepsUpperRanks(s, req, states[n], k, id);
      }
      if Decide(s, req) != Done { assert states[n] == s; }
    }
  }

  // ---------------------------------------------------------------- tables and index together

  /** A request carried out on the tables and then on the index, with nothing in between, leaves
      the index fresh and still a mirror of the tables. */
  lemma RequestKeepsMirror(t: Tables, s: IndexState, req: Request, t': Tables, s': IndexState)
    requires ValidTables(t) && Fresh(s) && Mirrors(s, t) && Decide(t, req) == Done && Applied(t, req, t')
    requires Next(s, UserUpdated(t'.users[req.user]), s')
    ensures ValidTables(t') && Fresh(s') && Mirrors(s', t')
  {
    AppliedUpdate(t, req, t');
    CommitKeepsValid(t, t'.users[req.user]);
    KnownUpdateKeepsFresh(s, t'.users[req.user], s');
    MirrorUpdated(s, t, t'.users[req.user], s', t');
  }

  lemma AppliedUpdate(t: Tables, req: Request, t': Tables)
    requires ValidTables(t) && Decide(t, req) == Done && Applied(t, req, t')
    ensures var u := t'.users[req.user]; u.ID == req.user && t' == t.(users := t.users[u.ID := u])
  {
  }

  lemma KnownUpdateKeepsFresh(s: IndexState, u: User, s': IndexState)
    requires Fresh(s) && u.ID in s.users && Next(s, UserUpdated(u), s')
    ensures Fresh(s') && s'.users == s.users[u.ID := ProcessUser(u)]
    ensures s'.defaults == s.defaults && s'.roles == s.roles && s'.channels == s.channels
  {
    assert ProperIds(s, UserUpdated(u));
    NextKeepsFresh(s, UserUpdated(u), s');
  }

  lemma CommitKeepsValid(t: Tables, u: User)
    requires ValidTables(t) && u.ID in t.users
    ensures ValidTables(t.(users := t.users[u.ID := u]))
  {
  }

  /** The same user replaced on both sides. */
  lemma MirrorUpdated(s: IndexState, t: Tables, u: User, s': IndexState, t': Tables)
    requires Mirrors(s, t) && u.ID in t.users
    requires t' == t.(users := t.users[u.ID := u]) && s'.users == s.users[u.ID := ProcessUser(u)]
    requires s'.defaults == s.defaults && s'.roles == s.roles && s'.channels == s.channels
    ensures Mirrors(s', t')
  {
  }

  /** The same rank for every user, and the same permissions for every user and channel. */
  ghost predicate AnswersAgree(t: Tables, s: IndexState) {
    && (forall id :: id in t.users ==> id in s.infos && s.infos[id].Rank == RankIn(t, id))
    && (forall id, channel, a, b :: IndexGrants(s, id, channel, a) && DatabaseGrants(t, id, channel, b) ==> a == b)
  }

  lemma MirrorAnswersAgree(t: Tables, s: IndexState)
    requires Fresh(s) && Mirrors(s, t)
    ensures AnswersAgree(t, s)
  {
    forall id | id in t.users ensures id in s.infos && s.infos[id].Rank == RankIn(t, id) {
      IndexRankAgrees(s, t, id);
    }
    forall id, channel, a, b | IndexGrants(s, id, channel, a) && DatabaseGrants(t, id, channel, b) ensures a == b {
      IndexAgreesWithDatabase(s, t, id, channel, a, b);
    }
  }
}
