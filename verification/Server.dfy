/** The tables with the index in front of them. A handler commits its transaction and then, with
    no lock across the two, hands the user it read back to the index; handlers of different
    connections can cross in between. */
module Server {
  import opened Models
  import opened Ranks
  import opened UserLists
  import UserIndex
  import opened Database
  import opened Wrappers
  import opened ChannelPermissions
  import opened IndexRuns
  import opened Hierarchy

  /** A user as read back at the end of a transaction, and the role it was given or lost. */
  datatype Commit = Commit(user: User, toggled: Option<Snowflake>)

  /** `log` is all commits since the start, `pending` those not yet handed to the index, and
      `applied` the commit that each user was last updated with. */
  datatype State = State(start: map<Snowflake, User>, tables: Tables, index: UserIndex.IndexState,
                         log: seq<Commit>, pending: set<nat>, applied: map<Snowflake, nat>)

  datatype Event =
    | RoleCommitted(req: Request)
    | ProfileCommitted(user: User)  // any columns but the roles
    | IndexUpdated(n: nat)
    | ListRebuilt
    | ChangesTaken

  ghost predicate SameRoles(u: User, v: User) {
    u.ID == v.ID && forall r :: r in u.Roles <==> r in v.Roles
  }

  function Committed(s: State, u: User, toggled: Option<Snowflake>): State {
    s.(tables := s.tables.(users := s.tables.users[u.ID := u]),
       log := s.log + [Commit(u, toggled)], pending := s.pending + {|s.log|})
  }

  ghost predicate Next(s: State, e: Event, s': State) {
    match e
    case RoleCommitted(req) =>
      && Applied(s.tables, req, s'.tables)
      && s' == if Decide(s.tables, req) == Done then Committed(s, s'.tables.users[req.user], Some(req.role)) else s
    case ProfileCommitted(u) =>
      && u.ID in s.tables.users && SameRoles(u, s.tables.users[u.ID])
      && s' == Committed(s, u, None)
    case IndexUpdated(n) =>
      && n in s.pending && n < |s.log|
      && UserIndex.Next(s.index, UserIndex.UserUpdated(s.log[n].user), s'.index)
      && s' == s.(index := s'.index, pending := s.pending - {n}, applied := s.applied[s.log[n].user.ID := n])
    case ListRebuilt =>
      UserIndex.Next(s.index, UserIndex.ListUpdated, s'.index) && s' == s.(index := s'.index)
    case ChangesTaken =>
      UserIndex.Next(s.index, UserIndex.ChangesPopped, s'.index) && s' == s.(index := s'.index)
  }

  ghost predicate Start(s: State) {
    && ValidTables(s.tables) && Fresh(s.index) && Mirrors(s.index, s.tables)
    && s.start == s.tables.users && s.log == [] && s.pending == {} && s.applied == map[]
  }

  ghost predicate IsServerRun(states: seq<State>, events: seq<Event>) {
    && |states| == |events| + 1
    && forall k :: 0 <= k < |events| ==> Next(states[k], events[k], states[k + 1])
  }

  // ---------------------------------------------------------------- what the index holds

  /** The user of the last commit for it, as it was at the start when there is none. */
  function LatestOf(start: map<Snowflake, User>, log: seq<Commit>, id: Snowflake): User
    requires id in start
  {
    if log == [] then start[id]
    else
      var n := |log| - 1;
      if log[n].user.ID == id then log[n].user else LatestOf(start, log[..n], id)
  }

  /** How many commits from `from` on gave role r to the user or took it away. */
  function Toggles(log: seq<Commit>, from: nat, id: Snowflake, r: Snowflake): nat {
    if |log| <= from then 0
    else
      var n := |log| - 1;
      Toggles(log[..n], from, id, r) + if log[n].user.ID == id && log[n].toggled == Some(r) then 1 else 0
  }

  /** The commits from this one on came after the one the user was last updated with. */
  function Since(applied: map<Snowflake, nat>, id: Snowflake): nat {
    if id in applied then applied[id] + 1 else 0
  }

  ghost predicate ToggledFrom(before: User, c: Commit) {
    forall r :: r in c.user.Roles <==> ((r in before.Roles) != (c.toggled == Some(r)))
  }

  ghost predicate LogOk(start: map<Snowflake, User>, log: seq<Commit>) {
    forall n :: 0 <= n < |log| ==>
      log[n].user.ID in start && ToggledFrom(LatestOf(start, log[..n], log[n].user.ID), log[n])
  }

  /** The user table has the last commit of everyone. */
  ghost predicate TablesOk(start: map<Snowflake, User>, log: seq<Commit>, users: map<Snowflake, User>) {
    && users.Keys == start.Keys
    && LogOk(start, log)
    && forall id :: id in start ==> users[id] == LatestOf(start, log, id)
  }

  /** The user as it was after the commit it was last updated with. */
  function AppliedOf(start: map<Snowflake, User>, log: seq<Commit>, applied: map<Snowflake, nat>, id: Snowflake): User
    requires id in start
  {
    if id in applied && applied[id] < |log| then log[applied[id]].user else start[id]
  }

  /** The index has the commit of everyone that was applied last. */
  ghost predicate IndexOk(start: map<Snowflake, User>, log: seq<Commit>, applied: map<Snowflake, nat>, users: Users) {
    && users.Keys == start.Keys
    && (forall id :: id in applied ==> applied[id] < |log| && log[applied[id]].user.ID == id)
    && forall id :: id in start ==> users[id].ID == id && SameRoles(users[id], AppliedOf(start, log, applied, id))
  }

  ghost predicate SameButUsers(s: UserIndex.IndexState, t: Tables) {
    && s.defaults == t.defaults && s.roles == t.roles && s.channels.Keys == t.channels.Keys
    && forall id :: id in t.channels ==> forall o :: o in s.channels[id].Overwrites <==> o in t.channels[id].Overwrites
  }

  ghost predicate Inv(s: State) {
    && ValidTables(s.tables) && Fresh(s.index) && SameButUsers(s.index, s.tables)
    && TablesOk(s.start, s.log, s.tables.users)
    && IndexOk(s.start, s.log, s.applied, s.index.users)
  }

  lemma StartInv(s: State)
    requires Start(s)
    ensures Inv(s)
  {
  }

  lemma LatestAppend(start: map<Snowflake, User>, log: seq<Commit>, c: Commit, id: Snowflake)
    requires id in start
    ensures LatestOf(start, log + [c], id) == if c.user.ID == id then c.user else LatestOf(start, log, id)
  {
    assert (log + [c])[..|log|] == log;
  }

  lemma CommitKeepsTables(start: map<Snowflake, User>, log: seq<Commit>, users: map<Snowflake, User>, c: Commit)
    requires TablesOk(start, log, users) && c.user.ID in users && ToggledFrom(users[c.user.ID], c)
    ensures TablesOk(start, log + [c], users[c.user.ID := c.user])
  {
    var more := log + [c];
    forall n | 0 <= n < |more|
      ensures more[n].user.ID in start && ToggledFrom(LatestOf(start, more[..n], more[n].user.ID), more[n])
    {
      assert more[..n] == if n < |log| then log[..n] else log;
    }
    forall id | id in start ensures users[c.user.ID := c.user][id] == LatestOf(start, more, id) {
      LatestAppend(start, log, c, id);
    }
  }

  lemma CommitKeepsIndex(start: map<Snowflake, User>, log: seq<Commit>, applied: map<Snowflake, nat>, users: Users,
                         c: Commit)
    requires IndexOk(start, log, applied, users)
    ensures IndexOk(start, log + [c], applied, users)
  {
    assert forall id :: id in start ==> AppliedOf(start, log + [c], applied, id) == AppliedOf(start, log, applied, id);
  }

  lemma CommitKeepsInv(s: State, u: User, toggled: Option<Snowflake>)
    requires Inv(s) && u.ID in s.tables.users && ToggledFrom(s.tables.users[u.ID], Commit(u, toggled))
    ensures Inv(Committed(s, u, toggled))
  {
    CommitKeepsTables(s.start, s.log, s.tables.users, Commit(u, toggled));
    CommitKeepsIndex(s.start, s.log, s.applied, s.index.users, Commit(u, toggled));
    CommitKeepsValid(s.tables, u);
  }

  lemma UpdateKeepsIndex(start: map<Snowflake, User>, log: seq<Commit>, applied: map<Snowflake, nat>, users: Users,
                         n: nat, v: User)
    requires IndexOk(start, log, applied, users) && n < |log| && log[n].user.ID in start && SameRoles(v, log[n].user)
    ensures IndexOk(start, log, applied[log[n].user.ID := n], users[log[n].user.ID := v])
  {
  }

  lemma UpdateKeepsInv(s: State, n: nat, s': State)
    requires Inv(s) && Next(s, IndexUpdated(n), s')
    ensures Inv(s')
  {
    var u := s.log[n].user;
    assert u.ID in s.start;
    UpdateKeepsIndex(s.start, s.log, s.applied, s.index.users, n, UserIndex.ProcessUser(u));
    NextKeepsFresh(s.index, UserIndex.UserUpdated(u), s'.index);
  }

  lemma RoleCommitKeepsInv(s: State, req: Request, u: User)
    requires Inv(s) && Decide(s.tables, req) == Done && Toggled(s.tables.users[req.user], req, u)
    ensures Inv(Committed(s, u, Some(req.role)))
  {
    CommitKeepsInv(s, u, Some(req.role));
  }

  lemma NextKeepsInv(s: State, e: Event, s': State)
    requires Inv(s) && Next(s, e, s')
    ensures Inv(s')
  {
    match e
    case RoleCommitted(req) =>
      if Decide(s.tables, req) == Done {
        RoleCommitKeepsInv(s, req, s'.tables.users[req.user]);
      }
    case ProfileCommitted(u) => CommitKeepsInv(s, u, None);
    case IndexUpdated(n) => UpdateKeepsInv(s, n, s');
    case ListRebuilt => NextKeepsFresh(s.index, UserIndex.ListUpdated, s'.index);
    case ChangesTaken => NextKeepsFresh(s.index, UserIndex.ChangesPopped, s'.index);
  }

  lemma {:induction false} RunKeepsInv(states: seq<State>, events: seq<Event>, n: nat)
    requires IsServerRun(states, events) && Start(states[0]) && n < |states|
    ensures Inv(states[n])
  {
    if n == 0 {
      StartInv(states[0]);
    } else {
      RunKeepsInv(states, events, n - 1);
      NextKeepsInv(states[n - 1], events[n - 1], states[n]);
    }
  }

  // ---------------------------------------------------------------- when the index agrees

  lemma LogFront(start: map<Snowflake, User>, log: seq<Commit>)
    requires LogOk(start, log) && log != []
    ensures var n := |log| - 1;
            && LogOk(start, log[..n])
            && log[n].user.ID in start && ToggledFrom(LatestOf(start, log[..n], log[n].user.ID), log[n])
  {
    var n := |log| - 1;
    forall k | 0 <= k < n
      ensures log[..n][k].user.ID in start
      ensures ToggledFrom(LatestOf(start, log[..n][..k], log[..n][k].user.ID), log[..n][k])
    {
      assert log[..n][..k] == log[..k];
    }
  }

  lemma LastToggle(start: map<Snowflake, User>, log: seq<Commit>, from: nat, id: Snowflake, r: Snowflake)
    requires log != [] && from < |log| && id in start
    requires var n := |log| - 1;
             log[n].user.ID in start && ToggledFrom(LatestOf(start, log[..n], log[n].user.ID), log[n])
    ensures var n := |log| - 1;
            (r in LatestOf(start, log, id).Roles <==> r in LatestOf(start, log[..n], id).Roles) <==>
              (Toggles(log, from, id, r) % 2 == Toggles(log[..n], from, id, r) % 2)
  {
  }

  /** A user has a role now if it had it `from` commits in and an even number of later commits
      gave it or took it away, or the other way round. */
  lemma {:induction false} RolesSince(start: map<Snowflake, User>, log: seq<Commit>, from: nat, id: Snowflake,
                                      r: Snowflake)
    requires LogOk(start, log) && from <= |log| && id in start
    ensures r in LatestOf(start, log, id).Roles <==>
              (r in LatestOf(start, log[..from], id).Roles) != (Toggles(log, from, id, r) % 2 == 1)
  {
    if |log| == from {
      assert log[..from] == log;
    } else {
      var n := |log| - 1;
      LogFront(start, log);
      RolesSince(start, log[..n], from, id, r);
      assert log[..n][..from] == log[..from];
      LastToggle(start, log, from, id, r);
    }
  }

  /** Each role was given to the user and taken away an even number of times, in total, by the
      commits that came after the one the index was last updated with. */
  ghost predicate NothingMissed(s: State, id: Snowflake) {
    forall r :: Toggles(s.log, Since(s.applied, id), id, r) % 2 == 0
  }

  lemma AppliedIsLatest(start: map<Snowflake, User>, log: seq<Commit>, applied: map<Snowflake, nat>, users: Users,
                        id: Snowflake)
    requires IndexOk(start, log, applied, users) && id in start
    ensures Since(applied, id) <= |log|
    ensures AppliedOf(start, log, applied, id) == LatestOf(start, log[..Since(applied, id)], id)
  {
  }

  /** What the tables have beyond what the index has. */
  lemma RolesMissed(s: State, id: Snowflake, r: Snowflake)
    requires Inv(s) && id in s.start
    ensures (r in s.tables.users[id].Roles <==> r in s.index.users[id].Roles) <==>
              Toggles(s.log, Since(s.applied, id), id, r) % 2 == 0
  {
    var from := Since(s.applied, id);
    AppliedIsLatest(s.start, s.log, s.applied, s.index.users, id);
    RolesSince(s.start, s.log, from, id, r);
  }

  lemma UserMirroredIff(s: State, id: Snowflake)
    requires Inv(s) && id in s.start
    ensures SameRoles(s.index.users[id], s.tables.users[id]) <==> NothingMissed(s, id)
  {
    forall r ensures (r in s.tables.users[id].Roles <==> r in s.index.users[id].Roles) <==>
                       Toggles(s.log, Since(s.applied, id), id, r) % 2 == 0 {
      RolesMissed(s, id, r);
    }
    assert s.tables.users[id].ID == id;
  }

  lemma MirrorsIffUsers(s: State)
    requires Inv(s)
    ensures Mirrors(s.index, s.tables) <==>
              forall id :: id in s.start ==> SameRoles(s.index.users[id], s.tables.users[id])
  {
  }

  lemma AppliedRank(s: State, id: Snowflake)
    requires Inv(s) && id in s.start
    ensures id in s.index.infos
    ensures s.index.infos[id].Rank == RankOf(s.tables.roles, AppliedOf(s.start, s.log, s.applied, id).Roles)
  {
    RankOfSameRoles(s.tables.roles, s.index.users[id].Roles, AppliedOf(s.start, s.log, s.applied, id).Roles);
  }

  /** In every state of every run, however commits and index updates cross: the index holds for
      every user the rank it had in the database after the commit that was applied last, and
      it mirrors the tables exactly when the later commits made no difference. */
  lemma ServerMirrorsIff(states: seq<State>, events: seq<Event>, n: nat)
    requires IsServerRun(states, events) && Start(states[0]) && n < |states|
    ensures var s := states[n];
            && Fresh(s.index)
            && (forall id :: id in s.start ==>
                  && id in s.index.infos
                  && s.index.infos[id].Rank == RankOf(s.tables.roles, AppliedOf(s.start, s.log, s.applied, id).Roles))
            && (Mirrors(s.index, s.tables) <==> forall id :: id in s.start ==> NothingMissed(s, id))
            && (Mirrors(s.index, s.tables) ==> AnswersAgree(s.tables, s.index))
  {
    RunKeepsInv(states, events, n);
    var s := states[n];
    forall id | id in s.start ensures SameRoles(s.index.users[id], s.tables.users[id]) <==> NothingMissed(s, id) {
      UserMirroredIff(s, id);
    }
    MirrorsIffUsers(s);
    forall id | id in s.start
      ensures id in s.index.infos
      ensures s.index.infos[id].Rank == RankOf(s.tables.roles, AppliedOf(s.start, s.log, s.applied, id).Roles)
    {
      AppliedRank(s, id);
    }
    if Mirrors(s.index, s.tables) {
      MirrorAnswersAgree(s.tables, s.index);
    }
  }

  /** A user with exactly one commit of a role after the applied one is held the wrong way
      about that role. */
  lemma OneBehindDisagrees(s: State, id: Snowflake, r: Snowflake)
    requires Inv(s) && id in s.start && Toggles(s.log, Since(s.applied, id), id, r) == 1
    ensures r in s.index.users[id].Roles <==> r !in s.tables.users[id].Roles
    ensures !Mirrors(s.index, s.tables)
  {
    RolesMissed(s, id, r);
    MirrorsIffUsers(s);
  }

  // ---------------------------------------------------------------- updates in commit order

  /** No earlier commit for the same user is still pending. */
  ghost predicate InOrder(s: State, e: Event) {
    e.IndexUpdated? && e.n < |s.log| ==>
      forall m: nat :: m < e.n && m in s.pending && m < |s.log| ==> s.log[m].user.ID != s.log[e.n].user.ID
  }

  /** Exactly the commits after the applied one are pending. */
  ghost predicate PendingIsRest(log: seq<Commit>, pending: set<nat>, applied: map<Snowflake, nat>) {
    forall n: nat :: n < |log| ==> (n in pending <==> n >= Since(applied, log[n].user.ID))
  }

  lemma CommitKeepsPending(log: seq<Commit>, pending: set<nat>, applied: map<Snowflake, nat>, c: Commit)
    requires PendingIsRest(log, pending, applied)
    requires forall id :: id in applied ==> applied[id] < |log|
    ensures PendingIsRest(log + [c], pending + {|log|}, applied)
  {
  }

  lemma UpdateKeepsPending(log: seq<Commit>, pending: set<nat>, applied: map<Snowflake, nat>, n: nat)
    requires PendingIsRest(log, pending, applied) && n in pending && n < |log|
    requires forall m: nat :: m < n && m in pending ==> log[m].user.ID != log[n].user.ID
    ensures PendingIsRest(log, pending - {n}, applied[log[n].user.ID := n])
  {
  }

  lemma NextKeepsPending(s: State, e: Event, s': State)
    requires Inv(s) && PendingIsRest(s.log, s.pending, s.applied) && Next(s, e, s') && InOrder(s, e)
    ensures PendingIsRest(s'.log, s'.pending, s'.applied)
  {
    match e
    case RoleCommitted(req) =>
      if Decide(s.tables, req) == Done {
        CommitKeepsPending(s.log, s.pending, s.applied, Commit(s'.tables.users[req.user], Some(req.role)));
      }
    case ProfileCommitted(u) => CommitKeepsPending(s.log, s.pending, s.applied, Commit(u, None));
    case IndexUpdated(n) => UpdateKeepsPending(s.log, s.pending, s.applied, n);
    case _ =>
  }

  lemma {:induction false} RunKeepsPending(states: seq<State>, events: seq<Event>, n: nat)
    requires IsServerRun(states, events) && Start(states[0]) && n < |states|
    requires forall k :: 0 <= k < n ==> InOrder(states[k], events[k])
    ensures PendingIsRest(states[n].log, states[n].pending, states[n].applied)
  {
    if n == 0 {
    } else {
      RunKeepsPending(states, events, n - 1);
      RunKeepsInv(states, events, n - 1);
      NextKeepsPending(states[n - 1], events[n - 1], states[n]);
    }
  }

  lemma {:induction false} NoneSince(log: seq<Commit>, from: nat, id: Snowflake, r: Snowflake)
    requires forall n :: from <= n < |log| ==> log[n].user.ID != id
    ensures Toggles(log, from, id, r) == 0
  {
    if |log| <= from {
    } else {
      NoneSince(log[..|log| - 1], from, id, r);
    }
  }

  /** If each user's updates reach the index in the order of their commits, then whenever none
      is outstanding the index answers every question as the database does. */
  lemma InOrderAgrees(states: seq<State>, events: seq<Event>, n: nat)
    requires IsServerRun(states, events) && Start(states[0]) && n < |states|
    requires forall k :: 0 <= k < n ==> InOrder(states[k], events[k])
    requires states[n].pending == {}
    ensures Mirrors(states[n].index, states[n].tables) && AnswersAgree(states[n].tables, states[n].index)
  {
    RunKeepsPending(states, events, n);
    var s := states[n];
    forall id, r ensures Toggles(s.log, Since(s.applied, id), id, r) == 0 {
      NoneSince(s.log, Since(s.applied, id), id, r);
    }
    ServerMirrorsIff(states, events, n);
  }
}
