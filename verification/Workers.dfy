/** The eight workers of UpdateUserInfos, interleaved in any way. Worker w handles positions
    w, w + 8, w + 16, ... of the ID list. */
module Workers {
  import opened Models
  import opened Ranks
  import opened Sorting
  import opened UserLists

  const WORKER_COUNT := 8

  /** `next[w]` is the position worker w handles next; it is done once past the end. */
  datatype State = State(infos: UserInfos, next: seq<nat>)

  datatype Job = Job(defaults: Permissions, users: Users, roles: RoleTable, ids: seq<Snowflake>)

  ghost predicate Init(job: Job, s: State) {
    && (forall id :: id in job.ids <==> id in s.infos)
    && Distinct(job.ids)
    && s.next == seq(WORKER_COUNT, w => w)
  }

  ghost predicate Step(job: Job, s: State, w: nat, s': State) {
    && w < |s.next| && s.next[w] < |job.ids|
    && var id := job.ids[s.next[w]];
    && s'.infos == (if id in job.users then s.infos[id := InfoOf(job.roles, job.defaults, job.users[id])] else s.infos)
    && s'.next == s.next[w := s.next[w] + WORKER_COUNT]
  }

  ghost predicate Steps(job: Job, states: seq<State>, schedule: seq<nat>) {
    && |states| == |schedule| + 1
    && forall k :: 0 <= k < |schedule| ==> Step(job, states[k], schedule[k], states[k + 1])
  }

  ghost predicate IsRun(job: Job, states: seq<State>, schedule: seq<nat>) {
    Steps(job, states, schedule) && Init(job, states[0])
  }

  ghost predicate Finished(job: Job, s: State) {
    forall w :: 0 <= w < |s.next| ==> s.next[w] >= |job.ids|
  }

  /** What all workers together have written is the computed info at every position already
      passed by the one worker responsible for it, and the initial info elsewhere. */
  ghost predicate Inv(job: Job, initial: UserInfos, s: State) {
    && |s.next| == WORKER_COUNT
    && s.infos.Keys == initial.Keys
    && (forall w :: 0 <= w < WORKER_COUNT ==> s.next[w] % WORKER_COUNT == w)
    && forall p :: 0 <= p < |job.ids| && job.ids[p] in initial ==>
         s.infos[job.ids[p]] == Expected(job, initial, job.ids[p], p < s.next[p % WORKER_COUNT])
  }

  ghost function Expected(job: Job, initial: UserInfos, id: Snowflake, done: bool): UserInfo
    requires id in initial
  {
    if done && id in job.users then InfoOf(job.roles, job.defaults, job.users[id]) else initial[id]
  }

  lemma StrideAhead(q: nat, w: nat)
    requires q % WORKER_COUNT == w
    ensures (q + WORKER_COUNT) % WORKER_COUNT == w
  {
  }

  lemma StepKeepsStrides(job: Job, s: State, w: nat, s': State)
    requires |s.next| == WORKER_COUNT && forall v :: 0 <= v < WORKER_COUNT ==> s.next[v] % WORKER_COUNT == v
    requires Step(job, s, w, s')
    ensures |s'.next| == WORKER_COUNT && forall v :: 0 <= v < WORKER_COUNT ==> s'.next[v] % WORKER_COUNT == v
  {
    StrideAhead(s.next[w], w);
  }

  lemma StepKeepsInv(job: Job, initial: UserInfos, s: State, w: nat, s': State)
    requires Distinct(job.ids) && (forall id :: id in job.ids <==> id in initial)
    requires Inv(job, initial, s) && Step(job, s, w, s')
    ensures Inv(job, initial, s')
  {
    assert job.ids[s.next[w]] in job.ids;
    StepKeepsStrides(job, s, w, s');
    forall p | 0 <= p < |job.ids| && job.ids[p] in initial
      ensures s'.infos[job.ids[p]] == Expected(job, initial, job.ids[p], p < s'.next[p % WORKER_COUNT])
    {
      StepAt(job, initial, s, w, s', p, p % WORKER_COUNT);
    }
  }

  /** Between a worker's position and its next one there is no other position of its own. */
  lemma StrideSkipsNothing(p: nat, q: nat)
    requires q % WORKER_COUNT == p % WORKER_COUNT && p != q
    ensures p < q <==> p < q + WORKER_COUNT
  {
  }

  lemma StepAt(job: Job, initial: UserInfos, s: State, w: nat, s': State, p: nat, v: nat)
    requires Distinct(job.ids) && Inv(job, initial, s) && Step(job, s, w, s')
    requires p < |job.ids| && job.ids[p] in initial && v == p % WORKER_COUNT < WORKER_COUNT
    ensures v < |s'.next| && job.ids[p] in s'.infos
    ensures s'.infos[job.ids[p]] == Expected(job, initial, job.ids[p], p < s'.next[v])
  {
    var q := s.next[w];
    assert s.infos[job.ids[p]] == Expected(job, initial, job.ids[p], p < s.next[v]);
    if p == q {
      assert v == w;
    } else {
      assert job.ids[p] != job.ids[q];
      if v == w {
        StrideSkipsNothing(p, q);
      }
    }
  }

  /** Two workers never touch the same user. */
  lemma StridesAreDisjoint(job: Job, initial: UserInfos, s: State, v: nat, w: nat)
    requires Inv(job, initial, s) && Distinct(job.ids) && v < w < WORKER_COUNT
    requires s.next[v] < |job.ids| && s.next[w] < |job.ids|
    ensures job.ids[s.next[v]] != job.ids[s.next[w]]
  {
    assert s.next[v] != s.next[w];
  }

  lemma InitInv(job: Job, s: State)
    requires Init(job, s)
    ensures Inv(job, s.infos, s)
  {
    assert forall p :: 0 <= p < |job.ids| ==> p % WORKER_COUNT <= p && s.next[p % WORKER_COUNT] == p % WORKER_COUNT;
  }

  lemma NextKeepsInv(job: Job, initial: UserInfos, states: seq<State>, schedule: seq<nat>, n: nat)
    requires Distinct(job.ids) && (forall id :: id in job.ids <==> id in initial)
    requires Steps(job, states, schedule) && 0 < n < |states| && Inv(job, initial, states[n - 1])
    ensures Inv(job, initial, states[n])
  {
    StepKeepsInv(job, initial, states[n - 1], schedule[n - 1], states[n - 1 + 1]);
  }

  lemma {:induction false} StepsKeepInv(job: Job, initial: UserInfos, states: seq<State>, schedule: seq<nat>, n: nat)
    requires Distinct(job.ids) && (forall id :: id in job.ids <==> id in initial)
    requires Steps(job, states, schedule) && n < |states| && Inv(job, initial, states[0])
    ensures Inv(job, initial, states[n])
  {
    if n == 0 {
    } else {
      StepsKeepInv(job, initial, states, schedule, n - 1);
      NextKeepsInv(job, initial, states, schedule, n);
    }
  }

  lemma RunKeepsInv(job: Job, states: seq<State>, schedule: seq<nat>, n: nat)
    requires IsRun(job, states, schedule) && n < |states|
    ensures Inv(job, states[0].infos, states[n])
  {
    InitInv(job, states[0]);
    StepsKeepInv(job, states[0].infos, states, schedule, n);
  }

  /** Every schedule of the workers ends like the sequential pass: each known user's info is
      the computed one and every other info is untouched. */
  lemma AnyScheduleComputesAll(job: Job, states: seq<State>, schedule: seq<nat>)
    requires IsRun(job, states, schedule) && Finished(job, states[|schedule|])
    ensures var infos, initial := states[|schedule|].infos, states[0].infos;
            && infos.Keys == initial.Keys
            && forall id :: id in infos ==>
                 infos[id] == if id in job.users then InfoOf(job.roles, job.defaults, job.users[id]) else initial[id]
  {
    RunKeepsInv(job, states, schedule, |schedule|);
    var infos, initial := states[|schedule|].infos, states[0].infos;
    forall id | id in infos
      ensures infos[id] == if id in job.users then InfoOf(job.roles, job.defaults, job.users[id]) else initial[id]
    {
      assert id in job.ids;
      var p :| 0 <= p < |job.ids| && job.ids[p] == id;
      assert states[|schedule|].next[p % WORKER_COUNT] >= |job.ids|;
    }
  }

  /** No schedule runs forever: each step moves one worker on by its stride. */
  lemma {:induction false} SchedulesAreBounded(job: Job, states: seq<State>, schedule: seq<nat>, n: nat)
    requires IsRun(job, states, schedule) && n < |states|
    ensures |states[n].next| == WORKER_COUNT
    ensures forall w :: 0 <= w < WORKER_COUNT ==> states[n].next[w] < |job.ids| + WORKER_COUNT
    ensures Sum(states[n].next) == Sum(states[0].next) + WORKER_COUNT * n
  {
    if n == 0 {
    } else {
      SchedulesAreBounded(job, states, schedule, n - 1);
      var s, w := states[n - 1], schedule[n - 1];
      assert Step(job, s, w, states[n]);
      SumUpdate(s.next, w, s.next[w] + WORKER_COUNT);
    }
  }

  ghost function Sum(s: seq<nat>): nat {
    if s == [] then 0 else Sum(s[..|s| - 1]) + s[|s| - 1]
  }

  lemma {:induction false} SumUpdate(s: seq<nat>, w: nat, x: nat)
    requires w < |s|
    ensures Sum(s[w := x]) == Sum(s) - s[w] + x
  {
    var n := |s| - 1;
    if w < n {
      SumUpdate(s[..n], w, x);
      assert s[w := x][..n] == s[..n][w := x];
    } else {
      assert s[w := x][..n] == s[..n];
    }
  }
}
