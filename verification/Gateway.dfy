/** The push loop: who is sent a new slice after which changes. */
module Gateway {
  import opened Models
  import opened Incremental
  import opened ViewChanges
  import opened UserIndex
  import opened IndexRuns

  /** The window each connection asked for last, by session. */
  type Connections = map<string, IndexRange>

  /** One round of the loop: pop the changes, and send exactly the connections whose window
      some change overlaps what they now should see. */
  method PushChanges(index: Index, connections: Connections) returns (sent: map<string, UserListResponse>)
    modifies index`changes
    ensures index.changes == [] && Next(old(index.State()), ChangesPopped, index.State())
    ensures forall s :: s in sent <==> s in connections && Touched(connections[s], old(index.changes))
    ensures forall s :: s in sent <==>
              && s in connections
              && var w := connections[s];
              exists c :: c in old(index.changes) && w.From < w.To && c.From < c.To && w.From < c.To && c.From < w.To
    ensures forall s :: s in sent ==> sent[s].Slice == WindowOf(index.list.View, connections[s])
    ensures forall s :: s in sent ==>
              && (sent[s].Start, sent[s].End) ==
                   SliceBounds(|index.list.View|, connections[s].From, connections[s].To, 128)
              && sent[s].Slice == index.list.View[sent[s].Start..sent[s].End]
              && sent[s].Groups == CountsOf(index.list.GroupOrder, index.list.Groups)
  {
    sent := map[];
    var changes := index.PopAllChanges();
    if |changes| != 0 {
      var rest := connections.Keys;
      while rest != {}
        invariant rest <= connections.Keys
        invariant index.State() == old(index.State()).(changes := [])
        invariant forall s :: s in sent <==> s in connections && s !in rest && Touched(connections[s], changes)
        invariant forall s :: s in sent ==>
                  && (sent[s].Start, sent[s].End) ==
                       SliceBounds(|index.list.View|, connections[s].From, connections[s].To, 128)
                  && sent[s].Slice == index.list.View[sent[s].Start..sent[s].End]
                  && sent[s].Groups == CountsOf(index.list.GroupOrder, index.list.Groups)
      {
        SomeSession(rest);
        var s :| s in rest;
        rest := rest - {s};
        var last := connections[s];
        for k := 0 to |changes|
          invariant index.State() == old(index.State()).(changes := [])
          invariant forall l :: 0 <= l < k ==> !last.Overlaps(changes[l])
          invariant s !in sent
          invariant forall q :: q in sent <==>
                    q in connections && q !in rest && q != s && Touched(connections[q], changes)
          invariant forall q :: q in sent ==>
                    && (sent[q].Start, sent[q].End) ==
                         SliceBounds(|index.list.View|, connections[q].From, connections[q].To, 128)
                    && sent[q].Slice == index.list.View[sent[q].Start..sent[q].End]
                    && sent[q].Groups == CountsOf(index.list.GroupOrder, index.list.Groups)
        {
          if last.Overlaps(changes[k]) {
            assert changes[k] in changes;
            var resp := index.GetUserListSlice(last.From, last.To, WINDOW_LIMIT);
            sent := sent[s := resp];
            break;
          }
        }
      }
    }
    forall s | s in connections
      ensures Touched(connections[s], changes) <==>
                var w := connections[s];
                exists c :: c in changes && w.From < w.To && c.From < c.To && w.From < c.To && c.From < w.To
    {
      TouchedIff(connections[s], changes);
    }
  }

  lemma TouchedIff(w: IndexRange, changes: seq<IndexRange>)
    ensures Touched(w, changes) <==>
              exists c :: c in changes && w.From < w.To && c.From < c.To && w.From < c.To && c.From < w.To
  {
  }

  lemma SomeSession(sessions: set<string>)
    requires sessions != {}
    ensures exists s :: s in sessions
  {
    assert (forall s :: s !in sessions) ==> sessions == {};
  }

  // ---------------------------------------------------------------- runs of index and clients

  /** A connection: the window it asked for and what it was last sent for it. */
  datatype Client = Client(window: IndexRange, shown: seq<Snowflake>)

  datatype System = System(index: IndexState, clients: map<string, Client>)

  datatype Event =
    | IndexOp(op: Op)
    | Request(session: string, window: IndexRange)
    | Disconnect(session: string)
    | Push

  ghost predicate SystemNext(s: System, e: Event, s': System) {
    match e
    case IndexOp(op) =>
      op != ChangesPopped && ProperIds(s.index, op) && Next(s.index, op, s'.index) && s'.clients == s.clients
    case Request(session, window) =>
      s' == s.(clients := s.clients[session := Client(window, WindowOf(s.index.list.View, window))])
    case Disconnect(session) =>
      s' == s.(clients := s.clients - {session})
    case Push =>
      && Next(s.index, ChangesPopped, s'.index)
      && s'.clients == map c | c in s.clients ::
           if Touched(s.clients[c].window, s.index.changes)
           then Client(s.clients[c].window, WindowOf(s.index.list.View, s.clients[c].window))
           else s.clients[c]
  }

  ghost predicate IsSystemRun(states: seq<System>, events: seq<Event>) {
    && |states| == |events| + 1
    && forall k :: 0 <= k < |events| ==> SystemNext(states[k], events[k], states[k + 1])
  }

  /** Every entry a client displays is current or declared changed. */
  ghost predicate CurrentOrDeclared(c: Client, view: seq<Snowflake>, changes: seq<IndexRange>) {
    && |c.shown| <= WINDOW_LIMIT
    && forall j :: 0 <= j < |c.shown| ==>
         && c.window.Has(IndexOfEntry(c.window, j))
         && (EntryCurrent(c, view, j) || Declared(changes, IndexOfEntry(c.window, j)))
  }

  predicate EntryCurrent(c: Client, view: seq<Snowflake>, j: nat)
    requires j < |c.shown|
  {
    IndexOfEntry(c.window, j) < |view| && view[IndexOfEntry(c.window, j)] == c.shown[j]
  }

  ghost predicate SystemOk(s: System) {
    && Consistent(s.index)
    && forall c :: c in s.clients ==> CurrentOrDeclared(s.clients[c], s.index.list.View, s.index.changes)
  }

  lemma ClientAcross(c: Client, before: seq<Snowflake>, after: seq<Snowflake>, changes: seq<IndexRange>,
                     added: seq<IndexRange>)
    requires CurrentOrDeclared(c, before, changes) && CoversDiff(before, after, added)
    ensures CurrentOrDeclared(c, after, changes + added)
  {
    DeclaredAppend(changes, added);
    forall j | 0 <= j < |c.shown| && !EntryCurrent(c, after, j)
      ensures Declared(changes + added, IndexOfEntry(c.window, j))
    {
      if EntryCurrent(c, before, j) {
        assert Differs(before, after, IndexOfEntry(c.window, j));
      }
    }
  }

  lemma IndexOpKeepsClient(s: IndexState, op: Op, s': IndexState, c: Client)
    requires Consistent(s) && Next(s, op, s') && op != ChangesPopped && StaysInView(s, op)
    requires CurrentOrDeclared(c, s.list.View, s.changes)
    ensures CurrentOrDeclared(c, s'.list.View, s'.changes)
  {
    StepDeclaresChanges(s, op, s');
    var added := s'.changes[|s.changes|..];
    assert s'.changes == s.changes + added;
    ClientAcross(c, s.list.View, s'.list.View, s.changes, added);
  }

  /** A client that no popped change touches displays only current entries, and these begin
      the present contents of its window. */
  lemma UntouchedIsCurrent(c: Client, view: seq<Snowflake>, changes: seq<IndexRange>)
    requires CurrentOrDeclared(c, view, changes) && !Touched(c.window, changes)
    ensures c.shown <= WindowOf(view, c.window)
  {
    TouchedIffDeclared(c.window, changes);
    assert forall j :: 0 <= j < |c.shown| ==> EntryCurrent(c, view, j);
    var now := WindowOf(view, c.window);
    if c.shown != [] {
      assert EntryCurrent(c, view, |c.shown| - 1) && EntryCurrent(c, view, 0);
      assert |c.shown| <= |now|;
      WindowEntries(view, c.window);
      assert forall j :: 0 <= j < |c.shown| ==> EntryCurrent(c, view, j) && c.shown[j] == now[j];
    }
  }

  /** Every event keeps what clients display current or declared changed, an index operation
      unless it takes a user out of the view or into it. */
  lemma SystemNextKeepsOk(s: System, e: Event, s': System)
    requires SystemOk(s) && SystemNext(s, e, s')
    requires e.IndexOp? ==> StaysInView(s.index, e.op)
    ensures SystemOk(s')
  {
    match e
    case IndexOp(op) =>
      NextKeepsConsistent(s.index, op, s'.index);
      forall c | c in s'.clients ensures CurrentOrDeclared(s'.clients[c], s'.index.list.View, s'.index.changes) {
        IndexOpKeepsClient(s.index, op, s'.index, s.clients[c]);
      }
    case Request(_, window) =>
      WindowEntries(s.index.list.View, window);
    case Disconnect(_) =>
    case Push =>
      forall c | c in s'.clients ensures CurrentOrDeclared(s'.clients[c], s'.index.list.View, []) {
        PushedClient(s.clients[c], s.index.list.View, s.index.changes);
        WindowEntries(s.index.list.View, s.clients[c].window);
      }
  }

  lemma PushedClient(c: Client, view: seq<Snowflake>, changes: seq<IndexRange>)
    requires CurrentOrDeclared(c, view, changes)
    ensures !Touched(c.window, changes) ==> c.shown <= WindowOf(view, c.window)
  {
    if !Touched(c.window, changes) {
      UntouchedIsCurrent(c, view, changes);
    }
  }

  lemma {:induction false} SystemRunKeepsOk(states: seq<System>, events: seq<Event>, n: nat)
    requires IsSystemRun(states, events) && n < |states| && SystemOk(states[0]) && Grouped(states[0].index)
    requires forall k :: 0 <= k < n && events[k].IndexOp? ==> KeepsGrouped(states[k].index, events[k].op)
    ensures SystemOk(states[n]) && Grouped(states[n].index)
  {
    if n == 0 {
    } else {
      SystemRunKeepsOk(states, events, n - 1);
      GroupedNextKeepsOk(states[n - 1], events[n - 1], states[n]);
    }
  }

  lemma GroupedNextKeepsOk(s: System, e: Event, s': System)
    requires SystemOk(s) && Grouped(s.index) && SystemNext(s, e, s')
    requires e.IndexOp? ==> KeepsGrouped(s.index, e.op)
    ensures SystemOk(s') && Grouped(s'.index)
  {
    if e.IndexOp? {
      if e.op.UserUpdated? {
        GroupedStaysInView(s.index, e.op);
      }
      NextKeepsGrouped(s.index, e.op, s'.index);
    }
    SystemNextKeepsOk(s, e, s');
  }

  /** Over any run of index operations, window requests and pushes from a grouped list, in which
      no hoist in use is taken away and no listed user is updated into a group not listed yet:
      right after every push, what each client displays is the beginning of the present
      contents of its window. */
  lemma PushLeavesNobodyBehind(states: seq<System>, events: seq<Event>, n: nat, session: string)
    requires IsSystemRun(states, events) && n < |events| && events[n] == Push
    requires Grouped(states[0].index) && states[0].clients == map[]
    requires forall k :: 0 <= k < n && events[k].IndexOp? ==> KeepsGrouped(states[k].index, events[k].op)
    requires session in states[n + 1].clients
    ensures var c := states[n + 1].clients[session];
            c.shown <= WindowOf(states[n + 1].index.list.View, c.window)
  {
    SystemRunKeepsOk(states, events, n);
    assert SystemNext(states[n], events[n], states[n + 1]);
    PushedClient(states[n].clients[session], states[n].index.list.View, states[n].index.changes);
  }
}
