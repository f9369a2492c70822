/** Which indices of the view an update declares changed, and whether those are all. */
module ViewChanges {
  import Incremental
  import opened Models
  import opened UserLists

  /** From inclusive, To exclusive. */
  datatype IndexRange = IndexRange(From: int, To: int)
  {
    predicate Overlaps(b: IndexRange) {
      if To <= From || b.To <= b.From then false else From < b.To && b.From < To
    }

    predicate Has(i: int) { From <= i < To }
  }

  /** Two ranges overlap exactly when they share an index. */
  lemma OverlapsIffShared(a: IndexRange, b: IndexRange)
    ensures a.Overlaps(b) <==> exists i :: a.Has(i) && b.Has(i)
  {
    if a.Overlaps(b) {
      var i := if a.From <= b.From then b.From else a.From;
      assert a.Has(i) && b.Has(i);
    }
  }

  ghost predicate Declared(changes: seq<IndexRange>, i: int) {
    exists c :: c in changes && c.Has(i)
  }

  /** Index i of the old view no longer shows what it showed. */
  predicate Differs(before: seq<Snowflake>, after: seq<Snowflake>, i: int)
    requires 0 <= i < |before|
  {
    i >= |after| || before[i] != after[i]
  }

  ghost predicate CoversDiff(before: seq<Snowflake>, after: seq<Snowflake>, changes: seq<IndexRange>) {
    forall i :: 0 <= i < |before| && Differs(before, after, i) ==> Declared(changes, i)
  }

  // ---------------------------------------------------------------- the diff of a full rebuild

  /** Sorted non-empty ranges below n, never touching: each is a maximal run. */
  ghost predicate Runs(changes: seq<IndexRange>, n: int) {
    && (forall k :: 0 <= k < |changes| ==> 0 <= changes[k].From < changes[k].To <= n)
    && (forall k, l :: 0 <= k < l < |changes| ==> changes[k].To < changes[l].From)
  }

  ghost predicate ExactDiff(before: seq<Snowflake>, after: seq<Snowflake>, n: int, changes: seq<IndexRange>)
    requires n <= |before|
  {
    forall i :: 0 <= i < n ==> (Declared(changes, i) <==> Differs(before, after, i))
  }

  lemma DeclaredAppend(changes: seq<IndexRange>, more: seq<IndexRange>)
    ensures forall i :: Declared(changes + more, i) <==> Declared(changes, i) || Declared(more, i)
  {
    forall i ensures Declared(changes + more, i) <==> Declared(changes, i) || Declared(more, i) {
      assert forall c :: c in changes + more <==> c in changes || c in more;
    }
  }

  lemma DeclaredOne(changes: seq<IndexRange>, c: IndexRange)
    ensures forall i :: Declared(changes + [c], i) <==> Declared(changes, i) || c.Has(i)
  {
    DeclaredAppend(changes, [c]);
    assert c in [c];
  }

  /** The diff loop has looked at the first idx entries; a run is open from `start`, or none
      is when it is -1. */
  ghost predicate DiffedUpTo(before: seq<Snowflake>, after: seq<Snowflake>, changes: seq<IndexRange>, start: int,
                             idx: int)
    requires 0 <= idx <= |before| && -1 <= start < |before|
  {
    var n := if start == -1 then idx else start;
    && Runs(changes, n)
    && ExactDiff(before, after, n, changes)
    && (start == -1 && idx > 0 ==> !Differs(before, after, idx - 1))
    && (start != -1 ==>
          && start < idx
          && (forall k :: 0 <= k < |changes| ==> changes[k].To < start)
          && (forall i :: start <= i < idx ==> Differs(before, after, i)))
  }

  lemma CloseRun(before: seq<Snowflake>, after: seq<Snowflake>, changes: seq<IndexRange>, start: int, idx: int)
    requires 0 <= idx <= |before| && 0 <= start < |before| && DiffedUpTo(before, after, changes, start, idx)
    ensures Runs(changes + [IndexRange(start, idx)], idx)
    ensures ExactDiff(before, after, idx, changes + [IndexRange(start, idx)])
  {
    DeclaredOne(changes, IndexRange(start, idx));
    forall i | start <= i < idx ensures !Declared(changes, i) {
    }
  }

  /** The entry is unchanged and an open run ends before it. */
  lemma CloseStep(before: seq<Snowflake>, after: seq<Snowflake>, changes: seq<IndexRange>, start: int, idx: int)
    requires 0 <= idx < |before| && 0 <= start < |before| && DiffedUpTo(before, after, changes, start, idx)
    requires !Differs(before, after, idx)
    ensures DiffedUpTo(before, after, changes + [IndexRange(start, idx)], -1, idx + 1)
  {
    var more := changes + [IndexRange(start, idx)];
    CloseRun(before, after, changes, start, idx);
    NotDeclaredBeyond(more, idx);
  }

  /** The entry is unchanged and no run is open. */
  lemma SkipStep(before: seq<Snowflake>, after: seq<Snowflake>, changes: seq<IndexRange>, idx: int)
    requires 0 <= idx < |before| && DiffedUpTo(before, after, changes, -1, idx) && !Differs(before, after, idx)
    ensures DiffedUpTo(before, after, changes, -1, idx + 1)
  {
    NotDeclaredBeyond(changes, idx);
  }

  lemma NotDeclaredBeyond(changes: seq<IndexRange>, n: int)
    requires Runs(changes, n)
    ensures !Declared(changes, n)
  {
  }

  /** The entry changed and begins a run. */
  lemma OpenStep(before: seq<Snowflake>, after: seq<Snowflake>, changes: seq<IndexRange>, idx: int)
    requires 0 <= idx < |before| && DiffedUpTo(before, after, changes, -1, idx) && Differs(before, after, idx)
    ensures DiffedUpTo(before, after, changes, idx, idx + 1)
  {
    forall k | 0 <= k < |changes| ensures changes[k].To < idx {
      assert changes[k] in changes;
      assert changes[k].To == idx ==> changes[k].Has(idx - 1);
    }
  }

  /** The entry changed and continues the open run. */
  lemma ExtendStep(before: seq<Snowflake>, after: seq<Snowflake>, changes: seq<IndexRange>, start: int, idx: int)
    requires 0 <= idx < |before| && 0 <= start < |before| && DiffedUpTo(before, after, changes, start, idx)
    requires Differs(before, after, idx)
    ensures DiffedUpTo(before, after, changes, start, idx + 1)
  {
  }

  /** The view only grew behind its last entry, or that entry kept its place. */
  predicate GrowthMarked(before: seq<Snowflake>, after: seq<Snowflake>) {
    |after| > |before| && (before == [] || !Differs(before, after, |before| - 1))
  }

  /** The ranges are exactly the maximal runs of changed indices below the old length, and
      growth past an unchanged last entry is marked by one empty range behind them. */
  ghost predicate IsDiff(before: seq<Snowflake>, after: seq<Snowflake>, changes: seq<IndexRange>) {
    var marks := if GrowthMarked(before, after) then 1 else 0;
    var n := |changes| - marks;
    && n >= 0
    && Runs(changes[..n], |before|)
    && ExactDiff(before, after, |before|, changes[..n])
    && changes[n..] == if GrowthMarked(before, after) then [IndexRange(|before|, |before|)] else []
  }

  /** An empty range declares nothing, so the marker adds nothing to the diff. */
  lemma DiffDeclaresExactly(before: seq<Snowflake>, after: seq<Snowflake>, changes: seq<IndexRange>)
    requires IsDiff(before, after, changes)
    ensures ExactDiff(before, after, |before|, changes) && CoversDiff(before, after, changes)
    ensures forall i :: Declared(changes, i) ==> 0 <= i < |before|
  {
    var n := |changes| - if GrowthMarked(before, after) then 1 else 0;
    assert changes == changes[..n] + changes[n..];
    DeclaredAppend(changes[..n], changes[n..]);
  }

  /** The same on the ranges themselves: sorted and apart, an index below the old length being in
      one of them exactly when it shows something else or nothing now; and one empty range at the
      old length exactly when the view grew and its last entry, if any, kept its place. */
  lemma DiffRanges(before: seq<Snowflake>, after: seq<Snowflake>, changes: seq<IndexRange>)
    requires IsDiff(before, after, changes)
    ensures forall i :: 0 <= i < |before| ==>
              ((exists c :: c in changes && c.From <= i < c.To) <==> i >= |after| || before[i] != after[i])
    ensures forall c :: c in changes ==>
              0 <= c.From < c.To <= |before| || c == IndexRange(|before|, |before|)
    ensures forall k, l :: 0 <= k < l < |changes| ==> changes[k].To < changes[l].From
    ensures IndexRange(|before|, |before|) in changes <==>
              |after| > |before| && (before == [] || before[|before| - 1] == after[|before| - 1])
  {
    DiffDeclaresExactly(before, after, changes);
    forall i | 0 <= i < |before|
      ensures (exists c :: c in changes && c.From <= i < c.To) <==> i >= |after| || before[i] != after[i]
    {
      assert Declared(changes, i) <==> exists c :: c in changes && c.From <= i < c.To;
    }
    var n := |changes| - if GrowthMarked(before, after) then 1 else 0;
    assert changes == changes[..n] + changes[n..];
    if GrowthMarked(before, after) {
      MarkedLast(before, after, changes[..n]);
      assert changes[n] == changes[n..][0];
    }
    assert forall k :: 0 <= k < n ==> changes[k] == changes[..n][k];
  }

  /** The last run ends before an entry that kept its place. */
  lemma MarkedLast(before: seq<Snowflake>, after: seq<Snowflake>, runs: seq<IndexRange>)
    requires GrowthMarked(before, after) && Runs(runs, |before|) && ExactDiff(before, after, |before|, runs)
    ensures forall k :: 0 <= k < |runs| ==> runs[k].To < |before|
  {
    forall k | 0 <= k < |runs| ensures runs[k].To < |before| {
      assert runs[k] in runs;
      assert runs[k].To == |before| ==> runs[k].Has(|before| - 1);
    }
  }

  lemma MarkedIsDiff(before: seq<Snowflake>, after: seq<Snowflake>, runs: seq<IndexRange>, changes: seq<IndexRange>)
    requires Runs(runs, |before|) && ExactDiff(before, after, |before|, runs)
    requires changes == runs + if GrowthMarked(before, after) then [IndexRange(|before|, |before|)] else []
    ensures IsDiff(before, after, changes)
  {
    assert changes[..|runs|] == runs;
  }

  method DiffViews(before: seq<Snowflake>, after: seq<Snowflake>) returns (changes: seq<IndexRange>)
    ensures IsDiff(before, after, changes)
  {
    changes := [];
    var start := -1;
    for idx := 0 to |before|
      invariant -1 <= start < |before| && DiffedUpTo(before, after, changes, start, idx)
    {
      var changed := false;
      if idx >= |after| {
        changed := true;
      } else if after[idx] != before[idx] {
        changed := true;
      }
      if changed {
        if start == -1 {
          OpenStep(before, after, changes, idx);
          start := idx;
        } else {
          ExtendStep(before, after, changes, start, idx);
        }
      } else {
        if start != -1 {
          CloseStep(before, after, changes, start, idx);
          changes := changes + [IndexRange(start, idx)];
          start := -1;
        } else {
          SkipStep(before, after, changes, idx);
        }
      }
    }
    ghost var runs := changes;
    if start != -1 {
      CloseRun(before, after, changes, start, |before|);
      changes := changes + [IndexRange(start, |before|)];
      runs := changes;
    } else if |after| > |before| {
      changes := changes + [IndexRange(|before|, |before|)];
    }
    MarkedIsDiff(before, after, runs, changes);
  }

  // ---------------------------------------------------------------- the range of a reposition

  function Span(p: int, q: int): IndexRange {
    if p > q then IndexRange(q, p + 1) else IndexRange(p, q + 1)
  }

  /** What RepositionUser records: nothing when the user is not in the new view. */
  ghost function MoveChanges(before: seq<Snowflake>, after: seq<Snowflake>, id: Snowflake): seq<IndexRange> {
    var p, q := FirstIndex(before, id), FirstIndex(after, id);
    if q == -1 then [] else [Span(p, q)]
  }

  /** When both groups are listed, the views agree outside the recorded range, however many
      headers the user crossed. */
  lemma RepositionLocality(users: Users, id: Snowflake, before: UserList, g0: Snowflake, j: nat, g1: Snowflake,
                           k: nat, after: UserList)
    requires Shape(before) && Moved(users, id, before, g0, j, g1, k, after)
    requires g0 in before.GroupOrder && g1 in before.GroupOrder
    ensures |after.View| == |before.View|
    ensures var p, q := FirstIndex(before.View, id), FirstIndex(after.View, id);
            && p >= 0 && q >= 0
            && MoveChanges(before.View, after.View, id) ==
                 [IndexRange(if p < q then p else q, if p < q then q + 1 else p + 1)]
    ensures forall i :: 0 <= i < |before.View| && !Declared(MoveChanges(before.View, after.View, id), i) ==>
              before.View[i] == after.View[i]
  {
    var common := MovedViews(users, id, before, g0, j, g1, k, after);
    var p, q := FirstIndex(before.View, id), FirstIndex(after.View, id);
    InsertionsAgree(before.View, after.View, common, p, q, id);
  }

  lemma InsertionsAgree(before: seq<Snowflake>, after: seq<Snowflake>, common: seq<Snowflake>, p: nat, q: nat,
                        id: Snowflake)
    requires p <= |common| && q <= |common|
    requires before == InsertAt(common, p, id) && after == InsertAt(common, q, id)
    ensures |before| == |after|
    ensures forall i :: 0 <= i < |before| && !Declared([Span(p, q)], i) ==> before[i] == after[i]
  {
    var c := Span(p, q);
    assert c in [c];
    forall i | 0 <= i < |before| && !Declared([c], i) ensures before[i] == after[i] {
      assert !c.Has(i);
    }
  }

  /** Where place k of the m-th group is in the view, from the group sizes. */
  function PlaceInView(list: UserList, m: nat, k: nat): nat
    requires m < |list.GroupOrder|
  {
    Incremental.HeaderIndex(Incremental.CountsOf(list.GroupOrder, list.Groups), m) + 1 + k
  }

  /** At most one entry of the view lies behind place k of group g. */
  ghost predicate AtEnd(list: UserList, g: Snowflake, k: nat) {
    exists m: nat :: m < |list.GroupOrder| && list.GroupOrder[m] == g && |list.View| - PlaceInView(list, m, k) <= 1
  }

  /** A user who enters the view does so at its place in the old list. */
  lemma EnteringPlace(users: Users, id: Snowflake, before: UserList, g0: Snowflake, j: nat, g1: Snowflake, k: nat,
                      after: UserList, m: nat)
    requires Shape(before) && Moved(users, id, before, g0, j, g1, k, after)
    requires g0 !in before.GroupOrder && m < |before.GroupOrder| && before.GroupOrder[m] == g1
    ensures FirstIndex(after.View, id) == PlaceInView(before, m, k)
  {
    var common := MovedViews(users, id, before, g0, j, g1, k, after);
    var front := before.GroupOrder[..m];
    FlattenSame(front, before.Groups, Without(before, g0, j));
    Incremental.HeaderIndexIsPrefixLength(before.GroupOrder, before.Groups, m);
  }

  /** The recorded range declares every change exactly when the user was and is to be in the
      view, or neither was nor is to be, or enters it where at most one entry is behind. */
  lemma RepositionDeclaresChangesIff(users: Users, id: Snowflake, before: UserList, g0: Snowflake, j: nat,
                                     g1: Snowflake, k: nat, after: UserList)
    requires Shape(before) && Moved(users, id, before, g0, j, g1, k, after)
    ensures CoversDiff(before.View, after.View, MoveChanges(before.View, after.View, id)) <==>
              || (g0 in before.GroupOrder <==> g1 in before.GroupOrder)
              || (g0 !in before.GroupOrder && AtEnd(before, g1, k))
  {
    var common := MovedViews(users, id, before, g0, j, g1, k, after);
    var changes := MoveChanges(before.View, after.View, id);
    var p := FirstIndex(before.View, id);
    if g0 in before.GroupOrder && g1 in before.GroupOrder {
      RepositionLocality(users, id, before, g0, j, g1, k, after);
    } else if g0 in before.GroupOrder {
      // leaves the view: its old index changed and nothing says so
      assert Differs(before.View, after.View, p) by {
        assert p < |after.View| ==> after.View[p] in common;
      }
      assert !Declared(changes, p);
    } else if g1 in before.GroupOrder {
      EnteringDeclaresChangesIff(users, id, before, g0, j, g1, k, after);
    }
  }

  lemma EnteringAtEnd(users: Users, id: Snowflake, before: UserList, g0: Snowflake, j: nat, g1: Snowflake, k: nat,
                      after: UserList)
    requires Shape(before) && Moved(users, id, before, g0, j, g1, k, after)
    requires g0 !in before.GroupOrder && g1 in before.GroupOrder
    ensures AtEnd(before, g1, k) <==> |before.View| - FirstIndex(after.View, id) <= 1
  {
    var m: nat :| m < |before.GroupOrder| && before.GroupOrder[m] == g1;
    forall l: nat | l < |before.GroupOrder| && before.GroupOrder[l] == g1
      ensures FirstIndex(after.View, id) == PlaceInView(before, l, k)
    {
      EnteringPlace(users, id, before, g0, j, g1, k, after, l);
    }
  }

  lemma EnteringDeclaresChangesIff(users: Users, id: Snowflake, before: UserList, g0: Snowflake, j: nat,
                                   g1: Snowflake, k: nat, after: UserList)
    requires Shape(before) && Moved(users, id, before, g0, j, g1, k, after)
    requires g0 !in before.GroupOrder && g1 in before.GroupOrder
    ensures CoversDiff(before.View, after.View, MoveChanges(before.View, after.View, id)) <==> AtEnd(before, g1, k)
  {
    var common := MovedViews(users, id, before, g0, j, g1, k, after);
    var q := FirstIndex(after.View, id);
    var c := IndexRange(-1, q + 1);
    assert MoveChanges(before.View, after.View, id) == [c] && c in [c];
    EnteringAtEnd(users, id, before, g0, j, g1, k, after);
    if q < |before.View| - 1 {
      EnteringShiftsRest(before, common, q, id);
      assert Differs(before.View, after.View, q + 1);
    }
  }

  lemma EnteringShiftsRest(before: UserList, common: seq<Snowflake>, q: nat, id: Snowflake)
    requires Shape(before) && before.View == common && q < |common| - 1
    ensures InsertAt(common, q, id)[q + 1] != common[q + 1]
  {
    Incremental.ViewDistinct(before);
  }
}
