/** Byte ranges of the sparse cache file: their merged form, and the part of a request
    that is uniformly cached or uncached. */
module CacheRanges {
  import opened Sorting

  /** An inclusive range, as in section 14.1.2 of RFC 9110. A writer that closes before
      its first byte publishes Start == End + 1, the empty range. */
  datatype CacheRangeSpec = CacheRangeSpec(Start: int, End: int)

  ghost predicate WellFormed(r: CacheRangeSpec) {
    r.Start <= r.End + 1
  }

  ghost predicate AllWellFormed(rs: seq<CacheRangeSpec>) {
    forall r :: r in rs ==> WellFormed(r)
  }

  ghost predicate HasByte(r: CacheRangeSpec, b: int) {
    r.Start <= b <= r.End
  }

  /** The gaps between bytes that a range spans, ends included: gap p lies just before
      byte p. An empty range spans the single gap Start. */
  ghost predicate HasGap(r: CacheRangeSpec, p: int) {
    r.Start <= p <= r.End + 1
  }

  ghost predicate Covers(rs: seq<CacheRangeSpec>, b: int) {
    exists r :: r in rs && HasByte(r, b)
  }

  ghost predicate Spans(rs: seq<CacheRangeSpec>, p: int) {
    exists r :: r in rs && HasGap(r, p)
  }

  /** Sorted, with at least one uncached byte between neighbours. */
  ghost predicate Canonical(rs: seq<CacheRangeSpec>) {
    && AllWellFormed(rs)
    && forall i, j :: 0 <= i < j < |rs| ==> rs[i].End + 1 < rs[j].Start
  }

  ghost predicate SameBytesAndGaps(a: seq<CacheRangeSpec>, b: seq<CacheRangeSpec>) {
    && (forall x :: Covers(a, x) <==> Covers(b, x))
    && (forall p :: Spans(a, p) <==> Spans(b, p))
  }

  /** `merged` is the canonical form of `rs`. */
  ghost predicate IsMerge(rs: seq<CacheRangeSpec>, merged: seq<CacheRangeSpec>) {
    Canonical(merged) && SameBytesAndGaps(rs, merged)
  }

  /** Every byte and every gap that some range has, some merged range has, and the other way
      round. Merged ranges are sorted with an uncached byte between neighbours. */
  lemma MergedRanges(rs: seq<CacheRangeSpec>, merged: seq<CacheRangeSpec>, b: int)
    requires IsMerge(rs, merged)
    ensures (exists r :: r in rs && r.Start <= b <= r.End) <==> exists r :: r in merged && r.Start <= b <= r.End
    ensures (exists r :: r in rs && r.Start <= b <= r.End + 1) <==> exists r :: r in merged && r.Start <= b <= r.End + 1
    ensures forall i, j :: 0 <= i < j < |merged| ==> merged[i].End + 1 < merged[j].Start
    ensures forall r :: r in merged ==> r.Start <= r.End + 1
  {
    CoversIff(rs, b);
    CoversIff(merged, b);
    SpansIff(rs, b);
    SpansIff(merged, b);
  }

  lemma CoversIff(rs: seq<CacheRangeSpec>, b: int)
    ensures Covers(rs, b) <==> exists r :: r in rs && r.Start <= b <= r.End
  {
    if r :| r in rs && r.Start <= b <= r.End {
      assert HasByte(r, b);
    }
  }

  lemma SpansIff(rs: seq<CacheRangeSpec>, p: int)
    ensures Spans(rs, p) <==> exists r :: r in rs && r.Start <= p <= r.End + 1
  {
    if r :| r in rs && r.Start <= p <= r.End + 1 {
      assert HasGap(r, p);
    }
  }

  lemma AppendRange(rs: seq<CacheRangeSpec>, r: CacheRangeSpec)
    ensures forall b :: Covers(rs + [r], b) <==> Covers(rs, b) || HasByte(r, b)
    ensures forall p :: Spans(rs + [r], p) <==> Spans(rs, p) || HasGap(r, p)
  {
    forall b ensures Covers(rs + [r], b) <==> Covers(rs, b) || HasByte(r, b) {
      assert r in rs + [r];
      assert forall q :: q in rs ==> q in rs + [r];
    }
    forall p ensures Spans(rs + [r], p) <==> Spans(rs, p) || HasGap(r, p) {
      assert r in rs + [r];
      assert forall q :: q in rs ==> q in rs + [r];
    }
  }

  lemma WidenLast(rs: seq<CacheRangeSpec>, c: CacheRangeSpec, wider: CacheRangeSpec)
    requires Canonical(rs + [c]) && wider.Start == c.Start && WellFormed(wider)
    ensures Canonical(rs + [wider])
  {
    var a, b := rs + [c], rs + [wider];
    assert forall r :: r in rs ==> r in a;
    assert forall i :: 0 <= i < |b| ==> b[i].Start == a[i].Start;
  }

  lemma AppendBeyond(rs: seq<CacheRangeSpec>, c: CacheRangeSpec, r: CacheRangeSpec)
    requires Canonical(rs + [c]) && c.End + 1 < r.Start && WellFormed(r)
    ensures Canonical(rs + [c] + [r])
  {
    var a := rs + [c];
    assert c in a && WellFormed(c);
    assert a[|a| - 1] == c;
  }

  /** Merging never fails, never loses a byte, and its outcome is canonical whatever order
      the unstable sort leaves equal starts in. */
  method MergeRanges(ranges: seq<CacheRangeSpec>) returns (merged: seq<CacheRangeSpec>)
    requires AllWellFormed(ranges)
    ensures IsMerge(ranges, merged)
  {
    if |ranges| == 0 {
      return [];
    }
    var byStart := (a: CacheRangeSpec, b: CacheRangeSpec) => a.Start <= b.Start;
    var sorted := SortFunc(ranges, byStart);
    assert forall r :: r in sorted <==> r in ranges by {
      forall r { SameElements(sorted, ranges, r); }
    }
    assert |sorted| == |ranges| by { assert |multiset(sorted)| == |multiset(ranges)|; }
    merged := [];
    var current := sorted[0];
    assert current in sorted;
    assert sorted[..1] == [] + [current] == [current];
    for i := 1 to |sorted|
      invariant WellFormed(current)
      invariant IsMerge(sorted[..i], merged + [current])
      invariant forall k :: i <= k < |sorted| ==> current.Start <= sorted[k].Start
    {
      var r := sorted[i];
      assert r in sorted;
      assert sorted[..i + 1] == sorted[..i] + [r];
      AppendRange(sorted[..i], r);
      AppendRange(merged, current);
      if r.Start <= current.End + 1 {
        ghost var c0 := current;
        if r.End > current.End {
          current := current.(End := r.End);
        }
        AppendRange(merged, current);
        WidenLast(merged, c0, current);
      } else {
        AppendRange(merged + [current], r);
        AppendBeyond(merged, current, r);
        merged := merged + [current];
        current := r;
      }
    }
    assert sorted[..|sorted|] == sorted;
    merged := merged + [current];
    SameSetSameBytes(sorted, ranges);
  }

  lemma SameSetSameBytes(a: seq<CacheRangeSpec>, b: seq<CacheRangeSpec>)
    requires forall r :: r in a <==> r in b
    ensures SameBytesAndGaps(a, b)
  {
  }

  lemma TailCovers(rs: seq<CacheRangeSpec>)
    requires Canonical(rs) && rs != []
    ensures Canonical(rs[1..])
    ensures forall x :: Covers(rs, x) <==> Covers(rs[1..], x) || HasByte(rs[0], x)
    ensures forall p :: Spans(rs, p) <==> Spans(rs[1..], p) || HasGap(rs[0], p)
    ensures forall r :: r in rs[1..] ==> rs[0].End + 1 < r.Start && WellFormed(r)
  {
    var first, tail := rs[0], rs[1..];
    assert rs == [first] + tail;
    assert forall r :: r in rs <==> r == first || r in tail;
    forall r | r in tail ensures first.End + 1 < r.Start && WellFormed(r) {
      var i :| 0 <= i < |tail| && tail[i] == r;
      assert rs[i + 1] == r;
    }
  }

  /** In a canonical list the first range holds every byte and gap up to its end, and the
      others hold the rest. */
  lemma CanonicalTail(rs: seq<CacheRangeSpec>)
    requires Canonical(rs) && rs != []
    ensures Canonical(rs[1..])
    ensures forall x :: Covers(rs[1..], x) <==> Covers(rs, x) && x > rs[0].End + 1
    ensures forall p :: Spans(rs[1..], p) <==> Spans(rs, p) && p > rs[0].End + 1
    ensures forall p :: Spans(rs, p) ==> rs[0].Start <= p
    ensures Spans(rs, rs[0].Start) && !Covers(rs, rs[0].End + 1)
    ensures forall x :: HasByte(rs[0], x) ==> Covers(rs, x)
  {
    TailCovers(rs);
    assert rs[0] in rs && HasGap(rs[0], rs[0].Start);
  }

  /** The canonical form is unique: it is determined by the bytes and gaps alone. */
  lemma {:induction false} CanonicalUnique(a: seq<CacheRangeSpec>, b: seq<CacheRangeSpec>)
    requires Canonical(a) && Canonical(b) && SameBytesAndGaps(a, b)
    ensures a == b
  {
    if a == [] || b == [] {
      if a != [] { CanonicalTail(a); }
      if b != [] { CanonicalTail(b); }
    } else {
      CanonicalTail(a);
      CanonicalTail(b);
      var x, y := a[0], b[0];
      assert x.Start == y.Start && x in a && y in b;
      assert x.End < y.End ==> HasByte(y, x.End + 1);
      assert y.End < x.End ==> HasByte(x, y.End + 1);
      CanonicalUnique(a[1..], b[1..]);
      assert a == [a[0]] + a[1..] && b == [b[0]] + b[1..];
    }
  }

  /** Merging is idempotent, and forgets the order its input came in. */
  lemma MergeIdempotentAndOrderFree(
      rs: seq<CacheRangeSpec>, shuffled: seq<CacheRangeSpec>,
      m: seq<CacheRangeSpec>, mAgain: seq<CacheRangeSpec>, mShuffled: seq<CacheRangeSpec>)
    requires multiset(rs) == multiset(shuffled)
    requires IsMerge(rs, m) && IsMerge(m, mAgain) && IsMerge(shuffled, mShuffled)
    ensures mAgain == m && mShuffled == m
  {
    forall r ensures r in rs <==> r in shuffled { SameElements(rs, shuffled, r); }
    SameSetSameBytes(rs, shuffled);
    CanonicalUnique(m, mAgain);
    CanonicalUnique(m, mShuffled);
  }

  /** Publishing in one go or one range at a time comes to the same. */
  lemma MergeIncremental(rs: seq<CacheRangeSpec>, r: CacheRangeSpec,
                         m: seq<CacheRangeSpec>, step: seq<CacheRangeSpec>, whole: seq<CacheRangeSpec>)
    requires IsMerge(rs, m) && IsMerge(m + [r], step) && IsMerge(rs + [r], whole)
    ensures step == whole
  {
    AppendRange(m, r);
    AppendRange(rs, r);
    CanonicalUnique(step, whole);
  }

  // ---------------------------------------------------------------- serving a request

  datatype CacheMetadata = CacheMetadata(Type: string, Length: int, Ranges: seq<CacheRangeSpec>)

  /** An open-ended request, End == -1, runs to the last byte. */
  function ResolvedEnd(length: int, req: CacheRangeSpec): int {
    if req.End == -1 then length - 1 else req.End
  }

  ghost predicate Uniform(ranges: seq<CacheRangeSpec>, hit: bool, r: CacheRangeSpec) {
    forall b :: HasByte(r, b) ==> (Covers(ranges, b) <==> hit)
  }

  /** The answer starts where the request starts, is cached throughout or uncached throughout,
      and stops at the request's end or where that changes. A miss also stops in front of the
      first empty published range. A request whose resolved end precedes its start is answered
      as it stands, as a hit exactly when its end is cached. */
  ghost predicate Answer(ranges: seq<CacheRangeSpec>, req: CacheRangeSpec, end: int, hit: bool, r: CacheRangeSpec) {
    && r.Start == req.Start
    && r.End <= end
    && (req.Start > end ==> r.End == end && (hit <==> Covers(ranges, end)))
    && (req.Start <= end ==>
          && r.Start <= r.End
          && Uniform(ranges, hit, r)
          && (!hit ==> forall c :: c in ranges ==> !(r.Start < c.Start <= r.End))
          && (r.End < end ==>
                if hit then !Covers(ranges, r.End + 1)
                else exists c :: c in ranges && c.Start == r.End + 1))
  }

  /** The answer byte by byte: from the requested start on all cached or all uncached, up to the
      requested end, the last byte of the content if that is -1, or up to a byte that is not
      cached behind a hit, or that a published range begins with behind a miss. */
  lemma AnswerBytes(metadata: CacheMetadata, req: CacheRangeSpec, hit: bool, r: CacheRangeSpec, b: int)
    requires Answer(metadata.Ranges, req, ResolvedEnd(metadata.Length, req), hit, r)
    ensures var end := if req.End == -1 then metadata.Length - 1 else req.End;
            && r.Start == req.Start && r.End <= end
            && (req.Start <= end ==> req.Start <= r.End)
            && (req.Start <= b <= r.End ==> (hit <==> exists c :: c in metadata.Ranges && c.Start <= b <= c.End))
            && (r.End < end && hit ==> !exists c :: c in metadata.Ranges && c.Start <= r.End + 1 <= c.End)
            && (r.End < end && !hit ==> exists c :: c in metadata.Ranges && c.Start == r.End + 1)
            && (req.Start > end ==>
                  r.End == end && (hit <==> exists c :: c in metadata.Ranges && c.Start <= end <= c.End))
  {
    CoversIff(metadata.Ranges, b);
    CoversIff(metadata.Ranges, r.End);
    CoversIff(metadata.Ranges, r.End + 1);
    assert HasByte(r, b) <==> req.Start <= b <= r.End;
  }

  /** Range i is the first that does not end before the request. */
  ghost predicate Reached(ranges: seq<CacheRangeSpec>, req: CacheRangeSpec, i: nat) {
    i <= |ranges| && forall k :: 0 <= k < i ==> ranges[k].End < req.Start && ranges[k].End < req.End
  }

  lemma MissAnswers(ranges: seq<CacheRangeSpec>, req: CacheRangeSpec, i: nat, r: CacheRangeSpec)
    requires Canonical(ranges) && Reached(ranges, req, i)
    requires r.Start == req.Start && r.End <= req.End
    requires i < |ranges| ==> r.End < ranges[i].Start && (req.Start <= req.End ==> req.Start < ranges[i].Start)
    requires r.End == req.End || (req.Start <= r.End && i < |ranges| && r.End + 1 == ranges[i].Start)
    ensures Answer(ranges, req, req.End, false, r)
  {
    forall c | c in ranges
      ensures (c.End < req.Start && c.End < req.End) || (i < |ranges| && c.Start >= ranges[i].Start)
      ensures WellFormed(c)
    {
      var k :| 0 <= k < |ranges| && ranges[k] == c;
      if k > i {
        assert ranges[i] in ranges && WellFormed(ranges[i]) && ranges[i].End + 1 < ranges[k].Start;
      }
    }
    assert forall c, b :: c in ranges && HasByte(r, b) ==> !HasByte(c, b);
  }

  lemma HitAnswers(ranges: seq<CacheRangeSpec>, req: CacheRangeSpec, i: nat, r: CacheRangeSpec)
    requires Canonical(ranges) && i < |ranges|
    requires ranges[i].Start <= req.Start && ranges[i].Start <= req.End && r.Start == req.Start
    requires r.End == if req.End <= ranges[i].End then req.End else ranges[i].End
    requires req.End <= ranges[i].End || req.Start <= ranges[i].End
    ensures Answer(ranges, req, req.End, true, r)
  {
    var c := ranges[i];
    assert c in ranges;
    if req.Start > req.End {
      assert HasByte(c, req.End);
    } else {
      assert forall b :: HasByte(r, b) ==> HasByte(c, b);
      if r.End < req.End {
        NextByteUncached(ranges, i);
      }
    }
  }

  /** Behind a canonical range there is an uncached byte. */
  lemma NextByteUncached(ranges: seq<CacheRangeSpec>, i: nat)
    requires Canonical(ranges) && i < |ranges|
    ensures !Covers(ranges, ranges[i].End + 1)
  {
    forall d | d in ranges ensures !HasByte(d, ranges[i].End + 1) {
      var k :| 0 <= k < |ranges| && ranges[k] == d;
      assert ranges[i] in ranges && WellFormed(ranges[i]);
    }
  }

  method GetCachedRange(metadata: CacheMetadata, reqRange: CacheRangeSpec) returns (hit: bool, r: CacheRangeSpec)
    requires Canonical(metadata.Ranges)
    ensures Answer(metadata.Ranges, reqRange, ResolvedEnd(metadata.Length, reqRange), hit, r)
  {
    var ranges := metadata.Ranges;
    var req := reqRange;
    if req.End == -1 {
      req := req.(End := metadata.Length - 1);
    }
    for i := 0 to |ranges|
      invariant Reached(ranges, req, i)
    {
      var c := ranges[i];
      assert c in ranges && WellFormed(c);
      if req.End < c.Start {
        r := CacheRangeSpec(req.Start, req.End);
        MissAnswers(ranges, req, i, r);
        return false, r;
      } else if req.End >= c.Start && req.Start < c.Start {
        r := CacheRangeSpec(req.Start, c.Start - 1);
        MissAnswers(ranges, req, i, r);
        return false, r;
      } else if req.End <= c.End && req.Start >= c.Start {
        r := CacheRangeSpec(req.Start, req.End);
        HitAnswers(ranges, req, i, r);
        return true, r;
      } else if req.End > c.End && req.Start <= c.End {
        r := CacheRangeSpec(req.Start, c.End);
        HitAnswers(ranges, req, i, r);
        return true, r;
      }
    }
    MissAnswers(ranges, req, |ranges|, req);
    return false, req;
  }

  ghost predicate NonEmpty(ranges: seq<CacheRangeSpec>) {
    forall c :: c in ranges ==> c.Start <= c.End
  }

  ghost predicate Extendable(ranges: seq<CacheRangeSpec>, end: int, hit: bool, r: CacheRangeSpec) {
    exists e :: r.End < e <= end && Uniform(ranges, hit, CacheRangeSpec(r.Start, e))
  }

  /** Metadata and request determine the answer. */
  lemma AnswerUnique(ranges: seq<CacheRangeSpec>, req: CacheRangeSpec, end: int,
                     hit: bool, r: CacheRangeSpec, hit': bool, r': CacheRangeSpec)
    requires Canonical(ranges) && Answer(ranges, req, end, hit, r) && Answer(ranges, req, end, hit', r')
    ensures hit == hit' && r == r'
  {
    if req.Start <= end {
      assert HasByte(r, req.Start) && HasByte(r', req.Start);
      AnswerNotLonger(ranges, req, end, hit, r, r');
      AnswerNotLonger(ranges, req, end, hit, r', r);
    }
  }

  lemma AnswerNotLonger(ranges: seq<CacheRangeSpec>, req: CacheRangeSpec, end: int, hit: bool, r: CacheRangeSpec,
                        r': CacheRangeSpec)
    requires req.Start <= end && Answer(ranges, req, end, hit, r) && Answer(ranges, req, end, hit, r')
    ensures r'.End <= r.End
  {
    if r.End < r'.End {
      assert HasByte(r', r.End + 1);
    }
  }

  /** An empty range lies behind the start of the request, and nothing before it is cached. */
  ghost predicate EmptyRangeAhead(ranges: seq<CacheRangeSpec>, start: int, end: int, c: CacheRangeSpec) {
    && c in ranges && c.End < c.Start && start < c.Start <= end
    && forall b :: start <= b < c.Start ==> !Covers(ranges, b)
  }

  /** The answer is the longest uniform prefix of the request, unless an empty published range
      lies in the uncached stretch the request begins with. */
  lemma AnswerLongest(ranges: seq<CacheRangeSpec>, req: CacheRangeSpec, end: int, hit: bool, r: CacheRangeSpec)
    requires Canonical(ranges) && req.Start <= end && Answer(ranges, req, end, hit, r)
    ensures Extendable(ranges, end, hit, r) <==> exists c :: EmptyRangeAhead(ranges, req.Start, end, c)
    ensures NonEmpty(ranges) ==> !Extendable(ranges, end, hit, r)
  {
    if Extendable(ranges, end, hit, r) {
      var c := ExtendableStopsAtEmpty(ranges, req, end, hit, r);
    }
    if c :| EmptyRangeAhead(ranges, req.Start, end, c) {
      EmptyStopsExtendable(ranges, req, end, hit, r, c);
    }
  }

  lemma ExtendableStopsAtEmpty(ranges: seq<CacheRangeSpec>, req: CacheRangeSpec, end: int, hit: bool, r: CacheRangeSpec)
    returns (c: CacheRangeSpec)
    requires Canonical(ranges) && req.Start <= end
    requires Answer(ranges, req, end, hit, r) && Extendable(ranges, end, hit, r)
    ensures EmptyRangeAhead(ranges, req.Start, end, c)
  {
    var next := r.End + 1;
    var e :| r.End < e <= end && Uniform(ranges, hit, CacheRangeSpec(r.Start, e));
    assert HasByte(CacheRangeSpec(r.Start, e), next);
    c :| c in ranges && c.Start == next;
    assert WellFormed(c);
    assert c.End >= c.Start ==> HasByte(c, next);
    forall b | req.Start <= b < c.Start ensures !Covers(ranges, b) {
      assert HasByte(r, b);
    }
  }

  lemma EmptyStopsExtendable(ranges: seq<CacheRangeSpec>, req: CacheRangeSpec, end: int, hit: bool, r: CacheRangeSpec,
                             c: CacheRangeSpec)
    requires Canonical(ranges) && req.Start <= end && Answer(ranges, req, end, hit, r)
    requires EmptyRangeAhead(ranges, req.Start, end, c)
    ensures Extendable(ranges, end, hit, r)
  {
    assert HasByte(r, req.Start);
    EmptyRangeIsUncached(ranges, c);
    assert !hit && r.End < c.Start;
    assert !Covers(ranges, r.End + 1);
    assert Uniform(ranges, false, CacheRangeSpec(r.Start, r.End + 1));
  }

  lemma EmptyRangeIsUncached(ranges: seq<CacheRangeSpec>, c: CacheRangeSpec)
    requires Canonical(ranges) && c in ranges && c.End < c.Start
    ensures !Covers(ranges, c.Start)
  {
    var i :| 0 <= i < |ranges| && ranges[i] == c;
    forall d | d in ranges ensures !HasByte(d, c.Start) {
      var j :| 0 <= j < |ranges| && ranges[j] == d;
      assert WellFormed(c) && WellFormed(d);
    }
  }

  // A client that asks for [start, end], and then again from the byte after each answer.

  datatype Piece = Piece(hit: bool, range: CacheRangeSpec)

  function NextStart(start: int, pieces: seq<Piece>): int {
    if pieces == [] then start else pieces[|pieces| - 1].range.End + 1
  }

  ghost predicate IsAnswer(ranges: seq<CacheRangeSpec>, start: int, end: int, p: Piece) {
    start <= end && Answer(ranges, CacheRangeSpec(start, end), end, p.hit, p.range)
  }

  /** The answers so far. */
  ghost predicate Tiles(ranges: seq<CacheRangeSpec>, start: int, end: int, pieces: seq<Piece>) {
    forall k :: 0 <= k < |pieces| ==> IsAnswer(ranges, NextStart(start, pieces[..k]), end, pieces[k])
  }

  lemma HitsAlternate(ranges: seq<CacheRangeSpec>, start: int, end: int, p: Piece, q: Piece)
    requires NonEmpty(ranges) && IsAnswer(ranges, start, end, p) && IsAnswer(ranges, p.range.End + 1, end, q)
    ensures q.hit != p.hit
  {
    assert HasByte(q.range, q.range.Start);
    if !p.hit {
      var c :| c in ranges && c.Start == p.range.End + 1;
      assert HasByte(c, c.Start);
    }
  }

  /** Every answer gets at least one byte further. */
  lemma {:induction false} TilesProgress(ranges: seq<CacheRangeSpec>, start: int, end: int, pieces: seq<Piece>)
    requires Tiles(ranges, start, end, pieces)
    ensures |pieces| <= NextStart(start, pieces) - start
  {
    if pieces == [] {
    } else {
      var n := |pieces| - 1;
      assert forall k :: 0 <= k <= n ==> pieces[..n][..k] == pieces[..k];
      TilesProgress(ranges, start, end, pieces[..n]);
      assert IsAnswer(ranges, NextStart(start, pieces[..n]), end, pieces[n]);
    }
  }

  /** The answers so far are no more than the bytes asked for, join up without overlap, each
      tells the truth about its bytes, and hits alternate with misses. */
  lemma TilesPartition(ranges: seq<CacheRangeSpec>, start: int, end: int, pieces: seq<Piece>)
    requires Tiles(ranges, start, end, pieces)
    ensures |pieces| <= if start > end then 0 else end - start + 1
    ensures forall k :: 0 <= k < |pieces| ==>
              && pieces[k].range.Start == (if k == 0 then start else pieces[k - 1].range.End + 1)
              && pieces[k].range.Start <= pieces[k].range.End <= end
              && Uniform(ranges, pieces[k].hit, pieces[k].range)
    ensures NonEmpty(ranges) ==> forall k :: 0 < k < |pieces| ==> pieces[k].hit != pieces[k - 1].hit
  {
    TilesProgress(ranges, start, end, pieces);
    forall k | 0 <= k < |pieces|
      ensures IsAnswer(ranges, if k == 0 then start else pieces[k - 1].range.End + 1, end, pieces[k])
    {
      assert IsAnswer(ranges, NextStart(start, pieces[..k]), end, pieces[k]);
    }
    if NonEmpty(ranges) {
      forall k | 0 < k < |pieces| ensures pieces[k].hit != pieces[k - 1].hit {
        HitsAlternate(ranges, pieces[k - 1].range.Start, end, pieces[k - 1], pieces[k]);
      }
    }
  }

  /** Asking again from the byte after each answer comes to an end, and by then everything has
      been answered. */
  method TileRequest(metadata: CacheMetadata, start: int, end: int) returns (pieces: seq<Piece>)
    requires Canonical(metadata.Ranges) && start >= 0
    ensures Tiles(metadata.Ranges, start, end, pieces)
    ensures NextStart(start, pieces) == if start > end then start else end + 1
  {
    pieces := [];
    var at := start;
    while at <= end
      invariant at == NextStart(start, pieces) <= (if start > end then start else end + 1)
      invariant Tiles(metadata.Ranges, start, end, pieces)
    {
      var hit, r := GetCachedRange(metadata, CacheRangeSpec(at, end));
      ghost var front := pieces;
      pieces := pieces + [Piece(hit, r)];
      assert pieces[..|front|] == front;
      assert forall k :: 0 <= k < |front| ==> pieces[..k] == front[..k];
      at := r.End + 1;
    }
  }
}
