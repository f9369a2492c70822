/** The sparse cache of one URL as a state machine. Any number of writers stream origin bytes
    into one file and publish what they have written into shared metadata; readers decide
    from the metadata and then copy from the file without the lock. Every action below is
    one step that other connections can come between; only the two publishing steps and the
    metadata read of Serve hold the lock. */
module CacheProtocol {
  import opened Models
  import opened Wrappers
  import opened CacheRanges

  /** A CacheMiss publishes whenever more than this many bytes are unpublished. */
  const PUBLISH_EVERY: int := 1024 * 1024

  datatype Kind = Miss | Prefetch  // CacheMiss, CacheWriter

  datatype Phase =
    | Idle
    | Fetched(chunk: seq<Byte>)  // the origin delivered a chunk
    | Stored(n: nat)             // the chunk is in the file, not yet counted
    | PublishDue
    | Closing
    | Closed

  datatype Writer = Writer(kind: Kind, contentType: string, total: int, start: nat,
                           progress: nat, progressSinceUpdate: nat, phase: Phase)
  {
    function Position(): nat { start + progress }

    function Range(): CacheRangeSpec { CacheRangeSpec(start, start + progress - 1) }

    /** How much of its progress this writer has put into the metadata. */
    function Published(): int {
      if phase == Closed then progress
      else if kind == Prefetch then 0
      else progress - progressSinceUpdate
    }

    function StoreChunk(): Writer requires phase.Fetched? {
      this.(phase := Stored(|phase.chunk|))
    }

    function Advance(): Writer requires phase.Stored? {
      var since := if kind == Miss then progressSinceUpdate + phase.n else progressSinceUpdate;
      this.(progress := progress + phase.n, progressSinceUpdate := since,
            phase := if since > PUBLISH_EVERY then PublishDue else Idle)
    }
  }

  datatype Reader = Reader(range: CacheRangeSpec, sent: seq<Byte>)

  datatype State = State(file: seq<Byte>, meta: Option<CacheMetadata>,
                         writers: seq<Writer>, readers: seq<Reader>)
  {
    ghost function Ranges(): seq<CacheRangeSpec> {
      if meta.Some? then meta.value.Ranges else []
    }
  }

  datatype Action =
    | Open(kind: Kind, contentType: string, total: int, start: nat)
    | Fetch(w: nat, n: nat)
    | Store(w: nat)
    | Advance(w: nat)
    | Publish(w: nat)
    | BeginClose(w: nat)
    | PublishClose(w: nat)
    | Serve(req: CacheRangeSpec, hit: bool, answer: CacheRangeSpec)
    | Copy(r: nat, n: nat)
    | LoseMetadata  // the metadata file becomes unreadable and counts as absent

  /** Writing past the end leaves a hole of zeros; writing nothing changes nothing. */
  function WriteAt(file: seq<Byte>, at: nat, chunk: seq<Byte>): (f: seq<Byte>)
    ensures |f| == if chunk != [] && at + |chunk| > |file| then at + |chunk| else |file|
    ensures forall b :: 0 <= b < |f| ==>
              f[b] == if at <= b < at + |chunk| then chunk[b - at] else if b < |file| then file[b] else 0
  {
    if chunk == [] then file
    else
      var size := if at + |chunk| > |file| then at + |chunk| else |file|;
      seq(size, b requires 0 <= b < size =>
        if at <= b < at + |chunk| then chunk[b - at] else if b < |file| then file[b] else 0)
  }

  /** The chunk is in the file from `at` on, and every other byte is as before. */
  lemma WrittenBytes(file: seq<Byte>, at: nat, chunk: seq<Byte>, b: nat)
    ensures var f := WriteAt(file, at, chunk);
            && (at <= b < at + |chunk| ==> b < |f| && f[b] == chunk[b - at])
            && (b < |file| && !(at <= b < at + |chunk|) ==> b < |f| && f[b] == file[b])
            && (|file| <= b < at && chunk != [] ==> b < |f| && f[b] == 0)
            && (|file| <= b && at + |chunk| <= b ==> b >= |f|)
  {
  }

  /** Up to n bytes from offset `at`, cut off by the end of the file. */
  function ReadAt(file: seq<Byte>, at: int, n: int): seq<Byte> {
    if n <= 0 || at < 0 || at >= |file| then []
    else if at + n <= |file| then file[at..at + n]
    else file[at..]
  }

  /** What UpdateCacheMetadata leaves behind: the first publisher's type and length, and
      the canonical form of all ranges published so far. */
  ghost predicate MetadataUpdated(before: Option<CacheMetadata>, contentType: string, length: int,
                                  newRange: CacheRangeSpec, after: Option<CacheMetadata>) {
    && after.Some?
    && after.value.Type == (if before.Some? then before.value.Type else contentType)
    && after.value.Length == (if before.Some? then before.value.Length else length)
    && IsMerge((if before.Some? then before.value.Ranges else []) + [newRange], after.value.Ranges)
  }

  /** The first publisher's type and length stay, and a byte is published exactly when it was before
      or is in the new range. */
  lemma MetadataBytes(before: Option<CacheMetadata>, contentType: string, length: int, newRange: CacheRangeSpec,
                      after: Option<CacheMetadata>, b: int)
    requires MetadataUpdated(before, contentType, length, newRange, after)
    ensures after.Some?
    ensures before == None ==> after.value.Type == contentType && after.value.Length == length
    ensures before.Some? ==> after.value.Type == before.value.Type && after.value.Length == before.value.Length
    ensures (exists r :: r in after.value.Ranges && r.Start <= b <= r.End) <==>
              || newRange.Start <= b <= newRange.End
              || (before.Some? && exists r :: r in before.value.Ranges && r.Start <= b <= r.End)
  {
    var ranges := if before.Some? then before.value.Ranges else [];
    MergedRanges(ranges + [newRange], after.value.Ranges, b);
    AppendRange(ranges, newRange);
    CoversIff(ranges, b);
    CoversIff(ranges + [newRange], b);
  }

  function Min(a: int, b: int): int { if a <= b then a else b }

  ghost predicate Next(origin: seq<Byte>, s: State, a: Action, s': State) {
    match a
    case Open(kind, contentType, total, start) =>
      && start <= |origin|
      && s' == s.(writers := s.writers + [Writer(kind, contentType, total, start, 0, 0, Idle)])
    case Fetch(i, n) =>
      && i < |s.writers|
      && var w := s.writers[i];
      && w.phase == Idle
      && w.Position() + n <= |origin|
      && s' == s.(writers := s.writers[i := w.(phase := Fetched(origin[w.Position()..w.Position() + n]))])
    case Store(i) =>
      && i < |s.writers|
      && var w := s.writers[i];
      && w.phase.Fetched?
      && s' == s.(file := WriteAt(s.file, w.Position(), w.phase.chunk), writers := s.writers[i := w.StoreChunk()])
    case Advance(i) =>
      && i < |s.writers|
      && s.writers[i].phase.Stored?
      && s' == s.(writers := s.writers[i := s.writers[i].Advance()])
    case Publish(i) =>
      && i < |s.writers|
      && var w := s.writers[i];
      && w.phase == PublishDue
      && MetadataUpdated(s.meta, w.contentType, w.total, w.Range(), s'.meta)
      && s' == s.(meta := s'.meta, writers := s.writers[i := w.(progressSinceUpdate := 0, phase := Idle)])
    case BeginClose(i) =>
      && i < |s.writers|
      && s.writers[i].phase == Idle
      && s' == s.(writers := s.writers[i := s.writers[i].(phase := Closing)])
    case PublishClose(i) =>
      && i < |s.writers|
      && var w := s.writers[i];
      && w.phase == Closing
      && MetadataUpdated(s.meta, w.contentType, w.total, w.Range(), s'.meta)
      && s' == s.(meta := s'.meta, writers := s.writers[i := w.(phase := Closed)])
    case Serve(req, hit, answer) =>
      && s.meta.Some?
      && Answer(s.meta.value.Ranges, req, ResolvedEnd(s.meta.value.Length, req), hit, answer)
      && s' == if hit then s.(readers := s.readers + [Reader(answer, [])]) else s
    case Copy(i, n) =>
      && i < |s.readers|
      && var r := s.readers[i];
      && var at := r.range.Start + |r.sent|;
      && s' == s.(readers := s.readers[i := r.(sent := r.sent + ReadAt(s.file, at, Min(n, r.range.End + 1 - at)))])
    case LoseMetadata =>
      s' == s.(meta := None)
  }

  /** A run of the machine: any interleaving of any number of writers and readers. */
  ghost predicate IsRun(origin: seq<Byte>, states: seq<State>, actions: seq<Action>) {
    && |states| == |actions| + 1
    && forall k :: 0 <= k < |actions| ==> Next(origin, states[k], actions[k], states[k + 1])
  }

  // ---------------------------------------------------------------- safety

  /** Byte b of the file is the origin's byte b. */
  ghost predicate Genuine(origin: seq<Byte>, file: seq<Byte>, b: int) {
    0 <= b < |file| && b < |origin| && file[b] == origin[b]
  }

  ghost predicate GenuineUpTo(origin: seq<Byte>, file: seq<Byte>, from: int, to: int) {
    forall b :: from <= b < to ==> Genuine(origin, file, b)
  }

  ghost predicate WriterOk(origin: seq<Byte>, file: seq<Byte>, w: Writer) {
    && w.Position() <= |origin|
    && GenuineUpTo(origin, file, w.start, w.Position())
    && (w.phase.Fetched? ==>
          w.Position() + |w.phase.chunk| <= |origin| &&
          w.phase.chunk == origin[w.Position()..w.Position() + |w.phase.chunk|])
    && (w.phase.Stored? ==>
          w.Position() + w.phase.n <= |origin| &&
          GenuineUpTo(origin, file, w.start, w.Position() + w.phase.n))
    && w.progressSinceUpdate <= w.progress
    && (w.phase != PublishDue ==> w.progressSinceUpdate <= PUBLISH_EVERY)
    && (w.kind == Prefetch ==> w.progressSinceUpdate == 0 && w.phase != PublishDue)
  }

  ghost predicate ReaderOk(origin: seq<Byte>, file: seq<Byte>, r: Reader) {
    r.range.Start <= r.range.End ==>
      && GenuineUpTo(origin, file, r.range.Start, r.range.End + 1)
      && 0 <= r.range.Start
      && r.range.Start + |r.sent| <= r.range.End + 1 <= |origin|
      && r.sent == origin[r.range.Start..r.range.Start + |r.sent|]
  }

  ghost predicate Inv(origin: seq<Byte>, s: State) {
    && Canonical(s.Ranges())
    && (forall b :: Covers(s.Ranges(), b) ==> Genuine(origin, s.file, b))
    && (forall w :: w in s.writers ==> WriterOk(origin, s.file, w))
    && (forall r :: r in s.readers ==> ReaderOk(origin, s.file, r))
  }

  /** Storing a fetched chunk makes its bytes genuine and spoils no genuine byte, even when
      another writer is in the same region. */
  lemma StoreKeepsGenuine(origin: seq<Byte>, file: seq<Byte>, at: nat, chunk: seq<Byte>)
    requires at + |chunk| <= |origin| && chunk == origin[at..at + |chunk|]
    ensures forall b :: Genuine(origin, file, b) ==> Genuine(origin, WriteAt(file, at, chunk), b)
    ensures GenuineUpTo(origin, WriteAt(file, at, chunk), at, at + |chunk|)
  {
  }

  /** Every interleaved step keeps the invariant. */
  lemma NextKeepsInv(origin: seq<Byte>, s: State, a: Action, s': State)
    requires Inv(origin, s) && Next(origin, s, a, s')
    ensures Inv(origin, s')
  {
    match a
    case Open(_, _, _, _) =>
    case Fetch(i, n) => assert s.writers[i] in s.writers;
    case Store(i) =>
      StoreKeepsInv(origin, s, i, s');
    case Advance(i) => assert s.writers[i] in s.writers;
    case BeginClose(i) => assert s.writers[i] in s.writers;
    case Publish(i) => PublishKeepsInv(origin, s, i, s');
    case PublishClose(i) => PublishKeepsInv(origin, s, i, s');
    case Serve(_, _, _) => ServeKeepsInv(origin, s, a, s');
    case Copy(i, n) => CopyKeepsInv(origin, s, i, n, s');
    case LoseMetadata =>
  }

  lemma ServeKeepsInv(origin: seq<Byte>, s: State, a: Action, s': State)
    requires Inv(origin, s) && a.Serve? && Next(origin, s, a, s')
    ensures Inv(origin, s')
  {
    if a.hit && a.answer.Start <= a.answer.End {
      assert forall b :: HasByte(a.answer, b) ==> Genuine(origin, s.file, b);
      assert HasByte(a.answer, a.answer.Start) && HasByte(a.answer, a.answer.End);
    }
  }

  lemma CopyKeepsInv(origin: seq<Byte>, s: State, i: nat, n: nat, s': State)
    requires Inv(origin, s) && Next(origin, s, Copy(i, n), s')
    ensures Inv(origin, s')
  {
    assert s.readers[i] in s.readers;
    if s.readers[i].range.Start <= s.readers[i].range.End {
      CopySendsOrigin(origin, s, i, n, s');
    }
  }

  lemma StoreKeepsInv(origin: seq<Byte>, s: State, i: nat, s': State)
    requires Inv(origin, s) && Next(origin, s, Store(i), s')
    ensures Inv(origin, s')
  {
    var mine := s.writers[i];
    assert mine in s.writers;
    StoreKeepsGenuine(origin, s.file, mine.Position(), mine.phase.chunk);
    forall w | w in s'.writers ensures WriterOk(origin, s'.file, w) {
      if w == mine.StoreChunk() {
        assert GenuineUpTo(origin, s'.file, w.start, w.Position());
        assert GenuineUpTo(origin, s'.file, w.start, w.Position() + w.phase.n);
      } else {
        assert w in s.writers;
      }
    }
  }

  lemma PublishKeepsInv(origin: seq<Byte>, s: State, i: nat, s': State)
    requires Inv(origin, s)
    requires Next(origin, s, Publish(i), s') || Next(origin, s, PublishClose(i), s')
    ensures Inv(origin, s')
  {
    var w := s.writers[i];
    assert w in s.writers;
    AppendRange(s.Ranges(), w.Range());
  }

  lemma StretchesJoin(origin: seq<Byte>, from: nat, at: nat, to: nat)
    requires from <= at <= to <= |origin|
    ensures origin[from..at] + origin[at..to] == origin[from..to]
  {
  }

  lemma ReaderSendsOrigin(origin: seq<Byte>, file: seq<Byte>, r: Reader, m: int)
    requires ReaderOk(origin, file, r) && r.range.Start <= r.range.End
    requires 0 <= m <= r.range.End + 1 - r.range.Start - |r.sent|
    ensures var sent := r.sent + ReadAt(file, r.range.Start + |r.sent|, m);
            && |sent| == |r.sent| + m && 0 <= r.range.Start && r.range.End < |origin|
            && sent == origin[r.range.Start..r.range.Start + |sent|]
  {
    if m > 0 {
      var at := r.range.Start + |r.sent|;
      ReadGenuine(origin, file, at, m);
      StretchesJoin(origin, r.range.Start, at, at + m);
    }
  }

  /** On a hit the copy never falls short: every step sends as much as asked for, up to
      the end of the range, and all of it is the origin's. */
  lemma CopySendsOrigin(origin: seq<Byte>, s: State, i: nat, n: nat, s': State)
    requires Inv(origin, s) && Next(origin, s, Copy(i, n), s')
    requires s.readers[i].range.Start <= s.readers[i].range.End
    ensures var r, r' := s.readers[i], s'.readers[i];
            && |r'.sent| == |r.sent| + Min(n, r.range.End + 1 - r.range.Start - |r.sent|)
            && r.range.Start >= 0 && r.range.End < |origin|
            && r'.sent == origin[r.range.Start..r.range.Start + |r'.sent|]
  {
    var r := s.readers[i];
    assert r in s.readers && ReaderOk(origin, s.file, r);
    ReaderSendsOrigin(origin, s.file, r, Min(n, r.range.End + 1 - r.range.Start - |r.sent|));
  }

  /** Reading a stretch of genuine bytes yields all of it, as the origin has it. */
  lemma ReadGenuine(origin: seq<Byte>, file: seq<Byte>, at: nat, m: nat)
    requires m > 0 && GenuineUpTo(origin, file, at, at + m)
    ensures at + m <= |origin| && ReadAt(file, at, m) == origin[at..at + m]
  {
    assert Genuine(origin, file, at) && Genuine(origin, file, at + m - 1);
    var read := ReadAt(file, at, m);
    assert |read| == m;
    forall k | 0 <= k < m ensures read[k] == origin[at + k] {
      assert Genuine(origin, file, at + k);
    }
  }

  lemma {:induction false} RunKeepsInv(origin: seq<Byte>, states: seq<State>, actions: seq<Action>, k: nat)
    requires IsRun(origin, states, actions) && k < |states| && Inv(origin, states[0])
    ensures Inv(origin, states[k])
  {
    if k == 0 {
    } else {
      RunKeepsInv(origin, states, actions, k - 1);
      NextKeepsInv(origin, states[k - 1], actions[k - 1], states[k]);
    }
  }

  /** Nobody is connected and nothing is published; the file may hold anything. */
  ghost predicate Start(s: State) {
    s.meta.None? && s.writers == [] && s.readers == []
  }

  /** Cache safety: at any moment of any interleaving, every published byte is in the file
      and is the origin's, and what any reader of a non-empty range has been sent so far is
      exactly the origin's bytes from the start of its range. */
  lemma CacheSafety(origin: seq<Byte>, states: seq<State>, actions: seq<Action>, k: nat)
    requires IsRun(origin, states, actions) && Start(states[0]) && k < |states|
    ensures forall b :: Covers(states[k].Ranges(), b) ==> Genuine(origin, states[k].file, b)
    ensures forall r :: r in states[k].readers && r.range.Start <= r.range.End ==>
              && 0 <= r.range.Start && r.range.End < |origin|
              && |r.sent| <= r.range.End + 1 - r.range.Start
              && r.sent == origin[r.range.Start..r.range.Start + |r.sent|]
  {
    RunKeepsInv(origin, states, actions, k);
  }

  /** A reader is finished when a further copy yields nothing. By then it has sent exactly the
      advertised range, so the count equals the advertised End - Start + 1. */
  lemma FinishedReaderSentWholeRange(origin: seq<Byte>, states: seq<State>, actions: seq<Action>, k: nat, i: nat,
                                     n: nat)
    requires IsRun(origin, states, actions) && Start(states[0])
    requires k < |actions| && actions[k] == Copy(i, n) && n > 0 && states[k + 1] == states[k]
    requires states[k].readers[i].range.Start <= states[k].readers[i].range.End
    ensures var r := states[k].readers[i];
            && |r.sent| == r.range.End - r.range.Start + 1
            && 0 <= r.range.Start && r.range.End < |origin|
            && r.sent == origin[r.range.Start..r.range.End + 1]
  {
    RunKeepsInv(origin, states, actions, k);
    assert Next(origin, states[k], actions[k], states[k + 1]);
    assert states[k].readers[i] in states[k].readers;
    CopySendsOrigin(origin, states[k], i, n, states[k + 1]);
  }

  // ---------------------------------------------------------------- exact coverage

  ghost predicate HasPublished(s: State, b: int) {
    exists w :: w in s.writers && w.start <= b < w.start + w.Published()
  }

  ghost predicate CoverageIs(initial: seq<CacheRangeSpec>, s: State) {
    forall b :: Covers(s.Ranges(), b) <==> Covers(initial, b) || HasPublished(s, b)
  }

  /** No step but the loss of the metadata ever withdraws a published byte. */
  lemma CoverageMonotone(origin: seq<Byte>, s: State, a: Action, s': State)
    requires Next(origin, s, a, s') && a != LoseMetadata
    ensures forall b :: Covers(s.Ranges(), b) ==> Covers(s'.Ranges(), b)
  {
    if a.Publish? || a.PublishClose? {
      AppendRange(s.Ranges(), s.writers[a.w].Range());
    }
  }

  /** Replacing writer i changes what is published only by that writer. */
  lemma ReplaceWriter(s: State, s': State, i: nat, w': Writer)
    requires i < |s.writers| && s'.writers == s.writers[i := w'] && w'.start == s.writers[i].start
    requires w'.Published() >= s.writers[i].Published()
    ensures forall b :: HasPublished(s', b) <==> HasPublished(s, b) || w'.start <= b < w'.start + w'.Published()
  {
    var w := s.writers[i];
    assert w in s.writers && s'.writers[i] in s'.writers;
    forall b ensures HasPublished(s', b) <==> HasPublished(s, b) || w'.start <= b < w'.start + w'.Published() {
      if HasPublished(s, b) {
        var v :| v in s.writers && v.start <= b < v.start + v.Published();
        var j :| 0 <= j < |s.writers| && s.writers[j] == v;
        assert s'.writers[j] in s'.writers;
      }
      if HasPublished(s', b) {
        var v :| v in s'.writers && v.start <= b < v.start + v.Published();
        var j :| 0 <= j < |s'.writers| && s'.writers[j] == v;
        assert s.writers[j] in s.writers;
      }
    }
  }

  lemma NextKeepsCoverage(origin: seq<Byte>, initial: seq<CacheRangeSpec>, s: State, a: Action, s': State)
    requires Inv(origin, s) && Next(origin, s, a, s') && a != LoseMetadata && CoverageIs(initial, s)
    ensures CoverageIs(initial, s')
  {
    match a
    case Open(_, _, _, _) =>
      assert forall w :: w in s.writers ==> w in s'.writers;
    case Serve(_, _, _) =>
    case Copy(_, _) =>
    case Publish(i) => PublishAddsProgress(origin, initial, s, i, s');
    case PublishClose(i) => PublishAddsProgress(origin, initial, s, i, s');
    case Fetch(i, _) => QuietStepKeepsCoverage(initial, s, i, s');
    case Store(i) => QuietStepKeepsCoverage(initial, s, i, s');
    case Advance(i) =>
      assert s.writers[i] in s.writers;
      QuietStepKeepsCoverage(initial, s, i, s');
    case BeginClose(i) => QuietStepKeepsCoverage(initial, s, i, s');
  }

  lemma QuietStepKeepsCoverage(initial: seq<CacheRangeSpec>, s: State, i: nat, s': State)
    requires i < |s.writers| && |s'.writers| == |s.writers| && s'.writers == s.writers[i := s'.writers[i]]
    requires s'.meta == s.meta && s'.writers[i].start == s.writers[i].start
    requires s'.writers[i].Published() == s.writers[i].Published()
    requires CoverageIs(initial, s)
    ensures CoverageIs(initial, s')
  {
    assert s.writers[i] in s.writers;
    ReplaceWriter(s, s', i, s'.writers[i]);
    assert forall b :: s.writers[i].start <= b < s.writers[i].start + s.writers[i].Published() ==> HasPublished(s, b);
  }

  lemma PublishAddsProgress(origin: seq<Byte>, initial: seq<CacheRangeSpec>, s: State, i: nat, s': State)
    requires Inv(origin, s) && CoverageIs(initial, s)
    requires Next(origin, s, Publish(i), s') || Next(origin, s, PublishClose(i), s')
    ensures CoverageIs(initial, s')
  {
    var w := s.writers[i];
    assert w in s.writers;
    AppendRange(s.Ranges(), w.Range());
    ReplaceWriter(s, s', i, s'.writers[i]);
  }

  lemma ClosedHavePublished(s: State)
    requires forall w :: w in s.writers ==> w.phase == Closed
    ensures forall b :: HasPublished(s, b) <==> exists w :: w in s.writers && HasByte(w.Range(), b)
  {
    forall b ensures HasPublished(s, b) <==> exists w :: w in s.writers && HasByte(w.Range(), b) {
      assert forall w :: w in s.writers ==> (HasByte(w.Range(), b) <==> w.start <= b < w.start + w.Published());
    }
  }

  /** No update is lost: however the writers interleave, the published coverage is the
      initial coverage plus what each writer has published, and this is all of its progress
      once it has closed. */
  lemma {:induction false} CoverageExact(origin: seq<Byte>, states: seq<State>, actions: seq<Action>, k: nat)
    requires IsRun(origin, states, actions) && k < |states| && LoseMetadata !in actions
    requires Inv(origin, states[0]) && states[0].writers == []
    ensures CoverageIs(states[0].Ranges(), states[k])
    ensures (forall w :: w in states[k].writers ==> w.phase == Closed) ==>
              forall b :: Covers(states[k].Ranges(), b) <==>
                Covers(states[0].Ranges(), b) || exists w :: w in states[k].writers && HasByte(w.Range(), b)
  {
    if k == 0 {
    } else {
      CoverageExact(origin, states, actions, k - 1);
      RunKeepsInv(origin, states, actions, k - 1);
      NextKeepsCoverage(origin, states[0].Ranges(), states[k - 1], actions[k - 1], states[k]);
    }
    if forall w :: w in states[k].writers ==> w.phase == Closed {
      ClosedHavePublished(states[k]);
    }
  }

  /** Between reads, a CacheMiss has at most 1 MiB that is not yet in the published coverage. */
  lemma CoverageTrailsProgress(origin: seq<Byte>, states: seq<State>, actions: seq<Action>, k: nat, w: Writer, b: int)
    requires IsRun(origin, states, actions) && k < |states| && LoseMetadata !in actions
    requires Inv(origin, states[0]) && states[0].writers == []
    requires w in states[k].writers && w.kind == Miss && w.phase == Idle
    requires w.start <= b < w.start + w.progress - 1048576
    ensures Covers(states[k].Ranges(), b)
  {
    CoverageExact(origin, states, actions, k);
    RunKeepsInv(origin, states, actions, k);
    assert WriterOk(origin, states[k].file, w);
    assert HasPublished(states[k], b);
  }
}
