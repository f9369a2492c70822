/** The objects behind the cache of one URL, each call run to completion. What a call does is
    stated in plain terms and shown to be a run of the interleaved machine of CacheProtocol. */
module CacheStore {
  import opened Models
  import opened Wrappers
  import opened CacheRanges
  import opened CacheProtocol

  class SparseFile {
    var bytes: seq<Byte>

    constructor ()
      ensures bytes == []
    {
      bytes := [];
    }
  }

  class MetadataFile {
    var content: Option<CacheMetadata>

    ghost predicate Valid()
      reads this
    {
      content.Some? ==> Canonical(content.value.Ranges)
    }

    constructor ()
      ensures Valid() && content == None
    {
      content := None;
    }

    /** UpdateCacheMetadata, called with the lock held. A missing file is started afresh. */
    method Update(contentType: string, length: int, newRange: CacheRangeSpec)
      requires Valid() && WellFormed(newRange)
      modifies this
      ensures Valid()
      ensures MetadataUpdated(old(content), contentType, length, newRange, content)
    {
      var metadata := if content.Some? then content.value else CacheMetadata(contentType, length, []);
      var merged := MergeRanges(metadata.Ranges + [newRange]);
      content := Some(metadata.(Ranges := merged));
    }
  }

  /** One read of an idle CacheMiss: the chunk is in the file at the writer's position and is
      counted, and everything so far is published as soon as too much is unpublished. */
  ghost predicate ReadDone(w: Writer, file: seq<Byte>, meta: Option<CacheMetadata>, chunk: seq<Byte>,
                           w': Writer, file': seq<Byte>, meta': Option<CacheMetadata>) {
    var unpublished := w.progressSinceUpdate + |chunk|;
    && file' == WriteAt(file, w.Position(), chunk)
    && w' == w.(progress := w.progress + |chunk|,
                progressSinceUpdate := if unpublished > PUBLISH_EVERY then 0 else unpublished)
    && if unpublished > PUBLISH_EVERY then MetadataUpdated(meta, w.contentType, w.total, w'.Range(), meta')
       else meta' == meta
  }

  /** Above 1 MiB unpublished, everything written so far is published and the count starts again;
      otherwise the metadata stays as it is. */
  lemma ReadPublishes(w: Writer, file: seq<Byte>, meta: Option<CacheMetadata>, chunk: seq<Byte>,
                      w': Writer, file': seq<Byte>, meta': Option<CacheMetadata>)
    requires ReadDone(w, file, meta, chunk, w', file', meta')
    ensures file' == WriteAt(file, w.start + w.progress, chunk)
    ensures w'.progress == w.progress + |chunk|
    ensures if w.progressSinceUpdate + |chunk| > 1048576 then
              && w'.progressSinceUpdate == 0
              && MetadataUpdated(meta, w.contentType, w.total,
                                 CacheRangeSpec(w.start, w.start + w.progress + |chunk| - 1), meta')
            else w'.progressSinceUpdate == w.progressSinceUpdate + |chunk| && meta' == meta
  {
  }

  /** One write of an idle CacheWriter: the chunk is in the file and counted. */
  ghost predicate WriteDone(w: Writer, file: seq<Byte>, chunk: seq<Byte>, w': Writer, file': seq<Byte>) {
    && file' == WriteAt(file, w.Position(), chunk)
    && w' == w.(progress := w.progress + |chunk|)
  }

  ghost predicate CloseDone(w: Writer, meta: Option<CacheMetadata>, w': Writer, meta': Option<CacheMetadata>) {
    && w' == w.(phase := Closed)
    && MetadataUpdated(meta, w.contentType, w.total, w.Range(), meta')
  }

  class CacheMiss {
    const contentType: string
    const total: int
    const start: nat
    const cacheFile: SparseFile
    const metaFile: MetadataFile
    var progress: nat
    var progressSinceUpdate: nat
    ghost var closed: bool

    constructor (contentType: string, total: int, start: nat, cacheFile: SparseFile, metaFile: MetadataFile)
      ensures AsWriter() == Writer(Miss, contentType, total, start, 0, 0, Idle)
      ensures this.cacheFile == cacheFile && this.metaFile == metaFile
    {
      this.contentType, this.total, this.start := contentType, total, start;
      this.cacheFile, this.metaFile := cacheFile, metaFile;
      progress, progressSinceUpdate, closed := 0, 0, false;
    }

    ghost function AsWriter(): Writer
      reads this
    {
      Writer(Miss, contentType, total, start, progress, progressSinceUpdate, if closed then Closed else Idle)
    }

    /** `chunk` is what the origin's body delivers to this read. */
    method Read(chunk: seq<Byte>) returns (n: nat)
      requires metaFile.Valid()
      modifies this, cacheFile, metaFile
      ensures metaFile.Valid() && n == |chunk|
      ensures ReadDone(old(AsWriter()), old(cacheFile.bytes), old(metaFile.content), chunk,
                       AsWriter(), cacheFile.bytes, metaFile.content)
      ensures progress == old(progress) + |chunk|
      ensures cacheFile.bytes == WriteAt(old(cacheFile.bytes), start + old(progress), chunk)
    {
      var at := start + progress;
      n := |chunk|;
      cacheFile.bytes := WriteAt(cacheFile.bytes, at, chunk);
      progress := progress + n;
      progressSinceUpdate := progressSinceUpdate + n;
      if progressSinceUpdate > PUBLISH_EVERY {
        metaFile.Update(contentType, total, CacheRangeSpec(start, start + progress - 1));
        progressSinceUpdate := 0;
      }
    }

    method Close()
      requires metaFile.Valid() && !closed
      modifies this`closed, metaFile
      ensures metaFile.Valid()
      ensures CloseDone(old(AsWriter()), old(metaFile.content), AsWriter(), metaFile.content)
      ensures MetadataUpdated(old(metaFile.content), contentType, total,
                              CacheRangeSpec(start, start + progress - 1), metaFile.content)
    {
      metaFile.Update(contentType, total, CacheRangeSpec(start, start + progress - 1));
      closed := true;
    }
  }

  /** The prefetching writer: it publishes only when it closes. */
  class CacheWriter {
    const contentType: string
    const total: int
    const start: nat
    const cacheFile: SparseFile
    const metaFile: MetadataFile
    var progress: nat
    ghost var closed: bool

    constructor (contentType: string, total: int, start: nat, cacheFile: SparseFile, metaFile: MetadataFile)
      ensures AsWriter() == Writer(Prefetch, contentType, total, start, 0, 0, Idle)
      ensures this.cacheFile == cacheFile && this.metaFile == metaFile
    {
      this.contentType, this.total, this.start := contentType, total, start;
      this.cacheFile, this.metaFile := cacheFile, metaFile;
      progress, closed := 0, false;
    }

    ghost function AsWriter(): Writer
      reads this
    {
      Writer(Prefetch, contentType, total, start, progress, 0, if closed then Closed else Idle)
    }

    method Write(chunk: seq<Byte>) returns (n: nat)
      modifies this`progress, cacheFile
      ensures n == |chunk|
      ensures WriteDone(old(AsWriter()), old(cacheFile.bytes), chunk, AsWriter(), cacheFile.bytes)
      ensures progress == old(progress) + |chunk|
      ensures cacheFile.bytes == WriteAt(old(cacheFile.bytes), start + old(progress), chunk)
    {
      n := |chunk|;
      cacheFile.bytes := WriteAt(cacheFile.bytes, start + progress, chunk);
      progress := progress + n;
    }

    method Close()
      requires metaFile.Valid() && !closed
      modifies this`closed, metaFile
      ensures metaFile.Valid()
      ensures CloseDone(old(AsWriter()), old(metaFile.content), AsWriter(), metaFile.content)
      ensures MetadataUpdated(old(metaFile.content), contentType, total,
                              CacheRangeSpec(start, start + progress - 1), metaFile.content)
    {
      var length := start + progress;
      metaFile.Update(contentType, total, CacheRangeSpec(start, length - 1));
      closed := true;
    }
  }

  // ---------------------------------------------------------------- the calls are runs of the machine

  ghost function With(s: State, i: nat, file: seq<Byte>, meta: Option<CacheMetadata>, w: Writer): State
    requires i < |s.writers|
  {
    s.(file := file, meta := meta, writers := s.writers[i := w])
  }

  /** Fetching, storing and counting a chunk, as one writer's effect. */
  function Counted(w: Writer, n: nat): Writer {
    w.(phase := Stored(n)).Advance()
  }

  lemma CountIsRun(origin: seq<Byte>, s: State, i: nat, chunk: seq<Byte>)
    returns (states: seq<State>, actions: seq<Action>)
    requires i < |s.writers|
    requires var w := s.writers[i];
             && w.phase == Idle && w.Position() + |chunk| <= |origin|
             && chunk == origin[w.Position()..w.Position() + |chunk|]
    ensures IsRun(origin, states, actions) && |actions| == 3
    ensures states[0] == s
    ensures var w := s.writers[i];
            states[3] == With(s, i, WriteAt(s.file, w.Position(), chunk), s.meta, Counted(w, |chunk|))
    ensures actions == [Fetch(i, |chunk|), Store(i), Advance(i)]
  {
    var w := s.writers[i];
    var file' := WriteAt(s.file, w.Position(), chunk);
    var w1 := w.(phase := Fetched(chunk));
    var w2 := w1.StoreChunk();
    var w3 := w2.Advance();
    var s1 := With(s, i, s.file, s.meta, w1);
    var s2 := With(s, i, file', s.meta, w2);
    var s3 := With(s, i, file', s.meta, w3);
    assert Next(origin, s, Fetch(i, |chunk|), s1);
    assert s1.writers[i := w2] == s2.writers && Next(origin, s1, Store(i), s2);
    assert s2.writers[i := w3] == s3.writers && Next(origin, s2, Advance(i), s3);
    states, actions := [s, s1, s2, s3], [Fetch(i, |chunk|), Store(i), Advance(i)];
  }

  /** An uninterrupted Read of writer i is a run of the machine in which no other writer or
      reader takes a step. */
  lemma ReadIsRun(origin: seq<Byte>, s: State, i: nat, chunk: seq<Byte>,
                  w': Writer, file': seq<Byte>, meta': Option<CacheMetadata>)
    returns (states: seq<State>, actions: seq<Action>)
    requires i < |s.writers|
    requires var w := s.writers[i];
             && w.kind == Miss && w.phase == Idle && w.progressSinceUpdate <= PUBLISH_EVERY
             && w.Position() + |chunk| <= |origin| && chunk == origin[w.Position()..w.Position() + |chunk|]
             && ReadDone(w, s.file, s.meta, chunk, w', file', meta')
    ensures IsRun(origin, states, actions)
    ensures states[0] == s && states[|actions|] == With(s, i, file', meta', w')
    ensures forall a :: a in actions ==> a in {Fetch(i, |chunk|), Store(i), Advance(i), Publish(i)}
  {
    states, actions := CountIsRun(origin, s, i, chunk);
    var w3 := Counted(s.writers[i], |chunk|);
    if w3.phase == PublishDue {
      var s3, s4 := states[3], With(s, i, file', meta', w');
      assert s3.writers[i := w'] == s4.writers && Next(origin, s3, Publish(i), s4);
      states, actions := states + [s4], actions + [Publish(i)];
    }
  }

  /** An uninterrupted Write of a prefetching writer is a run too, with nothing published. */
  lemma WriteIsRun(origin: seq<Byte>, s: State, i: nat, chunk: seq<Byte>, w': Writer, file': seq<Byte>)
    returns (states: seq<State>, actions: seq<Action>)
    requires i < |s.writers|
    requires var w := s.writers[i];
             && w.kind == Prefetch && w.phase == Idle && w.progressSinceUpdate == 0
             && w.Position() + |chunk| <= |origin| && chunk == origin[w.Position()..w.Position() + |chunk|]
             && WriteDone(w, s.file, chunk, w', file')
    ensures IsRun(origin, states, actions)
    ensures states[0] == s && states[|actions|] == With(s, i, file', s.meta, w')
    ensures actions == [Fetch(i, |chunk|), Store(i), Advance(i)]
  {
    states, actions := CountIsRun(origin, s, i, chunk);
    assert Counted(s.writers[i], |chunk|) == w';
  }

  lemma CloseIsRun(origin: seq<Byte>, s: State, i: nat, w': Writer, meta': Option<CacheMetadata>)
    returns (states: seq<State>, actions: seq<Action>)
    requires i < |s.writers| && s.writers[i].phase == Idle
    requires CloseDone(s.writers[i], s.meta, w', meta')
    ensures IsRun(origin, states, actions)
    ensures states[0] == s && states[|actions|] == With(s, i, s.file, meta', w')
  {
    var w1 := s.writers[i].(phase := Closing);
    var s1 := With(s, i, s.file, s.meta, w1);
    var s2 := With(s, i, s.file, meta', w');
    assert Next(origin, s, BeginClose(i), s1);
    assert s1.writers[i := w'] == s2.writers && Next(origin, s1, PublishClose(i), s2);
    states, actions := [s, s1, s2], [BeginClose(i), PublishClose(i)];
  }

  /** Answering a hit and then sending all of it at once is a run too. */
  lemma HitIsRun(origin: seq<Byte>, s: State, req: CacheRangeSpec, r: CacheRangeSpec)
    returns (states: seq<State>, actions: seq<Action>)
    requires s.meta.Some? && Answer(s.meta.value.Ranges, req, ResolvedEnd(s.meta.value.Length, req), true, r)
    ensures IsRun(origin, states, actions) && |actions| == 2
    ensures states[0] == s
    ensures states[2] == s.(readers := s.readers + [Reader(r, ReadAt(s.file, r.Start, r.End - r.Start + 1))])
  {
    var i, n := |s.readers|, if r.Start <= r.End then r.End - r.Start + 1 else 0;
    var sent := ReadAt(s.file, r.Start, r.End - r.Start + 1);
    var s1 := s.(readers := s.readers + [Reader(r, [])]);
    var s2 := s.(readers := s.readers + [Reader(r, sent)]);
    assert Next(origin, s, Serve(req, true, r), s1);
    assert s1.readers[i] == Reader(r, []) && Min(n, r.End + 1 - r.Start) == r.End - r.Start + 1;
    assert [] + sent == sent && s1.readers[i := Reader(r, sent)] == s2.readers;
    assert Next(origin, s1, Copy(i, n), s2);
    states, actions := [s, s1, s2], [Serve(req, true, r), Copy(i, n)];
  }

  // ---------------------------------------------------------------- serving

  /** NotCached covers every outcome in which the request goes on to the origin. */
  datatype Response =
    | NotCached
    | Partial(contentType: string, start: int, end: int, total: int, contentLength: int, body: seq<Byte>)
    | Full(contentType: string, contentLength: int, body: seq<Byte>)

  /** The hit path of TryServeCached, for a parsed range header or none. A ranged hit on a
      non-empty range sends exactly the origin's bytes, as many as it advertises. A hit
      without a range header advertises the full length whatever is cached, sends what is
      cached from the start on, and keeps its promise exactly when all of it is. */
  method TryServeCached(cacheFile: SparseFile, metaFile: MetadataFile, header: Option<CacheRangeSpec>,
                        ghost origin: seq<Byte>) returns (resp: Response)
    requires metaFile.Valid()
    requires metaFile.content.Some? ==>
               forall b :: Covers(metaFile.content.value.Ranges, b) ==> Genuine(origin, cacheFile.bytes, b)
    ensures metaFile.content == None ==> resp == NotCached
    ensures resp != NotCached ==> resp.contentType == metaFile.content.value.Type
    ensures resp.Full? ==> header == None && resp.contentLength == metaFile.content.value.Length
    ensures resp.Partial? ==>
              && header.Some? && metaFile.content.Some?
              && var metadata, req := metaFile.content.value, header.value;
              var requested := if req.End == -1 then metadata.Length - 1 else req.End;
              || resp.end == requested
              || (resp.start <= resp.end < requested &&
                    !exists r :: r in metadata.Ranges && r.Start <= resp.end + 1 <= r.End)
    ensures resp.Partial? && resp.contentLength <= 0 ==> resp.body == []
    ensures resp.Partial? ==>
              var metadata := metaFile.content.value;
              && Answer(metadata.Ranges, header.value, ResolvedEnd(metadata.Length, header.value), true,
                        CacheRangeSpec(resp.start, resp.end))
              && resp.body == ReadAt(cacheFile.bytes, resp.start, resp.contentLength)
    ensures metaFile.content.Some? ==>
              var req := if header.Some? then header.value else CacheRangeSpec(0, -1);
              req.Start <= ResolvedEnd(metaFile.content.value.Length, req) ==>
                (resp == NotCached <==> !Covers(metaFile.content.value.Ranges, req.Start))
    ensures resp.Partial? ==>
              && header.Some? && metaFile.content.Some? && resp.start == header.value.Start
              && resp.end <= ResolvedEnd(metaFile.content.value.Length, header.value)
              && resp.total == metaFile.content.value.Length
              && resp.contentLength == resp.end - resp.start + 1
              && (resp.start <= resp.end ==>
                    && 0 <= resp.start && resp.end < |origin|
                    && resp.body == origin[resp.start..resp.end + 1]
                    && |resp.body| == resp.contentLength)
              && (resp.contentLength <= 0 <==>
                    header.value.Start > ResolvedEnd(metaFile.content.value.Length, header.value))
    ensures resp.Full? && metaFile.content.value.Length > 0 ==>
              var metadata := metaFile.content.value;
              && resp.contentLength == metadata.Length
              && |resp.body| <= |origin| && resp.body == origin[..|resp.body|]
              && (|resp.body| == resp.contentLength <==>
                   forall b :: 0 <= b < metadata.Length ==> Covers(metadata.Ranges, b))
              && (forall b :: 0 <= b < |resp.body| ==> Covers(metadata.Ranges, b))
              && (|resp.body| < metadata.Length ==> !Covers(metadata.Ranges, |resp.body|))
  {
    var requestRange := if header.Some? then header.value else CacheRangeSpec(0, -1);
    if metaFile.content == None {
      return NotCached;
    }
    var metadata := metaFile.content.value;
    var hit, cachedRange := GetCachedRange(metadata, requestRange);
    assert cachedRange.Start <= cachedRange.End ==> HasByte(cachedRange, requestRange.Start);
    CoversIff(metadata.Ranges, cachedRange.End + 1);
    if !hit {
      return NotCached;
    }
    var length := cachedRange.End - cachedRange.Start + 1;
    var body := ReadAt(cacheFile.bytes, cachedRange.Start, length);
    if cachedRange.Start <= cachedRange.End {
      HitBody(origin, cacheFile.bytes, metadata.Ranges, cachedRange);
    }
    if header.Some? {
      resp := Partial(metadata.Type, cachedRange.Start, cachedRange.End, metadata.Length, length, body);
    } else {
      resp := Full(metadata.Type, metadata.Length, body);
      if metadata.Length > 0 && cachedRange.End < metadata.Length - 1 {
        assert !Covers(metadata.Ranges, cachedRange.End + 1);
      } else {
        assert metadata.Length > 0 ==> forall b :: 0 <= b < metadata.Length ==> HasByte(cachedRange, b);
      }
    }
  }

  lemma HitBody(origin: seq<Byte>, file: seq<Byte>, ranges: seq<CacheRangeSpec>, r: CacheRangeSpec)
    requires Uniform(ranges, true, r) && r.Start <= r.End
    requires forall b :: Covers(ranges, b) ==> Genuine(origin, file, b)
    ensures 0 <= r.Start && r.End < |origin|
    ensures ReadAt(file, r.Start, r.End - r.Start + 1) == origin[r.Start..r.End + 1]
  {
    assert HasByte(r, r.Start) && HasByte(r, r.End);
    assert forall b :: HasByte(r, b) ==> Genuine(origin, file, b);
    var sent, wanted := file[r.Start..r.End + 1], origin[r.Start..r.End + 1];
    forall k | 0 <= k < |wanted| ensures sent[k] == wanted[k] {
      assert HasByte(r, r.Start + k);
    }
    assert sent == wanted;
  }
}
