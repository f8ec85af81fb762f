/** The encryption layer's reader, over a complete stream or over a truncated one. */
module EncryptionReading {
  import opened Io
  import opened NonceSchedule
  import opened AeadCipher
  import opened EncryptFormat
  import opened Cursors

  datatype TruncatedMode = OnlyAuthenticatedData | DataEvenUnauthenticated

  // ---------- Searching the final block magic ----------

  ghost predicate OccursAt(pattern: Bytes, s: Bytes, at: nat) {
    at + |pattern| <= |s| && s[at..at + |pattern|] == pattern
  }

  /** `windows(|pattern|).position(..)` */
  function Position(pattern: Bytes, s: Bytes, from: nat): (r: Option<nat>)
    requires from <= |s|
    ensures r.Some? ==> from <= r.value && OccursAt(pattern, s, r.value)
    ensures forall i :: from <= i < (if r.Some? then r.value else |s|) ==> !OccursAt(pattern, s, i)
    decreases |s| - from
  {
    if from + |pattern| > |s| then None
    else if s[from..from + |pattern|] == pattern then Some(from)
    else if from == |s| then None
    else Position(pattern, s, from + 1)
  }

  /** The pattern lies across the boundary with its first `k` bytes at the end of `a`. */
  predicate Straddles(pattern: Bytes, a: Bytes, b: Bytes, k: nat)
    requires k <= |pattern|
  {
    k <= |a| && |pattern| - k <= |b| && a[|a| - k..] == pattern[..k] && b[..|pattern| - k] == pattern[k..]
  }

  /** `(1..|pattern|).find(..)` */
  function StraddleFrom(pattern: Bytes, a: Bytes, b: Bytes, k: nat): (r: Option<nat>)
    requires 1 <= k
    ensures r.Some? ==> k <= r.value < |pattern| && Straddles(pattern, a, b, r.value)
    ensures r.None? ==> forall i :: k <= i < |pattern| ==> !Straddles(pattern, a, b, i)
    decreases |pattern| - k
  {
    if k >= |pattern| then None
    else if Straddles(pattern, a, b, k) then Some(k)
    else StraddleFrom(pattern, a, b, k + 1)
  }

  function FinalBlockMagicScan(cache: Bytes, next: Bytes): Option<nat> {
    var inCache := Position(FINAL_MAGIC, cache, 0);
    if inCache.Some? then inCache
    else
      var inNext := Position(FINAL_MAGIC, next, 0);
      if inNext.Some? then Some(|cache| + inNext.value)
      else
        var across := StraddleFrom(FINAL_MAGIC, cache, next, 1);
        if across.Some? then Some(|cache| - across.value) else None
  }

  /** An occurrence in two joined strings is in one of them or straddles. */
  lemma OccurrenceInJoin(pattern: Bytes, a: Bytes, b: Bytes, at: nat)
    requires pattern != []
    ensures at + |pattern| <= |a| ==> (OccursAt(pattern, a + b, at) <==> OccursAt(pattern, a, at))
    ensures |a| <= at ==> (OccursAt(pattern, a + b, at) <==> OccursAt(pattern, b, at - |a|))
    ensures at < |a| < at + |pattern| ==> (OccursAt(pattern, a + b, at) <==> Straddles(pattern, a, b, |a| - at))
  {
    if at + |pattern| <= |a| {
      assert (a + b)[at..at + |pattern|] == a[at..at + |pattern|];
    } else if |a| <= at && at + |pattern| <= |a + b| {
      assert (a + b)[at..at + |pattern|] == b[at - |a|..at - |a| + |pattern|];
    } else if at < |a| && at + |pattern| <= |a + b| {
      var k := |a| - at;
      assert (a + b)[at..at + |pattern|] == a[at..] + b[..|pattern| - k];
      assert pattern == pattern[..k] + pattern[k..];
    }
  }

  /** The scan answers exactly when the joined caches contain the magic, and with an occurrence. */
  lemma MagicScanExact(cache: Bytes, next: Bytes)
    ensures var r := FinalBlockMagicScan(cache, next);
            (r.Some? ==> OccursAt(FINAL_MAGIC, cache + next, r.value)) &&
            (r.None? ==> forall at: nat :: !OccursAt(FINAL_MAGIC, cache + next, at))
  {
    var r := FinalBlockMagicScan(cache, next);
    if r.Some? {
      OccurrenceInJoin(FINAL_MAGIC, cache, next, r.value);
    } else {
      forall at: nat
        ensures !OccursAt(FINAL_MAGIC, cache + next, at)
      {
        OccurrenceInJoin(FINAL_MAGIC, cache, next, at);
      }
    }
  }

  // ---------- Loading a chunk ----------

  /** `get_end_of_tag_pos`: where the tag of the chunk in `cache` ends, without a known plaintext size. */
  function EndOfTagPos(cache: Bytes, next: Bytes, mode: Option<TruncatedMode>): Result<nat, Error> {
    if |cache| == M0_CHUNK && |next| > FINAL_INFO then Ok(M0_CHUNK)
    else if |cache| < TAG_LENGTH then Err(TruncatedTag)
    else
      match FinalBlockMagicScan(cache, next)
      case Some(pos) => Ok(pos)
      case None =>
        // the tag length added here is subtracted again by the caller
        if mode == Some(DataEvenUnauthenticated) then Ok(|cache| + TAG_LENGTH) else Err(UnknownTagPosition)
  }

  /** Decrypts the chunk in `cache`, whose tag ends at `endOfTag`: the head followed by the plaintext. */
  function OpenChunk(g: Aead, base: Nonce, s: nat, cache: Bytes, endOfTag: nat, mode: Option<TruncatedMode>):
    Result<Option<Bytes>, Error>
  {
    var endOfCt := if endOfTag < TAG_LENGTH then 0 else endOfTag - TAG_LENGTH;
    if endOfCt == 0 then Ok(None)
    else if endOfCt < CHUNK_HEAD || |cache| < endOfCt then Err(WrongReaderState)
    else
      var ct := cache[CHUNK_HEAD..endOfCt];
      var content := Some(cache[..CHUNK_HEAD] + Ciphertext(g, base, s, ct));
      if mode == Some(DataEvenUnauthenticated) then Ok(content)
      else if |cache| < endOfTag then Err(WrongReaderState)
      else if g.tag(NonceFor(base, s), [], ct) != cache[endOfCt..endOfTag] then Err(AuthenticatedDecryptionWrongTag)
      else Ok(content)
  }

  /**
   * What loading yields: the opened chunk, nothing at the end, or an error.
   * `size` and `position` are the reader's plaintext size and position.
   */
  function LoadResult(g: Aead, base: Nonce, cache: Bytes, next: Bytes, mode: Option<TruncatedMode>,
    size: nat, position: nat): Result<Option<Bytes>, Error>
  {
    var s := position / CHUNK_PT + FIRST_DATA_CHUNK_NUMBER;
    if mode.None? && position >= LastDataChunkNumber(size) * CHUNK_PT then
      var contentLen := if size < position then 0 else size - position;
      if contentLen == 0 then Ok(None)
      else OpenChunk(g, base, s, cache, contentLen + TAG_LENGTH + CHUNK_HEAD, mode)
    else
      match EndOfTagPos(cache, next, mode)
      case Err(e) => Err(e)
      case Ok(endOfTag) => OpenChunk(g, base, s, cache, endOfTag, mode)
  }

  // ---------- Loading from a complete stream ----------

  /** The bytes of `w` one chunk read gets at chunk index `k`. */
  function RawChunk(w: Bytes, k: nat): (c: Bytes)
    ensures |c| <= M0_CHUNK
  {
    w[Min(k * M0_CHUNK, |w|)..Min((k + 1) * M0_CHUNK, |w|)]
  }

  lemma RawChunkStarts(w: Bytes, chunks: Bytes, k: nat, c: Bytes)
    requires chunks <= w && |c| <= M0_CHUNK
    requires k * M0_CHUNK + |c| <= |chunks| && chunks[k * M0_CHUNK..k * M0_CHUNK + |c|] == c
    ensures c <= RawChunk(w, k) && (|c| == M0_CHUNK ==> RawChunk(w, k) == c)
  {
    var at := k * M0_CHUNK;
    assert w[at..at + |c|] == chunks[at..at + |c|];
    assert RawChunk(w, k)[..|c|] == w[at..at + |c|];
  }

  /** A raw chunk of a stream starts with that chunk, and a chunk before the last fills it. */
  lemma RawChunkOfStream(g: Aead, base: Nonce, p: Bytes, n: nat, k: nat)
    requires Holds(|p|, n) && k < n
    ensures var w, pt := Stream(g, base, p, n), PlainChunk(p, k);
            ChunkBytes(g, base, k + 1, pt) <= RawChunk(w, k) &&
            (k + 1 < n ==> RawChunk(w, k) == ChunkBytes(g, base, k + 1, pt) && FINAL_INFO < |RawChunk(w, k + 1)|)
  {
    hide ChunkBytes, Chunks, FinalBlock, PlainChunk;
    ChunkInStream(g, base, p, n, k);
    StreamLength(g, base, p, n);
    RawChunkStarts(Stream(g, base, p, n), Chunks(g, base, p, n), k, ChunkBytes(g, base, k + 1, PlainChunk(p, k)));
  }

  /** Opening genuine chunk bytes gives back the head and the plaintext. */
  lemma OpenGenuine(g: Aead, base: Nonce, s: nat, pt: Bytes, cache: Bytes, mode: Option<TruncatedMode>)
    requires ChunkBytes(g, base, s, pt) <= cache
    ensures OpenChunk(g, base, s, cache, CHUNK_HEAD + |pt| + TAG_LENGTH, mode) == Ok(Some(ChunkHead(s) + pt))
  {
    var c, ct := ChunkBytes(g, base, s, pt), Ciphertext(g, base, s, pt);
    assert cache[CHUNK_HEAD..CHUNK_HEAD + |pt|] == c[CHUNK_HEAD..CHUNK_HEAD + |pt|] == ct;
    assert cache[..CHUNK_HEAD] == c[..CHUNK_HEAD] == ChunkHead(s);
    var tag := g.tag(NonceFor(base, s), [], ct);
    assert cache[CHUNK_HEAD + |pt|..CHUNK_HEAD + |pt| + TAG_LENGTH] == c[CHUNK_HEAD + |pt|..] == tag;
    ApplyTwice(g, NonceFor(base, s), 0, pt);
  }

  /**
   * Over the writer's stream, loading chunk `k` opens it under the sequence
   * number the writer used, or reports the end exactly at the plaintext's end.
   */
  lemma LoadFromStream(g: Aead, base: Nonce, p: Bytes, k: nat)
    requires k * CHUNK_PT <= |p|
    ensures var w := Stream(g, base, p, ChunkCount(|p|));
            LoadResult(g, base, RawChunk(w, k), RawChunk(w, k + 1), None, |p|, k * CHUNK_PT)
            == if k * CHUNK_PT < |p| then Ok(Some(ChunkHead(k + 1) + PlainChunk(p, k))) else Ok(None)
  {
    hide Stream, ChunkBytes, ChunkHead, RawChunk, OpenChunk, FinalBlockMagicScan;
    var n := ChunkCount(|p|);
    var cache, next := RawChunk(Stream(g, base, p, n), k), RawChunk(Stream(g, base, p, n), k + 1);
    assert k * CHUNK_PT / CHUNK_PT == k;
    assert LastDataChunkNumber(|p|) == n - 1;
    if k * CHUNK_PT < |p| {
      var pt := PlainChunk(p, k);
      RawChunkOfStream(g, base, p, n, k);
      OpenGenuine(g, base, k + 1, pt, cache, None);
      if k + 1 < n {
        assert EndOfTagPos(cache, next, None) == Ok(CHUNK_HEAD + |pt| + TAG_LENGTH);
      } else {
        assert |p| - k * CHUNK_PT == |pt|;
      }
    }
  }

  /** A chunk that would start behind the end of the plaintext is taken for the end. */
  lemma LoadBeyond(g: Aead, base: Nonce, cache: Bytes, next: Bytes, size: nat, k: nat)
    requires k * CHUNK_PT > size
    ensures LoadResult(g, base, cache, next, None, size, k * CHUNK_PT) == Ok(None)
  {}

  /** What follows a plaintext that fills its chunks: at least a final block, all of it undecrypted. */
  lemma RawChunkAfterEnd(g: Aead, base: Nonce, p: Bytes)
    requires |p| % CHUNK_PT == 0
    ensures CHUNK_HEAD < |RawChunk(Stream(g, base, p, ChunkCount(|p|)), |p| / CHUNK_PT)|
  {
    StreamLength(g, base, p, ChunkCount(|p|));
  }

  /** Reading in an open chunk is reading in the plaintext. */
  lemma ReadInChunk(p: Bytes, k: nat, cache: Bytes, from: nat, to: nat)
    requires k * CHUNK_PT <= |p|
    requires |cache| >= CHUNK_HEAD && cache[CHUNK_HEAD..] == PlainChunk(p, k)
    requires CHUNK_HEAD <= from <= to <= |cache|
    ensures cache[from..to] == p[k * CHUNK_PT + from - CHUNK_HEAD..k * CHUNK_PT + to - CHUNK_HEAD]
  {
    var lo, hi := k * CHUNK_PT, Min((k + 1) * CHUNK_PT, |p|);
    SliceOfSlice(p, lo, hi, from - CHUNK_HEAD, to - CHUNK_HEAD);
    SliceOfSuffix(cache, CHUNK_HEAD, from - CHUNK_HEAD, to - CHUNK_HEAD);
  }

  // ---------- Loading from a truncated or altered stream ----------

  /** The tag after `t[a..b]` verifies for sequence number `s`. */
  ghost predicate Verifies(g: Aead, base: Nonce, t: Bytes, s: nat, a: nat, b: nat)
    requires a <= b && b + TAG_LENGTH <= |t|
  {
    g.tag(NonceFor(base, s), [], t[a..b]) == t[b..b + TAG_LENGTH]
  }

  /** Ideal tags: what verifies in `t` is a chunk's ciphertext that the writer of `p` produced, under its number. */
  ghost predicate NoForgery(g: Aead, base: Nonce, p: Bytes, t: Bytes) {
    forall s: nat, a: nat, b: nat {:trigger Verifies(g, base, t, s, a, b)} ::
      s < U64_LIMIT && a <= b && b + TAG_LENGTH <= |t| && Verifies(g, base, t, s, a, b) ==>
      1 <= s && (s - 1) * CHUNK_PT <= |p| && t[a..b] == Ciphertext(g, base, s, PlainChunk(p, s - 1))
  }

  /** Whatever the source holds, a chunk that loads is the writer's chunk of that number. */
  lemma LoadAuthentic(g: Aead, base: Nonce, p: Bytes, t: Bytes, k: nat)
    requires |t| < I64_LIMIT && NoForgery(g, base, p, t)
    ensures var loaded :=
      LoadResult(g, base, RawChunk(t, k), RawChunk(t, k + 1), Some(OnlyAuthenticatedData), 0, k * CHUNK_PT);
            loaded.Ok? && loaded.value.Some? ==>
              && k * CHUNK_PT <= |p|
              && |loaded.value.value| >= CHUNK_HEAD && loaded.value.value[CHUNK_HEAD..] == PlainChunk(p, k)
  {
    hide FinalBlockMagicScan;
    var cache, next, mode := RawChunk(t, k), RawChunk(t, k + 1), Some(OnlyAuthenticatedData);
    assert k * CHUNK_PT / CHUNK_PT == k;
    var loaded := LoadResult(g, base, cache, next, mode, 0, k * CHUNK_PT);
    if loaded.Ok? && loaded.value.Some? {
      var endOfTag := EndOfTagPos(cache, next, mode).value;
      assert |cache| > 0;
      var at, a := k * M0_CHUNK, k * M0_CHUNK + CHUNK_HEAD;
      var b := at + endOfTag - TAG_LENGTH;
      var hi := Min((k + 1) * M0_CHUNK, |t|);
      assert at <= |t| && k + 1 < U64_LIMIT;
      SliceOfSlice(t, at, hi, CHUNK_HEAD, endOfTag - TAG_LENGTH);
      SliceOfSlice(t, at, hi, endOfTag - TAG_LENGTH, endOfTag);
      assert Verifies(g, base, t, k + 1, a, b);
      ApplyTwice(g, NonceFor(base, k + 1), 0, PlainChunk(p, k));
    }
  }

  /** How many full chunks of a plaintext of `length` bytes `have` bytes of its stream show beyond doubt. */
  function WholeChunks(length: nat, have: nat): nat {
    Min(length / CHUNK_PT, if have <= FINAL_INFO then 0 else (have - FINAL_INFO - 1) / M0_CHUNK)
  }

  /** Those are the chunks that are full and have more than a final block's bytes behind them. */
  lemma WholeChunksExact(length: nat, have: nat, k: nat)
    ensures k < WholeChunks(length, have) <==> (k + 1) * CHUNK_PT <= length && (k + 1) * M0_CHUNK + FINAL_INFO < have
  {
    FullUnits(length, k);
    if have > FINAL_INFO {
      var whole := have - FINAL_INFO - 1;
      assert k < whole / M0_CHUNK <==> (k + 1) * M0_CHUNK <= whole;
    }
  }

  lemma FullUnits(length: nat, k: nat)
    ensures k < length / CHUNK_PT <==> (k + 1) * CHUNK_PT <= length
  {}

  lemma RawWhole(g: Aead, base: Nonce, p: Bytes, t: Bytes, k: nat)
    requires t <= Stream(g, base, p, ChunkCount(|p|))
    requires (k + 1) * CHUNK_PT <= |p| && (k + 1) * M0_CHUNK + FINAL_INFO < |t|
    ensures RawChunk(t, k) == ChunkBytes(g, base, k + 1, PlainChunk(p, k)) && |PlainChunk(p, k)| == CHUNK_PT
    ensures FINAL_INFO < |RawChunk(t, k + 1)|
  {
    var n := ChunkCount(|p|);
    var w, c := Stream(g, base, p, n), ChunkBytes(g, base, k + 1, PlainChunk(p, k));
    ChunkInStream(g, base, p, n, k);
    hide ChunkBytes, Chunks, FinalBlock, ChunkCount, PlainChunk;
    RawChunkStarts(w, Chunks(g, base, p, n), k, c);
    assert RawChunk(t, k) == RawChunk(w, k);
  }

  /** In a stream cut anywhere, such a chunk loads. */
  lemma LoadWhole(g: Aead, base: Nonce, p: Bytes, t: Bytes, k: nat)
    requires t <= Stream(g, base, p, ChunkCount(|p|)) && k < WholeChunks(|p|, |t|)
    ensures k * CHUNK_PT <= |p|
    ensures LoadResult(g, base, RawChunk(t, k), RawChunk(t, k + 1), Some(OnlyAuthenticatedData), 0, k * CHUNK_PT)
            == Ok(Some(ChunkHead(k + 1) + PlainChunk(p, k)))
  {
    hide Stream, ChunkBytes, RawChunk, ChunkHead;
    WholeChunksExact(|p|, |t|, k);
    RawWhole(g, base, p, t, k);
    assert k * CHUNK_PT / CHUNK_PT == k;
    OpenGenuine(g, base, k + 1, PlainChunk(p, k), RawChunk(t, k), Some(OnlyAuthenticatedData));
  }

  // ---------- Which chunks of a cut stream load ----------

  /**
   * In `t`, cut from a stream, it shows where the tag of chunk `k` ends, with
   * `size` bytes of plaintext: because the chunk is full and more than a final
   * block's bytes follow it, or because the final block's magic follows it and
   * none is found earlier. The search goes through the bytes of a full chunk
   * first, then through those behind them, and last across the edge.
   */
  ghost predicate Shows(t: Bytes, k: nat, size: nat) {
    var from, edge, end := k * M0_CHUNK, (k + 1) * M0_CHUNK, k * M0_CHUNK + CHUNK_HEAD + size + TAG_LENGTH;
    if edge + FINAL_INFO < |t| then size == CHUNK_PT
    else
      && OccursAt(FINAL_MAGIC, t, end)
      && (forall i: nat :: from <= i < end && i + 8 <= edge ==> !OccursAt(FINAL_MAGIC, t, i))
      && (end < edge < end + 8 ==> forall i: nat :: edge <= i ==> !OccursAt(FINAL_MAGIC, t, i))
  }

  /** The magic does not overlap itself. */
  lemma MagicsApart(t: Bytes, i: nat, d: nat)
    requires OccursAt(FINAL_MAGIC, t, i) && 0 < d < 8
    ensures !OccursAt(FINAL_MAGIC, t, i + d)
  {
    var m := FINAL_MAGIC;
    assert m[0] == 77 && m[1] == 48 && m[2] == 70 && m[3] == 78 && m[4] == 76 && m[5] == 66 && m[6] == 76 && m[7] == 75;
    assert t[i + d] == t[i..i + 8][d] == m[d];
    if i + d + 8 <= |t| {
      assert t[i + d..i + d + 8][0] == t[i + d];
    }
  }

  /** The caches hold what `t` has from chunk `k` on. */
  ghost predicate Holding(t: Bytes, k: nat, cache: Bytes, next: Bytes) {
    && k * M0_CHUNK + |cache| + |next| == |t| && |cache| <= M0_CHUNK && (|cache| < M0_CHUNK ==> next == [])
    && t[k * M0_CHUNK..] == cache + next
  }

  /** Where the magic occurs in `t`, it does in the cache, behind it, or across the edge. */
  lemma OccursHeld(t: Bytes, k: nat, cache: Bytes, next: Bytes, x: nat)
    requires Holding(t, k, cache, next)
    ensures OccursAt(FINAL_MAGIC, t, k * M0_CHUNK + x) <==> OccursAt(FINAL_MAGIC, cache + next, x)
    ensures x + 8 <= |cache| ==> (OccursAt(FINAL_MAGIC, t, k * M0_CHUNK + x) <==> OccursAt(FINAL_MAGIC, cache, x))
    ensures |cache| <= x ==>
      (OccursAt(FINAL_MAGIC, t, k * M0_CHUNK + x) <==> OccursAt(FINAL_MAGIC, next, x - |cache|))
    ensures x < |cache| < x + 8 ==>
      (OccursAt(FINAL_MAGIC, t, k * M0_CHUNK + x) <==> Straddles(FINAL_MAGIC, cache, next, |cache| - x))
  {
    var from := k * M0_CHUNK;
    OccurrenceInJoin(FINAL_MAGIC, cache, next, x);
    hide Straddles;
    if from + x + 8 <= |t| {
      SliceOfSuffix(t, from, x, x + 8);
    }
  }

  /** Searching the two caches finds a tag's end if and only if that is where it shows. */
  lemma SearchShows(t: Bytes, k: nat, size: nat, cache: Bytes, next: Bytes)
    requires Holding(t, k, cache, next) && |t| <= (k + 1) * M0_CHUNK + FINAL_INFO && size <= CHUNK_PT
    ensures FinalBlockMagicScan(cache, next) == Some(CHUNK_HEAD + size + TAG_LENGTH) <==> Shows(t, k, size)
  {
    hide Shows, FinalBlockMagicScan;
    if FinalBlockMagicScan(cache, next) == Some(CHUNK_HEAD + size + TAG_LENGTH) {
      FoundShows(t, k, size, cache, next);
    }
    if Shows(t, k, size) {
      ShowsFound(t, k, size, cache, next);
    }
  }

  lemma FoundShows(t: Bytes, k: nat, size: nat, cache: Bytes, next: Bytes)
    requires Holding(t, k, cache, next) && |t| <= (k + 1) * M0_CHUNK + FINAL_INFO && size <= CHUNK_PT
    requires FinalBlockMagicScan(cache, next) == Some(CHUNK_HEAD + size + TAG_LENGTH)
    ensures Shows(t, k, size)
  {
    var from, edge, e := k * M0_CHUNK, (k + 1) * M0_CHUNK, CHUNK_HEAD + size + TAG_LENGTH;
    hide Straddles, OccursAt, FinalBlockMagicScan, Position;
    ScanOrder(cache, next, e);
    OccursHeld(t, k, cache, next, e);
    forall i: nat | from <= i < from + e && i + 8 <= edge
      ensures !OccursAt(FINAL_MAGIC, t, i)
    {
      assert i == from + (i - from);
      OccursHeld(t, k, cache, next, i - from);
      OccursInside(FINAL_MAGIC, t, i);
    }
    if from + e < edge < from + e + 8 {
      forall i: nat | edge <= i
        ensures !OccursAt(FINAL_MAGIC, t, i)
      {
        assert i == from + (i - from);
        OccursHeld(t, k, cache, next, i - from);
        OccursInside(FINAL_MAGIC, t, i);
      }
    }
  }

  /** What the scan has not found before it finds something. */
  lemma ScanOrder(cache: Bytes, next: Bytes, e: nat)
    requires FinalBlockMagicScan(cache, next) == Some(e)
    ensures OccursAt(FINAL_MAGIC, cache + next, e) && e + 8 <= |cache| + |next|
    ensures forall x: nat :: x < e && x + 8 <= |cache| ==> !OccursAt(FINAL_MAGIC, cache, x)
    ensures e < |cache| < e + 8 ==> forall x: nat :: !OccursAt(FINAL_MAGIC, next, x)
  {
    MagicScanExact(cache, next);
    OccursInside(FINAL_MAGIC, cache + next, e);
    hide Straddles, OccursAt;
    var inCache, inNext := Position(FINAL_MAGIC, cache, 0), Position(FINAL_MAGIC, next, 0);
    if inCache.Some? {
      OccursInside(FINAL_MAGIC, cache, inCache.value);
    }
    if e < |cache| < e + 8 {
      assert inNext.None?;
      forall x: nat
        ensures !OccursAt(FINAL_MAGIC, next, x)
      {
        OccursInside(FINAL_MAGIC, next, x);
      }
    }
  }

  lemma OccursInside(pattern: Bytes, s: Bytes, at: nat)
    ensures OccursAt(pattern, s, at) ==> at + |pattern| <= |s|
  {}

  lemma ShowsFound(t: Bytes, k: nat, size: nat, cache: Bytes, next: Bytes)
    requires Holding(t, k, cache, next) && |t| <= (k + 1) * M0_CHUNK + FINAL_INFO && size <= CHUNK_PT
    requires Shows(t, k, size)
    ensures FinalBlockMagicScan(cache, next) == Some(CHUNK_HEAD + size + TAG_LENGTH)
  {
    hide Straddles, OccursAt, Shows;
    var e := CHUNK_HEAD + size + TAG_LENGTH;
    NotBefore(t, k, size, cache, next);
    var inCache := Position(FINAL_MAGIC, cache, 0);
    if inCache.Some? {
      OccursInside(FINAL_MAGIC, cache, inCache.value);
    }
    if e == |cache| {
      assert Position(FINAL_MAGIC, next, 0) == Some(0);
    } else if e + 8 > |cache| {
      AcrossFound(t, k, size, cache, next);
    }
  }

  lemma NotBefore(t: Bytes, k: nat, size: nat, cache: Bytes, next: Bytes)
    requires Holding(t, k, cache, next) && |t| <= (k + 1) * M0_CHUNK + FINAL_INFO && size <= CHUNK_PT
    requires Shows(t, k, size)
    ensures var e := CHUNK_HEAD + size + TAG_LENGTH;
            && e <= |cache| && e + 8 <= |cache| + |next|
            && (e + 8 <= |cache| ==> OccursAt(FINAL_MAGIC, cache, e))
            && (e == |cache| ==> OccursAt(FINAL_MAGIC, next, 0))
            && forall x: nat :: x < e && x + 8 <= |cache| ==> !OccursAt(FINAL_MAGIC, cache, x)
  {
    var from, e := k * M0_CHUNK, CHUNK_HEAD + size + TAG_LENGTH;
    OccursHeld(t, k, cache, next, e);
    OccursInside(FINAL_MAGIC, t, from + e);
    hide Straddles, OccursAt;
    forall x: nat | x < e && x + 8 <= |cache|
      ensures !OccursAt(FINAL_MAGIC, cache, x)
    {
      OccursHeld(t, k, cache, next, x);
    }
  }

  /** Across the edge it is found where it is, for there is no other there. */
  lemma AcrossFound(t: Bytes, k: nat, size: nat, cache: Bytes, next: Bytes)
    requires Holding(t, k, cache, next) && |t| <= (k + 1) * M0_CHUNK + FINAL_INFO && size <= CHUNK_PT
    requires Shows(t, k, size)
    requires var e := CHUNK_HEAD + size + TAG_LENGTH; e < |cache| < e + 8
    ensures Position(FINAL_MAGIC, next, 0).None?
    ensures StraddleFrom(FINAL_MAGIC, cache, next, 1) == Some(|cache| - (CHUNK_HEAD + size + TAG_LENGTH))
  {
    var from, e := k * M0_CHUNK, CHUNK_HEAD + size + TAG_LENGTH;
    OccursHeld(t, k, cache, next, e);
    OccursInside(FINAL_MAGIC, t, from + e);
    hide OccursAt, Straddles, Position, StraddleFrom;
    var inNext := Position(FINAL_MAGIC, next, 0);
    if inNext.Some? {
      OccursHeld(t, k, cache, next, |cache| + inNext.value);
    }
    var across := StraddleFrom(FINAL_MAGIC, cache, next, 1);
    if across.Some? && |cache| - across.value != e {
      OneAcross(t, k, cache, next, e, across.value);
    }
  }

  lemma OneAcross(t: Bytes, k: nat, cache: Bytes, next: Bytes, e: nat, j: nat)
    requires Holding(t, k, cache, next) && e < |cache| < e + 8 && OccursAt(FINAL_MAGIC, t, k * M0_CHUNK + e)
    requires 1 <= j < 8 && Straddles(FINAL_MAGIC, cache, next, j)
    ensures j == |cache| - e
  {
    assert j <= |cache|;
    var from, at := k * M0_CHUNK, |cache| - j;
    OccursHeld(t, k, cache, next, at);
    hide OccursAt, Straddles;
    if at < e {
      MagicsApart(t, from + at, e - at);
    } else if e < at {
      MagicsApart(t, from + e, at - e);
    }
  }

  lemma RawHolding(t: Bytes, k: nat)
    requires k * M0_CHUNK <= |t| <= (k + 1) * M0_CHUNK + FINAL_INFO
    ensures Holding(t, k, RawChunk(t, k), RawChunk(t, k + 1))
  {
    if (k + 1) * M0_CHUNK <= |t| {
      assert t[k * M0_CHUNK..] == RawChunk(t, k) + RawChunk(t, k + 1);
    }
  }

  /** A chunk whose end shows loads. */
  lemma LoadShows(g: Aead, base: Nonce, p: Bytes, t: Bytes, k: nat)
    requires t <= Stream(g, base, p, ChunkCount(|p|)) && k < ChunkCount(|p|)
    requires Shows(t, k, |PlainChunk(p, k)|)
    ensures LoadResult(g, base, RawChunk(t, k), RawChunk(t, k + 1), Some(OnlyAuthenticatedData), 0, k * CHUNK_PT)
            == Ok(Some(ChunkHead(k + 1) + PlainChunk(p, k)))
  {
    hide Stream, ChunkBytes, ChunkHead, ChunkCount, RawChunk, LoadResult, OccursAt, WholeChunks;
    if (k + 1) * M0_CHUNK + FINAL_INFO < |t| {
      WholeChunksExact(|p|, |t|, k);
      LoadWhole(g, base, p, t, k);
    } else {
      LoadFound(g, base, p, t, k);
    }
  }

  lemma LoadFound(g: Aead, base: Nonce, p: Bytes, t: Bytes, k: nat)
    requires t <= Stream(g, base, p, ChunkCount(|p|)) && k < ChunkCount(|p|)
    requires Shows(t, k, |PlainChunk(p, k)|) && |t| <= (k + 1) * M0_CHUNK + FINAL_INFO
    ensures LoadResult(g, base, RawChunk(t, k), RawChunk(t, k + 1), Some(OnlyAuthenticatedData), 0, k * CHUNK_PT)
            == Ok(Some(ChunkHead(k + 1) + PlainChunk(p, k)))
  {
    hide Stream, ChunkBytes, ChunkHead, ChunkCount, FinalBlockMagicScan, PlainChunk, OpenChunk, Shows;
    var pt := PlainChunk(p, k);
    ShownInCache(g, base, p, t, k);
    RawHolding(t, k);
    SearchShows(t, k, |pt|, RawChunk(t, k), RawChunk(t, k + 1));
    assert k * CHUNK_PT / CHUNK_PT == k;
    OpenGenuine(g, base, k + 1, pt, RawChunk(t, k), Some(OnlyAuthenticatedData));
  }

  lemma RawChunkHas(w: Bytes, t: Bytes, chunks: Bytes, k: nat, c: Bytes)
    requires t <= w && chunks <= w && |c| <= M0_CHUNK && k * M0_CHUNK + |c| <= |t|
    requires k * M0_CHUNK + |c| <= |chunks| && chunks[k * M0_CHUNK..k * M0_CHUNK + |c|] == c
    ensures c <= RawChunk(t, k)
  {
    var from := k * M0_CHUNK;
    assert t[from..from + |c|] == w[from..from + |c|] == chunks[from..from + |c|];
    assert RawChunk(t, k)[..|c|] == t[from..from + |c|];
  }

  lemma ShownInCache(g: Aead, base: Nonce, p: Bytes, t: Bytes, k: nat)
    requires t <= Stream(g, base, p, ChunkCount(|p|)) && k < ChunkCount(|p|)
    requires Shows(t, k, |PlainChunk(p, k)|) && |t| <= (k + 1) * M0_CHUNK + FINAL_INFO
    ensures k * M0_CHUNK <= |t| && ChunkBytes(g, base, k + 1, PlainChunk(p, k)) <= RawChunk(t, k)
  {
    hide ChunkBytes, Chunks, FinalBlock, ChunkCount, PlainChunk, OccursAt;
    var n := ChunkCount(|p|);
    var c := ChunkBytes(g, base, k + 1, PlainChunk(p, k));
    ChunkInStream(g, base, p, n, k);
    OccursInside(FINAL_MAGIC, t, k * M0_CHUNK + |c|);
    RawChunkHas(Stream(g, base, p, n), t, Chunks(g, base, p, n), k, c);
  }

  /** And only such a chunk does. */
  lemma LoadedShows(g: Aead, base: Nonce, p: Bytes, t: Bytes, k: nat)
    requires |t| < I64_LIMIT && NoForgery(g, base, p, t)
    requires var loaded :=
      LoadResult(g, base, RawChunk(t, k), RawChunk(t, k + 1), Some(OnlyAuthenticatedData), 0, k * CHUNK_PT);
             loaded.Ok? && loaded.value.Some?
    ensures k * CHUNK_PT <= |p| && Shows(t, k, |PlainChunk(p, k)|)
  {
    LoadAuthentic(g, base, p, t, k);
    hide NoForgery, FinalBlockMagicScan;
    var cache, next, mode := RawChunk(t, k), RawChunk(t, k + 1), Some(OnlyAuthenticatedData);
    var endOfTag, size := EndOfTagPos(cache, next, mode).value, |PlainChunk(p, k)|;
    OpenedLength(g, base, k * CHUNK_PT / CHUNK_PT + 1, cache, endOfTag, mode);
    assert endOfTag == CHUNK_HEAD + size + TAG_LENGTH && |cache| > 0;
    if |t| <= (k + 1) * M0_CHUNK + FINAL_INFO {
      RawHolding(t, k);
      SearchShows(t, k, size, cache, next);
    }
  }

  ghost predicate NoMagicFrom(t: Bytes, from: nat) {
    forall i: nat :: from <= i ==> !OccursAt(FINAL_MAGIC, t, i)
  }

  /** Where nothing shows, the load says why not. */
  lemma LoadRefused(g: Aead, base: Nonce, t: Bytes, k: nat)
    requires k * M0_CHUNK <= |t|
    ensures var from, edge := k * M0_CHUNK, (k + 1) * M0_CHUNK;
            var loaded :=
              LoadResult(g, base, RawChunk(t, k), RawChunk(t, k + 1), Some(OnlyAuthenticatedData), 0, k * CHUNK_PT);
            && (|t| < from + TAG_LENGTH ==> loaded == Err(TruncatedTag))
            && (from + TAG_LENGTH <= |t| <= edge + FINAL_INFO && NoMagicFrom(t, from) ==>
                  loaded == Err(UnknownTagPosition))
            && (edge + FINAL_INFO < |t| && !Verifies(g, base, t, k + 1, from + CHUNK_HEAD, edge - TAG_LENGTH) ==>
                  loaded == Err(AuthenticatedDecryptionWrongTag))
  {
    var cache, next, from, edge := RawChunk(t, k), RawChunk(t, k + 1), k * M0_CHUNK, (k + 1) * M0_CHUNK;
    assert k * CHUNK_PT / CHUNK_PT == k;
    if edge + FINAL_INFO < |t| {
      SliceOfSlice(t, from, edge, CHUNK_HEAD, M0_CHUNK - TAG_LENGTH);
      SliceOfSlice(t, from, edge, M0_CHUNK - TAG_LENGTH, M0_CHUNK);
    } else {
      RawHolding(t, k);
      if NoMagicFrom(t, from) {
        NothingFound(t, k, cache, next);
      }
    }
  }

  /** Tag ends that cannot be: within the head, or behind what there is. */
  lemma OpenRefused(g: Aead, base: Nonce, s: nat, cache: Bytes, endOfTag: nat, mode: Option<TruncatedMode>)
    ensures TAG_LENGTH < endOfTag < CHUNK_HEAD + TAG_LENGTH || |cache| + TAG_LENGTH < endOfTag ==>
      OpenChunk(g, base, s, cache, endOfTag, mode) == Err(WrongReaderState)
    ensures CHUNK_HEAD + TAG_LENGTH <= endOfTag && |cache| < endOfTag && mode != Some(DataEvenUnauthenticated) ==>
      OpenChunk(g, base, s, cache, endOfTag, mode) == Err(WrongReaderState)
    ensures endOfTag <= TAG_LENGTH ==> OpenChunk(g, base, s, cache, endOfTag, mode) == Ok(None)
  {}

  lemma NothingFound(t: Bytes, k: nat, cache: Bytes, next: Bytes)
    requires Holding(t, k, cache, next) && NoMagicFrom(t, k * M0_CHUNK)
    ensures FinalBlockMagicScan(cache, next) == None
  {
    var scan := FinalBlockMagicScan(cache, next);
    if scan.Some? {
      MagicScanExact(cache, next);
      OccursHeld(t, k, cache, next, scan.value);
    }
  }

  /**
   * With unauthenticated data asked for, a chunk cut inside its ciphertext yields
   * the plaintext of all the ciphertext there is, if that does not contain the
   * final block's magic.
   */
  lemma LoadCutChunk(g: Aead, base: Nonce, p: Bytes, t: Bytes, k: nat)
    requires t <= Stream(g, base, p, ChunkCount(|p|)) && k < ChunkCount(|p|)
    requires k * M0_CHUNK + CHUNK_HEAD <= |t| <= k * M0_CHUNK + CHUNK_HEAD + |PlainChunk(p, k)|
    requires NoMagicFrom(t, k * M0_CHUNK)
    ensures LoadResult(g, base, RawChunk(t, k), RawChunk(t, k + 1), Some(DataEvenUnauthenticated), 0, k * CHUNK_PT)
            == Ok(Some(ChunkHead(k + 1) + PlainChunk(p, k)[..|t| - k * M0_CHUNK - CHUNK_HEAD]))
  {
    var pt, cache, from := PlainChunk(p, k), RawChunk(t, k), k * M0_CHUNK;
    var m := |t| - from - CHUNK_HEAD;
    CutChunkBytes(g, base, p, t, k);
    RawHolding(t, k);
    NothingFound(t, k, cache, RawChunk(t, k + 1));
    hide Stream, ChunkHead, FinalBlockMagicScan, PlainChunk;
    assert k * CHUNK_PT / CHUNK_PT == k;
    SplitFront(ChunkHead(k + 1), Ciphertext(g, base, k + 1, pt[..m]));
    assert cache[CHUNK_HEAD..|cache|] == cache[CHUNK_HEAD..];
    ApplyTwice(g, NonceFor(base, k + 1), 0, pt[..m]);
  }

  /** What is there of a chunk cut inside its ciphertext. */
  lemma CutChunkBytes(g: Aead, base: Nonce, p: Bytes, t: Bytes, k: nat)
    requires t <= Stream(g, base, p, ChunkCount(|p|)) && k < ChunkCount(|p|)
    requires k * M0_CHUNK + CHUNK_HEAD <= |t| <= k * M0_CHUNK + CHUNK_HEAD + |PlainChunk(p, k)|
    ensures var m := |t| - k * M0_CHUNK - CHUNK_HEAD;
            RawChunk(t, k) == ChunkHead(k + 1) + Ciphertext(g, base, k + 1, PlainChunk(p, k)[..m])
  {
    hide ChunkBytes, Chunks, FinalBlock, ChunkCount, PlainChunk, ChunkHead, Ciphertext;
    var n, pt := ChunkCount(|p|), PlainChunk(p, k);
    ChunkInStream(g, base, p, n, k);
    CutCiphertext(g, base, k + 1, pt, |t| - k * M0_CHUNK - CHUNK_HEAD);
    RawChunkCut(Stream(g, base, p, n), t, Chunks(g, base, p, n), k, ChunkBytes(g, base, k + 1, pt));
  }

  lemma RawChunkCut(w: Bytes, t: Bytes, chunks: Bytes, k: nat, c: Bytes)
    requires t <= w && chunks <= w && |c| <= M0_CHUNK && k * M0_CHUNK <= |t| <= k * M0_CHUNK + |c|
    requires k * M0_CHUNK + |c| <= |chunks| && chunks[k * M0_CHUNK..k * M0_CHUNK + |c|] == c
    ensures RawChunk(t, k) == c[..|t| - k * M0_CHUNK]
  {
    var from := k * M0_CHUNK;
    assert t[from..] == w[from..|t|] == chunks[from..|t|];
    assert c[..|t| - from] == chunks[from..from + |c|][..|t| - from];
  }

  lemma CutCiphertext(g: Aead, base: Nonce, s: nat, pt: Bytes, m: nat)
    requires m <= |pt|
    ensures ChunkBytes(g, base, s, pt)[..CHUNK_HEAD + m] == ChunkHead(s) + Ciphertext(g, base, s, pt[..m])
  {
    hide ChunkHead;
    assert Ciphertext(g, base, s, pt)[..m] == Ciphertext(g, base, s, pt[..m]);
  }

  lemma LoadsIffShown(g: Aead, base: Nonce, p: Bytes, t: Bytes, k: nat)
    requires |t| < I64_LIMIT && NoForgery(g, base, p, t)
    ensures var loaded :=
      LoadResult(g, base, RawChunk(t, k), RawChunk(t, k + 1), Some(OnlyAuthenticatedData), 0, k * CHUNK_PT);
            && (loaded.Ok? && loaded.value.Some? ==> k * CHUNK_PT <= |p| && Shows(t, k, |PlainChunk(p, k)|))
            && (t <= Stream(g, base, p, ChunkCount(|p|)) && k < ChunkCount(|p|) && Shows(t, k, |PlainChunk(p, k)|) ==>
                  loaded == Ok(Some(ChunkHead(k + 1) + PlainChunk(p, k))))
  {
    hide NoForgery, LoadResult, RawChunk, Stream, ChunkCount, Shows, PlainChunk, ChunkHead;
    var loaded := LoadResult(g, base, RawChunk(t, k), RawChunk(t, k + 1), Some(OnlyAuthenticatedData), 0, k * CHUNK_PT);
    if loaded.Ok? && loaded.value.Some? {
      LoadedShows(g, base, p, t, k);
    }
    if t <= Stream(g, base, p, ChunkCount(|p|)) && k < ChunkCount(|p|) && Shows(t, k, |PlainChunk(p, k)|) {
      LoadShows(g, base, p, t, k);
    }
  }

  lemma OpenedLength(g: Aead, base: Nonce, s: nat, cache: Bytes, endOfTag: nat, mode: Option<TruncatedMode>)
    ensures var chunk := OpenChunk(g, base, s, cache, endOfTag, mode);
            chunk.Ok? && chunk.value.Some? ==> |chunk.value.value| + TAG_LENGTH == endOfTag
  {}

  /** The load done when a truncated stream is opened. */
  function FirstLoad(g: Aead, base: Nonce, t: Bytes): Result<Option<Bytes>, Error> {
    LoadResult(g, base, RawChunk(t, 0), RawChunk(t, 1), Some(OnlyAuthenticatedData), 0, 0)
  }

  /** A chunk head does not overlap the final block's magic. */
  lemma HeadHasNoMagic(t: Bytes, at: nat)
    requires ChunkHead(FIRST_DATA_CHUNK_NUMBER) <= t && at < 16
    ensures !OccursAt(FINAL_MAGIC, t, at)
  {
    var head := ChunkHead(FIRST_DATA_CHUNK_NUMBER);
    assert t[at] == head[at] && t[2] == head[2];
    assert FINAL_MAGIC[0] == 77 && FINAL_MAGIC[2] == 70;
    if at >= 8 {
      assert LE(1, 8)[0] == 1 && LE(1, 8)[1..] == LE(0, 7);
      ZeroLE(7);
      assert head[at] == LE(1, 8)[at - 8] < 2;
    } else {
      assert head[at] == CHUNK_MAGIC[at] && head[2] == CHUNK_MAGIC[2] == 69;
    }
    if at + 8 <= |t| {
      assert t[at..at + 8][0] == t[at] && t[at..at + 8][2] == t[at + 2];
    }
  }

  /**
   * The first load of a truncated stream finds no chunk at all exactly when the
   * bytes after the first head look like the final block's magic and no more
   * follows than one chunk and a final block.
   */
  lemma FirstLoadEmpty(g: Aead, base: Nonce, t: Bytes)
    requires ChunkHead(FIRST_DATA_CHUNK_NUMBER) <= t
    ensures FirstLoad(g, base, t) == Ok(None)
      <==> 24 <= |t| <= M0_CHUNK + FINAL_INFO && t[16..24] == FINAL_MAGIC
  {
    var cache, next := RawChunk(t, 0), RawChunk(t, 1);
    forall at: nat | at < 16
      ensures !OccursAt(FINAL_MAGIC, cache, at)
    {
      HeadHasNoMagic(cache, at);
    }
    var mode := Some(OnlyAuthenticatedData);
    if 24 <= |t| && t[16..24] == FINAL_MAGIC {
      assert cache[16..24] == t[16..24];
      assert OccursAt(FINAL_MAGIC, cache, 16);
      assert Position(FINAL_MAGIC, cache, 0) == Some(16);
    } else {
      if 24 <= |cache| {
        assert cache[16..24] == t[16..24];
      }
      assert !OccursAt(FINAL_MAGIC, cache, 16);
      assert EndOfTagPos(cache, next, mode).Ok? ==> EndOfTagPos(cache, next, mode).value > 16;
    }
  }

  lemma {:induction false} ZeroLE(width: nat)
    ensures forall i :: 0 <= i < width ==> LE(0, width)[i] == 0
  {
    if width > 0 {
      ZeroLE(width - 1);
    }
  }

  // ---------- The final block ----------

  /** `check_last_block` on the last bytes read: final content, its tag, closing magic. */
  predicate FinalBlockAccepted(g: Aead, base: Nonce, s: nat, dataAndTag: Bytes) {
    FINAL_INFO_WOM <= |dataAndTag| &&
    var data, tag := dataAndTag[..10], dataAndTag[10..FINAL_INFO_WOM];
    g.tag(NonceFor(base, s), FINAL_AAD, data) == tag && Ciphertext(g, base, s, data) == FINAL_CONTENT
  }

  /**
   * The final block is accepted when the writer opened no needless empty chunk;
   * after one (a `write` of no bytes at a chunk boundary) the reader checks it
   * under another number, so acceptance would take one tag valid under two nonces.
   */
  lemma FinalBlockChecked(g: Aead, base: Nonce, p: Bytes, n: nat)
    requires Holds(|p|, n)
    ensures var w, ct := Stream(g, base, p, n), Ciphertext(g, base, n + 1, FINAL_CONTENT);
            var s := LastDataChunkNumber(|p|) + 1 + FIRST_DATA_CHUNK_NUMBER;
            var tail := w[|w| - FINAL_INFO..];
            (n == ChunkCount(|p|) ==> FinalBlockAccepted(g, base, s, tail)) &&
            (n != ChunkCount(|p|) && FinalBlockAccepted(g, base, s, tail) ==>
              s == n && g.tag(NonceFor(base, n), FINAL_AAD, ct) == g.tag(NonceFor(base, n + 1), FINAL_AAD, ct))
  {
    hide Chunks, LE;
    var w, ct := Stream(g, base, p, n), Ciphertext(g, base, n + 1, FINAL_CONTENT);
    var tail := w[|w| - FINAL_INFO..];
    var tag := g.tag(NonceFor(base, n + 1), FINAL_AAD, ct);
    SizeRecovered(g, base, p, n);
    assert w == Chunks(g, base, p, n) + FINAL_MAGIC + (ct + tag + END_MAGIC);
    hide Stream, Apply;
    assert tail == ct + tag + END_MAGIC;
    assert tail[..10] == ct && tail[10..26] == tag;
    ApplyTwice(g, NonceFor(base, n + 1), 0, FINAL_CONTENT);
  }

  // ---------- The reader ----------

  class EncryptReader {
    const g: Aead
    const baseNonce: Nonce
    const inner: ByteSource
    const mode: Option<TruncatedMode>
    var chunkCache: Bytes
    var cachePosition: nat
    var nextChunkCache: Bytes
    var allPlaintextSize: nat
    var currentPosition: nat
    // The chunk in the cache, when one is open.
    ghost var chunk: nat

    /** Chunk `k` is the next to be taken out of the look-ahead cache. */
    ghost predicate AtChunk(k: nat)
      reads this, inner
    {
      && inner.Valid()
      && currentPosition == k * CHUNK_PT
      && nextChunkCache == RawChunk(inner.data, k)
      && inner.pos == Min((k + 1) * M0_CHUNK, |inner.data|)
    }

    /** Chunk `k` has been opened to the plaintext `pt` and is read up to `currentPosition`. */
    ghost predicate InChunk(k: nat, pt: Bytes)
      reads this, inner
    {
      && inner.Valid()
      && |pt| <= CHUNK_PT
      && k * CHUNK_PT <= currentPosition <= k * CHUNK_PT + |pt|
      && |chunkCache| == CHUNK_HEAD + |pt| && chunkCache[CHUNK_HEAD..] == pt
      && cachePosition == CHUNK_HEAD + (currentPosition - k * CHUNK_PT)
      && nextChunkCache == RawChunk(inner.data, k + 1)
      && inner.pos == Min((k + 2) * M0_CHUNK, |inner.data|)
    }

    constructor (g: Aead, baseNonce: Nonce, inner: ByteSource, mode: Option<TruncatedMode>)
      requires inner.Valid() && inner.pos == 0
      modifies inner
      ensures this.g == g && this.baseNonce == baseNonce && this.inner == inner && this.mode == mode
      ensures AtChunk(0) && chunkCache == [] && cachePosition == 0
      ensures allPlaintextSize == 0 && chunk == 0
    {
      this.g := g;
      this.baseNonce := baseNonce;
      this.inner := inner;
      this.mode := mode;
      chunkCache, cachePosition := [], 0;
      nextChunkCache := [];
      allPlaintextSize, currentPosition := 0, 0;
      chunk := 0;
      new;
      nextChunkCache := inner.ReadToEnd(M0_CHUNK);
    }

    /** `load_in_cache` */
    method LoadInCache(ghost k: nat) returns (r: Result<bool, Error>)
      requires AtChunk(k)
      modifies this, inner
      ensures inner.Valid() && currentPosition == old(currentPosition) && allPlaintextSize == old(allPlaintextSize)
      ensures chunk == old(chunk)
      ensures var loaded :=
        LoadResult(g, baseNonce, RawChunk(inner.data, k), RawChunk(inner.data, k + 1), mode,
          allPlaintextSize, currentPosition);
              match loaded
              case Err(e) => r == Err(e)
              case Ok(None) => r == Ok(false) && chunkCache == RawChunk(inner.data, k) && cachePosition == 0
              case Ok(Some(content)) =>
                && r == Ok(true) && chunkCache == content && CHUNK_HEAD <= |content|
                && (|content| <= CHUNK_HEAD + CHUNK_PT ==> InChunk(k, content[CHUNK_HEAD..]))
    {
      chunkCache := nextChunkCache;
      cachePosition := 0;
      nextChunkCache := inner.ReadToEnd(M0_CHUNK);
      assert nextChunkCache == RawChunk(inner.data, k + 1);
      var loaded := LoadResult(g, baseNonce, chunkCache, nextChunkCache, mode, allPlaintextSize, currentPosition);
      match loaded {
        case Err(e) =>
          r := Err(e);
        case Ok(None) =>
          r := Ok(false);
        case Ok(Some(content)) =>
          chunkCache := content;
          cachePosition := CHUNK_HEAD;
          r := Ok(true);
      }
    }

    // ---------- Over a complete stream ----------

    /** The source is the writer's stream for `p`, and the reader knows the plaintext size. */
    ghost predicate Over(p: Bytes)
      reads this, inner
    {
      && inner.Valid()
      && mode.None?
      && inner.data == Stream(g, baseNonce, p, ChunkCount(|p|))
      && allPlaintextSize == |p|
    }

    /** The reader stands at `currentPosition` of `p`, in an open chunk. */
    ghost predicate Synced(p: Bytes)
      reads this, inner
    {
      && Over(p)
      && chunk * CHUNK_PT < |p|
      && InChunk(chunk, PlainChunk(p, chunk))
    }

    /** The reader stands at the end of `p` with undecrypted bytes of the source in its cache. */
    ghost predicate Spent(p: Bytes)
      reads this, inner
    {
      && Over(p)
      && |p| % CHUNK_PT == 0
      && chunkCache == RawChunk(inner.data, |p| / CHUNK_PT)
      && cachePosition <= CHUNK_HEAD < |chunkCache|
    }

    /** Synced where a position can be: anywhere in `p`, and at its end unless `p` fills its last chunk. */
    static ghost predicate Readable(p: Bytes, at: nat) {
      at < |p| || (at == |p| && |p| % CHUNK_PT != 0)
    }

    // ---------- Over a truncated or altered source ----------

    /** Whatever the source is, no tag in it verifies but the writer's own. */
    ghost predicate OverUnforged(p: Bytes)
      reads this, inner
    {
      && inner.Valid()
      && mode == Some(OnlyAuthenticatedData)
      && allPlaintextSize == 0
      && NoForgery(g, baseNonce, p, inner.data)
    }

    /** The reader stands in a chunk that is the writer's. */
    ghost predicate Authentic(p: Bytes)
      reads this, inner
    {
      && OverUnforged(p)
      && chunk * CHUNK_PT <= |p|
      && InChunk(chunk, PlainChunk(p, chunk))
      && Shows(inner.data, chunk, |PlainChunk(p, chunk)|)
    }

    /** The source begins the writer's stream. */
    ghost predicate Genuine(p: Bytes)
      reads inner
    {
      inner.data <= Stream(g, baseNonce, p, ChunkCount(|p|))
    }

    /** A read served from the cache alone. */
    method ReadCache(n: nat, ghost p: Bytes) returns (r: Bytes)
      requires cachePosition < CHUNK_HEAD + CHUNK_PT
      modifies this`cachePosition, this`currentPosition
      ensures |r| <= n && currentPosition == old(currentPosition) + |r|
      ensures r <= if old(cachePosition) < |chunkCache| then chunkCache[old(cachePosition)..] else []
      ensures n > 0 && old(cachePosition) < |chunkCache| ==> r != []
      ensures chunk * CHUNK_PT <= |p| && old(InChunk(chunk, PlainChunk(p, chunk))) ==>
        InChunk(chunk, PlainChunk(p, chunk)) && r == p[old(currentPosition)..currentPosition]
    {
      // the limit is the chunk's plaintext and tag size in the code: head and tag are equally long
      var size := Min(CHUNK_PT + TAG_LENGTH - cachePosition, n);
      if cachePosition < |chunkCache| {
        r := chunkCache[cachePosition..cachePosition + Min(size, |chunkCache| - cachePosition)];
      } else {
        r := [];
      }
      if chunk * CHUNK_PT <= |p| && InChunk(chunk, PlainChunk(p, chunk)) {
        ReadInChunk(p, chunk, chunkCache, cachePosition, cachePosition + |r|);
      }
      cachePosition := cachePosition + |r|;
      currentPosition := currentPosition + |r|;
    }

    /** The same read, in terms of the plaintext. */
    method ReadOpen(n: nat, ghost p: Bytes) returns (r: Bytes)
      requires cachePosition < CHUNK_HEAD + CHUNK_PT
      requires Synced(p) || Spent(p) || Authentic(p)
      modifies this`cachePosition, this`currentPosition
      ensures |r| <= n && currentPosition == old(currentPosition) + |r|
      ensures old(Synced(p)) ==> Synced(p) && Readable(p, old(currentPosition))
      ensures old(Authentic(p)) ==> Authentic(p)
      ensures old(Synced(p) || Authentic(p)) ==> r == p[old(currentPosition)..currentPosition]
      ensures old(Synced(p) || Authentic(p)) && n > 0 && r == [] ==> currentPosition == |p|
      ensures old(Spent(p)) ==>
        (n > 0 ==> r != []) && r <= RawChunk(inner.data, |p| / CHUNK_PT)[old(cachePosition)..]
    {
      hide Stream, NoForgery, ChunkCount, Shows, RawChunk;
      r := ReadCache(n, p);
    }

    /** Loads chunk `k` out of the look-ahead cache: `load_in_cache` over the two kinds of source. */
    method LoadChunk(ghost k: nat, ghost p: Bytes) returns (r: Result<bool, Error>)
      requires AtChunk(k)
      modifies this, inner
      ensures inner.Valid() && currentPosition == k * CHUNK_PT
      ensures old(Over(p)) && k * CHUNK_PT < |p| ==>
        r == Ok(true) && Synced(p) && chunk == k && cachePosition == CHUNK_HEAD
      ensures old(Over(p)) && k * CHUNK_PT == |p| ==>
        r == Ok(false) && Spent(p) && cachePosition == 0
      ensures old(Over(p)) && k * CHUNK_PT > |p| ==> r == Ok(false)
      ensures old(OverUnforged(p)) && r == Ok(true) ==> Authentic(p) && cachePosition == CHUNK_HEAD
      ensures old(OverUnforged(p)) && Genuine(p) && k < ChunkCount(|p|) ==>
        (r == Ok(true) <==> Shows(inner.data, k, |PlainChunk(p, k)|))
    {
      hide LoadResult, Stream, NoForgery, Chunks, FinalBlock, LE, Shows, ChunkCount, RawChunk;
      if OverUnforged(p) {
        LoadAuthentic(g, baseNonce, p, inner.data, k);
        LoadsIffShown(g, baseNonce, p, inner.data, k);
      } else if Over(p) && k * CHUNK_PT > |p| {
        LoadBeyond(g, baseNonce, RawChunk(inner.data, k), RawChunk(inner.data, k + 1), |p|, k);
      } else if Over(p) {
        LoadFromStream(g, baseNonce, p, k);
        if k * CHUNK_PT == |p| {
          RawChunkAfterEnd(g, baseNonce, p);
        }
      }
      r := LoadInCache(k);
      chunk := k;
    }

    /**
     * `read_internal`. Over a complete stream a read continues at the current
     * position, and the position stays good except after the end of a plaintext
     * that fills its last chunk: from then on reads return source bytes.
     * Over any other source, every byte returned continues the writer's plaintext,
     * and over the beginning of the writer's stream a read goes on exactly through
     * the chunks whose end shows.
     */
    method Read(n: nat, ghost p: Bytes) returns (r: Result<Bytes, Error>)
      requires Synced(p) || Spent(p) || Authentic(p)
      modifies this, inner
      ensures inner.Valid()
      ensures old(Synced(p)) ==>
        && r.Ok? && |r.value| <= n
        && old(currentPosition) + |r.value| == currentPosition <= |p|
        && r.value == p[old(currentPosition)..currentPosition]
        && (n > 0 && old(currentPosition) < |p| ==> r.value != [])
        && (if Readable(p, old(currentPosition)) then Synced(p) else Spent(p))
      ensures old(Spent(p)) ==>
        && r.Ok? && |r.value| <= n && (n > 0 ==> r.value != [])
        && r.value <= RawChunk(inner.data, |p| / CHUNK_PT)[old(cachePosition)..]
      ensures old(Authentic(p)) && r.Ok? ==>
        && |r.value| <= n
        && old(currentPosition) + |r.value| == currentPosition <= |p|
        && r.value == p[old(currentPosition)..currentPosition]
        && (r.value != [] ==> Authentic(p))
        && currentPosition <= old(currentPosition) / CHUNK_PT * CHUNK_PT + CHUNK_PT
      ensures old(Authentic(p)) && Genuine(p) && old(currentPosition) < |p| && n > 0 ==>
        var k := old(currentPosition) / CHUNK_PT;
        r.Ok? && r.value != [] <==> Shows(inner.data, k, |PlainChunk(p, k)|)
      ensures old(Authentic(p)) && !(r.Ok? && Authentic(p) && (n > 0 ==> r.value != [])) ==>
        old(currentPosition) % CHUNK_PT == 0 || old(currentPosition) == |p|
    {
      hide Stream, Chunks, FinalBlock, LE, RawChunk, NoForgery, Shows, ChunkCount;
      var cacheToConsume := CHUNK_PT + TAG_LENGTH - cachePosition;
      if cacheToConsume == 0 {
        var loaded := LoadChunk(currentPosition / CHUNK_PT, p);
        if loaded.Err? {
          return Err(loaded.error);
        }
        if !loaded.value {
          return Ok([]);
        }
        // the code calls itself here, with a cache that is not consumed any more
      }
      var bytes := ReadOpen(n, p);
      r := Ok(bytes);
    }

    /** Moves the source to chunk `k` and reads it into the look-ahead cache. */
    method FetchChunk(k: nat) returns (r: Result<(), Error>)
      requires inner.Valid()
      modifies this`currentPosition, this`nextChunkCache, inner
      ensures inner.Valid()
      ensures r.Ok? <==> k * M0_CHUNK <= |inner.data|
      ensures r.Ok? ==> AtChunk(k)
    {
      var sought := inner.Seek(Start(k * M0_CHUNK));
      if sought.Err? {
        return Err(sought.error);
      }
      currentPosition := k * CHUNK_PT;
      nextChunkCache := inner.ReadToEnd(M0_CHUNK);
      r := Ok(());
    }

    /** Goes to a position of the chunk just loaded. */
    method GoInChunk(offset: nat, ghost p: Bytes)
      modifies this`cachePosition, this`currentPosition
      ensures cachePosition == CHUNK_HEAD + offset && currentPosition == old(currentPosition) + offset
      ensures old(Synced(p)) && old(cachePosition) == CHUNK_HEAD && offset <= |PlainChunk(p, chunk)| ==> Synced(p)
      ensures old(Spent(p)) && offset == 0 ==> Spent(p)
      ensures old(Over(p)) ==> Over(p)
    {
      cachePosition := CHUNK_HEAD + offset;
      currentPosition := currentPosition + offset;
    }

    /** `seek(SeekFrom::Start(..))` */
    method SeekStart(askedPos: nat, ghost p: Bytes) returns (r: Result<nat, Error>)
      requires inner.Valid()
      modifies this, inner
      ensures inner.Valid()
      ensures old(Over(p)) && askedPos <= |p| ==> r == Ok(askedPos) && currentPosition == askedPos
      ensures old(Over(p)) && askedPos <= |p| ==> if Readable(p, askedPos) then Synced(p) else Spent(p)
      ensures old(Over(p)) && |p| < askedPos ==>
        && (r.Ok? <==> askedPos / CHUNK_PT * M0_CHUNK <= |inner.data|)
        && (r.Ok? ==> r.value == currentPosition == askedPos)
    {
      StreamLength(g, baseNonce, p, ChunkCount(|p|));
      hide Stream, Chunks, FinalBlock, LE, RawChunk, PlainChunk, LoadResult;
      var innerPosition := ToInnerPosition(askedPos);
      if Over(p) && askedPos <= |p| {
        InnerPositionFits(askedPos, |inner.data|, ChunkCount(|p|), |p|);
      }
      if innerPosition.Err? {
        return Err(innerPosition.error);
      }
      PositionMapsInverse(askedPos);
      hide ToInnerPosition;
      assert askedPos == askedPos / CHUNK_PT * CHUNK_PT + askedPos % CHUNK_PT;
      var askedChunk := innerPosition.value / M0_CHUNK;
      var askedInChunk := innerPosition.value % M0_CHUNK - CHUNK_HEAD;
      var fetched := FetchChunk(askedChunk);
      if fetched.Err? {
        return Err(fetched.error);
      }
      var loaded := LoadChunk(askedChunk, p);
      if loaded.Err? {
        return Err(loaded.error);
      }
      GoInChunk(askedInChunk, p);
      r := Ok(askedPos);
    }

    /**
     * `seek`: inside the plaintext it moves to the target and leaves the reader
     * synced, except at the end of a plaintext that fills its last chunk.
     */
    method Seek(s: SeekFrom, ghost p: Bytes) returns (r: Result<nat, Error>)
      requires Over(p) && currentPosition <= |p|
      modifies this, inner
      ensures var target := SeekTarget(|p|, old(currentPosition), s);
              (target < 0 ==> r.Err? && unchanged(this) && unchanged(inner)) &&
              (0 <= target <= |p| ==> r == Ok(target) && currentPosition == target) &&
              (0 <= target <= |p| && s != Current(0) ==> if Readable(p, target) then Synced(p) else Spent(p)) &&
              (s == Current(0) ==> unchanged(this) && unchanged(inner)) &&
              (|p| < target && !s.End? ==>
                && (r.Ok? <==> target / CHUNK_PT * M0_CHUNK <= |inner.data| && (s.Current? ==> target < I64_LIMIT))
                && (r.Ok? ==> r.value == currentPosition == target))
      ensures s.End? && s.delta > 0 ==> r == Err(EndOfStream) && unchanged(this) && unchanged(inner)
    {
      StreamLength(g, baseNonce, p, ChunkCount(|p|));
      match s {
        case Start(askedPos) =>
          r := SeekStart(askedPos, p);
        case Current(value) =>
          if value == 0 {
            return Ok(currentPosition);
          }
          var newPos := currentPosition + value;
          if newPos < 0 || newPos >= I64_LIMIT {
            return Err(InvalidInput);
          }
          r := SeekStart(newPos, p);
        case End(value) =>
          if value > 0 {
            return Err(EndOfStream);
          }
          var newPos := allPlaintextSize + value;
          if newPos < 0 {
            return Err(InvalidInput);
          }
          r := SeekStart(newPos, p);
      }
    }

    /** `set_all_plaintext_size` */
    method SetAllPlaintextSize() returns (r: Result<(), Error>)
      requires inner.Valid()
      modifies this`allPlaintextSize, inner
      ensures inner.Valid()
      ensures match PlaintextSize(|inner.data|)
              case Ok(size) => r == Ok(()) && allPlaintextSize == size
              case Err(e) => r == Err(e)
    {
      var inputSize := inner.Seek(End(0));
      match PlaintextSize(inputSize.value) {
        case Ok(size) =>
          allPlaintextSize := size;
          r := Ok(());
        case Err(e) =>
          r := Err(e);
      }
    }

    /** What `initialize` accepts: a size, and a final block under the number that size calls for. */
    ghost predicate Acceptable(w: Bytes) {
      && FINAL_INFO <= |w| && PlaintextSize(|w|).Ok?
      && FinalBlockAccepted(g, baseNonce, LastDataChunkNumber(PlaintextSize(|w|).value) + 1 + FIRST_DATA_CHUNK_NUMBER,
        w[|w| - FINAL_INFO..])
    }

    /** `check_last_block` */
    method CheckLastBlock() returns (r: Result<(), Error>)
      requires inner.Valid() && PlaintextSize(|inner.data|) == Ok(allPlaintextSize)
      modifies inner
      ensures inner.Valid()
      ensures r.Ok? <==> Acceptable(inner.data)
      ensures |inner.data| < FINAL_INFO ==> r == Err(InvalidInput)
      ensures FINAL_INFO <= |inner.data| ==>
        var nonce, ct :=
          NonceFor(baseNonce, ChunkCount(allPlaintextSize) + 1), inner.data[|inner.data| - 34..|inner.data| - 24];
        var tag := inner.data[|inner.data| - 24..|inner.data| - 8];
        r == if Apply(g, nonce, 0, ct) == FINAL_CONTENT && g.tag(nonce, FINAL_AAD, ct) == tag then Ok(())
             else Err(InvalidLastTag)
    {
      LastIsCount(allPlaintextSize);
      hide NonceFor, Apply;
      var sought := inner.Seek(End(-FINAL_INFO));
      if sought.Err? {
        return Err(sought.error);
      }
      var dataAndTag := inner.ReadToEnd(FINAL_INFO);
      assert dataAndTag == inner.data[|inner.data| - FINAL_INFO..];
      SliceOfSuffix(inner.data, |inner.data| - FINAL_INFO, 0, 10);
      SliceOfSuffix(inner.data, |inner.data| - FINAL_INFO, 10, FINAL_INFO_WOM);
      var s := LastDataChunkNumber(allPlaintextSize) + 1 + FIRST_DATA_CHUNK_NUMBER;
      r := if FinalBlockAccepted(g, baseNonce, s, dataAndTag) then Ok(()) else Err(InvalidLastTag);
    }

    /**
     * `initialize`: learns the plaintext size, checks the final block, rewinds.
     * It never succeeds without an acceptable final block, and always on a
     * stream of the least number of chunks.
     */
    method Initialize(ghost p: Bytes) returns (r: Result<(), Error>)
      requires inner.Valid() && mode.None?
      modifies this, inner
      ensures inner.Valid()
      ensures r.Ok? ==> Acceptable(inner.data)
      ensures inner.data == Stream(g, baseNonce, p, ChunkCount(|p|)) ==>
        r == Ok(()) && currentPosition == 0 && if Readable(p, 0) then Synced(p) else Spent(p)
    {
      hide Stream, Chunks, FinalBlock, LE, RawChunk, FinalBlockAccepted, PlaintextSize;
      if inner.data == Stream(g, baseNonce, p, ChunkCount(|p|)) {
        SizeRecovered(g, baseNonce, p, ChunkCount(|p|));
        StreamLength(g, baseNonce, p, ChunkCount(|p|));
        FinalBlockChecked(g, baseNonce, p, ChunkCount(|p|));
      }
      r := SetAllPlaintextSize();
      if r.Err? {
        return;
      }
      r := CheckLastBlock();
      if r.Err? {
        return;
      }
      var rewound := SeekStart(0, p);
      r := if rewound.Ok? then Ok(()) else Err(rewound.error);
    }

    /** Reads with the given sizes up to the first empty read. */
    method Drain(sizes: nat -> nat, ghost p: Bytes) returns (r: Bytes)
      requires Synced(p) && forall i :: sizes(i) > 0
      modifies this, inner
      ensures r == p[old(currentPosition)..]
    {
      hide Stream, ChunkCount, PlainChunk, RawChunk, LE;
      r := [];
      var i := 0;
      while true
        invariant Synced(p) && old(currentPosition) <= currentPosition <= |p|
        invariant r == p[old(currentPosition)..currentPosition]
        decreases |p| - currentPosition
      {
        var bytes := Read(sizes(i), p);
        if bytes.value == [] {
          return;
        }
        r := r + bytes.value;
        i := i + 1;
      }
    }
  }

  /**
   * Round trip. For every nonempty plaintext, however its stream was written,
   * a seek strictly inside it followed by reads of any nonzero sizes up to the
   * first empty one yields the rest of the plaintext.
   */
  method ReadFrom(g: Aead, base: Nonce, inner: ByteSource, s: SeekFrom, sizes: nat -> nat, ghost p: Bytes)
    returns (r: Bytes)
    requires inner.Valid() && inner.pos == 0
    requires inner.data == Stream(g, base, p, ChunkCount(|p|))
    requires 0 <= SeekTarget(|p|, 0, s) < |p|
    requires forall i :: sizes(i) > 0
    modifies inner
    ensures r == p[SeekTarget(|p|, 0, s)..]
  {
    var reader := new EncryptReader(g, base, inner, None);
    var initialized := reader.Initialize(p);
    var sought := reader.Seek(s, p);
    r := reader.Drain(sizes, p);
  }

  // ---------- As a cursor ----------

  /** The state `initialize` and every operation below leave: at a position of `p`, readable where it can be. */
  ghost predicate Settled(reader: EncryptReader, p: Bytes)
    reads reader, reader.inner
  {
    && reader.Over(p) && reader.currentPosition <= |p|
    && (reader.Synced(p) || (reader.Spent(p) && !EncryptReader.Readable(p, reader.currentPosition)))
  }

  /**
   * What may be asked of a reader that went through `run`: any seek up to the
   * end, and any read but one at the end of a plaintext that fills its last
   * chunk, where only a read that got the last bytes may be followed by another.
   */
  ghost predicate Permitted(p: Bytes, run: History, op: Operation)
    requires run.positions != []
  {
    match op
    case DoRead(_) => EncryptReader.Readable(p, run.At()) || run.JustGot()
    case DoSeek(s) => s.End? || SeekTarget(|p|, run.At(), s) <= |p|
  }

  /** A client that never asks for more, on a cursor over `p`. */
  ghost predicate Considerate(p: Bytes, start: nat, client: Client) {
    forall run: History :: Plays(p, start, client, run) ==> Permitted(p, run, client(run.replies))
  }

  /** Reading before the end and seeking into the plaintext is always permitted. */
  lemma InsideIsConsiderate(p: Bytes, start: nat, client: Client)
    requires StaysInside(p, start, client)
    ensures Considerate(p, start, client)
  {
    forall run: History | Plays(p, start, client, run)
      ensures Permitted(p, run, client(run.replies))
    {
      assert After(GOOD_MANNERS, |p|, run.At(), client(run.replies)).inside;
    }
  }

  /**
   * The reader is a cursor on the plaintext: every considerate client gets the
   * replies of a cursor, with true answers to its seeks.
   */
  method ServeEncrypted(reader: EncryptReader, client: Client, count: nat, ghost p: Bytes)
    returns (replies: seq<Reply>, ghost run: History)
    requires Settled(reader, p) && Considerate(p, reader.currentPosition, client)
    modifies reader, reader.inner
    ensures Settled(reader, p) && Plays(p, old(reader.currentPosition), client, run)
    ensures run.replies == replies && |replies| == count && run.At() == reader.currentPosition
  {
    hide CursorStep, Settled;
    replies, run := [], History([reader.currentPosition], [], []);
    for i := 0 to count
      invariant Settled(reader, p) && Plays(p, old(reader.currentPosition), client, run)
      invariant run.replies == replies && |replies| == i && run.At() == reader.currentPosition
      invariant run.JustGot() ==> reader.Synced(p)
    {
      var op := client(replies);
      assert Permitted(p, run, op);
      var reply := AskEncrypted(reader, op, run, p);
      PlaysOn(p, old(reader.currentPosition), client, run, op, reply, reader.currentPosition);
      run := run.Then(op, reply, reader.currentPosition);
      replies := replies + [reply];
    }
  }

  method AskEncrypted(reader: EncryptReader, op: Operation, ghost run: History, ghost p: Bytes) returns (reply: Reply)
    requires Settled(reader, p) && run.positions != [] && run.At() == reader.currentPosition
    requires Permitted(p, run, op) && (run.JustGot() ==> reader.Synced(p))
    modifies reader, reader.inner
    ensures Settled(reader, p) && CursorStep(p, old(reader.currentPosition), op, reply, reader.currentPosition)
    ensures reply.Moved? ==> reply.answer == reader.currentPosition
    ensures reply.Got? && reply.bytes != [] ==> reader.Synced(p)
  {
    hide Stream, ChunkCount, PlainChunk, RawChunk;
    match op {
      case DoRead(n) =>
        var bytes := reader.Read(n, p);
        reply := Got(bytes.value);
      case DoSeek(s) =>
        var moved := reader.Seek(s, p);
        reply := if moved.Ok? then Moved(moved.value) else Refused;
    }
  }

  /**
   * `EncryptionLayerTruncatedReader::new_skip_header`. A first load that finds
   * no chunk is not treated as an end: the undecrypted cache stays readable.
   */
  method OpenTruncated(g: Aead, base: Nonce, inner: ByteSource, ghost p: Bytes)
    returns (r: Result<EncryptReader, Error>)
    requires inner.Valid() && inner.pos == 0
    requires NoForgery(g, base, p, inner.data)
    modifies inner
    ensures r.Err? <==> FirstLoad(g, base, inner.data).Err?
    ensures inner.data <= Stream(g, base, p, ChunkCount(|p|)) ==>
      (r.Ok? && FirstLoad(g, base, inner.data).value.Some? <==> Shows(inner.data, 0, |PlainChunk(p, 0)|))
    ensures r.Ok? ==> fresh(r.value) && r.value.g == g && r.value.baseNonce == base && r.value.inner == inner
    ensures r.Ok? && FirstLoad(g, base, inner.data).value.Some? ==> r.value.Authentic(p) && r.value.currentPosition == 0
    ensures r.Ok? && FirstLoad(g, base, inner.data).value.None? ==>
      r.value.cachePosition == 0 && r.value.chunkCache == RawChunk(inner.data, 0)
  {
    var reader := new EncryptReader(g, base, inner, Some(OnlyAuthenticatedData));
    hide Stream, NoForgery, Shows, ChunkCount;
    LoadAuthentic(g, base, p, inner.data, 0);
    LoadsIffShown(g, base, p, inner.data, 0);
    var loaded := reader.LoadInCache(0);
    r := if loaded.Ok? then Ok(reader) else Err(loaded.error);
  }

  /** Chunk `k` of `p` has its end shown in `t`. */
  ghost predicate ShowsChunk(p: Bytes, t: Bytes, k: nat) {
    k * CHUNK_PT <= |p| && Shows(t, k, |PlainChunk(p, k)|)
  }

  /** All chunks of `p` that begin before `at` have. */
  ghost predicate ShownBelow(p: Bytes, t: Bytes, at: nat) {
    forall k: nat :: k * CHUNK_PT < at ==> ShowsChunk(p, t, k)
  }

  /** A chunk is among what was read if and only if its end and those of all before it show. */
  ghost predicate UpToHidden(p: Bytes, t: Bytes, r: Bytes) {
    forall k: nat :: k * CHUNK_PT < |p| ==>
      (k * CHUNK_PT < |r| <==> forall j: nat :: j <= k ==> ShowsChunk(p, t, j))
  }

  lemma NothingBelow(p: Bytes, t: Bytes)
    ensures ShownBelow(p, t, 0)
  {}

  lemma ShownOn(p: Bytes, t: Bytes, a: nat, b: nat)
    requires ShownBelow(p, t, a) && ShowsChunk(p, t, a / CHUNK_PT) && b <= a / CHUNK_PT * CHUNK_PT + CHUNK_PT
    ensures ShownBelow(p, t, b)
  {
    hide ShowsChunk;
    forall k: nat | k * CHUNK_PT < b
      ensures ShowsChunk(p, t, k)
    {
      if k * CHUNK_PT >= a {
        assert k == a / CHUNK_PT;
      }
    }
  }

  lemma HiddenAt(p: Bytes, t: Bytes, r: Bytes)
    requires ShownBelow(p, t, |r|) && |r| <= |p|
    requires |r| < |p| ==> |r| % CHUNK_PT == 0 && !ShowsChunk(p, t, |r| / CHUNK_PT)
    ensures UpToHidden(p, t, r)
  {
    hide ShowsChunk;
    var m := |r| / CHUNK_PT;
    forall k: nat | k * CHUNK_PT < |p|
      ensures k * CHUNK_PT < |r| <==> forall j: nat :: j <= k ==> ShowsChunk(p, t, j)
    {
      if k * CHUNK_PT >= |r| {
        assert m <= k;
      }
    }
  }

  /** Every full chunk with more than a final block's bytes behind it is among them. */
  lemma WholeAmong(p: Bytes, t: Bytes, r: Bytes)
    requires UpToHidden(p, t, r) && r <= p && (|r| % CHUNK_PT == 0 || r == p)
    ensures WholeChunks(|p|, |t|) * CHUNK_PT <= |r|
  {
    hide UpToHidden, WholeChunks;
    var n := WholeChunks(|p|, |t|);
    if n > 0 {
      forall j: nat | j <= n - 1
        ensures ShowsChunk(p, t, j)
      {
        WholeChunksExact(|p|, |t|, j);
      }
      WholeChunksExact(|p|, |t|, n - 1);
      hide ShowsChunk;
      Among(p, t, r, n - 1);
    }
  }

  lemma Among(p: Bytes, t: Bytes, r: Bytes, k: nat)
    requires UpToHidden(p, t, r) && k * CHUNK_PT < |p| && forall j: nat :: j <= k ==> ShowsChunk(p, t, j)
    ensures k * CHUNK_PT < |r|
  {
    hide ShowsChunk;
  }

  /** With all chunks in `t`, and the magic behind them, those before the last show. */
  lemma EarlierShow(g: Aead, base: Nonce, p: Bytes, t: Bytes, k: nat)
    requires var n := ChunkCount(|p|); |Chunks(g, base, p, n)| + 8 <= |t| && k + 1 < n
    ensures ShowsChunk(p, t, k)
  {
    StreamLength(g, base, p, ChunkCount(|p|));
  }

  /**
   * Of a stream cut behind the magic that follows its chunks, all of the
   * plaintext is read if and only if the end of the last chunk shows; if that is
   * not full, this means that no more than a final block's bytes lie behind the
   * space of a full chunk, that the magic occurs nowhere earlier in the last
   * chunk, and if it lies across the edge of that space, nowhere behind it.
   */
  lemma WholeIffLastShows(g: Aead, base: Nonce, p: Bytes, t: Bytes, r: Bytes)
    requires var n := ChunkCount(|p|); t <= Stream(g, base, p, n) && |Chunks(g, base, p, n)| + 8 <= |t|
    requires p != [] && r <= p && (|r| % CHUNK_PT == 0 || r == p) && UpToHidden(p, t, r)
    ensures r == p <==> ShowsChunk(p, t, ChunkCount(|p|) - 1)
    ensures |p| % CHUNK_PT != 0 ==>
      var n := ChunkCount(|p|);
      var from, edge, end := (n - 1) * M0_CHUNK, n * M0_CHUNK, |Chunks(g, base, p, n)|;
      r == p <==>
        && |t| <= edge + FINAL_INFO
        && (forall i: nat :: from <= i < end && i + 8 <= edge ==> !OccursAt(FINAL_MAGIC, t, i))
        && (edge < end + 8 ==> forall i: nat :: edge <= i ==> !OccursAt(FINAL_MAGIC, t, i))
  {
    WholeIffLast(g, base, p, t, r);
    LastShows(g, base, p, t);
  }

  lemma WholeIffLast(g: Aead, base: Nonce, p: Bytes, t: Bytes, r: Bytes)
    requires var n := ChunkCount(|p|); t <= Stream(g, base, p, n) && |Chunks(g, base, p, n)| + 8 <= |t|
    requires p != [] && r <= p && (|r| % CHUNK_PT == 0 || r == p) && UpToHidden(p, t, r)
    ensures r == p <==> ShowsChunk(p, t, ChunkCount(|p|) - 1)
  {
    hide ShowsChunk, UpToHidden, Chunks, Stream;
    var last := ChunkCount(|p|) - 1;
    if ShowsChunk(p, t, last) {
      forall j: nat | j <= last
        ensures ShowsChunk(p, t, j)
      {
        if j < last {
          EarlierShow(g, base, p, t, j);
        }
      }
      Among(p, t, r, last);
    } else if r == p {
      LastAmong(p, t, r, last);
    }
  }

  lemma LastAmong(p: Bytes, t: Bytes, r: Bytes, k: nat)
    requires UpToHidden(p, t, r) && k * CHUNK_PT < |p| && k * CHUNK_PT < |r|
    ensures ShowsChunk(p, t, k)
  {
    hide ShowsChunk;
  }

  /** When the end of a last chunk that is not full shows. */
  lemma LastShows(g: Aead, base: Nonce, p: Bytes, t: Bytes)
    requires var n := ChunkCount(|p|); t <= Stream(g, base, p, n) && |Chunks(g, base, p, n)| + 8 <= |t|
    ensures |p| % CHUNK_PT != 0 ==>
      var n := ChunkCount(|p|);
      var from, edge, end := (n - 1) * M0_CHUNK, n * M0_CHUNK, |Chunks(g, base, p, n)|;
      ShowsChunk(p, t, n - 1) <==>
        && |t| <= edge + FINAL_INFO
        && (forall i: nat :: from <= i < end && i + 8 <= edge ==> !OccursAt(FINAL_MAGIC, t, i))
        && (edge < end + 8 ==> forall i: nat :: edge <= i ==> !OccursAt(FINAL_MAGIC, t, i))
  {
    hide OccursAt, Chunks, Stream;
    var n := ChunkCount(|p|);
    StreamLength(g, base, p, n);
    MagicBehind(g, base, p, t);
  }

  lemma MagicBehind(g: Aead, base: Nonce, p: Bytes, t: Bytes)
    requires var n := ChunkCount(|p|); t <= Stream(g, base, p, n) && |Chunks(g, base, p, n)| + 8 <= |t|
    ensures OccursAt(FINAL_MAGIC, t, |Chunks(g, base, p, ChunkCount(|p|))|)
  {
    var n := ChunkCount(|p|);
    var chunks, f := Chunks(g, base, p, n), FinalBlock(g, base, n + 1);
    assert f[..8] == FINAL_MAGIC;
    hide Chunks, FinalBlock;
    assert Stream(g, base, p, n)[|chunks|..|chunks| + 8] == f[..8];
  }

  /**
   * Authenticated-only truncated reading. Whatever bytes the source holds, as
   * long as no tag in it verifies but the writer's own and the first load finds
   * a chunk or fails, what is read before the first error or empty read is a
   * prefix of the plaintext, made of whole chunks. If the source begins the
   * writer's stream, it is exactly the chunks up to the first whose end does not
   * show, among them every full chunk with more than a final block's bytes
   * behind it.
   */
  method ReadAuthenticated(g: Aead, base: Nonce, inner: ByteSource, sizes: nat -> nat, ghost p: Bytes)
    returns (r: Bytes)
    requires inner.Valid() && inner.pos == 0
    requires NoForgery(g, base, p, inner.data)
    requires FirstLoad(g, base, inner.data) != Ok(None)
    requires forall i :: sizes(i) > 0
    modifies inner
    ensures r <= p && (|r| % CHUNK_PT == 0 || r == p)
    ensures inner.data <= Stream(g, base, p, ChunkCount(|p|)) ==> UpToHidden(p, inner.data, r)
    ensures inner.data <= Stream(g, base, p, ChunkCount(|p|)) ==> WholeChunks(|p|, |inner.data|) * CHUNK_PT <= |r|
  {
    hide Stream, NoForgery, WholeChunks, FirstLoad, ChunkCount, Shows, ShownBelow, UpToHidden;
    r := [];
    ghost var genuine := inner.data <= Stream(g, base, p, ChunkCount(|p|));
    NothingBelow(p, inner.data);
    var reader := OpenTruncated(g, base, inner, p);
    if reader.Err? {
      if genuine {
        HiddenAt(p, inner.data, r);
        WholeAmong(p, inner.data, r);
      }
      return;
    }
    var i := 0;
    while true
      invariant reader.value.Authentic(p) && reader.value.inner == inner && fresh(reader.value)
      invariant reader.value.g == g && reader.value.baseNonce == base
      invariant reader.value.currentPosition <= |p| && r == p[..reader.value.currentPosition]
      invariant genuine ==> ShownBelow(p, inner.data, |r|)
      decreases |p| - reader.value.currentPosition
    {
      ghost var from := |r|;
      var bytes := reader.value.Read(sizes(i), p);
      if bytes.Err? || bytes.value == [] {
        if genuine {
          HiddenAt(p, inner.data, r);
          WholeAmong(p, inner.data, r);
        }
        return;
      }
      if genuine {
        ShownOn(p, inner.data, from, from + |bytes.value|);
      }
      r := r + bytes.value;
      i := i + 1;
    }
  }
}
