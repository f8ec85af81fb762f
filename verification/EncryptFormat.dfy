/** Layout of the encryption layer's inner stream, and its size arithmetic. */
module EncryptFormat {
  import opened Io
  import opened NonceSchedule
  import opened AeadCipher

  const CIPHER_BUF_SIZE := 4096
  const CHUNK_PT := 131072          // NORMAL_CHUNK_PT_SIZE
  const CHUNK_HEAD := 16            // chunk magic and chunk number
  const M0_CHUNK := 131104          // head, plaintext size and tag of a full chunk
  const FINAL_INFO := 34            // final magic, final content and its tag
  const FINAL_INFO_WOM := 26        // without the magic
  const FIRST_DATA_CHUNK_NUMBER := 1

  const CHUNK_MAGIC: Bytes := Ascii("M0ENCCNK")
  const FINAL_MAGIC: Bytes := Ascii("M0FNLBLK")
  const FINAL_CONTENT: Bytes := Ascii("FINALBLOCK")
  const FINAL_AAD: Bytes := Ascii("FINALAAD")
  const END_MAGIC: Bytes := Ascii("ENCMLAAB")

  function ChunkHead(number: nat): (h: Bytes)
    ensures |h| == CHUNK_HEAD
  {
    CHUNK_MAGIC + LE(number, 8)
  }

  /** Ciphertext of plaintext `pt` under sequence number `s`. */
  function Ciphertext(g: Aead, base: Nonce, s: nat, pt: Bytes): (c: Bytes)
    ensures |c| == |pt|
  {
    Apply(g, NonceFor(base, s), 0, pt)
  }

  function ChunkBytes(g: Aead, base: Nonce, s: nat, pt: Bytes): (c: Bytes)
    ensures |c| == CHUNK_HEAD + |pt| + TAG_LENGTH
  {
    var ct := Ciphertext(g, base, s, pt);
    ChunkHead(s) + ct + g.tag(NonceFor(base, s), [], ct)
  }

  /** Plaintext of the `k`-th chunk, counted from zero. */
  function PlainChunk(p: Bytes, k: nat): (c: Bytes)
    requires k * CHUNK_PT <= |p|
    ensures |c| == Min(CHUNK_PT, |p| - k * CHUNK_PT)
  {
    p[k * CHUNK_PT..Min((k + 1) * CHUNK_PT, |p|)]
  }

  /** The first `n` chunks of `p`. */
  function Chunks(g: Aead, base: Nonce, p: Bytes, n: nat): (c: Bytes)
    requires (n - 1) * CHUNK_PT <= |p|
  {
    if n == 0 then []
    else Chunks(g, base, p, n - 1) + ChunkBytes(g, base, n, PlainChunk(p, n - 1))
  }

  function FinalBlock(g: Aead, base: Nonce, s: nat): (f: Bytes)
    ensures |f| == FINAL_INFO
  {
    var ct := Ciphertext(g, base, s, FINAL_CONTENT);
    FINAL_MAGIC + ct + g.tag(NonceFor(base, s), FINAL_AAD, ct)
  }

  /** `n` chunks can hold a plaintext of `length` bytes, the last chunk being possibly empty. */
  predicate Holds(length: nat, n: nat) {
    1 <= n && (n - 1) * CHUNK_PT <= length <= n * CHUNK_PT
  }

  /** The least number of chunks the writer opens for `length` bytes. */
  function ChunkCount(length: nat): (n: nat)
    ensures Holds(length, n)
    ensures forall m: nat :: Holds(length, m) ==> n <= m <= n + 1
    ensures length % CHUNK_PT != 0 || length == 0 ==> forall m: nat :: Holds(length, m) ==> m == n
  {
    if length == 0 then 1 else (length + CHUNK_PT - 1) / CHUNK_PT
  }

  /** The stream holding `p` in `n` chunks: chunks, final block, closing magic. */
  function Stream(g: Aead, base: Nonce, p: Bytes, n: nat): (w: Bytes)
    requires Holds(|p|, n)
  {
    Chunks(g, base, p, n) + FinalBlock(g, base, n + 1) + END_MAGIC
  }

  /** A head, the ciphertext and its tag complete the `n`-th chunk. */
  lemma ChunkCompleted(g: Aead, base: Nonce, p: Bytes, n: nat, before: Bytes, ct: Bytes, tail: Bytes)
    requires 1 <= n && (n - 1) * CHUNK_PT <= |p|
    requires ct == Ciphertext(g, base, n, PlainChunk(p, n - 1))
    ensures (before + Chunks(g, base, p, n - 1) + ChunkHead(n) + ct) + (g.tag(NonceFor(base, n), [], ct) + tail)
         == before + Chunks(g, base, p, n) + tail
  {
    hide ChunkHead, NonceFor, PlainChunk, LE;
    assert Chunks(g, base, p, n) == Chunks(g, base, p, n - 1) + (ChunkHead(n) + ct + g.tag(NonceFor(base, n), [], ct));
  }

  lemma FinalCompleted(g: Aead, base: Nonce, p: Bytes, n: nat, before: Bytes, ct: Bytes)
    requires Holds(|p|, n)
    requires ct == Ciphertext(g, base, n + 1, FINAL_CONTENT)
    ensures (before + Chunks(g, base, p, n) + FINAL_MAGIC + ct)
      + (g.tag(NonceFor(base, n + 1), FINAL_AAD, ct) + END_MAGIC)
         == before + Stream(g, base, p, n)
  {
    assert FinalBlock(g, base, n + 1) == FINAL_MAGIC + ct + g.tag(NonceFor(base, n + 1), FINAL_AAD, ct);
  }

  // ---------- Where chunks lie ----------

  lemma {:induction false} ChunksLength(g: Aead, base: Nonce, p: Bytes, n: nat)
    requires n * CHUNK_PT <= |p|
    ensures |Chunks(g, base, p, n)| == n * M0_CHUNK
  {
    if n > 0 {
      ChunksLength(g, base, p, n - 1);
    }
  }

  lemma StreamLength(g: Aead, base: Nonce, p: Bytes, n: nat)
    requires Holds(|p|, n)
    ensures |Chunks(g, base, p, n)| == |p| + 32 * n
    ensures |Stream(g, base, p, n)| == |p| + 32 * n + FINAL_INFO + 8
  {
    ChunksLength(g, base, p, n - 1);
  }

  /** Appending plaintext leaves the chunks that are already full as they are. */
  lemma {:induction false} ChunksStable(g: Aead, base: Nonce, p: Bytes, more: Bytes, n: nat)
    requires n * CHUNK_PT <= |p|
    ensures Chunks(g, base, p + more, n) == Chunks(g, base, p, n)
  {
    if n > 0 {
      ChunksStable(g, base, p, more, n - 1);
      assert PlainChunk(p + more, n - 1) == PlainChunk(p, n - 1);
    }
  }

  /** Chunk `k` of the stream lies at `k` full chunk sizes. */
  lemma {:induction false} ChunkInStream(g: Aead, base: Nonce, p: Bytes, n: nat, k: nat)
    requires k < n && (n - 1) * CHUNK_PT <= |p|
    ensures var pt := PlainChunk(p, k);
            var at := k * M0_CHUNK;
            at + CHUNK_HEAD + |pt| + TAG_LENGTH <= |Chunks(g, base, p, n)| &&
            Chunks(g, base, p, n)[at..at + CHUNK_HEAD + |pt| + TAG_LENGTH] == ChunkBytes(g, base, k + 1, pt)
    decreases n
  {
    ChunksLength(g, base, p, n - 1);
    if k < n - 1 {
      ChunkInStream(g, base, p, n - 1, k);
    }
  }

  // ---------- Size arithmetic ----------

  /** `set_all_plaintext_size`: the plaintext size as the reader computes it from the inner length. */
  function PlaintextSize(innerLength: nat): Result<nat, Error> {
    var body := if innerLength < 8 + FINAL_INFO + CHUNK_HEAD then 0 else innerLength - (8 + FINAL_INFO + CHUNK_HEAD);
    var chunks, last := body / M0_CHUNK, body % M0_CHUNK;
    if last == 0 then Ok(chunks * CHUNK_PT)
    else if chunks * CHUNK_PT + last < TAG_LENGTH then Err(DeserializationError)
    else Ok(chunks * CHUNK_PT + last - TAG_LENGTH)
  }

  /** Number, from zero, of the chunk the last plaintext byte is in. */
  function LastDataChunkNumber(size: nat): nat {
    if size % CHUNK_PT == 0 then (if size == 0 then 0 else size / CHUNK_PT - 1)
    else size / CHUNK_PT
  }

  /**
   * The inner length alone gives back the plaintext length, also when the last
   * chunk is empty or full; but only the least chunk count gives the final
   * block the sequence number the reader expects.
   */
  lemma SizeRecovered(g: Aead, base: Nonce, p: Bytes, n: nat)
    requires Holds(|p|, n)
    ensures PlaintextSize(|Stream(g, base, p, n)|) == Ok(|p|)
    ensures LastDataChunkNumber(|p|) == ChunkCount(|p|) - 1
    ensures LastDataChunkNumber(|p|) + 1 + FIRST_DATA_CHUNK_NUMBER == n + 1 <==> n == ChunkCount(|p|)
  {
    StreamLength(g, base, p, n);
    var body := |p| + 32 * n - CHUNK_HEAD;
    var rest := |p| - (n - 1) * CHUNK_PT;
    assert body == (n - 1) * M0_CHUNK + (rest + 16);
    assert body / M0_CHUNK == n - 1 && body % M0_CHUNK == rest + 16;
  }

  lemma LastIsCount(size: nat)
    ensures LastDataChunkNumber(size) + 1 == ChunkCount(size)
  {}

  /** Lengths no stream has: too short ones count as empty, and only those that cannot hold a tag are refused. */
  lemma ShortLengths(innerLength: nat)
    ensures innerLength <= 58 ==> PlaintextSize(innerLength) == Ok(0)
    ensures 58 < innerLength < 74 ==> PlaintextSize(innerLength) == Err(DeserializationError)
    ensures 74 <= innerLength ==> PlaintextSize(innerLength).Ok?
  {}

  /** `this_layer_position_to_inner_position` */
  function ToInnerPosition(position: nat): Result<nat, Error> {
    var inner := position / CHUNK_PT * M0_CHUNK + position % CHUNK_PT + CHUNK_HEAD;
    if inner < U64_LIMIT then Ok(inner) else Err(InvalidInput)
  }

  /** No position inside the plaintext of a stream overflows. */
  lemma InnerPositionFits(position: nat, innerLength: nat, n: nat, length: nat)
    requires Holds(length, n) && position <= length
    requires length + 32 * n + FINAL_INFO + 8 <= innerLength < I64_LIMIT
    ensures ToInnerPosition(position).Ok?
    ensures position / CHUNK_PT * M0_CHUNK <= innerLength
  {
    assert position == position / CHUNK_PT * CHUNK_PT + position % CHUNK_PT;
  }

  /** `_inner_position_in_plaintext_to_this_layer_position` */
  function FromInnerPosition(inner: nat): Result<nat, Error> {
    if inner % M0_CHUNK < CHUNK_HEAD then Err(InvalidInput)
    else
      var position := inner / M0_CHUNK * CHUNK_PT + (inner % M0_CHUNK - CHUNK_HEAD);
      if position < U64_LIMIT then Ok(position) else Err(InvalidInput)
  }

  /** The two maps are inverse on plaintext positions, and the image skips heads and tags. */
  lemma PositionMapsInverse(position: nat)
    requires ToInnerPosition(position).Ok?
    ensures var inner := ToInnerPosition(position).value;
            FromInnerPosition(inner) == Ok(position) &&
            CHUNK_HEAD <= inner % M0_CHUNK < CHUNK_HEAD + CHUNK_PT &&
            inner / M0_CHUNK == position / CHUNK_PT
  {
    var k, r := position / CHUNK_PT, position % CHUNK_PT;
    var inner := k * M0_CHUNK + (r + CHUNK_HEAD);
    assert inner / M0_CHUNK == k && inner % M0_CHUNK == r + CHUNK_HEAD;
  }

  lemma InnerPositionInverse(inner: nat)
    requires inner < U64_LIMIT && CHUNK_HEAD <= inner % M0_CHUNK < CHUNK_HEAD + CHUNK_PT
    ensures FromInnerPosition(inner).Ok?
    ensures ToInnerPosition(FromInnerPosition(inner).value) == Ok(inner)
  {
    var k, r := inner / M0_CHUNK, inner % M0_CHUNK - CHUNK_HEAD;
    var position := k * CHUNK_PT + r;
    assert position / CHUNK_PT == k && position % CHUNK_PT == r;
  }

  lemma ChunkByteAt(g: Aead, base: Nonce, s: nat, pt: Bytes, r: nat)
    requires r < |pt|
    ensures ChunkBytes(g, base, s, pt)[CHUNK_HEAD + r] == Xor(pt[r], g.keystream(NonceFor(base, s), r))
  {
    assert Ciphertext(g, base, s, pt)[r] == Xor(pt[r], g.keystream(NonceFor(base, s), 0 + r));
  }

  /**
   * The byte of the stream at the mapped position is the encrypted plaintext
   * byte; the reader's end-of-cache offset is a plaintext offset because head
   * and tag have the same size.
   */
  lemma PositionMapFindsByte(g: Aead, base: Nonce, p: Bytes, n: nat, position: nat)
    requires Holds(|p|, n) && position < |p| && ToInnerPosition(position).Ok?
    ensures CHUNK_HEAD == TAG_LENGTH
    ensures var inner := ToInnerPosition(position).value;
            inner < |Stream(g, base, p, n)| &&
            Stream(g, base, p, n)[inner] ==
              Xor(p[position], g.keystream(NonceFor(base, position / CHUNK_PT + 1), position % CHUNK_PT))
  {
    hide Chunks, ChunkBytes, NonceFor, FinalBlock;
    var k, r := position / CHUNK_PT, position % CHUNK_PT;
    assert k < n;
    ChunkInStream(g, base, p, n, k);
    var pt := PlainChunk(p, k);
    var at := k * M0_CHUNK;
    var slice := Chunks(g, base, p, n)[at..at + CHUNK_HEAD + |pt| + TAG_LENGTH];
    ChunkByteAt(g, base, k + 1, pt, r);
    assert Chunks(g, base, p, n)[at + CHUNK_HEAD + r] == slice[CHUNK_HEAD + r];
  }
}
