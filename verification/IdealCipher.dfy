/**
 * Ciphers with ideal tags exist: for every plaintext there is one under which
 * nothing in the writer's stream, or in a stream cut anywhere, verifies but the
 * writer's own chunks.
 */
module IdealCiphers {
  import opened Io
  import opened NonceSchedule
  import opened AeadCipher
  import opened EncryptFormat
  import opened EncryptionReading

  // ---------- The cipher ----------

  function Filled(n: nat, x: byte): (z: Bytes)
    ensures |z| == n && forall i :: 0 <= i < n ==> z[i] == x
  {
    if n == 0 then [] else Filled(n - 1, x) + [x]
  }

  function Zeros(n: nat): (z: Bytes)
    ensures |z| == n && forall i :: 0 <= i < n ==> z[i] == 0
  {
    Filled(n, 0)
  }

  /** The tag of what the writer encrypts, and the one of everything else, which no stream contains. */
  const GOOD: Tag := Zeros(16)
  const BAD: Tag := Filled(16, 255)

  /** The sequence number a nonce comes from. */
  ghost function NumberOf(base: Nonce, n: Nonce): (s: nat)
    ensures (exists m: nat :: m < U64_LIMIT && NonceFor(base, m) == n) ==> s < U64_LIMIT && NonceFor(base, s) == n
  {
    if exists m: nat :: m < U64_LIMIT && NonceFor(base, m) == n then
      var m: nat :| m < U64_LIMIT && NonceFor(base, m) == n; m
    else 0
  }

  lemma NumberOfNonce(base: Nonce, s: nat)
    requires s < U64_LIMIT
    ensures NumberOf(base, NonceFor(base, s)) == s
  {
    NonceInjective(base, NumberOf(base, NonceFor(base, s)), s);
  }

  /** Number `s` is that of a chunk of `p`, whose ciphertext under this cipher is `c`: zeros. */
  ghost predicate OwnChunk(p: Bytes, s: nat, c: Bytes) {
    1 <= s && (s - 1) * CHUNK_PT <= |p| && c == Zeros(|PlainChunk(p, s - 1)|)
  }

  /** The keystream is the plaintext itself. */
  ghost function KeyByte(p: Bytes, s: nat, i: nat): byte {
    if 1 <= s && (s - 1) * CHUNK_PT + i < |p| then p[(s - 1) * CHUNK_PT + i] else 0
  }

  ghost function IdealTag(base: Nonce, p: Bytes, n: Nonce, aad: Bytes, c: Bytes): Tag {
    if aad != [] || OwnChunk(p, NumberOf(base, n), c) then GOOD else BAD
  }

  ghost function IdealCipher(base: Nonce, p: Bytes): Aead {
    Aead((n: Nonce, i: nat) => KeyByte(p, NumberOf(base, n), i),
      (n: Nonce, aad: Bytes, c: Bytes) => IdealTag(base, p, n, aad, c))
  }

  lemma {:induction false} XorBitsSelf(a: nat, width: nat)
    ensures XorBits(a, a, width) == 0
  {
    if width > 0 {
      XorBitsSelf(a / 2, width - 1);
    }
  }

  lemma {:induction false} XorBitsZero(a: nat, width: nat)
    requires a < Pow2(width)
    ensures XorBits(a, 0, width) == a
  {
    if width > 0 {
      XorBitsZero(a / 2, width - 1);
    }
  }

  lemma ChunkIsZeros(base: Nonce, p: Bytes, k: nat)
    requires k * CHUNK_PT <= |p| && k + 1 < U64_LIMIT
    ensures Ciphertext(IdealCipher(base, p), base, k + 1, PlainChunk(p, k)) == Zeros(|PlainChunk(p, k)|)
  {
    hide NonceFor, NumberOf;
    var pt := PlainChunk(p, k);
    var ct := Ciphertext(IdealCipher(base, p), base, k + 1, pt);
    NumberOfNonce(base, k + 1);
    forall i | 0 <= i < |ct|
      ensures ct[i] == 0
    {
      assert KeyByte(p, k + 1, i) == pt[i];
      XorBitsSelf(pt[i], 8);
    }
  }

  // ---------- Its streams ----------

  /** No run of sixteen bytes 255: eight behind one there is another byte. */
  ghost predicate Spaced(t: Bytes) {
    forall i :: 0 <= i < |t| && t[i] == 255 ==> i + 8 < |t| && t[i + 8] != 255
  }

  lemma SpacedConcat(a: Bytes, b: Bytes)
    requires Spaced(a) && Spaced(b)
    ensures Spaced(a + b)
  {
    forall i | 0 <= i < |a + b| && (a + b)[i] == 255
      ensures i + 8 < |a + b| && (a + b)[i + 8] != 255
    {
      if i < |a| {
        assert a[i] == 255 && a[i + 8] != 255;
      } else {
        assert b[i - |a|] == 255 && b[i - |a| + 8] != 255;
      }
    }
  }

  /** The bad tag is nowhere in such a string, nor in a beginning of it. */
  lemma NoBadTag(t: Bytes, u: Bytes, at: nat)
    requires Spaced(t) && u <= t && at + TAG_LENGTH <= |u|
    ensures u[at..at + TAG_LENGTH] != BAD
  {
    assert BAD[0] == 255 && BAD[8] == 255;
    assert u[at..at + TAG_LENGTH][0] == t[at] && u[at..at + TAG_LENGTH][8] == t[at + 8];
  }

  lemma ChunkSpaced(base: Nonce, p: Bytes, k: nat)
    requires k * CHUNK_PT <= |p| && k + 1 < U64_LIMIT
    ensures Spaced(ChunkBytes(IdealCipher(base, p), base, k + 1, PlainChunk(p, k)))
  {
    hide NonceFor, NumberOf, LE;
    var g, pt := IdealCipher(base, p), PlainChunk(p, k);
    ChunkIsZeros(base, p, k);
    NumberOfNonce(base, k + 1);
    var ct := Zeros(|pt|);
    assert g.tag(NonceFor(base, k + 1), [], ct) == GOOD;
    var number := LE(k + 1, 8);
    hide IdealCipher;
    assert ChunkBytes(g, base, k + 1, pt) == CHUNK_MAGIC + (number + (ct + GOOD));
    assert Spaced(CHUNK_MAGIC);
    forall i | 0 <= i < |number + (ct + GOOD)| && (number + (ct + GOOD))[i] == 255
      ensures i + 8 < |number + (ct + GOOD)| && (number + (ct + GOOD))[i + 8] != 255
    {
      assert i < 8;
    }
    SpacedConcat(CHUNK_MAGIC, number + (ct + GOOD));
  }

  lemma {:induction false} ChunksSpaced(base: Nonce, p: Bytes, n: nat)
    requires (n - 1) * CHUNK_PT <= |p| && n < U64_LIMIT
    ensures Spaced(Chunks(IdealCipher(base, p), base, p, n))
  {
    hide IdealCipher, ChunkBytes, Spaced;
    if n > 0 {
      ChunksSpaced(base, p, n - 1);
      ChunkSpaced(base, p, n - 1);
      SpacedConcat(Chunks(IdealCipher(base, p), base, p, n - 1),
        ChunkBytes(IdealCipher(base, p), base, n, PlainChunk(p, n - 1)));
    } else {
      NothingSpaced();
    }
  }

  lemma NothingSpaced()
    ensures Spaced([])
  {}

  /** The number of the final block is behind all chunks, so its content passes unchanged. */
  lemma FinalSpaced(base: Nonce, p: Bytes, n: nat)
    requires |p| <= n * CHUNK_PT && n + 1 < U64_LIMIT
    ensures Spaced(FinalBlock(IdealCipher(base, p), base, n + 1))
  {
    hide NonceFor, NumberOf;
    var g := IdealCipher(base, p);
    NumberOfNonce(base, n + 1);
    var ct := Ciphertext(g, base, n + 1, FINAL_CONTENT);
    forall i | 0 <= i < |ct|
      ensures ct[i] == FINAL_CONTENT[i]
    {
      assert g.keystream(NonceFor(base, n + 1), 0 + i) == KeyByte(p, n + 1, i) == 0;
      assert Pow2(8) == 256;
      XorBitsZero(FINAL_CONTENT[i], 8);
    }
    assert g.tag(NonceFor(base, n + 1), FINAL_AAD, ct) == GOOD;
  }

  lemma StreamSpaced(base: Nonce, p: Bytes, n: nat)
    requires Holds(|p|, n) && n + 1 < U64_LIMIT
    ensures Spaced(Stream(IdealCipher(base, p), base, p, n))
  {
    var g := IdealCipher(base, p);
    ChunksSpaced(base, p, n);
    FinalSpaced(base, p, n);
    assert Spaced(END_MAGIC);
    hide IdealCipher, Chunks, FinalBlock, Spaced;
    SpacedConcat(Chunks(g, base, p, n), FinalBlock(g, base, n + 1));
    SpacedConcat(Chunks(g, base, p, n) + FinalBlock(g, base, n + 1), END_MAGIC);
  }

  /**
   * What is assumed of tags can be had: for every plaintext and base nonce,
   * under this cipher no tag is forged in the writer's stream, however it is cut.
   */
  lemma NothingForged(base: Nonce, p: Bytes, n: nat, t: Bytes)
    requires Holds(|p|, n) && n + 1 < U64_LIMIT && t <= Stream(IdealCipher(base, p), base, p, n)
    ensures NoForgery(IdealCipher(base, p), base, p, t)
  {
    hide NonceFor, NumberOf, Stream, Spaced, IdealCipher, Ciphertext, PlainChunk;
    var g := IdealCipher(base, p);
    StreamSpaced(base, p, n);
    forall s: nat, a: nat, b: nat | s < U64_LIMIT && a <= b && b + TAG_LENGTH <= |t| && Verifies(g, base, t, s, a, b)
      ensures 1 <= s && (s - 1) * CHUNK_PT <= |p| && t[a..b] == Ciphertext(g, base, s, PlainChunk(p, s - 1))
    {
      NoBadTag(Stream(g, base, p, n), t, b);
      GoodTag(base, p, s, t[a..b]);
    }
  }

  /** Whatever does not get the bad tag is a chunk of the writer's. */
  lemma GoodTag(base: Nonce, p: Bytes, s: nat, c: Bytes)
    requires s < U64_LIMIT && IdealCipher(base, p).tag(NonceFor(base, s), [], c) != BAD
    ensures 1 <= s && (s - 1) * CHUNK_PT <= |p|
    ensures c == Ciphertext(IdealCipher(base, p), base, s, PlainChunk(p, s - 1))
  {
    hide NonceFor, NumberOf;
    NumberOfNonce(base, s);
    assert OwnChunk(p, s, c);
    ChunkIsZeros(base, p, s - 1);
  }
}
