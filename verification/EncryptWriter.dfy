/** The encryption layer's writer. */
module EncryptionWriting {
  import opened Io
  import opened NonceSchedule
  import opened AeadCipher
  import opened EncryptFormat

  /** One cipher context the writer has used: its sequence number and how many bytes it encrypted. */
  datatype Use = Use(number: nat, count: nat)

  /** The contexts are numbered one by one from the first data chunk on, and none encrypts more than a chunk. */
  ghost predicate Numbered(uses: seq<Use>) {
    forall i :: 0 <= i < |uses| ==> uses[i].number == FIRST_DATA_CHUNK_NUMBER + i && uses[i].count <= CHUNK_PT
  }

  /** All contexts but the last have encrypted a full chunk. */
  ghost predicate FullButLast(uses: seq<Use>) {
    forall i :: 0 <= i < |uses| - 1 ==> uses[i].count == CHUNK_PT
  }

  class EncryptWriter {
    const g: Aead
    const baseNonce: Nonce
    var inner: Bytes
    var cipher: Cipher
    var currentChunkOffset: nat
    var currentCtr: nat

    // Everything written before the running context's ciphertext, and that context's plaintext.
    ghost var closed: Bytes
    ghost var running: Bytes
    // All bytes accepted as data, and the contexts used so far, the running one last.
    ghost var plain: Bytes
    ghost var uses: seq<Use>

    /** The inner bytes are the closed part followed by the running context's ciphertext. */
    ghost predicate Valid()
      reads this
    {
      && currentChunkOffset == |running| <= CHUNK_PT
      && FIRST_DATA_CHUNK_NUMBER <= currentCtr < U64_LIMIT
      && cipher.nonce == NonceFor(baseNonce, currentCtr)
      && cipher.done == Apply(g, cipher.nonce, 0, running)
      && inner == closed + cipher.done
      && |uses| == currentCtr
      && uses[|uses| - 1] == Use(currentCtr, |running|)
      && Numbered(uses)
    }

    /** Data is being written: `head`, full chunks, then the running chunk. */
    ghost predicate InData(head: Bytes)
      reads this
    {
      && Valid()
      && cipher.aad == []
      && FullButLast(uses)
      && Holds(|plain|, currentCtr)
      && running == PlainChunk(plain, currentCtr - 1)
      && closed == head + Chunks(g, baseNonce, plain, currentCtr - 1) + ChunkHead(currentCtr)
    }

    /** `inner` already holds the layer header; the first chunk's head is written here. */
    constructor (g: Aead, baseNonce: Nonce, head: Bytes)
      ensures InData(head) && plain == []
      ensures this.g == g && this.baseNonce == baseNonce
      ensures currentCtr == ChunkCount(0)
    {
      hide NonceFor, LE;
      this.g := g;
      this.baseNonce := baseNonce;
      inner := head + ChunkHead(FIRST_DATA_CHUNK_NUMBER);
      cipher := Cipher(NonceFor(baseNonce, FIRST_DATA_CHUNK_NUMBER), [], []);
      currentChunkOffset := 0;
      currentCtr := FIRST_DATA_CHUNK_NUMBER;
      closed := head + ChunkHead(FIRST_DATA_CHUNK_NUMBER);
      running, plain := [], [];
      uses := [Use(FIRST_DATA_CHUNK_NUMBER, 0)];
    }

    /** Starts the next context and returns the tag of the one before. */
    method RenewCipher(aad: Bytes) returns (r: Result<Tag, Error>)
      requires Valid()
      modifies this
      ensures r.Ok? <==> old(currentCtr) + 1 < U64_LIMIT
      ensures r.Err? ==> r.error == HPKEError && unchanged(this)
      ensures r.Ok? ==>
        && r.value
          == g.tag(NonceFor(baseNonce, old(currentCtr)), old(cipher.aad),
            Apply(g, NonceFor(baseNonce, old(currentCtr)), 0, old(running)))
        && currentCtr == old(currentCtr) + 1 && currentChunkOffset == 0
        && cipher == Cipher(NonceFor(baseNonce, currentCtr), aad, [])
        && running == [] && closed == inner == old(inner)
        && plain == old(plain) && uses == old(uses) + [Use(currentCtr, 0)]
        && Valid()
    {
      if currentCtr + 1 >= U64_LIMIT {
        return Err(HPKEError);
      }
      currentCtr := currentCtr + 1;
      currentChunkOffset := 0;
      var nonce := ComputeNonce(baseNonce, currentCtr);
      var oldCipher := cipher;
      cipher := Cipher(nonce, aad, []);
      running := [];
      closed := inner;
      uses := uses + [Use(currentCtr, 0)];
      r := Ok(oldCipher.IntoTag(g));
    }

    /** Bytes that go to the inner layer between two contexts. */
    method WriteInner(b: Bytes)
      requires Valid() && running == []
      modifies this`inner, this`closed
      ensures Valid()
      ensures inner == closed == old(inner) + b
    {
      inner := inner + b;
      closed := inner;
    }

    /** Encrypts `buf` in the running context. */
    method Encrypt(buf: Bytes)
      requires Valid() && |running| + |buf| <= CHUNK_PT
      modifies this`inner, this`cipher, this`currentChunkOffset, this`running, this`uses
      ensures Valid()
      ensures running == old(running) + buf
      ensures cipher.nonce == old(cipher.nonce) && cipher.aad == old(cipher.aad)
      ensures old(FullButLast(uses)) ==> FullButLast(uses)
    {
      var bufTmp := Apply(g, cipher.nonce, currentChunkOffset, buf);
      ApplyConcat(g, cipher.nonce, running, buf);
      cipher := cipher.(done := cipher.done + bufTmp);
      inner := inner + bufTmp;
      currentChunkOffset := currentChunkOffset + |buf|;
      running := running + buf;
      uses := uses[|uses| - 1 := Use(currentCtr, |running|)];
    }

    /** Closes the full chunk and writes the head of the next one. */
    method OpenChunk(ghost head: Bytes) returns (r: Result<(), Error>)
      requires InData(head) && currentChunkOffset == CHUNK_PT
      modifies this
      ensures r.Err? ==> r.error == HPKEError && unchanged(this)
      ensures r.Err? <==> old(currentCtr) + 1 == U64_LIMIT
      ensures r.Ok? ==> InData(head) && running == [] && plain == old(plain) && currentCtr == old(currentCtr) + 1
    {
      hide Chunks, ChunkHead, LE, Numbered;
      ghost var n, p, sealed := currentCtr, plain, cipher.done;
      var tag := RenewCipher([]);
      if tag.Err? {
        return Err(tag.error);
      }
      ChunkCompleted(g, baseNonce, p, n, head, sealed, ChunkHead(n + 1));
      WriteInner(tag.value + ChunkHead(currentCtr));
      r := Ok(());
    }

    /** Takes data into the running chunk. */
    method Take(buf: Bytes, ghost head: Bytes)
      requires Valid() && |running| + |buf| <= CHUNK_PT
      modifies this
      ensures Valid()
      ensures running == old(running) + buf && closed == old(closed)
      ensures currentCtr == old(currentCtr) && cipher.aad == old(cipher.aad)
      ensures old(InData(head)) ==> InData(head) && plain == old(plain) + buf
    {
      hide Chunks, PlainChunk, ChunkHead, NonceFor, Apply, Numbered, FullButLast;
      if InData(head) {
        RunningGrows(g, baseNonce, plain, buf, currentCtr);
      }
      Encrypt(buf);
      plain := plain + buf;
    }

    /**
     * One `write` call. A full chunk is closed only now, by the call after the
     * one that filled it, whatever that call brings; then up to 4096 bytes are
     * taken. `head` only names what precedes the chunks.
     */
    method Write(buf: Bytes, ghost head: Bytes) returns (r: Result<nat, Error>)
      requires Valid() && (currentChunkOffset == CHUNK_PT ==> InData(head))
      modifies this
      ensures r.Err? ==> r.error == HPKEError && unchanged(this)
      ensures r.Err? <==> old(currentChunkOffset) == CHUNK_PT && old(currentCtr) + 1 == U64_LIMIT
      ensures r.Ok? ==> Valid() && r.value <= |buf| && (buf != [] ==> r.value > 0)
      ensures r.Ok? && old(currentChunkOffset) < CHUNK_PT ==>
        && r.value == Min(Min(CIPHER_BUF_SIZE, |buf|), CHUNK_PT - old(currentChunkOffset))
        && running == old(running) + buf[..r.value] && closed == old(closed)
        && currentCtr == old(currentCtr) && cipher.aad == old(cipher.aad)
      ensures old(InData(head)) && r.Ok? ==>
        && InData(head) && plain == old(plain) + buf[..r.value]
        && currentCtr == old(currentCtr) + (if old(currentChunkOffset) == CHUNK_PT then 1 else 0)
    {
      if currentChunkOffset == CHUNK_PT {
        var chunk := OpenChunk(head);
        if chunk.Err? {
          return Err(chunk.error);
        }
      }
      var size := Min(Min(CIPHER_BUF_SIZE, |buf|), CHUNK_PT - currentChunkOffset);
      Take(buf[..size], head);
      r := Ok(size);
    }

    /** `write_all`: only nonempty `write` calls, until everything is taken. */
    method WriteAll(buf: Bytes, ghost head: Bytes) returns (r: Result<(), Error>)
      requires InData(head) && currentCtr == ChunkCount(|plain|)
      modifies this
      ensures r.Ok? ==> InData(head) && plain == old(plain) + buf && currentCtr == ChunkCount(|plain|)
      ensures r.Err? ==> r.error == HPKEError && |old(plain)| + |buf| > CHUNK_PT * (U64_LIMIT - 1)
    {
      hide Chunks, PlainChunk, ChunkHead, NonceFor, Apply, Numbered, FullButLast;
      var rest := buf;
      while rest != []
        invariant InData(head) && currentCtr == ChunkCount(|plain|)
        invariant plain + rest == old(plain) + buf
        decreases |rest|
      {
        ghost var was := plain;
        var written := Write(rest, head);
        if written.Err? {
          assert |plain + rest| == |old(plain) + buf|;
          return Err(written.error);
        }
        assert was + rest == was + rest[..written.value] + rest[written.value..];
        rest := rest[written.value..];
      }
      assert plain + [] == plain;
      r := Ok(());
    }

    /** Writes the tag of the last chunk and the magic of the final block. */
    method CloseData(ghost head: Bytes) returns (r: Result<(), Error>)
      requires InData(head)
      modifies this
      ensures r.Err? <==> old(currentCtr) + 1 == U64_LIMIT
      ensures r.Ok? ==>
        && Valid() && running == [] && currentCtr == old(currentCtr) + 1
        && cipher.aad == FINAL_AAD
        && closed == head + Chunks(g, baseNonce, old(plain), old(currentCtr)) + FINAL_MAGIC
    {
      hide Chunks, ChunkHead, LE, Numbered;
      ghost var n, sealed := currentCtr, cipher.done;
      var lastTag := RenewCipher(FINAL_AAD);
      if lastTag.Err? {
        return Err(lastTag.error);
      }
      ChunkCompleted(g, baseNonce, plain, n, head, sealed, FINAL_MAGIC);
      WriteInner(lastTag.value + FINAL_MAGIC);
      r := Ok(());
    }

    /**
     * Closes the running chunk and writes the final block. The result is
     * exactly the stream of the data written, in as many chunks as were opened.
     */
    method Finalize(ghost head: Bytes) returns (r: Result<(), Error>)
      requires InData(head)
      modifies this
      ensures r.Ok? <==> old(currentCtr) + 2 < U64_LIMIT
      ensures r.Ok? ==> inner == head + Stream(g, baseNonce, old(plain), old(currentCtr))
      ensures r.Ok? ==> Valid()
    {
      hide Chunks, PlainChunk, ChunkHead, Stream, LE, Numbered;
      ghost var n := currentCtr;
      r := CloseData(head);
      if r.Err? {
        return;
      }
      // write_all takes the ten bytes in one call
      var written := Write(FINAL_CONTENT, head);
      assert FINAL_CONTENT[..10] == FINAL_CONTENT && running == [] + FINAL_CONTENT == FINAL_CONTENT;
      FinalCompleted(g, baseNonce, old(plain), n, head, cipher.done);
      var finalTag := RenewCipher([]);
      if finalTag.Err? {
        return Err(finalTag.error);
      }
      WriteInner(finalTag.value + END_MAGIC);
      r := Ok(());
    }
  }

  /** More data extends the running chunk and leaves those before it alone. */
  lemma RunningGrows(g: Aead, base: Nonce, p: Bytes, more: Bytes, n: nat)
    requires Holds(|p|, n) && |PlainChunk(p, n - 1)| + |more| <= CHUNK_PT
    ensures Holds(|p + more|, n)
    ensures Chunks(g, base, p + more, n - 1) == Chunks(g, base, p, n - 1)
    ensures PlainChunk(p + more, n - 1) == PlainChunk(p, n - 1) + more
  {
    ChunksStable(g, base, p, more, n - 1);
  }

  /** The nonces a writer has encrypted with: number 0, for the key commitment, then those of its contexts. */
  ghost function NoncesUsed(w: EncryptWriter): (ns: seq<Nonce>)
    reads w
    ensures |ns| == 1 + |w.uses|
  {
    [NonceFor(w.baseNonce, 0)]
      + seq(|w.uses|, i requires 0 <= i < |w.uses| reads w => NonceFor(w.baseNonce, w.uses[i].number))
  }

  /** In no state a writer can be in has a nonce been used twice, or a context for more than a chunk. */
  lemma NoNonceUsedTwice(w: EncryptWriter)
    requires w.Valid()
    ensures |NoncesUsed(w)| == 1 + w.currentCtr && NoncesUsed(w)[w.currentCtr] == w.cipher.nonce
    ensures forall i, j :: 0 <= i < j < |NoncesUsed(w)| ==> NoncesUsed(w)[i] != NoncesUsed(w)[j]
    ensures forall i :: 0 <= i < |w.uses| ==> w.uses[i].count <= CHUNK_PT
  {
    hide NonceFor;
    var ns := NoncesUsed(w);
    forall i, j | 0 <= i < j < |ns|
      ensures ns[i] != ns[j]
    {
      assert ns[i] == NonceFor(w.baseNonce, i) && ns[j] == NonceFor(w.baseNonce, j);
      if ns[i] == ns[j] {
        NonceInjective(w.baseNonce, i, j);
      }
    }
  }
}
