/** The compression layer's writer. */
module CompressionWriting {
  import opened Io
  import opened CompressFormat

  /** `InData` holds how much of the current block is written, and the compressor fed with it. */
  datatype WriterState = Ready | InData(written: nat, compressor: Bytes)

  /** More data extends the open block and leaves those before it alone. */
  lemma BlockGrows(c: Codec, d: Bytes, more: Bytes, k: nat)
    requires k * BLOCK <= |d| && |d| + |more| <= (k + 1) * BLOCK
    ensures BlockOf(d + more, k) == BlockOf(d, k) + more
    ensures |d| == k * BLOCK ==> BlockOf(d + more, k) == more
    ensures Compressed(c, d + more, k) == Compressed(c, d, k)
    ensures CompressedSizes(c, d + more, k) == CompressedSizes(c, d, k)
  {
    CompressedStable(c, d, more, k);
  }

  class CompressWriter {
    const codec: Codec
    var inner: Bytes
    var state: WriterState
    var compressedSizes: seq<nat>
    // All bytes accepted so far.
    ghost var plain: Bytes

    /** The number of blocks opened so far. */
    ghost function Opened(): nat
      reads this
    {
      if state.Ready? then 0 else |compressedSizes| + 1
    }

    /** Every block but the open one is full, compressed and indexed. */
    ghost predicate Valid(head: Bytes)
      reads this
    {
      && Sound(codec)
      && (state.Ready? ==> plain == [] && compressedSizes == [] && inner == head)
      && (state.InData? ==>
            var closed := |compressedSizes|;
            && closed * BLOCK <= |plain| <= (closed + 1) * BLOCK
            && state.compressor == BlockOf(plain, closed)
            && state.written == |state.compressor|
            && compressedSizes == CompressedSizes(codec, plain, closed)
            && inner == head + Compressed(codec, plain, closed))
    }

    /** `inner` already holds the layer header. */
    constructor (codec: Codec, head: Bytes)
      requires Sound(codec)
      ensures Valid(head) && plain == [] && this.codec == codec
    {
      this.codec := codec;
      inner := head;
      state := Ready;
      compressedSizes := [];
      plain := [];
    }

    /** `into_inner` of the open block's compressor, and its size in the index. */
    method CloseBlock(ghost head: Bytes)
      requires Valid(head) && state.InData?
      modifies this`inner, this`compressedSizes
      ensures compressedSizes == CompressedSizes(codec, plain, old(|compressedSizes|) + 1)
      ensures inner == head + Compressed(codec, plain, old(|compressedSizes|) + 1)
    {
      var block := codec.compress(state.compressor);
      inner := inner + block;
      compressedSizes := compressedSizes + [|block|];
    }

    /** How much of what it is offered the compressor takes: some of it, as far as is known. */
    static method Accepted(offered: nat) returns (taken: nat)
      ensures taken <= offered && (offered > 0 ==> taken > 0)
    {
      taken := 0;
      if offered > 0 {
        taken :| 1 <= taken <= offered;
      }
    }

    /**
     * One `write` call. A full block is closed by the call after the one that
     * filled it.
     */
    method Write(buf: Bytes, ghost head: Bytes) returns (written: nat)
      requires Valid(head)
      modifies this
      ensures Valid(head) && state.InData?
      ensures written <= |buf| && (buf != [] ==> written > 0 && state.written > 0)
      ensures plain == old(plain) + buf[..written]
    {
      hide Compressed, CompressedSizes, BlockOf;
      ghost var was := plain;
      if state.InData? && state.written == BLOCK {
        CloseBlock(head);
        // back to `Ready`, and the call repeats itself from there
        written := Accepted(Min(BLOCK, |buf|));
        state := InData(written, buf[..written]);
        plain := plain + buf[..written];
        BlockGrows(codec, was, buf[..written], |compressedSizes|);
      } else if state.Ready? {
        written := Accepted(Min(BLOCK, |buf|));
        state := InData(written, buf[..written]);
        plain := plain + buf[..written];
        BlockGrows(codec, was, buf[..written], 0);
        NothingCompressed(codec, plain);
      } else {
        written := Accepted(Min(BLOCK - state.written, |buf|));
        state := InData(state.written + written, state.compressor + buf[..written]);
        plain := plain + buf[..written];
        BlockGrows(codec, was, buf[..written], |compressedSizes|);
      }
    }

    /** `write_all` */
    method WriteAll(buf: Bytes, ghost head: Bytes)
      requires Valid(head)
      modifies this
      ensures Valid(head) && plain == old(plain) + buf
      ensures buf != [] ==> state.InData? && Opened() == BlockCount(|plain|)
    {
      var rest := buf;
      while rest != []
        invariant Valid(head) && plain + rest == old(plain) + buf
        invariant |rest| < |buf| ==> state.InData? && state.written > 0
        decreases |rest|
      {
        ghost var was := plain;
        var written := Write(rest, head);
        assert was + rest == was + rest[..written] + rest[written..];
        rest := rest[written..];
      }
      assert plain + [] == plain;
    }

    /** Whatever the calls were, the result is the data cut at the block size, and its index. */
    method Finalize(ghost head: Bytes)
      requires Valid(head)
      modifies this
      ensures Blocks(|old(plain)|, old(Opened()))
      ensures old(Opened()) == 0 <==> old(state.Ready?)
      ensures inner == head + Layout(codec, old(plain), old(Opened()))
    {
      hide Compressed, CompressedSizes, SerializeSizes, LE;
      NothingCompressed(codec, plain);
      var lastBlockSize := 0;
      if state.InData? {
        CloseBlock(head);
        lastBlockSize := state.written;
      }
      ghost var n := old(Opened());
      var info := SizesInfo(compressedSizes, lastBlockSize);
      var index := SerializeSizes(info);
      LayoutCompleted(codec, plain, n, head, index);
      inner := inner + (EMPTY_TAIL_OPTS + index + LE(|index|, 8));
    }
  }
}
