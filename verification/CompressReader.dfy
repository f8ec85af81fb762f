/** The compression layer's seekable reader. */
module CompressionReading {
  import opened Io
  import opened CompressFormat
  import opened Cursors

  // ---------- Finding blocks through the index ----------

  /** Over the writer's layout, the index gives each block's sizes and offset, and the total length. */
  lemma IndexFindsBlock(c: Codec, d: Bytes, n: nat, k: nat)
    requires Blocks(|d|, n) && k * BLOCK < |d|
    ensures k < n
    ensures IndexOf(c, d, n).MaxUncompressedPos() == Ok(|d|)
    ensures IndexOf(c, d, n).UncompressedBlockSizeAt(k) == Ok(|BlockOf(d, k)|)
    ensures var index, w := IndexOf(c, d, n), Layout(c, d, n);
            var at := Sum(index.compressedSizes[..k]);
            index.CompressedBlockSizeAt(k * BLOCK).Ok? &&
            var size := index.CompressedBlockSizeAt(k * BLOCK).value;
            at + size <= |w| && w[at..at + size] == c.compress(BlockOf(d, k))
  {
    hide Compressed, CompressedSizes, Sum, SerializeSizes, LE;
    BlockInCompressed(c, d, n, k);
    SizesSum(c, d, k);
    assert k * BLOCK / BLOCK == k;
    var at, size := |Compressed(c, d, k)|, CompressedSizes(c, d, n)[k];
    assert Layout(c, d, n)[at..at + size] == Compressed(c, d, n)[at..at + size];
  }

  /** The index is found by its length field at the end, and read back. */
  lemma IndexRecovered(c: Codec, d: Bytes, n: nat)
    requires Sound(c) && Blocks(|d|, n) && |Layout(c, d, n)| < I64_LIMIT
    ensures var w := Layout(c, d, n);
            |w| >= 8 &&
            var len := FromLE(w[|w| - 8..]);
            8 + len <= |w| && DeserializeSizes(w[|w| - 8 - len..|w| - 8]) == Some(IndexOf(c, d, n))
  {
    var w, index := Layout(c, d, n), SerializeSizes(IndexOf(c, d, n));
    U64RoundTrip(|index|);
    assert w[|w| - 8..] == LE(|index|, 8);
    assert w[|w| - 8 - |index|..|w| - 8] == index;
    SizesFit(c, d, n);
    SizesRoundTrip(IndexOf(c, d, n));
  }

  // ---------- The reader ----------

  /** A decompressor over one block: what it will yield, and how much it has yielded. */
  datatype Decompressor = Decompressor(content: Bytes, at: nat)

  datatype ReaderState =
    | Ready
    | InData(read: nat, uncompressedSize: nat, decompressor: Decompressor)
    | Empty

  /** Opening block `k` by an index, whatever the index says: which error, or what is decompressed. */
  ghost predicate BlockOpened(codec: Codec, data: Bytes, info: SizesInfo, k: nat,
    r: Result<(nat, Decompressor), Error>) {
    var sizes, last := info.compressedSizes, info.lastBlockSize;
    if sizes == [] then r == Err(DeserializationError)
    else if (|sizes| - 1) * BLOCK + last <= k * BLOCK then r == Err(EndOfStream)
    else
      var at := Sum(sizes[..Min(k, |sizes|)]);
      if at > |data| then r == Err(InvalidInput)
      else if k >= |sizes| then r == Err(DeserializationError)
      else
        var block := codec.decompress(data[at..Min(at + sizes[k], |data|)]);
        r == Ok((if k + 1 < |sizes| then BLOCK else last, Decompressor(block, 0)))
  }

  class CompressReader {
    const codec: Codec
    const inner: ByteSource
    var state: ReaderState
    var sizesInfo: Option<SizesInfo>
    var underlayerPos: nat
    // The block the decompressor is in.
    ghost var block: nat
    // Whether the inner layer was only used inside before; this reader keeps to it.
    ghost const inside: bool

    /** The source is the writer's layout of `d` in `n` blocks, and the index is loaded. */
    ghost predicate Over(d: Bytes, n: nat)
      reads this, inner
    {
      && inner.Valid() && inner.manners.inside == inside
      && Sound(codec)
      && Blocks(|d|, n)
      && inner.data == Layout(codec, d, n)
      && sizesInfo == Some(IndexOf(codec, d, n))
    }

    /**
     * The state says that the reader stands at `underlayerPos` of `d`. Where the
     * inner layer stands is not known while a decompressor is on it: it may have
     * read ahead.
     */
    ghost predicate At(d: Bytes)
      reads this
    {
      && !state.Empty?
      && (state.InData? ==> state.decompressor.at <= |state.decompressor.content|)
      && (underlayerPos < |d| ==>
            if state.Ready? then underlayerPos % BLOCK == 0
            else
              && block * BLOCK < |d|
              && state.uncompressedSize == |BlockOf(d, block)|
              && state.read <= state.uncompressedSize
              && underlayerPos == block * BLOCK + state.read
              && state.decompressor == Decompressor(BlockOf(d, block), state.read))
    }

    ghost predicate Synced(d: Bytes, n: nat)
      reads this, inner
    {
      Over(d, n) && At(d)
    }

    constructor (codec: Codec, inner: ByteSource)
      ensures this.codec == codec && this.inner == inner
      ensures state == Ready && sizesInfo == None && underlayerPos == 0
      ensures inside == inner.manners.inside
    {
      inside := inner.manners.inside;
      this.codec := codec;
      this.inner := inner;
      state := Ready;
      sizesInfo := None;
      underlayerPos := 0;
    }

    /** `initialize`: reads the index from the end. */
    method Initialize(ghost d: Bytes, ghost n: nat) returns (r: Result<(), Error>)
      requires inner.Valid()
      modifies this, inner
      ensures inner.Valid() && underlayerPos == old(underlayerPos)
      ensures r.Ok? ==>
        var w := inner.data;
        && 8 <= |w| && FromLE(w[|w| - 8..]) <= |w| - 8
        && sizesInfo.Some? && sizesInfo == DeserializeSizes(w[|w| - 8 - FromLE(w[|w| - 8..])..|w| - 8])
      ensures |inner.data| < 8 && old(state) == Ready ==> r == Err(InvalidInput)
      ensures |inner.data| >= 8 && old(state) == Ready && r.Err? ==> r.error == DeserializationError
      ensures
        && old(state) == Ready && old(underlayerPos) == 0 && old(inner.manners.inside) == inside
        && Sound(codec) && Blocks(|d|, n) && inner.data == Layout(codec, d, n) ==>
        r == Ok(()) && Synced(d, n)
    {
      hide Layout, LE, FromLE, IndexOf, DeserializeSizes, Blocks;
      if state != Ready {
        return Err(WrongReaderState);
      }
      if Sound(codec) && Blocks(|d|, n) && inner.data == Layout(codec, d, n) {
        IndexRecovered(codec, d, n);
      }
      var pos := inner.Seek(End(-8));
      if pos.Err? {
        return Err(pos.error);
      }
      var lenBytes := inner.ReadToEnd(8);
      assert lenBytes == inner.data[|inner.data| - 8..];
      var len := FromLE(lenBytes);
      if len > pos.value {
        return Err(DeserializationError);
      }
      var sought := inner.Seek(Start(pos.value - len));
      var index := inner.ReadToEnd(len);
      assert index == inner.data[pos.value - len..pos.value];
      match DeserializeSizes(index) {
        case None =>
          r := Err(DeserializationError);
        case Some(info) =>
          sizesInfo := Some(info);
          r := Ok(());
      }
    }

    /** `pos_in_stream` */
    function PosInStream(uncompressedPos: nat): Result<bool, Error>
      reads this
    {
      match sizesInfo
      case None => Ok(true)
      case Some(info) =>
        match info.MaxUncompressedPos()
        case Ok(max) => Ok(uncompressedPos < max)
        case Err(e) => Err(e)
    }

    /**
     * Moves the inner layer to the block starting at `uncompressedPos` and puts
     * a decompressor on it: `sync_inner_with_uncompressed_pos`,
     * `new_decompressor_at` and `uncompressed_block_size_at`.
     */
    method OpenBlock(uncompressedPos: nat, ghost d: Bytes, ghost n: nat) returns (r: Result<(nat, Decompressor), Error>)
      requires inner.Valid()
      modifies inner
      ensures inner.Valid() && (old(Over(d, n)) ==> Over(d, n))
      ensures r.Ok? ==> r.value.1.at == 0
      ensures uncompressedPos % BLOCK != 0 ==> r == Err(BadAPIArgument)
      ensures uncompressedPos % BLOCK == 0 && sizesInfo.None? ==> r == Err(MissingMetadata)
      ensures uncompressedPos % BLOCK == 0 && sizesInfo.Some? ==>
        BlockOpened(codec, inner.data, sizesInfo.value, uncompressedPos / BLOCK, r)
      ensures old(Over(d, n)) && uncompressedPos % BLOCK == 0 && uncompressedPos < |d| ==>
        var b := BlockOf(d, uncompressedPos / BLOCK); r == Ok((|b|, Decompressor(b, 0)))
      ensures old(Over(d, n)) && |d| <= uncompressedPos ==> r.Err?
      ensures old(Over(d, n)) && n > 0 && uncompressedPos % BLOCK == 0 && |d| <= uncompressedPos ==>
        r == Err(EndOfStream)
    {
      hide Layout, LE;
      if uncompressedPos % BLOCK != 0 {
        return Err(BadAPIArgument);
      }
      ghost var k := uncompressedPos / BLOCK;
      if Over(d, n) && uncompressedPos < |d| {
        IndexFindsBlock(codec, d, n, k);
      }
      match PosInStream(uncompressedPos) {
        case Err(e) =>
          return Err(DeserializationError);
        case Ok(inStream) =>
          if !inStream {
            return Err(EndOfStream);
          }
      }
      if sizesInfo.None? {
        return Err(MissingMetadata);
      }
      var info := sizesInfo.value;
      var blockNum := uncompressedPos / BLOCK;
      var sought := inner.Seek(Start(Sum(info.compressedSizes[..Min(blockNum, |info.compressedSizes|)])));
      if sought.Err? {
        return Err(sought.error);
      }
      var compressedSize := info.CompressedBlockSizeAt(uncompressedPos);
      if compressedSize.Err? {
        return Err(compressedSize.error);
      }
      match info.UncompressedBlockSizeAt(blockNum) {
        case Err(e) =>
          r := Err(e);
        case Ok(uncompressedSize) =>
          var compressed := inner.ReadToEnd(compressedSize.value);
          r := Ok((uncompressedSize, Decompressor(codec.decompress(compressed), 0)));
      }
    }

    /** Opens the block that starts at the reader's position. */
    method EnterBlock(ghost d: Bytes, ghost n: nat) returns (r: Result<(), Error>)
      requires inner.Valid() && state.Ready?
      modifies this`state, this`block, inner
      ensures inner.Valid() && (r.Ok? ==> state.InData? && state.decompressor.at <= |state.decompressor.content|)
      ensures old(Synced(d, n)) && underlayerPos < |d| ==> r.Ok? && Synced(d, n) && state.read < state.uncompressedSize
    {
      hide Layout, LE, IndexOf;
      var blockAt := OpenBlock(underlayerPos, d, n);
      match blockAt {
        case Err(e) =>
          state := Empty;
          r := Err(e);
        case Ok((uncompressedSize, decompressor)) =>
          state := InData(0, uncompressedSize, decompressor);
          block := underlayerPos / BLOCK;
          r := Ok(());
      }
    }

    /** A read of the open decompressor, never past the block. */
    method ReadBlock(n: nat, ghost d: Bytes) returns (r: Result<Bytes, Error>)
      requires state.InData? && state.decompressor.at <= |state.decompressor.content|
      modifies this`state, this`underlayerPos
      ensures old(At(d)) && old(underlayerPos) < |d| ==>
        && r.Ok? && At(d) && |r.value| <= n
        && underlayerPos == old(underlayerPos) + |r.value| <= |d|
        && r.value == d[old(underlayerPos)..underlayerPos]
        && (n > 0 && old(state.read < state.uncompressedSize) ==> r.value != [])
    {
      var InData(read, uncompressedSize, decompressor) := state;
      if read > uncompressedSize {
        state := Empty;
        return Err(WrongReaderState);
      }
      var size := Min(uncompressedSize - read, n);
      var available := Min(size, |decompressor.content| - decompressor.at);
      var count: nat := 0;
      if available > 0 {
        count :| 1 <= count <= available;
      }
      if At(d) && underlayerPos < |d| {
        SliceOfSlice(d, block * BLOCK, Min((block + 1) * BLOCK, |d|), read, read + count);
      }
      r := Ok(decompressor.content[decompressor.at..decompressor.at + count]);
      state := InData(read + count, uncompressedSize, decompressor.(at := decompressor.at + count));
      underlayerPos := underlayerPos + count;
    }

    /**
     * `read`. Over the writer's layout it continues `d` at the current position,
     * returns nothing only at its end, and never loses the position; without any
     * block at all it is an error.
     */
    method Read(n: nat, ghost d: Bytes, ghost blocks: nat) returns (r: Result<Bytes, Error>)
      requires inner.Valid()
      requires state.InData? ==> state.decompressor.at <= |state.decompressor.content|
      modifies this, inner
      decreases if state.InData? && state.read == state.uncompressedSize then 2 else if state.Ready? then 1 else 0
      ensures inner.Valid()
      ensures old(Synced(d, blocks)) ==>
        && (if blocks > 0 then r.Ok? && Synced(d, blocks) else r == Err(DeserializationError))
        && (r.Ok? ==>
              && |r.value| <= n && underlayerPos == old(underlayerPos) + |r.value|
              && (old(underlayerPos) <= |d| ==> underlayerPos <= |d| && r.value == d[old(underlayerPos)..underlayerPos])
              && (n > 0 && old(underlayerPos) < |d| ==> r.value != [])
              && (|d| <= old(underlayerPos) ==> r.value == []))
    {
      hide Layout, LE, BlockOf;
      match PosInStream(underlayerPos) {
        case Err(e) =>
          return Err(DeserializationError);
        case Ok(inStream) =>
          if !inStream {
            return Ok([]);
          }
      }
      match state {
        case Ready =>
          var entered := EnterBlock(d, blocks);
          // the code reads again, now inside the block
          if entered.Err? {
            return Err(entered.error);
          }
          r := ReadBlock(n, d);
        case InData(read, uncompressedSize, decompressor) =>
          if read == uncompressedSize {
            // Start a new block
            state := Ready;
            r := Read(n, d, blocks);
          } else {
            r := ReadBlock(n, d);
          }
        case Empty =>
          r := Err(WrongReaderState);
      }
    }

    /**
     * `seek(SeekFrom::Start(..))`: succeeds exactly when the block of the target
     * starts before the end of the data. A failure leaves the unusable state.
     */
    method SeekStart(pos: nat, ghost d: Bytes, ghost n: nat) returns (r: Result<nat, Error>)
      requires Over(d, n) && !state.Empty?
      modifies this, inner
      ensures r.Ok? <==> pos - pos % BLOCK < |d|
      ensures r.Ok? ==> r.value == pos == underlayerPos && Synced(d, n)
      ensures r.Err? ==> state == Empty && underlayerPos == old(underlayerPos)
    {
      hide Layout, IndexOf, LE, Sum;
      var insideBlock := pos % BLOCK;
      var roundedPos := pos - insideBlock;
      assert roundedPos == pos / BLOCK * BLOCK;
      var blockAt := OpenBlock(roundedPos, d, n);
      if blockAt.Err? {
        state := Empty;
        return Err(blockAt.error);
      }
      var (uncompressedSize, decompressor) := blockAt.value;
      // Move forward inside the block, as far as it goes
      decompressor := decompressor.(at := Min(insideBlock, |decompressor.content|));
      state := InData(insideBlock, uncompressedSize, decompressor);
      block := pos / BLOCK;
      underlayerPos := pos;
      r := Ok(pos);
    }

    /** `seek`, in its three forms, as a cursor over `d`. */
    method Seek(s: SeekFrom, ghost d: Bytes, ghost n: nat) returns (r: Result<nat, Error>)
      requires Synced(d, n) && n > 0
      modifies this, inner
      ensures var target := SeekTarget(|d|, old(underlayerPos), s);
              var fits := s.Current? ==> old(underlayerPos) < I64_LIMIT && target < I64_LIMIT;
              && (s.End? && s.delta > 0 ==> r == Err(EndOfStream) && unchanged(this) && unchanged(inner))
              && (target < 0 ==> r.Err? && unchanged(this) && unchanged(inner))
              && (s == Current(0) ==> r == Ok(target) && unchanged(this) && unchanged(inner))
              && (0 <= target < |d| && s != Current(0) && fits ==>
                r == Ok(target) && underlayerPos == target && Synced(d, n))
              && (target == |d| && s != Current(0) && fits ==>
                    && (r.Ok? <==> |d| % BLOCK != 0)
                    && (r.Ok? ==> r.value == underlayerPos == |d| && Synced(d, n))
                    && (r.Err? ==> state == Empty))
    {
      match s {
        case Start(pos) =>
          r := SeekStart(pos, d, n);
        case Current(delta) =>
          if delta == 0 {
            return Ok(underlayerPos);
          }
          var newPos := underlayerPos + delta;
          if underlayerPos >= I64_LIMIT || newPos < 0 || newPos >= I64_LIMIT {
            return Err(InvalidInput);
          }
          r := SeekStart(newPos, d, n);
        case End(delta) =>
          if delta > 0 {
            return Err(EndOfStream);
          }
          match sizesInfo.value.MaxUncompressedPos() {
            case Err(e) =>
              r := Err(InvalidInput);
            case Ok(endPos) =>
              if endPos + delta < 0 {
                return Err(InvalidInput);
              }
              r := SeekStart(endPos + delta, d, n);
          }
      }
    }

    /** Reads with the given sizes up to the first empty read. */
    method Drain(sizes: nat -> nat, ghost d: Bytes, ghost n: nat) returns (r: Bytes)
      requires Synced(d, n) && n > 0 && underlayerPos <= |d| && forall i :: sizes(i) > 0
      modifies this, inner
      ensures r == d[old(underlayerPos)..]
    {
      hide Layout, IndexOf, BlockOf, LE;
      r := [];
      var i := 0;
      while true
        invariant Synced(d, n) && old(underlayerPos) <= underlayerPos <= |d|
        invariant r == d[old(underlayerPos)..underlayerPos]
        decreases |d| - underlayerPos
      {
        var bytes := Read(sizes(i), d, n);
        if bytes.value == [] {
          return;
        }
        r := r + bytes.value;
        i := i + 1;
      }
    }
  }

  /**
   * Round trip. For every nonempty data, however it was written, a seek of any
   * form strictly before the end followed by reads of any nonzero sizes yields
   * the rest of the data.
   */
  method ReadFrom(codec: Codec, inner: ByteSource, s: SeekFrom, sizes: nat -> nat, ghost d: Bytes, ghost n: nat)
    returns (r: Bytes)
    requires inner.Valid() && Sound(codec)
    requires Blocks(|d|, n) && inner.data == Layout(codec, d, n)
    requires 0 <= SeekTarget(|d|, 0, s) < |d| && (s.Current? ==> s.delta < I64_LIMIT)
    requires forall i :: sizes(i) > 0
    modifies inner
    ensures r == d[SeekTarget(|d|, 0, s)..]
  {
    var reader := new CompressReader(codec, inner);
    var initialized := reader.Initialize(d, n);
    var sought := reader.Seek(s, d, n);
    r := reader.Drain(sizes, d, n);
  }

  // ---------- As a cursor ----------

  /** What may be asked of a reader at `pos`: all but a seek past the end or to an end that fills its block. */
  ghost predicate Permitted(d: Bytes, pos: nat, op: Operation) {
    match op
    case DoRead(_) => true
    case DoSeek(s) =>
      var target := SeekTarget(|d|, pos, s);
      target < |d| || (target == |d| && (|d| % BLOCK != 0 || s == Current(0))) || (s.End? && s.delta > 0)
  }

  /** A client that never asks for more, on a cursor over `d`. */
  ghost predicate Considerate(d: Bytes, start: nat, client: Client) {
    forall run: History :: Plays(d, start, client, run) ==> Permitted(d, run.At(), client(run.replies))
  }

  /** Seeking to positions before the end is always permitted. */
  lemma BeforeEndIsConsiderate(d: Bytes, start: nat, client: Client)
    requires SeeksBeforeEnd(d, start, client)
    ensures Considerate(d, start, client)
  {
    forall run: History | Plays(d, start, client, run)
      ensures Permitted(d, run.At(), client(run.replies))
    {
      assert After(GOOD_MANNERS, |d|, run.At(), client(run.replies)).beforeEnd;
    }
  }

  /**
   * The reader is a cursor on the data: every considerate client gets the
   * replies of a cursor, with true answers to its seeks.
   */
  method ServeCompressed(reader: CompressReader, client: Client, count: nat, ghost d: Bytes, ghost n: nat)
    returns (replies: seq<Reply>, ghost run: History)
    requires reader.Synced(d, n) && n > 0 && reader.underlayerPos <= |d| < I64_LIMIT
    requires Considerate(d, reader.underlayerPos, client)
    modifies reader, reader.inner
    ensures reader.Synced(d, n) && Plays(d, old(reader.underlayerPos), client, run)
    ensures run.replies == replies && |replies| == count && run.At() == reader.underlayerPos
  {
    hide CursorStep, Layout, IndexOf;
    replies, run := [], History([reader.underlayerPos], [], []);
    for i := 0 to count
      invariant reader.Synced(d, n) && Plays(d, old(reader.underlayerPos), client, run)
      invariant run.replies == replies && |replies| == i && run.At() == reader.underlayerPos
    {
      var op := client(replies);
      assert Permitted(d, run.At(), op);
      RunStays(d, old(reader.underlayerPos), run);
      var reply := AskCompressed(reader, op, d, n);
      PlaysOn(d, old(reader.underlayerPos), client, run, op, reply, reader.underlayerPos);
      run := run.Then(op, reply, reader.underlayerPos);
      replies := replies + [reply];
    }
  }

  lemma RunStays(d: Bytes, start: nat, run: History)
    requires run.OfCursor(d, start) && start <= |d|
    ensures run.At() <= |d|
  {
    if run.ops != [] {
      var i := |run.ops| - 1;
      assert CursorStep(d, run.positions[i], run.ops[i], run.replies[i], run.positions[i + 1]);
    }
  }

  method AskCompressed(reader: CompressReader, op: Operation, ghost d: Bytes, ghost n: nat) returns (reply: Reply)
    requires reader.Synced(d, n) && n > 0 && reader.underlayerPos <= |d| < I64_LIMIT
    requires Permitted(d, reader.underlayerPos, op)
    modifies reader, reader.inner
    ensures reader.Synced(d, n) && CursorStep(d, old(reader.underlayerPos), op, reply, reader.underlayerPos)
    ensures reply.Moved? ==> reply.answer == reader.underlayerPos
  {
    hide Layout, IndexOf, BlockOf;
    match op {
      case DoRead(size) =>
        var bytes := reader.Read(size, d, n);
        reply := Got(bytes.value);
      case DoSeek(s) =>
        var moved := reader.Seek(s, d, n);
        reply := if moved.Ok? then Moved(moved.value) else Refused;
    }
  }
}
