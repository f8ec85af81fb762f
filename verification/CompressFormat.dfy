/** Layout of the compression layer: independent blocks and the index of their sizes. */
module CompressFormat {
  import opened Io

  const BLOCK := 4194304            // UNCOMPRESSED_DATA_SIZE

  /** The compressor, kept abstract: one stream per block. */
  datatype Codec = Codec(compress: Bytes -> Bytes, decompress: Bytes -> Bytes)

  /** Decompression undoes compression of a block, and compressed sizes fit their index field. */
  ghost predicate Sound(c: Codec) {
    forall d: Bytes {:trigger c.compress(d)} :: |d| <= BLOCK ==>
      c.decompress(c.compress(d)) == d && |c.compress(d)| < U32_LIMIT
  }

  // ---------- Blocks of a byte string ----------

  function BlockOf(d: Bytes, k: nat): (b: Bytes)
    requires k * BLOCK <= |d|
    ensures |b| == Min(BLOCK, |d| - k * BLOCK)
  {
    d[k * BLOCK..Min((k + 1) * BLOCK, |d|)]
  }

  /** The compressed forms of the first `n` blocks, one after the other. */
  function Compressed(c: Codec, d: Bytes, n: nat): Bytes
    requires (n - 1) * BLOCK <= |d|
  {
    if n == 0 then [] else Compressed(c, d, n - 1) + c.compress(BlockOf(d, n - 1))
  }

  /** Their sizes. */
  function CompressedSizes(c: Codec, d: Bytes, n: nat): (s: seq<nat>)
    requires (n - 1) * BLOCK <= |d|
    ensures |s| == n
  {
    if n == 0 then [] else CompressedSizes(c, d, n - 1) + [|c.compress(BlockOf(d, n - 1))|]
  }

  lemma NothingCompressed(c: Codec, d: Bytes)
    ensures Compressed(c, d, 0) == [] && CompressedSizes(c, d, 0) == []
  {}

  /** `n` blocks hold `length` bytes: none for nothing, or full blocks and a last one, possibly empty. */
  predicate Blocks(length: nat, n: nat) {
    if n == 0 then length == 0 else (n - 1) * BLOCK <= length <= n * BLOCK
  }

  /** The fewest blocks that hold `length` bytes: all full but the last, which holds something. */
  function BlockCount(length: nat): (n: nat)
    ensures Blocks(length, n)
    ensures forall m: nat :: Blocks(length, m) ==> n <= m
  {
    (length + (BLOCK - 1)) / BLOCK
  }

  lemma {:induction false} CompressedStable(c: Codec, d: Bytes, more: Bytes, n: nat)
    requires n * BLOCK <= |d|
    ensures Compressed(c, d + more, n) == Compressed(c, d, n)
    ensures CompressedSizes(c, d + more, n) == CompressedSizes(c, d, n)
  {
    if n > 0 {
      CompressedStable(c, d, more, n - 1);
      assert BlockOf(d + more, n - 1) == BlockOf(d, n - 1);
    }
  }

  function Sum(s: seq<nat>): nat {
    if s == [] then 0 else Sum(s[..|s| - 1]) + s[|s| - 1]
  }

  /** The sizes before block `k` sum to its offset, and its bytes lie there. */
  lemma {:induction false} BlockInCompressed(c: Codec, d: Bytes, n: nat, k: nat)
    requires k < n && (n - 1) * BLOCK <= |d|
    ensures var sizes, at := CompressedSizes(c, d, n), |Compressed(c, d, k)|;
            sizes[..k] == CompressedSizes(c, d, k) && sizes[k] == |c.compress(BlockOf(d, k))| &&
            at + sizes[k] <= |Compressed(c, d, n)| &&
            Compressed(c, d, n)[at..at + sizes[k]] == c.compress(BlockOf(d, k))
    decreases n
  {
    if k < n - 1 {
      BlockInCompressed(c, d, n - 1, k);
    }
  }

  lemma {:induction false} SizesSum(c: Codec, d: Bytes, n: nat)
    requires (n - 1) * BLOCK <= |d|
    ensures Sum(CompressedSizes(c, d, n)) == |Compressed(c, d, n)|
  {
    if n > 0 {
      SizesSum(c, d, n - 1);
      assert CompressedSizes(c, d, n)[..n - 1] == CompressedSizes(c, d, n - 1);
    }
  }

  lemma {:induction false} SizesFit(c: Codec, d: Bytes, n: nat)
    requires Sound(c) && (n - 1) * BLOCK <= |d|
    ensures forall i :: 0 <= i < n ==> CompressedSizes(c, d, n)[i] < U32_LIMIT
  {
    if n > 0 {
      SizesFit(c, d, n - 1);
    }
  }

  // ---------- The index ----------

  datatype SizesInfo = SizesInfo(compressedSizes: seq<nat>, lastBlockSize: nat) {
    /** `uncompressed_block_size_at` */
    function UncompressedBlockSizeAt(blockNum: nat): Result<nat, Error> {
      if compressedSizes == [] then Err(DeserializationError)
      else if blockNum < |compressedSizes| - 1 then Ok(BLOCK)
      else Ok(lastBlockSize)
    }

    /** `compressed_block_size_at` */
    function CompressedBlockSizeAt(uncompressedPos: nat): Result<nat, Error> {
      var blockNum := uncompressedPos / BLOCK;
      if blockNum < |compressedSizes| then Ok(compressedSizes[blockNum]) else Err(DeserializationError)
    }

    /** `max_uncompressed_pos` */
    function MaxUncompressedPos(): Result<nat, Error> {
      if compressedSizes == [] then Err(DeserializationError)
      else Ok((|compressedSizes| - 1) * BLOCK + lastBlockSize)
    }
  }

  /** Lookups behind the blocks, or where there are none. */
  lemma LookupsFail(s: SizesInfo, k: nat)
    ensures s.compressedSizes == [] ==>
      s.UncompressedBlockSizeAt(k) == Err(DeserializationError) && s.MaxUncompressedPos() == Err(DeserializationError)
    ensures s.CompressedBlockSizeAt(k * BLOCK).Err? <==> |s.compressedSizes| <= k
    ensures |s.compressedSizes| <= k ==> s.CompressedBlockSizeAt(k * BLOCK) == Err(DeserializationError)
    ensures 0 < |s.compressedSizes| <= k ==> s.UncompressedBlockSizeAt(k) == Ok(s.lastBlockSize)
  {
    assert k * BLOCK / BLOCK == k;
  }

  /** The index of `d` in `n` blocks. */
  function IndexOf(c: Codec, d: Bytes, n: nat): SizesInfo
    requires Blocks(|d|, n)
  {
    SizesInfo(CompressedSizes(c, d, n), if n == 0 then 0 else |d| - (n - 1) * BLOCK)
  }

  function U32s(s: seq<nat>): (b: Bytes)
    ensures |b| == 4 * |s|
  {
    if s == [] then [] else LE(s[0], 4) + U32s(s[1..])
  }

  function ParseU32s(b: Bytes, n: nat): Option<(seq<nat>, Bytes)> {
    if n == 0 then Some(([], b))
    else
      match ParseInt(b, 4)
      case None => None
      case Some((first, rest)) =>
        match ParseU32s(rest, n - 1)
        case None => None
        case Some((others, rest')) => Some(([first] + others, rest'))
  }

  function SerializeSizes(s: SizesInfo): (b: Bytes)
    ensures |b| == 12 + 4 * |s.compressedSizes|
  {
    LE(|s.compressedSizes|, 8) + U32s(s.compressedSizes) + LE(s.lastBlockSize, 4)
  }

  function DeserializeSizes(b: Bytes): Option<SizesInfo> {
    match ParseInt(b, 8)
    case None => None
    case Some((n, rest)) =>
      match ParseU32s(rest, n)
      case None => None
      case Some((sizes, rest')) =>
        match ParseInt(rest', 4)
        case None => None
        case Some((last, _)) => Some(SizesInfo(sizes, last))
  }

  lemma {:induction false} U32sRoundTrip(s: seq<nat>, rest: Bytes)
    requires forall i :: 0 <= i < |s| ==> s[i] < U32_LIMIT
    ensures ParseU32s(U32s(s) + rest, |s|) == Some((s, rest))
  {
    if s == [] {
      assert U32s(s) + rest == rest;
    } else {
      ParseU32(s[0], U32s(s[1..]) + rest);
      assert U32s(s) + rest == LE(s[0], 4) + (U32s(s[1..]) + rest);
      U32sRoundTrip(s[1..], rest);
      assert s == [s[0]] + s[1..];
    }
  }

  lemma {:induction false} U32At(s: seq<nat>, i: nat)
    requires i < |s|
    ensures U32s(s)[4 * i..4 * i + 4] == LE(s[i], 4)
  {
    hide LE;
    if i > 0 {
      U32At(s[1..], i - 1);
      SliceOfSuffix(U32s(s), 4, 4 * i - 4, 4 * i);
      assert U32s(s)[4..] == U32s(s[1..]);
    }
  }

  /** Where the fields of the index lie: the number of blocks, their compressed sizes, the last block's size. */
  lemma SizesBytes(s: SizesInfo)
    ensures var b, n := SerializeSizes(s), |s.compressedSizes|;
            && b[..8] == LE(n, 8) && b[8 + 4 * n..] == LE(s.lastBlockSize, 4)
            && forall i :: 0 <= i < n ==> b[8 + 4 * i..8 + 4 * i + 4] == LE(s.compressedSizes[i], 4)
  {
    hide LE, U32s;
    var b, n, u := SerializeSizes(s), |s.compressedSizes|, U32s(s.compressedSizes);
    forall i | 0 <= i < n
      ensures b[8 + 4 * i..8 + 4 * i + 4] == LE(s.compressedSizes[i], 4)
    {
      U32At(s.compressedSizes, i);
      assert b[8 + 4 * i..8 + 4 * i + 4] == u[4 * i..4 * i + 4];
    }
  }

  lemma SizesRoundTrip(s: SizesInfo)
    requires |s.compressedSizes| < U64_LIMIT && s.lastBlockSize < U32_LIMIT
    requires forall i :: 0 <= i < |s.compressedSizes| ==> s.compressedSizes[i] < U32_LIMIT
    ensures DeserializeSizes(SerializeSizes(s)) == Some(s)
  {
    var last := LE(s.lastBlockSize, 4);
    ParseU64(|s.compressedSizes|, U32s(s.compressedSizes) + last);
    assert SerializeSizes(s) == LE(|s.compressedSizes|, 8) + (U32s(s.compressedSizes) + last);
    U32sRoundTrip(s.compressedSizes, last);
    ParseU32(s.lastBlockSize, []);
    assert last + [] == last;
  }

  /** The layer after its header: blocks, tail options, index, and the index's length. */
  function Layout(c: Codec, d: Bytes, n: nat): Bytes
    requires Blocks(|d|, n)
  {
    var index := SerializeSizes(IndexOf(c, d, n));
    Compressed(c, d, n) + EMPTY_TAIL_OPTS + index + LE(|index|, 8)
  }

  lemma LayoutCompleted(c: Codec, d: Bytes, n: nat, head: Bytes, index: Bytes)
    requires Blocks(|d|, n) && index == SerializeSizes(IndexOf(c, d, n))
    ensures (head + Compressed(c, d, n)) + (EMPTY_TAIL_OPTS + index + LE(|index|, 8)) == head + Layout(c, d, n)
  {
    hide LE, Compressed, SerializeSizes, IndexOf;
    Grouped(head, Compressed(c, d, n), EMPTY_TAIL_OPTS, index, LE(|index|, 8));
  }

  lemma Grouped(head: Bytes, a: Bytes, b: Bytes, c: Bytes, d: Bytes)
    ensures (head + a) + (b + c + d) == head + (a + b + c + d)
  {
    assert (head + a) + (b + c + d) == head + (a + (b + c + d));
    assert a + (b + c + d) == a + b + c + d;
  }
}
