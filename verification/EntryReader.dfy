/** Random access to the content of one entry, through its index. */
module EntryReading {
  import opened Io
  import opened Cursors
  import opened BlockFormat
  import opened Entries
  import opened Footer

  datatype ReaderState = InEntryContent(remaining: nat) | Ready | Finish

  /** Where in the entry's content a reader in this state stands. */
  function PositionOf(state: ReaderState, index: nat, offsets: EntryInfo): int
    requires index < |offsets|
  {
    match state
    case Ready => Total(offsets[..index])
    case InEntryContent(remaining) => Total(offsets[..index + 1]) - remaining
    case Finish => Total(offsets)
  }

  // ---------- Facts about the stream ----------

  ghost predicate InStream(data: Bytes, bs: seq<Block>) {
    exists tail :: tail != [] && data == ENTRIES_HEADER + Flat(bs) + tail
  }

  /** At a block's offset its header parses, and its content and the next block follow. */
  lemma HeaderAt(sha: Sha, data: Bytes, bs: seq<Block>, j: nat, failure: Option<Error>)
    requires Legal(sha, bs) && InStream(data, bs) && j < |bs|
    ensures var at, next := Offset(bs, j), Offset(bs, j + 1);
            && next == DataStart(bs, j) + |bs[j].Content()| < |data| && at < next
            && ParseHeader(data[at..], failure) == Ok((HeaderOf(bs[j]), data[DataStart(bs, j)..]))
            && data[DataStart(bs, j)..next] == bs[j].Content()
  {
    hide Legal, Run, Flat, ParseHeader, HeadBytes;
    var tail :| tail != [] && data == ENTRIES_HEADER + Flat(bs) + tail;
    BlockAt(bs, tail, j);
    LegalPrefix(sha, bs, j);
    Layered(data, Offset(bs, j), HeadBytes(bs[j]), bs[j].Content(), Offset(bs, j + 1));
    ParseEncoded(bs[j], data[DataStart(bs, j)..], failure);
  }

  lemma Layered(data: Bytes, at: nat, head: Bytes, content: Bytes, next: nat)
    requires next == at + |head| + |content| <= |data|
    requires data[at..] == (head + content) + data[next..]
    ensures data[at..] == head + data[at + |head|..]
    ensures data[at + |head|..next] == content
  {
    var rest := data[next..];
    SplitAt([], head, content + rest);
    SuffixOfSuffix(data, at, |head|);
    assert [] + head + (content + rest) == data[at..];
    SliceOfSuffix(data, at + |head|, 0, |content|);
    SplitFront(content, rest);
  }

  /** What the reader relies on: a complete entry of a legal run, and its index. */
  ghost predicate Entered(sha: Sha, bs: seq<Block>, id: nat, offsets: EntryInfo) {
    Legal(sha, bs) && id in Run(bs) && Run(bs)[id].closed && offsets == Index(bs, id)
  }

  ghost function ContentOf(bs: seq<Block>, id: nat): Bytes
  {
    if id in Run(bs) then Run(bs)[id].content else []
  }

  /** The block an index item refers to. */
  ghost function BlockOf(bs: seq<Block>, id: nat, i: nat): (j: nat) {
    if i < |Occurrences(bs, id)| then Occurrences(bs, id)[i] else 0
  }

  /** Only blocks of other entries lie from `a` on before `b`. */
  ghost predicate Foreign(bs: seq<Block>, id: nat, a: nat, b: nat) {
    a <= b <= |bs| && forall k :: a <= k < b ==> !bs[k].IsOf(id)
  }

  /** What block an item of the index refers to: a start, then contents, then the end. */
  lemma ItemBlock(sha: Sha, bs: seq<Block>, id: nat, offsets: EntryInfo, i: nat)
    requires Entered(sha, bs, id, offsets) && i < |offsets|
    ensures |offsets| >= 2
    ensures var j := BlockOf(bs, id, i);
            && j < |bs| && bs[j].IsOf(id) && offsets[i] == (Offset(bs, j), |bs[j].Content()|)
            && (i == 0 <==> bs[j].EntryStart?) && (i == |offsets| - 1 <==> bs[j].EndOfEntry?)
            && (0 < i < |offsets| - 1 ==> bs[j].EntryContent? && offsets[i].1 > 0)
            && (i + 1 < |offsets| ==> Foreign(bs, id, j + 1, BlockOf(bs, id, i + 1)))
  {
    EntryShape(sha, bs, id);
    IndexExact(bs, id);
    hide Run, Index, Occurrences, Legal, Offset, Foreign;
    var occ := Occurrences(bs, id);
    assert IndexedAt(bs, occ[i], offsets[i]);
    if i + 1 < |offsets| {
      NothingBetween(bs, id, i);
    }
  }

  /** Which bytes of the content it carries. */
  lemma ItemContent(sha: Sha, bs: seq<Block>, id: nat, offsets: EntryInfo, i: nat)
    requires Entered(sha, bs, id, offsets) && i < |offsets|
    ensures Total(offsets) == |ContentOf(bs, id)|
    ensures Total(offsets[..i + 1]) == Total(offsets[..i]) + offsets[i].1 <= |ContentOf(bs, id)|
    ensures BlockOf(bs, id, i) < |bs|
    ensures ContentOf(bs, id)[Total(offsets[..i])..Total(offsets[..i + 1])] == bs[BlockOf(bs, id, i)].Content()
  {
    hide Flat, Encode, Index, Occurrences, Offset, Total;
    ContentAt(sha, bs, id);
    var content, occ := ContentOf(bs, id), Occurrences(bs, id);
    hide Run, Legal, Entered, ContentOf;
    assert Pieced(bs, offsets, occ, content);
    assert ContentPiece(bs, offsets, occ, i, content);
    TotalSplit(offsets, i);
  }

  /** Between two occurrences lie only blocks of other entries. */
  lemma NothingBetween(bs: seq<Block>, id: nat, i: nat)
    requires i + 1 < |Occurrences(bs, id)|
    ensures Foreign(bs, id, Occurrences(bs, id)[i] + 1, Occurrences(bs, id)[i + 1])
  {
    OccurrencesIncrease(bs, id);
    hide Occurrences;
    var occ := Occurrences(bs, id);
    assert forall m :: 0 <= m < |occ| ==> occ[m] <= occ[i] || occ[i + 1] <= occ[m];
    forall k | occ[i] < k < occ[i + 1]
      ensures !bs[k].IsOf(id)
    {
      OccurrencesExact(bs, id, k);
      assert k !in occ;
    }
  }

  /** Equal ranges of two byte strings are equal piece by piece. */
  /** Content bytes of an entry, as they lie in the source. */
  lemma BytesOfItem(sha: Sha, data: Bytes, bs: seq<Block>, id: nat, offsets: EntryInfo, i: nat, skipped: nat,
    count: nat)
    requires InStream(data, bs) && Entered(sha, bs, id, offsets)
    requires i < |offsets| && skipped + count <= offsets[i].1 && BlockOf(bs, id, i) < |bs|
    ensures var from, at := Total(offsets[..i]) + skipped, Offset(bs, BlockOf(bs, id, i) + 1) - offsets[i].1 + skipped;
            && Total(offsets[..i + 1]) == Total(offsets[..i]) + offsets[i].1
            && 0 <= at && from + count <= |ContentOf(bs, id)| && at + count <= |data|
            && data[at..at + count] == ContentOf(bs, id)[from..from + count]
  {
    hide Legal, Run, Index, InStream, Offset, Foreign, ContentOf, Total, HeadBytes, ParseHeader, HeaderOf, BlockOf;
    ItemBlock(sha, bs, id, offsets, i);
    ItemContent(sha, bs, id, offsets, i);
    var j := BlockOf(bs, id, i);
    HeaderAt(sha, data, bs, j, None);
    var lo, hi := Total(offsets[..i]), Total(offsets[..i + 1]);
    SameBytes(data, DataStart(bs, j), Offset(bs, j + 1), ContentOf(bs, id), lo, hi, skipped, count);
  }

  lemma SameBytes(a: Bytes, lo: nat, hi: nat, b: Bytes, lo': nat, hi': nat, skipped: nat, count: nat)
    requires lo <= hi <= |a| && lo' <= hi' <= |b| && hi - lo == hi' - lo' && skipped + count <= hi - lo
    requires a[lo..hi] == b[lo'..hi']
    ensures a[lo + skipped..lo + skipped + count] == b[lo' + skipped..lo' + skipped + count]
  {
    SliceOfSlice(a, lo, hi, skipped, skipped + count);
    SliceOfSlice(b, lo', hi', skipped, skipped + count);
  }

  // ---------- Finding a position in the index ----------

  /** The block holding position `asked`, and how far into it. */
  method FindFromStart(offsets: EntryInfo, asked: nat) returns (found: Option<(nat, nat)>)
    requires offsets != []
    ensures found.None? <==> asked > Total(offsets)
    ensures found.Some? ==> found.value.0 < |offsets| && Total(offsets[..found.value.0]) + found.value.1 == asked
  {
    var sum, index, size := 0, 0, 0;
    while index < |offsets|
      invariant index <= |offsets| && sum == Total(offsets[..index]) <= asked
    {
      TotalSplit(offsets, index);
      size := offsets[index].1;
      sum := sum + size;
      if sum > asked {
        return Some((index, asked - (sum - size)));
      }
      index := index + 1;
    }
    assert offsets[..index] == offsets;
    if sum == asked {
      var last := |offsets| - 1;
      TotalSplit(offsets, last);
      return Some((last, asked - (sum - offsets[last].1)));
    }
    found := None;
  }

  /** The block holding the position `fromEnd` before the end, and how far into it. */
  method FindFromEnd(offsets: EntryInfo, fromEnd: nat) returns (found: Option<(nat, nat)>)
    requires offsets != []
    ensures found.None? <==> fromEnd > Total(offsets)
    ensures found.Some? ==>
      found.value.0 < |offsets| && Total(offsets[..found.value.0]) + found.value.1 == Total(offsets) - fromEnd
  {
    var sum, index := 0, |offsets|;
    assert offsets[..index] == offsets;
    while index > 0
      invariant index <= |offsets| && sum == Total(offsets) - Total(offsets[..index]) <= fromEnd
    {
      index := index - 1;
      TotalSplit(offsets, index);
      sum := sum + offsets[index].1;
      if sum > fromEnd {
        return Some((index, sum - fromEnd));
      }
    }
    if sum == fromEnd {
      return Some((0, 0));
    }
    found := None;
  }

  // ---------- The reader ----------

  class ArchiveEntryDataReader {
    const src: ByteSource
    const id: nat
    const offsetsAndSizes: EntryInfo
    var state: ReaderState
    var currentIndex: nat
    // The blocks of the stream, and the one the source stands at in state `Ready`.
    ghost const sha: Sha
    ghost const blocks: seq<Block>
    ghost var at: nat
    // How the source was used before; reading the entry keeps to it.
    ghost const manners: Manners

    constructor (src: ByteSource, id: nat, offsetsAndSizes: EntryInfo, ghost sha: Sha, ghost blocks: seq<Block>,
      ghost at: nat)
      ensures this.src == src && this.id == id && this.offsetsAndSizes == offsetsAndSizes && this.sha == sha
      ensures state == Ready && currentIndex == 1 && this.blocks == blocks && this.at == at
      ensures manners == src.manners
    {
      manners := src.manners;
      this.src, this.id, this.offsetsAndSizes := src, id, offsetsAndSizes;
      this.sha := sha;
      state, currentIndex := Ready, 1;
      this.blocks, this.at := blocks, at;
    }

    ghost predicate Over()
      reads this, src
    {
      && src.Valid() && src.manners == manners
      && InStream(src.data, blocks)
      && Entered(sha, blocks, id, offsetsAndSizes)
    }

    /** The block the current index refers to. */
    ghost function Own(): nat
      reads this
    {
      BlockOf(blocks, id, currentIndex)
    }

    /** The source stands at a block's header, and the entry's next block is the indexed one. */
    ghost predicate AtHeader()
      reads this, src
    {
      && currentIndex < |offsetsAndSizes|
      && Foreign(blocks, id, at, Own())
      && src.pos == Offset(blocks, at)
    }

    /** The source stands `remaining` bytes before the end of the indexed content block. */
    ghost predicate InBlock(remaining: nat)
      reads this, src
    {
      && 0 < currentIndex < |offsetsAndSizes| - 1
      && 0 < remaining <= offsetsAndSizes[currentIndex].1
      && Own() < |blocks|
      && src.pos == Offset(blocks, Own() + 1) - remaining
    }

    ghost predicate Synced()
      reads this, src
    {
      && Over()
      && match state
         case Ready => AtHeader()
         case InEntryContent(remaining) => InBlock(remaining)
         case Finish => currentIndex == |offsetsAndSizes| - 1
    }

    /** The position in the entry's content. */
    ghost function Position(): int
      reads this
    {
      if currentIndex < |offsetsAndSizes| then PositionOf(state, currentIndex, offsetsAndSizes) else 0
    }

    ghost function Content(): Bytes
    {
      ContentOf(blocks, id)
    }

    /** The position is past exactly these bytes, which are the content from `from` on. */
    ghost predicate Delivered(from: int, bytes: Bytes)
      reads this
    {
      0 <= from && Position() == from + |bytes| <= |Content()| && bytes == Content()[from..from + |bytes|]
    }

    lemma PositionInContent()
      requires Synced()
      ensures 0 <= Position() <= |Content()|
      ensures Delivered(Position(), [])
    {
      ItemContent(sha, blocks, id, offsetsAndSizes, currentIndex);
    }

    /** `move_to_block_at_current_offsets_and_sizes_index` */
    method MoveToBlock()
      requires Over() && currentIndex < |offsetsAndSizes|
      modifies this`at, src
      ensures Over() && AtHeader() && at == Own()
    {
      hide Entered, InStream, Offset, Foreign;
      ItemBlock(sha, blocks, id, offsetsAndSizes, currentIndex);
      ItemInSource();
      var sought := src.Seek(Start(offsetsAndSizes[currentIndex].0));
      at := Own();
      NothingForeign(blocks, id, at);
    }

    /** Content bytes of the indexed block, as they lie in the source. */
    lemma BytesInBlock(remaining: nat, count: nat)
      requires Over() && InBlock(remaining) && count <= remaining
      ensures var from := Total(offsetsAndSizes[..currentIndex + 1]) - remaining;
              && 0 <= from && from + count <= |Content()|
              && src.pos + count <= |src.data|
              && src.data[src.pos..src.pos + count] == Content()[from..from + count]
    {
      hide InStream, Entered, Offset, Foreign, ContentOf, Total, BlockOf;
      var size := offsetsAndSizes[currentIndex].1;
      BytesOfItem(sha, src.data, blocks, id, offsetsAndSizes, currentIndex, size - remaining, count);
    }

    /** The block after the indexed one leads to the next index. */
    lemma NextIndex()
      requires Over() && 0 < currentIndex < |offsetsAndSizes| - 1
      ensures Own() + 1 <= |blocks|
      ensures Foreign(blocks, id, Own() + 1, BlockOf(blocks, id, currentIndex + 1))
      ensures Total(offsetsAndSizes[..currentIndex + 2]) >= Total(offsetsAndSizes[..currentIndex + 1])
    {
      ItemBlock(sha, blocks, id, offsetsAndSizes, currentIndex);
      ItemContent(sha, blocks, id, offsetsAndSizes, currentIndex + 1);
    }

    /** `take(remaining).read(..)`, and the state after it. */
    method TakeContent(remaining: nat, n: nat) returns (r: Bytes)
      requires Over() && InBlock(remaining)
      modifies this, src
      ensures Synced() && |r| <= n && (n > 0 ==> r != [])
      ensures Delivered(Total(offsetsAndSizes[..old(currentIndex) + 1]) - remaining, r)
    {
      hide Entered, InStream, Offset, Foreign, ContentOf, Total;
      BytesInBlock(remaining, remaining);
      NextIndex();
      r := src.Read(Min(n, remaining));
      ghost var from := Total(offsetsAndSizes[..currentIndex + 1]) - remaining;
      SliceOfSlice(src.data, old(src.pos), old(src.pos) + remaining, 0, |r|);
      SliceOfSlice(Content(), from, from + remaining, 0, |r|);
      if remaining - |r| > 0 {
        state := InEntryContent(remaining - |r|);
      } else {
        at := Own() + 1;
        currentIndex := currentIndex + 1;
        state := Ready;
      }
    }

    /** Parses the header the source stands at: the block's, read up to its content. */
    method HeaderHere() returns (r: Result<Header, Error>)
      requires Over() && AtHeader()
      modifies src
      ensures Over() && at < |blocks| && r == Ok(HeaderOf(blocks[at])) && !blocks[at].EndOfArchiveData?
      ensures src.pos + |blocks[at].Content()| == Offset(blocks, at + 1)
    {
      hide Legal, Run, Index, InStream, Offset, Foreign, HeadBytes, ParseHeader, HeaderOf;
      OwnInRun();
      LegalPrefix(sha, blocks, at);
      HeaderAt(sha, src.data, blocks, at, None);
      ghost var start := DataStart(blocks, at);
      r := ReadHeader(src);
      assert |src.data[src.pos..]| == |src.data[start..]|;
    }

    lemma OwnInRun()
      requires Over() && currentIndex < |offsetsAndSizes|
      ensures Own() < |blocks| && blocks[Own()].IsOf(id)
      ensures forall a: nat :: Foreign(blocks, id, a, Own()) && a < |blocks| ==> (blocks[a].IsOf(id) <==> a == Own())
      ensures forall a: nat :: Foreign(blocks, id, a, Own()) ==> a <= Own()
    {
      ItemBlock(sha, blocks, id, offsetsAndSizes, currentIndex);
    }

    /** How many header reads are left before content or the end is reached. */
    ghost function Steps(): nat
      reads this
    {
      if state.Ready? then (if currentIndex == 0 then 2 else 0) + (if at == Own() then 0 else 1) else 0
    }

    /**
     * `read`: the next bytes of the entry's content, none only at its end.
     * Blocks of other entries are skipped by a seek to the indexed block.
     */
    method Read(n: nat) returns (r: Result<Bytes, Error>)
      requires Synced()
      modifies this, src
      decreases Steps()
      ensures Synced()
      ensures r.Ok? && |r.value| <= n
      ensures Delivered(old(Position()), r.value)
      ensures n > 0 && old(Position()) < |Content()| ==> r.value != []
    {
      hide Entered, InStream, Offset, Foreign, ContentOf, Total, BlockOf, Encode, Delivered;
      PositionInContent();
      ItemBlock(sha, blocks, id, offsetsAndSizes, currentIndex);
      ItemContent(sha, blocks, id, offsetsAndSizes, currentIndex);
      match state {
        case Finish =>
          r := Ok([]);
        case InEntryContent(remaining) =>
          var bytes := TakeContent(remaining, n);
          r := Ok(bytes);
        case Ready =>
          OwnInRun();
          var header := HeaderHere();
          match header {
            case Err(e) =>
              r := Err(e);
            case Ok(ContentHeader(headerId, length)) =>
              if headerId == id {
                var bytes := TakeContent(length, n);
                r := Ok(bytes);
              } else {
                MoveToBlock();
                r := Read(n);
              }
            case Ok(EndHeader(headerId, _)) =>
              if headerId == id {
                assert offsetsAndSizes[..currentIndex + 1] == offsetsAndSizes;
                state := Finish;
                PositionInContent();
                r := Ok([]);
              } else {
                MoveToBlock();
                r := Read(n);
              }
            case Ok(StartHeader(headerId, _)) =>
              if headerId == id {
                currentIndex := currentIndex + 1;
                if currentIndex >= |offsetsAndSizes| {
                  return Err(WrongReaderState);
                }
                ItemContent(sha, blocks, id, offsetsAndSizes, currentIndex);
              }
              MoveToBlock();
              r := Read(n);
            case Ok(EndOfDataHeader) =>
              r := Err(WrongReaderState);
          }
      }
    }

    /** `read_exact` */
    method ReadExact(n: nat) returns (r: Result<Bytes, Error>)
      requires Synced()
      modifies this, src
      ensures Synced()
      ensures old(Position()) + n <= |Content()| ==> r.Ok? && |r.value| == n && Delivered(old(Position()), r.value)
      ensures old(Position()) + n > |Content()| ==> r == Err(UnexpectedEof) && Position() == |Content()|
    {
      hide Synced, Position, Total, ContentOf;
      PositionInContent();
      var got := [];
      ghost var from := Position();
      while |got| < n
        invariant Synced() && Delivered(from, got)
        invariant |got| <= n
        decreases n - |got|
      {
        var more := Read(n - |got|);
        match more {
          case Err(e) =>
            return Err(e);
          case Ok(bytes) =>
            if bytes == [] {
              return Err(UnexpectedEof);
            }
            got := got + bytes;
        }
      }
      r := Ok(got);
    }

    /** Reads everything that is left, by reads of any sizes up to the first that yields nothing. */
    method ReadToEnd() returns (r: Result<Bytes, Error>)
      requires Synced()
      modifies this, src
      ensures Synced() && Position() == |Content()|
      ensures 0 <= old(Position()) <= |Content()| && r == Ok(Content()[old(Position())..])
    {
      hide Synced, Position, Total, ContentOf;
      PositionInContent();
      var got := [];
      ghost var from := Position();
      while true
        invariant Synced() && Delivered(from, got)
        decreases |Content()| - from - |got|
      {
        var n: nat :| n > 0;
        var more := Read(n);
        match more {
          case Err(e) =>
            return Err(e);
          case Ok(bytes) =>
            if bytes == [] {
              break;
            }
            got := got + bytes;
        }
      }
      assert Content()[from..from + |got|] == Content()[from..];
      r := Ok(got);
    }

    /** Goes to the start of an indexed block and reads on from there. */
    method Land(index: nat, skip: nat) returns (r: Result<Bytes, Error>)
      requires Over() && index < |offsetsAndSizes|
      requires Total(offsetsAndSizes[..index]) + skip <= |Content()|
      modifies this, src
      ensures Synced() && r.Ok? && Position() == Total(offsetsAndSizes[..index]) + skip
    {
      hide Entered, InStream, Offset, Foreign, ContentOf, Total, BlockOf;
      state := Ready;
      currentIndex := index;
      MoveToBlock();
      assert Synced();
      r := ReadExact(skip);
    }

    /** `SeekFrom::Start` */
    method SeekStart(asked: nat) returns (r: Result<nat, Error>)
      requires Over()
      modifies this, src
      ensures Over()
      ensures asked <= |Content()| ==> r == Ok(asked) && Synced() && Position() == asked
      ensures asked > |Content()| ==> r == Err(InvalidInput) && unchanged(this) && unchanged(src)
    {
      hide Entered, InStream, ContentOf;
      EntryAny(sha, blocks, id, offsetsAndSizes);
      var found := FindFromStart(offsetsAndSizes, asked);
      match found {
        case None =>
          r := Err(InvalidInput);
        case Some((index, skip)) =>
          var read := Land(index, skip);
          match read {
            case Err(e) => r := Err(e);
            case Ok(_) => r := Ok(asked);
          }
      }
    }

    /** `SeekFrom::End`, which answers with the size of the entry, not with the position reached. */
    method SeekEnd(asked: int) returns (r: Result<nat, Error>)
      requires Over()
      modifies this, src
      ensures Over()
      ensures -|Content()| <= asked <= 0 ==> r == Ok(|Content()|) && Synced() && Position() == |Content()| + asked
      ensures !(-|Content()| <= asked <= 0) ==> r == Err(InvalidInput) && unchanged(this) && unchanged(src)
    {
      hide Entered, InStream, ContentOf;
      EntryAny(sha, blocks, id, offsetsAndSizes);
      if asked > 0 {
        return Err(InvalidInput);
      }
      var found := FindFromEnd(offsetsAndSizes, -asked);
      match found {
        case None =>
          r := Err(InvalidInput);
        case Some((index, skip)) =>
          var read := Land(index, skip);
          match read {
            case Err(e) => r := Err(e);
            case Ok(_) => r := Ok(Total(offsetsAndSizes));
          }
      }
    }

    /**
     * `seek`: moves to the target position of the content, or refuses a target
     * outside it and changes nothing.
     */
    method Seek(s: SeekFrom) returns (r: Result<nat, Error>)
      requires Synced()
      modifies this, src
      ensures Synced()
      ensures var target := SeekTarget(|Content()|, old(Position()), s);
              if 0 <= target <= |Content()|
              then Position() == target
                && r == Ok(if s.End? || (s.Current? && old(state).Finish?) then |Content()| else target)
              else r == Err(InvalidInput) && unchanged(this) && unchanged(src)
    {
      hide Entered, InStream, Offset, Foreign, ContentOf, Total, BlockOf;
      PositionInContent();
      EntryAny(sha, blocks, id, offsetsAndSizes);
      match s {
        case Start(offset) =>
          r := SeekStart(offset);
        case End(delta) =>
          r := SeekEnd(delta);
        case Current(delta) =>
          if state.Finish? {
            r := SeekEnd(delta);
          } else {
            var newPos := PositionOf(state, currentIndex, offsetsAndSizes) + delta;
            if newPos < 0 {
              return Err(InvalidInput);
            }
            r := SeekStart(newPos);
          }
      }
    }

    lemma ItemInSource()
      requires Over() && currentIndex < |offsetsAndSizes|
      ensures offsetsAndSizes[currentIndex].0 < |src.data|
    {
      hide Legal, Run, Index, InStream, Offset, Foreign, HeadBytes, ParseHeader, HeaderOf, BlockOf;
      ItemBlock(sha, blocks, id, offsetsAndSizes, currentIndex);
      HeaderAt(sha, src.data, blocks, Own(), None);
    }
  }

  /** `ArchiveEntryDataReader::new`: behind the entry's start block, at position 0. */
  method OpenEntry(src: ByteSource, offsets: EntryInfo, ghost sha: Sha, ghost bs: seq<Block>, ghost id: nat)
    returns (r: Result<ArchiveEntryDataReader, Error>)
    requires src.Valid()
    modifies src
    ensures src.Valid()
    ensures InStream(src.data, bs) && Entered(sha, bs, id, offsets) ==> src.manners == old(src.manners)
    ensures offsets == [] ==> r == Err(WrongReaderState)
    ensures offsets != [] && |src.data| < offsets[0].0 ==> r == Err(InvalidInput)
    ensures offsets != [] && offsets[0].0 <= |src.data| ==>
      match ParseHeader(src.data[offsets[0].0..], src.failure)
      case Err(e) => r == Err(e)
      case Ok((h, _)) => if h.StartHeader? then r.Ok? && r.value.id == h.id else r == Err(WrongReaderState)
    ensures InStream(src.data, bs) && Entered(sha, bs, id, offsets) ==>
      && r.Ok? && fresh(r.value) && r.value.src == src && r.value.offsetsAndSizes == offsets
      && r.value.Synced() && r.value.Position() == 0
      && r.value.Content() == ContentOf(bs, id)
  {
    hide Entered, InStream, Foreign, ContentOf, HeadBytes, ParseHeader, BlockOf;
    if InStream(src.data, bs) && Entered(sha, bs, id, offsets) {
      FirstBlock(sha, src.data, bs, id, offsets);
    }
    if offsets == [] {
      return Err(WrongReaderState);
    }
    var sought := src.Seek(Start(offsets[0].0));
    if sought.Err? {
      return Err(sought.error);
    }
    var header := ReadHeader(src);
    match header {
      case Err(e) =>
        r := Err(e);
      case Ok(StartHeader(headerId, _)) =>
        var reader := new ArchiveEntryDataReader(src, headerId, offsets, sha, bs, BlockOf(bs, id, 0) + 1);
        r := Ok(reader);
      case Ok(ContentHeader(_, _)) =>
        r := Err(WrongReaderState);
      case Ok(EndHeader(_, _)) =>
        r := Err(WrongReaderState);
      case Ok(EndOfDataHeader) =>
        r := Err(WrongReaderState);
    }
  }

  /** The first item of an entry's index leads to its start block, which carries no content. */
  lemma FirstBlock(sha: Sha, data: Bytes, bs: seq<Block>, id: nat, offsets: EntryInfo)
    requires InStream(data, bs) && Entered(sha, bs, id, offsets)
    ensures |offsets| >= 2 && offsets[0].0 < |data| && Total(offsets[..1]) == 0
    ensures var j := BlockOf(bs, id, 0);
            && j < |bs| && bs[j].EntryStart? && bs[j].id == id && Foreign(bs, id, j + 1, BlockOf(bs, id, 1))
            && Offset(bs, j + 1) < |data|
            && ParseHeader(data[offsets[0].0..], None) == Ok((HeaderOf(bs[j]), data[Offset(bs, j + 1)..]))
  {
    hide Legal, Run, Index, InStream, Offset, Foreign, ContentOf, HeadBytes, ParseHeader, BlockOf;
    EntryAny(sha, bs, id, offsets);
    ItemBlock(sha, bs, id, offsets, 0);
    HeaderAt(sha, data, bs, BlockOf(bs, id, 0), None);
    assert offsets[..1][..0] == [];
  }

  /** The last item leads to its end block, which carries the hash of the whole content. */
  lemma LastBlock(sha: Sha, data: Bytes, bs: seq<Block>, id: nat, offsets: EntryInfo)
    requires InStream(data, bs) && Entered(sha, bs, id, offsets)
    ensures |offsets| >= 2 && offsets[|offsets| - 1].0 < |data|
    ensures var parsed := ParseHeader(data[offsets[|offsets| - 1].0..], None);
            parsed.Ok? && parsed.value.0 == EndHeader(id, sha(ContentOf(bs, id))) && parsed.value.1 != []
  {
    hide Index, InStream, Offset, Foreign, HeadBytes, ParseHeader;
    EntryAny(sha, bs, id, offsets);
    ItemBlock(sha, bs, id, offsets, |offsets| - 1);
    EntryShape(sha, bs, id);
    HeaderAt(sha, data, bs, BlockOf(bs, id, |offsets| - 1), None);
    IndexExact(bs, id);
  }

  lemma EntryAny(sha: Sha, bs: seq<Block>, id: nat, offsets: EntryInfo)
    requires Entered(sha, bs, id, offsets)
    ensures |offsets| >= 2 && Total(offsets) == |ContentOf(bs, id)|
  {
    hide Flat, Encode, Offset, Total;
    EntryShape(sha, bs, id);
    IndexExact(bs, id);
    ItemContent(sha, bs, id, offsets, 0);
  }

  lemma NothingForeign(bs: seq<Block>, id: nat, a: nat)
    requires a <= |bs|
    ensures Foreign(bs, id, a, a)
  {}

  // ---------- As a cursor ----------

  /** An entry's reader is a cursor on its content, whatever is asked of it; only its answers to seeks may differ. */
  method ServeEntry(reader: ArchiveEntryDataReader, client: Client, count: nat)
    returns (replies: seq<Reply>, ghost run: History)
    requires reader.Synced() && reader.Position() >= 0
    modifies reader, reader.src
    ensures reader.Synced()
    ensures run.OfCursor(reader.Content(), old(reader.Position())) && run.AskedBy(client)
    ensures run.replies == replies && |replies| == count && run.At() == reader.Position()
  {
    hide ContentOf, PositionOf, Entered, InStream, CursorStep;
    replies, run := [], History([reader.Position()], [], []);
    for i := 0 to count
      invariant reader.Synced()
      invariant run.OfCursor(reader.Content(), old(reader.Position())) && run.AskedBy(client)
      invariant run.replies == replies && |replies| == i && run.At() == reader.Position()
    {
      reader.PositionInContent();
      var op := client(replies);
      var reply := AskEntry(reader, op);
      PlaysOn(reader.Content(), old(reader.Position()), client, run, op, reply, reader.Position());
      run := run.Then(op, reply, reader.Position());
      replies := replies + [reply];
    }
  }

  method AskEntry(reader: ArchiveEntryDataReader, op: Operation) returns (reply: Reply)
    requires reader.Synced() && 0 <= reader.Position() <= |reader.Content()|
    modifies reader, reader.src
    ensures reader.Synced() && reader.Position() >= 0
    ensures CursorStep(reader.Content(), old(reader.Position()), op, reply, reader.Position())
  {
    match op {
      case DoRead(n) =>
        var bytes := reader.Read(n);
        reply := Got(bytes.value);
      case DoSeek(s) =>
        var moved := reader.Seek(s);
        reply := if moved.Ok? then Moved(moved.value) else Refused;
    }
  }
}
