/** An open archive: entry access through the footer, and extraction in one pass. */
module ArchiveReading {
  import opened Io
  import opened BlockFormat
  import opened Entries
  import opened Footer
  import opened FooterReading
  import opened EntryReading
  import opened ArchiveWriting

  /** The content of the entry of that name, nothing if there is none. */
  ghost function ContentNamed(m: EntryMap, name: Name): Bytes {
    if HasName(m, name) then
      var id :| id in m && m[id].name == name;
      m[id].content
    else []
  }

  lemma NamedContent(m: EntryMap, id: nat)
    requires NamesDistinct(m) && id in m
    ensures ContentNamed(m, m[id].name) == m[id].content
  {}

  lemma NamedStep(sha: Sha, m: EntryMap, b: Block, name: Name)
    requires Accepts(sha, m, b) && NamesDistinct(m)
    ensures ContentNamed(Step(m, b), name) ==
      if b.EntryContent? && m[b.id].name == name then ContentNamed(m, name) + b.data else ContentNamed(m, name)
  {
    var m' := Step(m, b);
    DistinctStep(sha, m, b);
    hide NamesDistinct;
    if HasName(m, name) {
      var id :| id in m && m[id].name == name;
      assert id in m' && m'[id].name == name;
      NamedContent(m, id);
      NamedContent(m', id);
      if b.EntryContent? && m[b.id].name == name {
        NamedContent(m, b.id);
        NamedContent(m', b.id);
      }
    } else if HasName(m', name) {
      var id :| id in m' && m'[id].name == name;
      NamedContent(m', id);
    }
  }

  lemma DistinctStep(sha: Sha, m: EntryMap, b: Block)
    requires Accepts(sha, m, b) && NamesDistinct(m)
    ensures NamesDistinct(Step(m, b))
  {}

  /** The export targets after the blocks that led to `m`: each got the content of the entry of its name. */
  ghost predicate Exported(before: map<Name, Bytes>, after: map<Name, Bytes>, m: EntryMap) {
    after.Keys == before.Keys && forall n :: n in before ==> after[n] == before[n] + ContentNamed(m, n)
  }

  /** `id2name` holds the open entries that are exported. */
  ghost predicate Followed(id2name: map<nat, Name>, targets: map<Name, Bytes>, m: EntryMap) {
    forall id :: (id in id2name <==> id in m && !m[id].closed && m[id].name in targets) &&
                 (id in id2name ==> id2name[id] == m[id].name)
  }

  /** What one block does to the names followed and to the targets. */
  function Follow(id2name: map<nat, Name>, targets: map<Name, Bytes>, b: Block): map<nat, Name> {
    match b
    case EntryStart(id, name) => if name in targets then id2name[id := name] else id2name
    case EndOfEntry(id, _) => id2name - {id}
    case EntryContent(_, _) => id2name
    case EndOfArchiveData => id2name
  }

  function Deliver(id2name: map<nat, Name>, targets: map<Name, Bytes>, id: nat, data: Bytes): (r: map<Name, Bytes>) {
    if id in id2name && id2name[id] in targets
    then targets[id2name[id] := targets[id2name[id]] + data]
    else targets
  }

  /** What a block does to the targets. */
  function DeliverBlock(id2name: map<nat, Name>, targets: map<Name, Bytes>, b: Block): map<Name, Bytes> {
    if b.EntryContent? then Deliver(id2name, targets, b.id, b.data) else targets
  }

  lemma FollowedStep(sha: Sha, id2name: map<nat, Name>, after: map<Name, Bytes>, m: EntryMap, b: Block)
    requires Accepts(sha, m, b) && Followed(id2name, after, m)
    ensures Followed(Follow(id2name, after, b), after, Step(m, b))
  {}

  lemma ExportedStep(sha: Sha, id2name: map<nat, Name>, before: map<Name, Bytes>, after: map<Name, Bytes>,
    m: EntryMap, b: Block)
    requires Accepts(sha, m, b) && NamesDistinct(m)
    requires Followed(id2name, after, m) && Exported(before, after, m)
    ensures Exported(before, DeliverBlock(id2name, after, b), Step(m, b))
      && DeliverBlock(id2name, after, b).Keys == after.Keys
  {
    hide ContentNamed, NamesDistinct;
    forall n | n in before
      ensures n in DeliverBlock(id2name, after, b)
        && DeliverBlock(id2name, after, b)[n] == before[n] + ContentNamed(Step(m, b), n)
    {
      NamedStep(sha, m, b, n);
    }
  }

  /** The data of the stream ends, behind the blocks, with the end mark. */
  ghost predicate Terminated(data: Bytes, bs: seq<Block>) {
    exists rest :: rest != [] && data == ENTRIES_HEADER + Flat(bs) + (Encode(EndOfArchiveData) + rest)
  }

  /** The header behind `j` blocks: the next block's, or the end mark. */
  lemma NextHeader(sha: Sha, data: Bytes, bs: seq<Block>, j: nat, failure: Option<Error>)
    requires Legal(sha, bs) && Terminated(data, bs) && j <= |bs|
    ensures Offset(bs, j) <= |data|
    ensures j < |bs| ==>
      && DataStart(bs, j) + |bs[j].Content()| == Offset(bs, j + 1) < |data|
      && ParseHeader(data[Offset(bs, j)..], failure) == Ok((HeaderOf(bs[j]), data[DataStart(bs, j)..]))
      && data[DataStart(bs, j)..Offset(bs, j + 1)] == bs[j].Content()
      && !bs[j].EndOfArchiveData? && Run(bs[..j + 1]) == Step(Run(bs[..j]), bs[j])
    ensures j == |bs| ==>
      var parsed := ParseHeader(data[Offset(bs, j)..], failure);
      parsed.Ok? && parsed.value.0 == EndOfDataHeader && parsed.value.1 != []
  {
    hide Legal, Run, Flat, ParseHeader, HeadBytes, Step;
    var rest :| rest != [] && data == ENTRIES_HEADER + Flat(bs) + (Encode(EndOfArchiveData) + rest);
    if j < |bs| {
      HeaderAt(sha, data, bs, j, failure);
      LegalPrefix(sha, bs, j);
    } else {
      assert bs[..j] == bs;
      SplitFront(ENTRIES_HEADER + Flat(bs), Encode(EndOfArchiveData) + rest);
      assert Encode(EndOfArchiveData) == HeadBytes(EndOfArchiveData);
      ParseEncoded(EndOfArchiveData, rest, failure);
    }
  }

  ghost predicate Extracting(before: map<Name, Bytes>, id2name: map<nat, Name>, after: map<Name, Bytes>, m: EntryMap) {
    Followed(id2name, after, m) && Exported(before, after, m)
  }

  lemma ExtractStep(sha: Sha, before: map<Name, Bytes>, id2name: map<nat, Name>, after: map<Name, Bytes>,
    bs: seq<Block>, j: nat)
    requires Legal(sha, bs) && j < |bs| && Extracting(before, id2name, after, Run(bs[..j]))
    ensures Extracting(before, Follow(id2name, after, bs[j]), DeliverBlock(id2name, after, bs[j]), Run(bs[..j + 1]))
  {
    hide Legal, Run, Accepts, Step, Exported, Followed, Follow, Deliver;
    LegalPrefix(sha, bs, j);
    LegalNames(sha, bs[..j]);
    FollowedStep(sha, id2name, after, Run(bs[..j]), bs[j]);
    ExportedStep(sha, id2name, before, after, Run(bs[..j]), bs[j]);
    SameKeys(Follow(id2name, after, bs[j]), after, DeliverBlock(id2name, after, bs[j]), Run(bs[..j + 1]));
  }

  lemma SameKeys(id2name: map<nat, Name>, a: map<Name, Bytes>, b: map<Name, Bytes>, m: EntryMap)
    requires Followed(id2name, a, m) && a.Keys == b.Keys
    ensures Followed(id2name, b, m)
  {}

  /** What extraction makes of any bytes, from `pos` on, with `id2name` followed and `after` written. */
  ghost function Extracted(data: Bytes, failure: Option<Error>, pos: nat, id2name: map<nat, Name>,
    after: map<Name, Bytes>):
    Result<map<Name, Bytes>, Error>
    requires pos <= |data|
    decreases |data| - pos
  {
    HeaderConsumes(data[pos..], failure);
    match ParseHeader(data[pos..], failure)
    case Err(e) => Err(e)
    case Ok((EndOfDataHeader, _)) => Ok(after)
    case Ok((StartHeader(id, name), rest)) =>
      Extracted(data, failure, |data| - |rest|, if name in after then id2name[id := name] else id2name, after)
    case Ok((EndHeader(id, _), rest)) => Extracted(data, failure, |data| - |rest|, id2name - {id}, after)
    case Ok((ContentHeader(id, length), rest)) =>
      var from := |data| - |rest|;
      if failure.Some? && from + length > |data| then Err(failure.value)
      else
        var to := Min(from + length, |data|);
        var written :=
          if id in id2name && id2name[id] in after then after[id2name[id] := after[id2name[id]] + data[from..to]]
          else after;
        Extracted(data, failure, to, id2name, written)
  }

  /** The same pass by pass. */
  lemma ExtractedStep(data: Bytes, failure: Option<Error>, pos: nat, id2name: map<nat, Name>, after: map<Name, Bytes>)
    requires pos <= |data|
    ensures var result := Extracted(data, failure, pos, id2name, after);
            match ParseHeader(data[pos..], failure)
            case Err(e) => result == Err(e)
            case Ok((h, rest)) =>
              var from := |data| - |rest|;
              && from >= 0
              && match h
                 case EndOfDataHeader => result == Ok(after)
                 case StartHeader(id, name) =>
                   var followed := if name in after then id2name[id := name] else id2name;
                   result == Extracted(data, failure, from, followed, after)
                 case EndHeader(id, _) => result == Extracted(data, failure, from, id2name - {id}, after)
                 case ContentHeader(id, length) =>
                   var to := Min(from + length, |data|);
                   result == if failure.Some? && from + length > |data| then Err(failure.value)
                             else Extracted(data, failure, to, id2name, Deliver(id2name, after, id, data[from..to]))
  {
    hide ParseHeader;
    HeaderConsumes(data[pos..], failure);
  }

  /**
   * The loop of `linear_extract`, from behind the entries header. Every pass
   * consumes a header of at least five bytes, so it ends on any source. Over a
   * stream of a legal run each target gets exactly the content of its entry.
   */
  method ExtractBlocks(src: ByteSource, before: map<Name, Bytes>, ghost sha: Sha, ghost bs: seq<Block>)
    returns (r: Result<map<Name, Bytes>, Error>)
    requires src.Readable()
    modifies src
    ensures src.Readable()
    ensures r == Extracted(src.data, src.failure, old(src.pos), map[], before)
    ensures old(src.pos) == |ENTRIES_HEADER| && src.failure.None? && Legal(sha, bs) && Terminated(src.data, bs) ==>
      r.Ok? && Exported(before, r.value, Run(bs)) && src.manners == old(src.manners)
  {
    hide Flat, Legal, Run, Accepts, Step, Offset, ParseHeader, HeadBytes, Extracting, Terminated, Extracted, Deliver;
    ghost var good := src.pos == |ENTRIES_HEADER| && src.failure.None? && Legal(sha, bs) && Terminated(src.data, bs);
    ghost var j := 0;
    var id2name: map<nat, Name> := map[];
    var after := before;
    ExtractingStarts(before, bs);
    while true
      invariant src.Readable()
      invariant Extracted(src.data, src.failure, src.pos, id2name, after)
        == Extracted(src.data, src.failure, old(src.pos), map[], before)
      invariant good ==> j <= |bs| && src.pos == Offset(bs, j) && Extracting(before, id2name, after, Run(bs[..j]))
      invariant good ==> src.manners == old(src.manners)
      decreases |src.data| - src.pos
    {
      if good {
        NextHeader(sha, src.data, bs, j, src.failure);
      }
      ExtractedStep(src.data, src.failure, src.pos, id2name, after);
      ghost var was, given := id2name, after;
      var header := ReadHeader(src);
      match header {
        case Err(e) =>
          return Err(e);
        case Ok(EndOfDataHeader) =>
          if good {
            ExtractingDone(before, id2name, after, bs, j);
          }
          return Ok(after);
        case Ok(StartHeader(id, name)) =>
          if name in after {
            id2name := id2name[id := name];
          }
        case Ok(EndHeader(id, _)) =>
          id2name := id2name - {id};
        case Ok(ContentHeader(id, length)) =>
          var data := src.TryReadToEnd(length);
          if data.Err? {
            return Err(data.error);
          }
          after := Deliver(id2name, after, id, data.value);
      }
      if good {
        ExtractStep(sha, before, was, given, bs, j);
        j := j + 1;
      }
    }
  }

  lemma ExtractingStarts(before: map<Name, Bytes>, bs: seq<Block>)
    ensures Extracting(before, map[], before, Run(bs[..0])) && Offset(bs, 0) == |ENTRIES_HEADER|
  {}

  lemma ExtractingDone(before: map<Name, Bytes>, id2name: map<nat, Name>, after: map<Name, Bytes>,
    bs: seq<Block>, j: nat)
    requires j == |bs| && Extracting(before, id2name, after, Run(bs[..j]))
    ensures Exported(before, after, Run(bs))
  {
    assert bs[..|bs|] == bs;
  }

  // ---------- The reader ----------

  /** Where the footer and the lengths behind it lie, counted from the end. */
  lemma FooterLocated(bs: seq<Block>, footer: seq<(Name, EntryInfo)>)
    ensures var data, listed := EntriesStream(bs, footer), SerializeFooter(footer);
            && |data| >= |listed| + 9 && |listed| >= 9
            && data[|data| - 8..] == LE(1, 8)
            && data[|data| - 17..|data| - 9] == LE(|listed| - 8, 8)
            && data[|data| - 9 - |listed|..] == listed + EMPTY_TAIL_OPTS
            && ENTRIES_HEADER <= data
  {
    hide LE, Flat, Encode, SerializeEntries;
    var before, listed := ENTRIES_HEADER + Flat(bs) + Encode(EndOfArchiveData), SerializeFooter(footer);
    var body := LE(|footer|, 8) + SerializeEntries(footer);
    Tail(before, [1] + body, LE(|body| + 1, 8), LE(1, 8));
    Concat4(ENTRIES_HEADER + Flat(bs), Encode(EndOfArchiveData), listed + EMPTY_TAIL_OPTS, [], []);
    assert EntriesStream(bs, footer) == before + (listed + EMPTY_TAIL_OPTS);
  }

  /** What the reader finds there. */
  lemma FooterFound(sha: Sha, bs: seq<Block>, footer: seq<(Name, EntryInfo)>, data: Bytes)
    requires Archived(sha, bs, footer, data) && |data| < I64_LIMIT
    ensures var n := |SerializeFooter(footer)|;
            && 9 <= n && n + 9 <= |data|
            && ParseU64Field(data[|data| - 8..]) == Ok((1, []))
            && ParseU64Field(data[|data| - 17..]) == Ok((n - 8, data[|data| - 9..]))
            && DeserializeFooter(data[|data| - 9 - n..]) == Ok(Some(ToMap(footer)))
            && ENTRIES_HEADER <= data
  {
    hide LE, FromLE, ToMap, Legal, Run, AllClosed, FooterFor, EntriesStream, SerializeFooter, DeserializeFooter,
      ParseU64Field;
    FooterLocated(bs, footer);
    FooterDecodes(sha, bs, footer, EMPTY_TAIL_OPTS);
    ParseU64FieldOf(1, []);
    assert LE(1, 8) + [] == LE(1, 8);
    var n := |SerializeFooter(footer)|;
    ParseU64FieldOf(n - 8, data[|data| - 9..]);
    assert data[|data| - 17..] == data[|data| - 17..|data| - 9] + data[|data| - 9..];
  }

  lemma Tail(before: Bytes, listed: Bytes, length: Bytes, optsLength: Bytes)
    requires |length| == 8 && |optsLength| == 8
    ensures var data := before + ((listed + length) + (EMPTY_OPTS + optsLength));
            && data[|data| - 8..] == optsLength && data[|data| - 17..|data| - 9] == length
            && data[|data| - 9 - |listed + length|..] == (listed + length) + (EMPTY_OPTS + optsLength)
  {}

  lemma ArchivedStream(sha: Sha, bs: seq<Block>, footer: seq<(Name, EntryInfo)>, data: Bytes)
    requires Archived(sha, bs, footer, data)
    ensures InStream(data, bs) && Terminated(data, bs)
  {
    hide Flat, Encode, SerializeFooter;
    assert data == ENTRIES_HEADER + Flat(bs) + Closing(footer);
  }

  class ArchiveReader {
    const src: ByteSource
    const metadata: Option<map<Name, EntryInfo>>
    ghost const sha: Sha
    ghost const blocks: seq<Block>
    ghost const footer: seq<(Name, EntryInfo)>
    // How the source was used before; working with the archive keeps to it.
    ghost const manners: Manners

    ghost predicate Valid()
      reads this, src
    {
      && src.Valid() && src.manners == manners
      && Archived(sha, blocks, footer, src.data) && metadata == Some(ToMap(footer))
    }

    constructor (src: ByteSource, metadata: Option<map<Name, EntryInfo>>,
      ghost sha: Sha, ghost blocks: seq<Block>, ghost footer: seq<(Name, EntryInfo)>)
      ensures this.src == src && this.metadata == metadata && manners == src.manners
      ensures this.sha == sha && this.blocks == blocks && this.footer == footer
    {
      manners := src.manners;
      this.src, this.metadata := src, metadata;
      this.sha, this.blocks, this.footer := sha, blocks, footer;
    }

    /** The footer knows exactly the names of the entries, each with the index of its blocks. */
    lemma NameKnown(name: Name)
      requires Valid()
      ensures metadata.Some? && (name in metadata.value <==> HasName(Run(blocks), name))
      ensures forall id :: id in Run(blocks) && Run(blocks)[id].name == name && name in metadata.value ==>
        Entered(sha, blocks, id, metadata.value[name])
      ensures forall id :: id in Run(blocks) && Run(blocks)[id].name == name ==>
        ContentOf(blocks, id) == ContentNamed(Run(blocks), name)
    {
      hide ToMap, Index, Flat, Encode, SerializeFooter;
      FooterDecodes(sha, blocks, footer, EMPTY_TAIL_OPTS);
      LegalNames(sha, blocks);
      hide Run, Legal, FooterFor;
      forall id | id in Run(blocks) && Run(blocks)[id].name == name
        ensures ContentOf(blocks, id) == ContentNamed(Run(blocks), name)
      {
        NamedContent(Run(blocks), id);
      }
    }

    /** `list_entries` */
    method ListEntries() returns (r: Result<set<Name>, Error>)
      requires Valid()
      ensures r.Ok? && forall n :: n in r.value <==> HasName(Run(blocks), n)
    {
      hide Run, ToMap, Archived;
      forall n
        ensures metadata.Some? && (n in metadata.value <==> HasName(Run(blocks), n))
      {
        NameKnown(n);
      }
      match metadata {
        case None => r := Err(MissingMetadata);
        case Some(entriesInfo) => r := Ok(entriesInfo.Keys);
      }
    }

    /** `get_entry`: a reader at the start of the named entry, nothing when there is none of that name. */
    method GetEntry(name: Name) returns (r: Result<Option<ArchiveEntryDataReader>, Error>)
      requires Valid()
      modifies src
      ensures Valid() && r.Ok? && (r.value.Some? <==> HasName(Run(blocks), name))
      ensures r.value.Some? ==>
        var reader := r.value.value;
        && fresh(reader) && reader.src == src && reader.Synced() && reader.Position() == 0
        && reader.Content() == ContentNamed(Run(blocks), name)
        && Total(reader.offsetsAndSizes) == |reader.Content()|
    {
      hide Run, ToMap, Archived, Entered, InStream, ContentOf, ContentNamed, Total;
      NameKnown(name);
      ArchivedStream(sha, blocks, footer, src.data);
      match metadata {
        case None =>
          r := Err(MissingMetadata);
        case Some(entriesInfo) =>
          if name !in entriesInfo {
            return Ok(None);
          }
          ghost var id :| id in Run(blocks) && Run(blocks)[id].name == name;
          EntryAny(sha, blocks, id, entriesInfo[name]);
          var reader := OpenEntry(src, entriesInfo[name], sha, blocks, id);
          match reader {
            case Err(e) => r := Err(e);
            case Ok(entry) => r := Ok(Some(entry));
          }
      }
    }

    /** `get_hash`: the hash of the whole content of the named entry, nothing when there is none of that name. */
    method GetHash(name: Name) returns (r: Result<Option<Hash>, Error>)
      requires Valid()
      modifies src
      ensures Valid()
      ensures r == Ok(if HasName(Run(blocks), name) then Some(sha(ContentNamed(Run(blocks), name))) else None)
    {
      hide Run, ToMap, Archived, Entered, InStream, ContentOf, ContentNamed, ParseHeader;
      NameKnown(name);
      ArchivedStream(sha, blocks, footer, src.data);
      match metadata {
        case None =>
          r := Err(MissingMetadata);
        case Some(entriesInfo) =>
          if name !in entriesInfo {
            return Ok(None);
          }
          ghost var id :| id in Run(blocks) && Run(blocks)[id].name == name;
          var info := entriesInfo[name];
          LastBlock(sha, src.data, blocks, id, info);
          if info == [] {
            return Err(DeserializationError);
          }
          var sought := src.Seek(Start(info[|info| - 1].0));
          var header := ReadHeader(src);
          match header {
            case Err(e) => r := Err(e);
            case Ok(EndHeader(_, hash)) => r := Ok(Some(hash));
            case Ok(StartHeader(_, _)) => r := Err(WrongReaderState);
            case Ok(ContentHeader(_, _)) => r := Err(WrongReaderState);
            case Ok(EndOfDataHeader) => r := Err(WrongReaderState);
          }
      }
    }

    /**
     * `linear_extract`: every exported name gets the content of its entry, the
     * same bytes as `GetEntry` shows.
     */
    method LinearExtract(targets: map<Name, Bytes>) returns (r: Result<map<Name, Bytes>, Error>)
      requires Valid()
      modifies src
      ensures Valid()
      ensures r.Ok? && Exported(targets, r.value, Run(blocks))
    {
      hide Run, ToMap, EntriesStream, Legal, FooterFor, Exported;
      FooterLocated(blocks, footer);
      ArchivedStream(sha, blocks, footer, src.data);
      var rewound := src.Seek(Start(0));
      var header := ReadEntriesHeader(src);
      match header {
        case Err(e) => r := Err(e);
        case Ok(_) => r := ExtractBlocks(src, targets, sha, blocks);
      }
    }
  }

  /** `read_mla_entries_header` */
  method ReadEntriesHeader(src: ByteSource) returns (r: Result<(), Error>)
    requires src.Readable()
    modifies src
    ensures src.Readable()
    ensures src.pos < |src.data| ==> src.manners == old(src.manners)
    ensures old(src.pos) == 0 && ENTRIES_HEADER <= src.data ==> r == Ok(()) && src.pos == |ENTRIES_HEADER|
    ensures old(src.pos) == 0 && 8 <= |src.data| && src.data[..8] != ENTRIES_MAGIC ==> r == Err(WrongMagic)
    ensures old(src.pos) == 0 && r.Ok? ==> 8 <= |src.data| && src.data[..8] == ENTRIES_MAGIC
  {
    hide ParseOpts;
    ghost var data := src.data;
    if src.pos == 0 && ENTRIES_HEADER <= data {
      SkipHeader(data);
    }
    ghost var from := src.pos;
    var magic := src.ReadExact(8);
    match magic {
      case Err(e) =>
        r := Err(e);
      case Ok(bytes) =>
        if bytes != ENTRIES_MAGIC {
          return Err(WrongMagic);
        }
        r := ReadOpts(src);
        if from == 0 && ENTRIES_HEADER <= data {
          assert |data[src.pos..]| == |data[9..]|;
        }
    }
  }

  lemma SkipHeader(data: Bytes)
    requires ENTRIES_HEADER <= data
    ensures data[0..8] == ENTRIES_MAGIC && ParseOpts(data[8..], None) == Ok(data[9..])
    ensures forall failure :: ParseOpts(data[8..], failure) == Ok(data[9..])
  {
    assert ENTRIES_HEADER == ENTRIES_MAGIC + EMPTY_OPTS;
    assert data[8] == ENTRIES_HEADER[8] == 0;
    assert data[0..8] == ENTRIES_HEADER[0..8];
    assert data[8..][1..] == data[9..];
  }

  /**
   * The entries part of `from_config`: finds the footer by the lengths behind
   * it, decodes it, and checks the entries header.
   */
  method Open(src: ByteSource, ghost sha: Sha, ghost blocks: seq<Block>, ghost footer: seq<(Name, EntryInfo)>)
    returns (r: Result<ArchiveReader, Error>)
    requires src.Valid()
    modifies src
    ensures src.Valid()
    ensures Archived(sha, blocks, footer, src.data) ==>
      && r.Ok? && fresh(r.value) && r.value.Valid() && r.value.src == src && r.value.manners == old(src.manners)
      && r.value.sha == sha && r.value.blocks == blocks && r.value.footer == footer
    ensures r.Ok? ==> 8 <= |src.data| && src.data[..8] == ENTRIES_MAGIC
  {
    hide Archived, ToMap, ParseU64Field, SerializeFooter, DeserializeFooter;
    if Archived(sha, blocks, footer, src.data) {
      FooterFound(sha, blocks, footer, src.data);
    }
    var atOptions := src.Seek(End(-8));
    if atOptions.Err? {
      return Err(atOptions.error);
    }
    var optionsLength := ReadU64(src);
    if optionsLength.Err? {
      return Err(optionsLength.error);
    }
    if optionsLength.value > I64_LIMIT - 16 {
      return Err(DeserializationError);
    }
    var atLength := src.Seek(End(-16 - optionsLength.value));
    if atLength.Err? {
      return Err(atLength.error);
    }
    var footerLength := ReadU64(src);
    if footerLength.Err? {
      return Err(footerLength.error);
    }
    if footerLength.value > I64_LIMIT - 8 {
      return Err(DeserializationError);
    }
    var atFooter := src.Seek(Current(-8 - footerLength.value));
    if atFooter.Err? {
      return Err(atFooter.error);
    }
    var metadata := ReadFooter(src);
    if metadata.Err? {
      return Err(metadata.error);
    }
    var rewound := src.Seek(Start(0));
    var header := ReadEntriesHeader(src);
    if header.Err? {
      return Err(header.error);
    }
    var reader := new ArchiveReader(src, metadata.value, sha, blocks, footer);
    r := Ok(reader);
  }
}
