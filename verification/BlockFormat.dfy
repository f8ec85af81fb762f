/** Serialization of archive entry blocks. */
module BlockFormat {
  import opened Io

  const ENTRY_NAME_MAX_SIZE := 1024

  type Name = n: Bytes | 1 <= |n| <= ENTRY_NAME_MAX_SIZE witness [0]
  type Hash = h: Bytes | |h| == 32 witness seq(32, _ => 0)

  const BLOCK_MAGIC: Bytes := Ascii("MAEB")

  datatype Block =
    | EntryStart(id: nat, name: Name)
    | EntryContent(id: nat, data: Bytes)
    | EndOfEntry(id: nat, hash: Hash)
    | EndOfArchiveData
  {
    predicate IsOf(entry: nat) {
      !EndOfArchiveData? && id == entry
    }

    /** The bytes of content it carries. */
    function Content(): Bytes {
      if EntryContent? then data else []
    }

    /** Every integer fits its field. */
    predicate Fits() {
      (EndOfArchiveData? || id < U64_LIMIT) && |Content()| < U64_LIMIT
    }
  }

  /** What parsing yields: as a block, but of content only the length, the data still being in the source. */
  datatype Header =
    | StartHeader(id: nat, name: Name)
    | ContentHeader(id: nat, length: nat)
    | EndHeader(id: nat, hash: Hash)
    | EndOfDataHeader

  function HeaderOf(b: Block): Header {
    match b
    case EntryStart(id, name) => StartHeader(id, name)
    case EntryContent(id, data) => ContentHeader(id, |data|)
    case EndOfEntry(id, hash) => EndHeader(id, hash)
    case EndOfArchiveData => EndOfDataHeader
  }

  function SerializeName(n: Name): (b: Bytes)
    ensures |b| == 8 + |n|
  {
    LE(|n|, 8) + n
  }

  /** A block without its content bytes. */
  function HeadBytes(b: Block): (h: Bytes)
    ensures |h| >= 5
  {
    BLOCK_MAGIC +
    match b
    case EntryStart(id, name) => [0x00] + (LE(id, 8) + (SerializeName(name) + EMPTY_OPTS))
    case EntryContent(id, data) => [0x01] + (LE(id, 8) + (EMPTY_OPTS + LE(|data|, 8)))
    case EndOfEntry(id, hash) => [0xFF] + (LE(id, 8) + (EMPTY_OPTS + hash))
    case EndOfArchiveData => [0xFE]
  }

  function Encode(b: Block): (e: Bytes)
    ensures |e| == |HeadBytes(b)| + |b.Content()|
  {
    HeadBytes(b) + b.Content()
  }

  /** `dump`: appends the block to a sink, field by field. */
  method Dump(b: Block, dest: Bytes) returns (dest': Bytes)
    ensures dest' == dest + Encode(b)
  {
    hide LE;
    dest' := dest + BLOCK_MAGIC;
    match b {
      case EntryStart(id, name) =>
        dest' := dest' + [0x00];
        dest' := dest' + LE(id, 8);
        dest' := dest' + SerializeName(name);
        dest' := dest' + EMPTY_OPTS;
        Concat4(dest + BLOCK_MAGIC, [0x00], LE(id, 8), SerializeName(name), EMPTY_OPTS);
      case EntryContent(id, data) =>
        dest' := dest' + [0x01];
        dest' := dest' + LE(id, 8);
        dest' := dest' + EMPTY_OPTS;
        dest' := dest' + LE(|data|, 8);
        Concat4(dest + BLOCK_MAGIC, [0x01], LE(id, 8), EMPTY_OPTS, LE(|data|, 8));
        assert dest' == dest + HeadBytes(b);
        dest' := dest' + data;
      case EndOfEntry(id, hash) =>
        dest' := dest' + [0xFF];
        dest' := dest' + LE(id, 8);
        dest' := dest' + EMPTY_OPTS;
        dest' := dest' + hash;
        Concat4(dest + BLOCK_MAGIC, [0xFF], LE(id, 8), EMPTY_OPTS, hash);
      case EndOfArchiveData =>
        dest' := dest' + [0xFE];
    }
  }

  // ---------- Parsing ----------

  /** The first `n` bytes and the rest, or `e` when there are fewer. */
  function Take(s: Bytes, n: nat, e: Error): (r: Result<(Bytes, Bytes), Error>) {
    if |s| < n then Err(e) else Ok((s[..n], s[n..]))
  }

  /** What `read_exact` fails with at the end of a source. */
  function EndError(failure: Option<Error>): Error {
    if failure.Some? then failure.value else UnexpectedEof
  }

  /** `u64::deserialize` */
  function ParseU64Field(s: Bytes): Result<(nat, Bytes), Error> {
    match Take(s, 8, DeserializationError)
    case Err(e) => Err(e)
    case Ok((b, rest)) => Ok((FromLE(b), rest))
  }

  /** `Opts::from_reader`: options are skipped, even ones the source does not fully hold. */
  function ParseOpts(s: Bytes, failure: Option<Error>): Result<Bytes, Error> {
    if s == [] then Err(DeserializationError)
    else if s[0] == 0 then Ok(s[1..])
    else if s[0] == 1 then
      match Take(s[1..], 8, EndError(failure))
      case Err(e) => Err(e)
      case Ok((b, rest)) =>
        var n := FromLE(b);
        if failure.Some? && n > |rest| then Err(failure.value) else Ok(rest[Min(n, |rest|)..])
    else Err(DeserializationError)
  }

  /** `deserialize_entry_name` */
  function ParseName(s: Bytes, failure: Option<Error>): Result<(Name, Bytes), Error> {
    match ParseU64Field(s)
    case Err(e) => Err(e)
    case Ok((n, rest)) =>
      var name := rest[..Min(n, |rest|)];
      if failure.Some? && n > |rest| then Err(DeserializationError)
      else if 1 <= |name| <= ENTRY_NAME_MAX_SIZE then Ok((name, rest[Min(n, |rest|)..]))
      else Err(DeserializationError)
  }

  /** `ArchiveEntryBlock::from`: a block's header and what follows it. The magic is not compared. */
  function ParseHeader(s: Bytes, failure: Option<Error>): Result<(Header, Bytes), Error> {
    if |s| < 5 then Err(DeserializationError)
    else
      var t, rest := s[4], s[5..];
      if t == 0xFE then Ok((EndOfDataHeader, rest))
      else if t !in {0x00, 0x01, 0xFF} then Err(WrongBlockSubFileType)
      else
        match ParseU64Field(rest)
        case Err(e) => Err(e)
        case Ok((id, afterId)) =>
          if t == 0x00 then
            match ParseName(afterId, failure)
            case Err(e) => Err(e)
            case Ok((name, afterName)) =>
              match ParseOpts(afterName, failure)
              case Err(e) => Err(e)
              case Ok(afterOpts) => Ok((StartHeader(id, name), afterOpts))
          else
            match ParseOpts(afterId, failure)
            case Err(e) => Err(e)
            case Ok(afterOpts) =>
              if t == 0x01 then
                match ParseU64Field(afterOpts)
                case Err(e) => Err(e)
                case Ok((length, afterLength)) => Ok((ContentHeader(id, length), afterLength))
              else
                match Take(afterOpts, 32, EndError(failure))
                case Err(e) => Err(e)
                case Ok((hash, afterHash)) => Ok((EndHeader(id, hash), afterHash))
  }

  /** A header takes at least five bytes. */
  lemma HeaderConsumes(s: Bytes, failure: Option<Error>)
    ensures ParseHeader(s, failure).Ok? ==> |ParseHeader(s, failure).value.1| + 5 <= |s|
  {}

  // ---------- Round trip and prefixes ----------

  lemma TakeField(field: Bytes, rest: Bytes, e: Error)
    ensures Take(field + rest, |field|, e) == Ok((field, rest))
  {}

  lemma ParseU64FieldOf(n: nat, rest: Bytes)
    requires n < U64_LIMIT
    ensures ParseU64Field(LE(n, 8) + rest) == Ok((n, rest))
  {
    TakeField(LE(n, 8), rest, DeserializationError);
    U64RoundTrip(n);
  }

  lemma ParseNameOf(n: Name, rest: Bytes, failure: Option<Error>)
    ensures ParseName(SerializeName(n) + rest, failure) == Ok((n, rest))
  {
    assert SerializeName(n) + rest == LE(|n|, 8) + (n + rest);
    ParseU64FieldOf(|n|, n + rest);
    assert (n + rest)[..|n|] == n && (n + rest)[|n|..] == rest;
  }

  /** Parsing what `dump` wrote gives the block back and stops in front of its content. */
  lemma ParseEncoded(b: Block, rest: Bytes, failure: Option<Error>)
    requires b.Fits()
    ensures ParseHeader(HeadBytes(b) + rest, failure) == Ok((HeaderOf(b), rest))
  {
    hide LE, FromLE, ParseName, SerializeName;
    var s := HeadBytes(b) + rest;
    match b {
      case EndOfArchiveData =>
        assert s[5..] == rest;
      case EntryStart(id, name) =>
        var body := EMPTY_OPTS + rest;
        assert s[5..] == LE(id, 8) + (SerializeName(name) + body);
        ParseU64FieldOf(id, SerializeName(name) + body);
        ParseNameOf(name, body, failure);
        assert body[1..] == rest;
      case EntryContent(id, data) =>
        var body := LE(|data|, 8) + rest;
        assert s[5..] == LE(id, 8) + (EMPTY_OPTS + body);
        ParseU64FieldOf(id, EMPTY_OPTS + body);
        assert (EMPTY_OPTS + body)[1..] == body;
        ParseU64FieldOf(|data|, rest);
      case EndOfEntry(id, hash) =>
        var body := hash + rest;
        assert s[5..] == LE(id, 8) + (EMPTY_OPTS + body);
        ParseU64FieldOf(id, EMPTY_OPTS + body);
        assert (EMPTY_OPTS + body)[1..] == body;
        TakeField(hash, rest, EndError(failure));
    }
  }

  lemma CutOptsFail(rest: Bytes, cut: nat, failure: Option<Error>)
    requires cut <= 1 + |rest|
    ensures var s := (EMPTY_OPTS + rest)[..cut];
            if cut == 0 then ParseOpts(s, failure) == Err(DeserializationError)
              else ParseOpts(s, failure) == Ok(rest[..cut - 1])
  {
    if cut > 0 {
      assert (EMPTY_OPTS + rest)[..cut][1..] == rest[..cut - 1];
    }
  }

  lemma CutNameFails(n: Name, cut: nat, failure: Option<Error>)
    requires cut <= |SerializeName(n)|
    ensures var parsed := ParseName((SerializeName(n) + EMPTY_OPTS)[..cut], failure);
            match parsed
            case Err(e) => e == DeserializationError
            case Ok((_, rest)) => rest == []
  {
    hide LE, FromLE;
    var s := (SerializeName(n) + EMPTY_OPTS)[..cut];
    if cut >= 8 {
      assert s[..8] == LE(|n|, 8);
      U64RoundTrip(|n|);
      assert |s[8..]| <= |n|;
    }
  }

  /** What a header has behind its id. */
  function HeadBody(b: Block): Bytes {
    match b
    case EntryStart(_, name) => SerializeName(name) + EMPTY_OPTS
    case EntryContent(_, data) => EMPTY_OPTS + LE(|data|, 8)
    case EndOfEntry(_, hash) => EMPTY_OPTS + hash
    case EndOfArchiveData => []
  }

  function Tag(b: Block): byte {
    match b
    case EntryStart(_, _) => 0x00
    case EntryContent(_, _) => 0x01
    case EndOfEntry(_, _) => 0xFF
    case EndOfArchiveData => 0xFE
  }

  lemma HeadShape(b: Block)
    requires !b.EndOfArchiveData?
    ensures HeadBytes(b) == BLOCK_MAGIC + ([Tag(b)] + (LE(b.id, 8) + HeadBody(b)))
  {
    hide LE, SerializeName;
  }

  lemma HeadSplit(b: Block, cut: nat)
    requires !b.EndOfArchiveData? && 5 <= cut <= |HeadBytes(b)|
    ensures var s := HeadBytes(b)[..cut];
            && s[4] == Tag(b)
            && |HeadBytes(b)| == 13 + |HeadBody(b)|
            && s[5..] == (LE(b.id, 8) + HeadBody(b))[..cut - 5]
  {
    hide LE, HeadBody, HeadBytes, Tag;
    HeadShape(b);
    var rest := LE(b.id, 8) + HeadBody(b);
    CutBehind(BLOCK_MAGIC + [Tag(b)], rest, cut);
    assert BLOCK_MAGIC + ([Tag(b)] + rest) == BLOCK_MAGIC + [Tag(b)] + rest;
  }

  lemma CutBehind(front: Bytes, rest: Bytes, cut: nat)
    requires 0 < |front| <= cut <= |front + rest|
    ensures var s := (front + rest)[..cut];
            s[|front| - 1] == front[|front| - 1] && s[|front|..] == rest[..cut - |front|]
  {}

  lemma CutIdFails(id: nat, body: Bytes, cut: nat)
    requires id < U64_LIMIT && cut <= 8 + |body|
    ensures ParseU64Field((LE(id, 8) + body)[..cut])
      == if cut < 8 then Err(DeserializationError) else Ok((id, body[..cut - 8]))
  {
    hide LE, FromLE;
    if cut >= 8 {
      assert (LE(id, 8) + body)[..cut] == LE(id, 8) + body[..cut - 8];
      ParseU64FieldOf(id, body[..cut - 8]);
    }
  }

  /** What reading a header cut short fails with: inside a hash the end of the file, or the source's failure. */
  function CutError(b: Block, cut: nat, failure: Option<Error>): Error {
    if b.EndOfEntry? && 14 <= cut then (if failure.Some? then failure.value else UnexpectedEof)
      else DeserializationError
  }

  /** A header cut short anywhere is that error, never another header. */
  lemma CutHeaderFails(b: Block, cut: nat, failure: Option<Error>)
    requires b.Fits() && cut < |HeadBytes(b)|
    ensures ParseHeader(HeadBytes(b)[..cut], failure) == Err(CutError(b, cut, failure))
  {
    if cut >= 5 && !b.EndOfArchiveData? {
      HeadSplit(b, cut);
      CutIdFails(b.id, HeadBody(b), cut - 5);
      if cut >= 13 {
        CutBodyFails(b, cut - 13, failure);
      }
      hide HeadBytes, HeadBody, LE, ParseU64Field, ParseName, ParseOpts;
    }
  }

  /** The error on what stands behind the id in a header, if there is one. */
  ghost function BodyError(t: byte, s: Bytes, failure: Option<Error>): Option<Error> {
    if t == 0x00 then
      match ParseName(s, failure)
      case Err(e) => Some(e)
      case Ok((_, rest)) => (match ParseOpts(rest, failure) case Err(e) => Some(e) case Ok(_) => None)
    else
      match ParseOpts(s, failure)
      case Err(e) => Some(e)
      case Ok(rest) =>
        if t == 0x01 then (match ParseU64Field(rest) case Err(e) => Some(e) case Ok(_) => None)
        else if |rest| < 32 then Some(EndError(failure)) else None
  }

  lemma CutBodyFails(b: Block, cut: nat, failure: Option<Error>)
    requires !b.EndOfArchiveData? && cut < |HeadBody(b)|
    ensures BodyError(Tag(b), HeadBody(b)[..cut], failure) == Some(CutError(b, 13 + cut, failure))
  {
    hide LE, FromLE, ParseU64Field, ParseName, ParseOpts, SerializeName;
    match b {
      case EntryStart(_, name) =>
        CutNameFails(name, cut, failure);
        CutOptsFail([], 0, failure);
        assert (EMPTY_OPTS + [])[..0] == [];
      case EntryContent(_, data) =>
        CutOptsFail(LE(|data|, 8), cut, failure);
        ShortIntFails(LE(|data|, 8), cut);
      case EndOfEntry(_, hash) =>
        CutOptsFail(hash, cut, failure);
    }
  }

  lemma ShortIntFails(b: Bytes, cut: nat)
    requires |b| == 8 && cut <= 8
    ensures cut > 0 ==> ParseU64Field(b[..cut - 1]) == Err(DeserializationError)
  {}

  /** `ArchiveEntryBlock::from`, reading the source field by field. */
  method ReadHeader(src: ByteSource) returns (r: Result<Header, Error>)
    requires src.Readable()
    modifies src
    ensures src.Readable() && old(src.pos) <= src.pos
    ensures src.pos < |src.data| ==> src.manners == old(src.manners)
    ensures var parsed := ParseHeader(src.data[old(src.pos)..], src.failure);
            match parsed
            case Err(e) => r == Err(e)
            case Ok((header, rest)) => r == Ok(header) && src.data[src.pos..] == rest && old(src.pos) + 5 <= src.pos
  {
    hide ParseU64Field, ParseName, ParseOpts;
    ghost var s := src.data[src.pos..];
    var magic := src.ReadExact(4);
    if magic.Err? {
      return Err(DeserializationError);
    }
    var tag := src.ReadExact(1);
    if tag.Err? {
      return Err(DeserializationError);
    }
    var t := tag.value[0];
    assert t == s[4] && src.data[src.pos..] == s[5..];
    if t == 0xFE {
      return Ok(EndOfDataHeader);
    }
    if t !in {0x00, 0x01, 0xFF} {
      return Err(WrongBlockSubFileType);
    }
    var id := ReadU64(src);
    if id.Err? {
      return Err(id.error);
    }
    if t == 0x00 {
      var name := ReadName(src);
      if name.Err? {
        return Err(name.error);
      }
      var opts := ReadOpts(src);
      return if opts.Ok? then Ok(StartHeader(id.value, name.value)) else Err(opts.error);
    }
    var opts := ReadOpts(src);
    if opts.Err? {
      return Err(opts.error);
    }
    if t == 0x01 {
      var length := ReadU64(src);
      return if length.Ok? then Ok(ContentHeader(id.value, length.value)) else Err(length.error);
    }
    ghost var before := src.data[src.pos..];
    var hash := src.ReadExact(32);
    if hash.Err? {
      return Err(hash.error);
    }
    assert hash.value == before[..32] && src.data[src.pos..] == before[32..];
    r := Ok(EndHeader(id.value, hash.value));
  }

  method ReadU64(src: ByteSource) returns (r: Result<nat, Error>)
    requires src.Readable()
    modifies src
    ensures src.Readable() && old(src.pos) <= src.pos
    ensures src.pos < |src.data| ==> src.manners == old(src.manners)
    ensures r.Ok? ==> src.manners == old(src.manners)
    ensures match ParseU64Field(src.data[old(src.pos)..])
            case Err(e) => r == Err(e)
            case Ok((n, rest)) => r == Ok(n) && src.data[src.pos..] == rest && src.pos == old(src.pos) + 8
  {
    ghost var s := src.data[src.pos..];
    var b := src.ReadExact(8);
    if b.Err? {
      return Err(DeserializationError);
    }
    assert b.value == s[..8] && src.data[src.pos..] == s[8..];
    r := Ok(FromLE(b.value));
  }

  method ReadName(src: ByteSource) returns (r: Result<Name, Error>)
    requires src.Readable()
    modifies src
    ensures src.Readable() && old(src.pos) <= src.pos
    ensures src.pos < |src.data| ==> src.manners == old(src.manners)
    ensures match ParseName(src.data[old(src.pos)..], src.failure)
            case Err(e) => r == Err(e)
            case Ok((n, rest)) => r == Ok(n) && src.data[src.pos..] == rest
  {
    var n := ReadU64(src);
    if n.Err? {
      return Err(n.error);
    }
    ghost var rest := src.data[src.pos..];
    var name := src.TryReadToEnd(n.value);
    assert name.Ok? ==>
      name.value == rest[..Min(n.value, |rest|)] && src.data[src.pos..] == rest[Min(n.value, |rest|)..];
    if name.Ok? && 1 <= |name.value| <= ENTRY_NAME_MAX_SIZE {
      r := Ok(name.value);
    } else {
      r := Err(DeserializationError);
    }
  }

  method ReadOpts(src: ByteSource) returns (r: Result<(), Error>)
    requires src.Readable()
    modifies src
    ensures src.Readable() && old(src.pos) <= src.pos && (r.Ok? ==> old(src.pos) < src.pos)
    ensures src.pos < |src.data| ==> src.manners == old(src.manners)
    ensures match ParseOpts(src.data[old(src.pos)..], src.failure)
            case Err(e) => r == Err(e)
            case Ok(rest) => r == Ok(()) && src.data[src.pos..] == rest
  {
    hide FromLE;
    ghost var s := src.data[src.pos..];
    var tag := src.ReadExact(1);
    if tag.Err? {
      return Err(DeserializationError);
    }
    assert tag.value[0] == s[0] && src.data[src.pos..] == s[1..];
    if tag.value[0] == 0 {
      return Ok(());
    }
    if tag.value[0] != 1 {
      return Err(DeserializationError);
    }
    var b := src.ReadExact(8);
    if b.Err? {
      return Err(b.error);
    }
    ghost var rest := src.data[src.pos..];
    assert b.value == s[1..][..8] && rest == s[1..][8..];
    var v := src.TryReadToEnd(FromLE(b.value));
    assert v.Ok? ==> src.data[src.pos..] == rest[Min(FromLE(b.value), |rest|)..];
    r := if v.Ok? then Ok(()) else Err(v.error);
  }
}
