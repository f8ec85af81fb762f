/** Key files: five lines, two of them with base64 coded keys. */
module KeyFiles {
  import opened Io
  import opened BlockFormat
  import Base64

  const CR: byte := 13
  const LF: byte := 10
  const UNDERSCORE: byte := 95
  const CRLF: Bytes := [CR, LF]
  const MARK: Bytes := [UNDERSCORE, UNDERSCORE]

  const KEY_OPTS_BUFFER := 4096
  const READ_CAPACITY := 4096

  const PRIVATE_HEADER: Bytes := Ascii("DO NOT SEND THIS ") + (Ascii("TO ANYONE - MLA ") + Ascii("PRIVATE KEY FILE V1"))
  const PRIVATE_FOOTER: Bytes := Ascii("END OF MLA ") + Ascii("PRIVATE KEY FILE")
  const PRIVATE_DECRYPTION: Bytes := Ascii("MLA PRIVATE ") + Ascii("DECRYPTION KEY ")
  const PRIVATE_SIGNING: Bytes := Ascii("MLA PRIVATE ") + Ascii("SIGNING KEY ")
  const PUBLIC_HEADER: Bytes := Ascii("MLA PUBLIC ") + Ascii("KEY FILE V1")
  const PUBLIC_FOOTER: Bytes := Ascii("END OF MLA ") + Ascii("PUBLIC KEY FILE")
  const PUBLIC_ENCRYPTION: Bytes := Ascii("MLA PUBLIC ") + Ascii("ENCRYPTION KEY ")
  const PUBLIC_VERIFICATION: Bytes := Ascii("MLA PUBLIC ") + Ascii("SIGNATURE ") + Ascii("VERIFICATION KEY ")

  const KEM_PRIVATE: Bytes := Ascii("mla-kem-private-") + Ascii("x25519-mlkem1024")
  const SIGNATURE_PRIVATE: Bytes := Ascii("mla-signature-") + Ascii("private-") + Ascii("ed25519-mldsa87")
  const KEM_PUBLIC: Bytes := Ascii("mla-kem-public-") + Ascii("x25519-mlkem1024")
  const SIGNATURE_PUBLIC: Bytes := Ascii("mla-signature-") + Ascii("verification-public-") + Ascii("ed25519-mldsa87")

  /** A line with keys: its header, the method named in the coded part, and the sizes of the two keys there. */
  datatype LineFormat = LineFormat(header: Bytes, methodId: Bytes, first: nat, second: nat, toEnd: bool)

  datatype FileFormat = FileFormat(header: Bytes, encryption: LineFormat, signature: LineFormat, footer: Bytes)

  const PRIVATE_KEY_FILE := FileFormat(PRIVATE_HEADER,
    LineFormat(PRIVATE_DECRYPTION, KEM_PRIVATE, 32, 64, false),
    LineFormat(PRIVATE_SIGNING, SIGNATURE_PRIVATE, 32, 32, false),
    PRIVATE_FOOTER)

  const PUBLIC_KEY_FILE := FileFormat(PUBLIC_HEADER,
    LineFormat(PUBLIC_ENCRYPTION, KEM_PUBLIC, 32, 1568, true),
    LineFormat(PUBLIC_VERIFICATION, SIGNATURE_PUBLIC, 32, 2592, true),
    PUBLIC_FOOTER)

  /** The four keys of a file. */
  datatype Keys = Keys(x25519: Bytes, mlkem: Bytes, ed25519: Bytes, mldsa: Bytes)

  /** No line end occurs, and no replacement of one. */
  predicate Plain(p: Bytes) {
    forall i :: 0 <= i < |p| ==> p[i] != CR && p[i] != LF && p[i] != UNDERSCORE
  }

  predicate PlainFormat(f: FileFormat) {
    && f.header != [] && Plain(f.header) && f.footer != [] && Plain(f.footer)
    && Plain(f.encryption.header) && Plain(f.signature.header)
  }

  lemma PlainConcat(a: Bytes, b: Bytes)
    requires Plain(a) && Plain(b)
    ensures Plain(a + b)
  {}

  lemma PrivateHeaderPlain()
    ensures Plain(Ascii("DO NOT SEND THIS ")) && Plain(Ascii("TO ANYONE - MLA ")) && Plain(Ascii("PRIVATE KEY FILE V1"))
  {}

  lemma PrivateWordsPlain()
    ensures Plain(Ascii("END OF MLA ")) && Plain(Ascii("PRIVATE KEY FILE")) && Plain(Ascii("MLA PRIVATE "))
    ensures Plain(Ascii("DECRYPTION KEY ")) && Plain(Ascii("SIGNING KEY "))
  {}

  lemma PublicWordsPlain()
    ensures Plain(Ascii("MLA PUBLIC ")) && Plain(Ascii("KEY FILE V1")) && Plain(Ascii("PUBLIC KEY FILE"))
  {}

  lemma VerificationPlain()
    ensures Plain(Ascii("ENCRYPTION KEY ")) && Plain(Ascii("SIGNATURE ")) && Plain(Ascii("VERIFICATION KEY "))
  {}

  /** The two formats there are. */
  lemma FormatsPlain()
    ensures PlainFormat(PRIVATE_KEY_FILE) && PlainFormat(PUBLIC_KEY_FILE)
  {
    PrivateHeaderPlain();
    PrivateWordsPlain();
    PublicWordsPlain();
    VerificationPlain();
    hide Plain;
    PlainConcat(Ascii("TO ANYONE - MLA "), Ascii("PRIVATE KEY FILE V1"));
    PlainConcat(Ascii("DO NOT SEND THIS "), Ascii("TO ANYONE - MLA ") + Ascii("PRIVATE KEY FILE V1"));
    PlainConcat(Ascii("END OF MLA "), Ascii("PRIVATE KEY FILE"));
    PlainConcat(Ascii("END OF MLA "), Ascii("PUBLIC KEY FILE"));
    PlainConcat(Ascii("MLA PRIVATE "), Ascii("DECRYPTION KEY "));
    PlainConcat(Ascii("MLA PRIVATE "), Ascii("SIGNING KEY "));
    PlainConcat(Ascii("MLA PUBLIC "), Ascii("KEY FILE V1"));
    PlainConcat(Ascii("MLA PUBLIC "), Ascii("ENCRYPTION KEY "));
    PlainConcat(Ascii("MLA PUBLIC "), Ascii("SIGNATURE "));
    PlainConcat(Ascii("MLA PUBLIC ") + Ascii("SIGNATURE "), Ascii("VERIFICATION KEY "));
  }

  // ---------- Lines ----------

  /** The lines, each followed by a line end. */
  function Joined(lines: seq<Bytes>, end: Bytes): Bytes {
    if lines == [] then [] else lines[0] + (end + Joined(lines[1..], end))
  }

  /** The first carriage return or underscore from `i` on. */
  function FirstMark(s: Bytes, i: nat): (r: Option<nat>)
    requires i <= |s|
    ensures r.Some? ==> i <= r.value < |s| && (s[r.value] == CR || s[r.value] == UNDERSCORE)
    ensures forall k :: i <= k < (if r.Some? then r.value else |s|) ==> s[k] != CR && s[k] != UNDERSCORE
    decreases |s| - i
  {
    if i == |s| then None
    else if s[i] == CR || s[i] == UNDERSCORE then Some(i)
    else FirstMark(s, i + 1)
  }

  /** `split_separator`: a line that is not empty, and what follows its line end. */
  function SplitLine(s: Bytes): Result<(Bytes, Bytes), Error> {
    match FirstMark(s, 0)
    case None => Err(DeserializationError)
    case Some(i) =>
      if i == 0 || |s| < i + 2 || !(s[i..i + 2] == CRLF || s[i..i + 2] == MARK) then Err(DeserializationError)
      else Ok((s[..i], s[i + 2..]))
  }

  function SplitLines(s: Bytes, n: nat): Result<(seq<Bytes>, Bytes), Error> {
    if n == 0 then Ok(([], s))
    else
      match SplitLine(s)
      case Err(e) => Err(e)
      case Ok((line, rest)) =>
        match SplitLines(rest, n - 1)
        case Err(e) => Err(e)
        case Ok((others, rest')) => Ok(([line] + others, rest'))
  }

  function SplitFive(s: Bytes): Result<seq<Bytes>, Error> {
    match SplitLines(s, 5)
    case Err(e) => Err(e)
    case Ok((lines, rest)) => if rest == [] then Ok(lines) else Err(DeserializationError)
  }

  lemma FirstMarkAt(s: Bytes, i: nat)
    requires i < |s| && (s[i] == CR || s[i] == UNDERSCORE)
    requires forall k :: 0 <= k < i ==> s[k] != CR && s[k] != UNDERSCORE
    ensures FirstMark(s, 0) == Some(i)
  {
    var r := FirstMark(s, 0);
  }

  lemma SplitLineOf(line: Bytes, end: Bytes, rest: Bytes)
    requires line != [] && Plain(line) && (end == CRLF || end == MARK)
    ensures SplitLine(line + (end + rest)) == Ok((line, rest))
  {
    var s, i := line + (end + rest), |line|;
    assert s[i] == end[0];
    FirstMarkAt(s, i);
    assert s[i..i + 2] == end && s[..i] == line && s[i + 2..] == rest;
  }

  lemma {:induction false} SplitLinesOf(lines: seq<Bytes>, end: Bytes)
    requires end == CRLF || end == MARK
    requires forall i :: 0 <= i < |lines| ==> lines[i] != [] && Plain(lines[i])
    ensures SplitLines(Joined(lines, end), |lines|) == Ok((lines, []))
  {
    hide SplitLine, Plain;
    if lines != [] {
      SplitLineOf(lines[0], end, Joined(lines[1..], end));
      SplitLinesOf(lines[1..], end);
      assert lines == [lines[0]] + lines[1..];
    }
  }

  /** What `tr '\r\n' '__'` leaves of a string. */
  function Marked(s: Bytes): (r: Bytes)
    ensures |r| == |s|
  {
    seq(|s|, i requires 0 <= i < |s| => if s[i] == CR || s[i] == LF then UNDERSCORE else s[i])
  }

  lemma MarkedConcat(a: Bytes, b: Bytes)
    ensures Marked(a + b) == Marked(a) + Marked(b)
    ensures Plain(a) ==> Marked(a) == a
    ensures Marked(CRLF) == MARK
  {}

  /** Replacing line ends in the file is writing it with the other line end. */
  lemma {:induction false} MarkedJoined(lines: seq<Bytes>)
    requires forall i :: 0 <= i < |lines| ==> Plain(lines[i])
    ensures Marked(Joined(lines, CRLF)) == Joined(lines, MARK)
  {
    if lines != [] {
      var rest := Joined(lines[1..], CRLF);
      MarkedJoined(lines[1..]);
      MarkedConcat(lines[0], CRLF + rest);
      MarkedConcat(CRLF, rest);
    }
  }

  // ---------- Keys in a line ----------

  function KeyLine(f: LineFormat, first: Bytes, second: Bytes): Bytes {
    f.header + Base64.Encode(f.methodId + (EMPTY_OPTS + (first + second)))
  }

  function LinesOf(f: FileFormat, keys: Keys): (lines: seq<Bytes>)
    ensures |lines| == 5
  {
    [f.header, KeyLine(f.encryption, keys.x25519, keys.mlkem), KeyLine(f.signature, keys.ed25519, keys.mldsa),
      Base64.Encode(EMPTY_OPTS), f.footer]
  }

  ghost predicate Sized(f: FileFormat, keys: Keys) {
    && |keys.x25519| == f.encryption.first && |keys.mlkem| == f.encryption.second
    && |keys.ed25519| == f.signature.first && |keys.mldsa| == f.signature.second
  }

  lemma ShapedPlain(e: Bytes, pads: nat)
    requires Base64.Shaped(e, pads)
    ensures Plain(e)
  {
    forall i | 0 <= i < |e|
      ensures e[i] != CR && e[i] != LF && e[i] != UNDERSCORE
    {
      if i < |e| - pads {
        assert Base64.Index(e[i]).Some?;
      } else {
        assert e[i] == Base64.PAD;
      }
    }
  }

  lemma EncodePlain(x: Bytes)
    ensures Plain(Base64.Encode(x)) && (x != [] ==> Base64.Encode(x) != [])
  {
    hide Base64.Encode, Base64.Shaped, Base64.Pads, Plain;
    Base64.EncodeShape(x);
    ShapedPlain(Base64.Encode(x), Base64.Pads(x));
  }

  lemma LinesPlain(f: FileFormat, keys: Keys)
    requires PlainFormat(f)
    ensures forall i :: 0 <= i < 5 ==> LinesOf(f, keys)[i] != [] && Plain(LinesOf(f, keys)[i])
  {
    hide Plain, Base64.Encode;
    var a := f.encryption.methodId + (EMPTY_OPTS + (keys.x25519 + keys.mlkem));
    var b := f.signature.methodId + (EMPTY_OPTS + (keys.ed25519 + keys.mldsa));
    EncodePlain(a);
    EncodePlain(b);
    EncodePlain(EMPTY_OPTS);
    PlainConcat(f.encryption.header, Base64.Encode(a));
    PlainConcat(f.signature.header, Base64.Encode(b));
  }

  /** `KeyOpts::deserialize`; here options must all be there. */
  function ParseKeyOpts(s: Bytes): Result<Bytes, Error> {
    match Take(s, 1, DeserializationError)
    case Err(e) => Err(e)
    case Ok((tag, rest)) =>
      if tag[0] == 0 then Ok(rest)
      else if tag[0] == 1 then
        match Take(rest, 8, UnexpectedEof)
        case Err(e) => Err(e)
        case Ok((length, afterLength)) =>
          match Take(afterLength, FromLE(length), DeserializationError)
          case Err(e) => Err(e)
          case Ok((_, afterOpts)) => Ok(afterOpts)
      else Err(DeserializationError)
  }

  /** The two keys in the coded part of a line. */
  function ParseKeys(f: LineFormat, data: Bytes): Result<(Bytes, Bytes), Error> {
    match Take(data, |f.methodId|, DeserializationError)
    case Err(e) => Err(e)
    case Ok((methodId, afterId)) =>
      if methodId != f.methodId then Err(DeserializationError)
      else
        match ParseKeyOpts(afterId)
        case Err(e) => Err(e)
        case Ok(afterOpts) =>
          match Take(afterOpts, f.first, DeserializationError)
          case Err(e) => Err(e)
          case Ok((first, afterFirst)) =>
            if f.toEnd then (if |afterFirst| == f.second then Ok((first, afterFirst)) else Err(DeserializationError))
            else
              match Take(afterFirst, f.second, DeserializationError)
              case Err(e) => Err(e)
              case Ok((second, _)) => Ok((first, second))
  }

  function ParseKeyLine(f: LineFormat, line: Bytes): Result<(Bytes, Bytes), Error> {
    if !(f.header <= line) then Err(DeserializationError)
    else
      match Base64.Decode(line[|f.header|..])
      case Err(_) => Err(DeserializationError)
      case Ok(data) => ParseKeys(f, data)
  }

  lemma ParseKeyLineOf(f: LineFormat, first: Bytes, second: Bytes)
    requires |first| == f.first && |second| == f.second
    ensures ParseKeyLine(f, KeyLine(f, first, second)) == Ok((first, second))
  {
    hide Base64.Encode, Base64.Decode, Take;
    var data := f.methodId + (EMPTY_OPTS + (first + second));
    SplitFront(f.header, Base64.Encode(data));
    Base64.RoundTrip(data);
    TakeField(f.methodId, EMPTY_OPTS + (first + second), DeserializationError);
    TakeField(EMPTY_OPTS, first + second, DeserializationError);
    TakeField(first, second, DeserializationError);
    TakeField(second, [], DeserializationError);
    assert second + [] == second;
  }

  function ParseKeyFile(f: FileFormat, content: Bytes): Result<Keys, Error> {
    match SplitFive(content)
    case Err(e) => Err(e)
    case Ok(lines) =>
      if |lines| != 5 || lines[0] != f.header || lines[4] != f.footer then Err(DeserializationError)
      else
        match ParseKeyLine(f.encryption, lines[1])
        case Err(e) => Err(e)
        case Ok((x25519, mlkem)) =>
          match ParseKeyLine(f.signature, lines[2])
          case Err(e) => Err(e)
          case Ok((ed25519, mldsa)) => Ok(Keys(x25519, mlkem, ed25519, mldsa))
  }

  /** The file of some keys. */
  function KeyFile(f: FileFormat, keys: Keys): Bytes {
    Joined(LinesOf(f, keys), CRLF)
  }

  /** A key file reads back, and also does with its line ends replaced. */
  lemma KeyFileRoundTrip(f: FileFormat, keys: Keys)
    requires PlainFormat(f) && Sized(f, keys)
    ensures ParseKeyFile(f, KeyFile(f, keys)) == Ok(keys)
    ensures ParseKeyFile(f, Marked(KeyFile(f, keys))) == Ok(keys)
  {
    hide PlainFormat, Plain, Joined, SplitLines, KeyLine, ParseKeyLine;
    var lines := LinesOf(f, keys);
    LinesPlain(f, keys);
    SplitLinesOf(lines, CRLF);
    SplitLinesOf(lines, MARK);
    MarkedJoined(lines);
    ParseKeyLineOf(f.encryption, keys.x25519, keys.mlkem);
    ParseKeyLineOf(f.signature, keys.ed25519, keys.mldsa);
  }

  /** The formats in use. */
  predicate InUse(f: FileFormat) {
    f == PRIVATE_KEY_FILE || f == PUBLIC_KEY_FILE
  }

  /** The options line, "AA==", says that there are none. */
  lemma OptionsLine()
    ensures Base64.Encode([0]) == [65, 65, 61, 61] && Base64.Decode([65, 65, 61, 61]) == Ok([0])
  {
    Base64.RoundTrip([0]);
    Base64.EncodeTable(0, 0, 0);
    hide Base64.Encode, Base64.Decode;
    Base64.UpperTable(0);
  }

  /** Private and public key files read back for all keys of their fixed sizes, also with line ends replaced. */
  lemma KnownFilesRoundTrip(f: FileFormat, keys: Keys)
    requires InUse(f) && Sized(f, keys)
    ensures ParseKeyFile(f, KeyFile(f, keys)) == Ok(keys)
    ensures ParseKeyFile(f, Marked(KeyFile(f, keys))) == Ok(keys)
  {
    FormatsPlain();
    KeyFileRoundTrip(f, keys);
  }

  // ---------- The loops and reads ----------

  /** Twice the buffer, with the same contents in front. */
  method Grow(buf: array<byte>) returns (newBuf: array<byte>)
    ensures fresh(newBuf) && newBuf.Length == 2 * buf.Length && newBuf[..buf.Length] == buf[..]
  {
    newBuf := new byte[2 * buf.Length];
    for i := 0 to buf.Length
      invariant newBuf[..i] == buf[..i]
    {
      newBuf[i] := buf[i];
    }
    assert buf[..buf.Length] == buf[..];
  }

  /** `zeroizeable_read_to_end`: a buffer that doubles when it is full. */
  method ReadWhole(src: ByteSource) returns (r: Result<Bytes, Error>)
    requires src.Readable()
    modifies src
    ensures src.Readable()
    ensures r == if src.failure.Some? then Err(DeserializationError) else Ok(src.data[old(src.pos)..])
  {
    ghost var from := src.pos;
    var buf := new byte[READ_CAPACITY];
    var readOffset: nat := 0;
    while true
      invariant src.Readable() && fresh(buf) && 0 < buf.Length
      invariant readOffset <= buf.Length && src.pos == from + readOffset
      invariant buf[..readOffset] == src.data[from..src.pos]
      decreases |src.data| - src.pos
    {
      if readOffset == buf.Length {
        ghost var all := buf[..];
        assert buf[..readOffset] == all;
        buf := Grow(buf);
      }
      ghost var at := src.pos;
      var read := src.ReadInto(buf, readOffset, buf.Length - readOffset);
      match read {
        case Err(_) =>
          return Err(DeserializationError);
        case Ok(n) =>
          assert src.data[from..at] + src.data[at..src.pos] == src.data[from..src.pos];
          readOffset := readOffset + n;
          if n == 0 {
            assert src.data[from..src.pos] == src.data[from..];
            return Ok(buf[..readOffset]);
          }
      }
    }
  }

  /** `KeyOpts::deserialize`: options are read by small chunks, and not kept. */
  method ReadKeyOpts(src: ByteSource) returns (r: Result<(), Error>)
    requires src.Valid()
    modifies src
    ensures src.Valid() && old(src.pos) <= src.pos
    ensures match ParseKeyOpts(src.data[old(src.pos)..])
            case Err(e) => r == Err(e)
            case Ok(rest) => r == Ok(()) && src.data[src.pos..] == rest
  {
    hide FromLE;
    ghost var s := src.data[src.pos..];
    var tag := src.ReadExact(1);
    if tag.Err? {
      return Err(DeserializationError);
    }
    assert tag.value == s[..1] && src.data[src.pos..] == s[1..];
    if tag.value[0] == 0 {
      return Ok(());
    }
    if tag.value[0] != 1 {
      return Err(DeserializationError);
    }
    var length := src.ReadExact(8);
    if length.Err? {
      return Err(length.error);
    }
    assert length.value == s[1..][..8] && src.data[src.pos..] == s[9..];
    r := SkipByChunks(src, FromLE(length.value));
    assert r.Ok? ==> src.data[src.pos..] == s[9..][FromLE(length.value)..];
  }

  method SkipByChunks(src: ByteSource, length: nat) returns (r: Result<(), Error>)
    requires src.Valid()
    modifies src
    ensures src.Valid() && old(src.pos) <= src.pos
    ensures if old(src.pos) + length <= |src.data| then r == Ok(()) && src.pos == old(src.pos) + length
            else r == Err(DeserializationError)
  {
    var chunks, remainder := length / KEY_OPTS_BUFFER, length % KEY_OPTS_BUFFER;
    for i := 0 to chunks
      invariant src.Valid() && src.pos == old(src.pos) + i * KEY_OPTS_BUFFER
    {
      var chunk := src.ReadExact(KEY_OPTS_BUFFER);
      if chunk.Err? {
        return Err(DeserializationError);
      }
    }
    var last := src.ReadExact(remainder);
    r := if last.Ok? then Ok(()) else Err(DeserializationError);
  }

  /** `read_exact` of a field. */
  method ReadField(src: ByteSource, n: nat) returns (r: Result<Bytes, Error>)
    requires src.Valid()
    modifies src
    ensures src.Valid() && old(src.pos) <= src.pos
    ensures match Take(src.data[old(src.pos)..], n, DeserializationError)
            case Err(e) => r == Err(e)
            case Ok((b, rest)) => r == Ok(b) && src.data[src.pos..] == rest
  {
    ghost var s := src.data[src.pos..];
    var b := src.ReadExact(n);
    if b.Err? {
      return Err(DeserializationError);
    }
    assert b.value == s[..n] && src.data[src.pos..] == s[n..];
    r := b;
  }

  /** The two keys of a line, read off its decoded part field by field. */
  method ReadKeyLine(f: LineFormat, line: Bytes) returns (r: Result<(Bytes, Bytes), Error>)
    requires |line| < I64_LIMIT
    ensures r == ParseKeyLine(f, line)
  {
    hide Base64.Decode, ParseKeyOpts, Take;
    if !(f.header <= line) {
      return Err(DeserializationError);
    }
    var decoded := Base64.DecodeBytes(line[|f.header|..]);
    if decoded.Err? {
      return Err(DeserializationError);
    }
    DecodedShorter(line[|f.header|..]);
    var cursor := new ByteSource(decoded.value);
    assert cursor.data[0..] == decoded.value;
    var methodId := ReadField(cursor, |f.methodId|);
    if methodId.Err? {
      return Err(methodId.error);
    }
    if methodId.value != f.methodId {
      return Err(DeserializationError);
    }
    var opts := ReadKeyOpts(cursor);
    if opts.Err? {
      return Err(opts.error);
    }
    var first := ReadField(cursor, f.first);
    if first.Err? {
      return Err(first.error);
    }
    if f.toEnd {
      ghost var t := cursor.data[cursor.pos..];
      var second := cursor.ReadToEnd(|cursor.data|);
      assert second == t;
      return if |second| == f.second then Ok((first.value, second)) else Err(DeserializationError);
    }
    var second := ReadField(cursor, f.second);
    r := if second.Ok? then Ok((first.value, second.value)) else Err(second.error);
  }

  lemma DecodedShorter(s: Bytes)
    requires Base64.Decode(s).Ok?
    ensures |Base64.Decode(s).value| <= |s|
  {
    DecodedGroupsShorter(Base64.Unpadded(s));
  }

  lemma {:induction false} DecodedGroupsShorter(s: Bytes)
    requires Base64.DecodeGroups(s).Ok?
    ensures |Base64.DecodeGroups(s).value| <= |s|
  {
    hide Base64.DecodeGroup, Base64.DigitVal;
    if s != [] {
      var n := Min(4, |s|);
      Base64.FirstGroup(s);
      Base64.GroupOf(s[..n]);
      DecodedGroupsShorter(s[n..]);
    }
  }

  /** What goes into a line can be coded without its length overflowing. */
  predicate Codable(f: LineFormat, first: Bytes, second: Bytes) {
    (|f.methodId| + |EMPTY_OPTS| + |first| + |second| + 2) / 3 * 4 < U64_LIMIT
  }

  /**
   * `serialize_private_key` and `serialize_public_key`: line by line into a
   * sink. With keys of the right sizes they never fail.
   */
  method WriteKeyFile(f: FileFormat, keys: Keys) returns (r: Result<Bytes, Error>)
    ensures r == if Codable(f.encryption, keys.x25519, keys.mlkem) && Codable(f.signature, keys.ed25519, keys.mldsa)
                 then Ok(KeyFile(f, keys)) else Err(SerializationError)
    ensures InUse(f) && Sized(f, keys) ==> r == Ok(KeyFile(f, keys))
    ensures r.Ok? ==>
      r.value == f.header + [13, 10]
      + (f.encryption.header + Base64.Encode(f.encryption.methodId + ([0] + (keys.x25519 + keys.mlkem)))) + [13, 10]
      + (f.signature.header + Base64.Encode(f.signature.methodId + ([0] + (keys.ed25519 + keys.mldsa)))) + [13, 10]
      + Base64.Encode([0]) + [13, 10]
      + f.footer + [13, 10]
  {
    JoinedFive(LinesOf(f, keys), CRLF);
    hide Base64.Encode, Joined;
    if InUse(f) && Sized(f, keys) {
      KnownCodable(f, keys);
    }
    r := WriteLines(f, keys);
  }

  lemma KnownCodable(f: FileFormat, keys: Keys)
    requires InUse(f) && Sized(f, keys)
    ensures Codable(f.encryption, keys.x25519, keys.mlkem) && Codable(f.signature, keys.ed25519, keys.mldsa)
  {
    assert |KEM_PRIVATE| < 64 && |SIGNATURE_PRIVATE| < 64 && |KEM_PUBLIC| < 64 && |SIGNATURE_PUBLIC| < 64;
  }

  method WriteLines(f: FileFormat, keys: Keys) returns (r: Result<Bytes, Error>)
    ensures r == if Codable(f.encryption, keys.x25519, keys.mlkem) && Codable(f.signature, keys.ed25519, keys.mldsa)
                 then Ok(KeyFile(f, keys)) else Err(SerializationError)
  {
    hide Base64.Encode;
    var dst := f.header + CRLF;
    var encryption := Base64.EncodeBytes(f.encryption.methodId + (EMPTY_OPTS + (keys.x25519 + keys.mlkem)));
    var signature := Base64.EncodeBytes(f.signature.methodId + (EMPTY_OPTS + (keys.ed25519 + keys.mldsa)));
    var opts := Base64.EncodeBytes(EMPTY_OPTS);
    if encryption.Err? || signature.Err? || opts.Err? {
      return Err(SerializationError);
    }
    ghost var lines := LinesOf(f, keys);
    dst := dst + f.encryption.header + encryption.value + CRLF;
    assert dst == f.header + CRLF + lines[1] + CRLF;
    dst := dst + f.signature.header + signature.value + CRLF;
    assert dst == f.header + CRLF + lines[1] + CRLF + lines[2] + CRLF;
    dst := dst + opts.value + CRLF;
    dst := dst + f.footer + CRLF;
    JoinedFive(lines, CRLF);
    r := Ok(dst);
  }

  lemma JoinedFive(l: seq<Bytes>, e: Bytes)
    requires |l| == 5
    ensures Joined(l, e) == l[0] + e + l[1] + e + l[2] + e + l[3] + e + l[4] + e
  {
    assert l[1..][1..] == l[2..] && l[2..][1..] == l[3..] && l[3..][1..] == l[4..] && l[4..][1..] == [];
    assert Joined(l[4..], e) == l[4] + (e + []);
    assert Joined(l[3..], e) == l[3] + (e + Joined(l[4..], e));
    assert Joined(l[2..], e) == l[2] + (e + Joined(l[3..], e));
    assert Joined(l[1..], e) == l[1] + (e + Joined(l[2..], e));
  }

  lemma TwoBytes(s: Bytes, i: nat)
    requires i + 2 <= |s|
    ensures s[i..i + 2] == [s[i], s[i + 1]] && s[i..][0] == s[i] && s[i..][1] == s[i + 1] && s[i..][2..] == s[i + 2..]
  {}

  /** `split_separator` */
  method SplitSeparator(content: Bytes) returns (r: Result<(Bytes, Bytes), Error>)
    ensures r == SplitLine(content)
  {
    var index := 0;
    for i := 0 to |content|
      invariant index == 0 && (forall k :: 1 <= k < i ==> content[k] != CR && content[k] != UNDERSCORE)
      invariant i > 0 ==> content[0] != CR && content[0] != UNDERSCORE
    {
      if content[i] == CR || content[i] == UNDERSCORE {
        FirstMarkAt(content, i);
        index := i;
        break;
      }
    }
    if index == 0 {
      return Err(DeserializationError);
    }
    var part, rest := content[..index], content[index..];
    if |rest| >= 2 {
      TwoBytes(content, index);
    }
    if |rest| < 2 || (rest[0] != CR && rest[0] != UNDERSCORE)
      || (rest[0] == CR && rest[1] != LF) || (rest[0] == UNDERSCORE && rest[1] != UNDERSCORE) {
      return Err(DeserializationError);
    }
    r := Ok((part, rest[2..]));
  }

  /** `split_in_five_parts_without_buffering` */
  method SplitInFive(content: Bytes) returns (r: Result<seq<Bytes>, Error>)
    ensures r == SplitFive(content)
  {
    hide SplitLine;
    var lines: seq<Bytes> := [];
    var rest := content;
    assert forall others: seq<Bytes> :: lines + others == others;
    for i := 0 to 5
      invariant |lines| == i
      invariant match SplitLines(rest, 5 - i)
                case Err(e) => SplitLines(content, 5) == Err(e)
                case Ok((others, end)) => SplitLines(content, 5) == Ok((lines + others, end))
    {
      var split := SplitSeparator(rest);
      match split {
        case Err(e) =>
          return Err(e);
        case Ok((line, after)) =>
          ghost var before := lines;
          lines, rest := lines + [line], after;
          assert forall others: seq<Bytes> :: before + ([line] + others) == lines + others;
      }
    }
    assert lines + [] == lines;
    r := if rest == [] then Ok(lines) else Err(DeserializationError);
  }

  /**
   * `deserialize_private_key` and `deserialize_public_key`. A file written with
   * these keys gives them back, however reads cut it, and also after every
   * carriage return and line feed in it was replaced by an underscore.
   */
  method ReadKeyFile(f: FileFormat, src: ByteSource, ghost keys: Keys) returns (r: Result<Keys, Error>)
    requires src.Readable()
    modifies src
    ensures r == if src.failure.Some? then Err(DeserializationError) else ParseKeyFile(f, src.data[old(src.pos)..])
    ensures
      var content := src.data[old(src.pos)..];
      && (InUse(f) || PlainFormat(f)) && Sized(f, keys) && src.failure.None?
      && content in {KeyFile(f, keys), Marked(KeyFile(f, keys))} ==>
      r == Ok(keys)
  {
    hide InUse, PlainFormat, KeyFile, ParseKeyLine, SplitFive;
    if InUse(f) && Sized(f, keys) {
      KnownFilesRoundTrip(f, keys);
    } else if PlainFormat(f) && Sized(f, keys) {
      KeyFileRoundTrip(f, keys);
    }
    var content := ReadWhole(src);
    if content.Err? {
      return Err(content.error);
    }
    var split := SplitInFive(content.value);
    match split {
      case Err(e) =>
        r := Err(e);
      case Ok(lines) =>
        if |lines| != 5 || lines[0] != f.header || lines[4] != f.footer {
          return Err(DeserializationError);
        }
        LineFits(content.value, lines);
        var encryption := ReadKeyLine(f.encryption, lines[1]);
        if encryption.Err? {
          return Err(encryption.error);
        }
        var signature := ReadKeyLine(f.signature, lines[2]);
        if signature.Err? {
          return Err(signature.error);
        }
        r := Ok(Keys(encryption.value.0, encryption.value.1, signature.value.0, signature.value.1));
    }
  }

  lemma LineFits(content: Bytes, lines: seq<Bytes>)
    requires SplitFive(content) == Ok(lines)
    ensures forall i :: 0 <= i < |lines| ==> |lines[i]| <= |content|
  {
    LinesFit(content, 5);
  }

  lemma {:induction false} LinesFit(s: Bytes, n: nat)
    requires SplitLines(s, n).Ok?
    ensures |SplitLines(s, n).value.1| <= |s|
    ensures forall i :: 0 <= i < |SplitLines(s, n).value.0| ==> |SplitLines(s, n).value.0[i]| <= |s|
  {
    if n > 0 {
      LinesFit(SplitLine(s).value.1, n - 1);
    }
  }
}
