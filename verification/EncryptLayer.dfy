/** The encryption layer as it lies in an archive: its header, the encrypted stream, tail options. */
module EncryptionLayer {
  import opened Io
  import opened NonceSchedule
  import opened AeadCipher
  import opened EncryptFormat
  import opened BlockFormat
  import opened StripHeadTail
  import opened EncryptionReading

  const ENCRYPTION_LAYER_MAGIC: Bytes := Ascii("ENCMLAAA")
  const METHOD_ID: nat := 0

  const RECIPIENT_SIZE := 1648     // ML-KEM and X25519 ciphertexts, wrapped secret, tag
  const COMMITMENT_SIZE := 80      // encrypted commitment and its tag

  type Recipient = b: Bytes | |b| == RECIPIENT_SIZE witness seq(RECIPIENT_SIZE, _ => 0)
  type Commitment = b: Bytes | |b| == COMMITMENT_SIZE witness seq(COMMITMENT_SIZE, _ => 0)

  /** What the header keeps of the encryption parameters. */
  datatype PersistentConfig = PersistentConfig(recipients: seq<Recipient>, commitment: Commitment)

  function Concat(rs: seq<Recipient>): (b: Bytes)
    ensures |b| == RECIPIENT_SIZE * |rs|
  {
    if rs == [] then [] else rs[0] + Concat(rs[1..])
  }

  /** The header behind the layer magic. */
  function HeaderBytes(c: PersistentConfig): (b: Bytes)
    ensures |b| == 11 + RECIPIENT_SIZE * |c.recipients| + COMMITMENT_SIZE
  {
    EMPTY_OPTS + (LE(METHOD_ID, 2) + (LE(|c.recipients|, 8) + (Concat(c.recipients) + c.commitment)))
  }

  /** The whole layer, holding `p`. */
  function EncryptedLayer(c: PersistentConfig, g: Aead, base: Nonce, p: Bytes): Bytes {
    ENCRYPTION_LAYER_MAGIC + HeaderBytes(c) + Stream(g, base, p, ChunkCount(|p|)) + EMPTY_TAIL_OPTS
  }

  function ParseRecipients(s: Bytes, n: nat): Result<(seq<Recipient>, Bytes), Error>
    decreases n
  {
    if n == 0 then Ok(([], s))
    else
      match Take(s, RECIPIENT_SIZE, DeserializationError)
      case Err(e) => Err(e)
      case Ok((first, afterFirst)) =>
        match ParseRecipients(afterFirst, n - 1)
        case Err(e) => Err(e)
        case Ok((others, rest)) => Ok(([first] + others, rest))
  }

  function ParseConfig(s: Bytes): Result<(PersistentConfig, Bytes), Error> {
    match ParseU64Field(s)
    case Err(e) => Err(e)
    case Ok((n, afterCount)) =>
      match ParseRecipients(afterCount, n)
      case Err(e) => Err(e)
      case Ok((recipients, afterRecipients)) =>
        match Take(afterRecipients, COMMITMENT_SIZE, DeserializationError)
        case Err(e) => Err(e)
        case Ok((commitment, rest)) => Ok((PersistentConfig(recipients, commitment), rest))
  }

  /** `read_encryption_header_after_magic`; the method number is not looked at. */
  function ParseEncryptionHeader(s: Bytes): Result<(PersistentConfig, Bytes), Error> {
    match ParseOpts(s, None)
    case Err(e) => Err(e)
    case Ok(afterOpts) =>
      match Take(afterOpts, 2, DeserializationError)
      case Err(e) => Err(e)
      case Ok((_, afterMethod)) => ParseConfig(afterMethod)
  }

  lemma {:induction false} ParseRecipientsOf(rs: seq<Recipient>, rest: Bytes)
    ensures ParseRecipients(Concat(rs) + rest, |rs|) == Ok((rs, rest))
  {
    if rs == [] {
      assert Concat(rs) + rest == rest;
    } else {
      assert Concat(rs) + rest == rs[0] + (Concat(rs[1..]) + rest);
      TakeField(rs[0], Concat(rs[1..]) + rest, DeserializationError);
      ParseRecipientsOf(rs[1..], rest);
      assert rs == [rs[0]] + rs[1..];
    }
  }

  /** The header reads back, whatever follows. */
  lemma HeaderRoundTrip(c: PersistentConfig, rest: Bytes)
    requires |c.recipients| < U64_LIMIT
    ensures ParseEncryptionHeader(HeaderBytes(c) + rest) == Ok((c, rest))
  {
    hide LE, Concat, ParseRecipients, ParseU64Field, Take;
    var wrapped, count := Concat(c.recipients), LE(|c.recipients|, 8);
    var s := HeaderBytes(c) + rest;
    var afterMethod := count + (wrapped + (c.commitment + rest));
    assert s == EMPTY_OPTS + (LE(METHOD_ID, 2) + afterMethod);
    assert s[1..] == LE(METHOD_ID, 2) + afterMethod;
    TakeField(LE(METHOD_ID, 2), afterMethod, DeserializationError);
    ParseU64FieldOf(|c.recipients|, wrapped + (c.commitment + rest));
    ParseRecipientsOf(c.recipients, c.commitment + rest);
    TakeField(c.commitment, rest, DeserializationError);
  }

  method ReadRecipients(src: ByteSource, n: nat) returns (r: Result<seq<Recipient>, Error>)
    requires src.Readable()
    modifies src
    ensures src.Readable() && old(src.pos) <= src.pos
    ensures match ParseRecipients(src.data[old(src.pos)..], n)
            case Err(e) => r == Err(e)
            case Ok((rs, rest)) => r == Ok(rs) && src.data[src.pos..] == rest
  {
    ghost var all := ParseRecipients(src.data[src.pos..], n);
    var rs: seq<Recipient> := [];
    assert forall others: seq<Recipient> :: rs + others == others;
    while |rs| < n
      invariant src.Readable() && old(src.pos) <= src.pos && |rs| <= n
      invariant match ParseRecipients(src.data[src.pos..], n - |rs|)
                case Err(e) => all == Err(e)
                case Ok((others, rest)) => all == Ok((rs + others, rest))
      decreases n - |rs|
    {
      ghost var s := src.data[src.pos..];
      var first := src.ReadExact(RECIPIENT_SIZE);
      if first.Err? {
        return Err(DeserializationError);
      }
      assert first.value == s[..RECIPIENT_SIZE] && src.data[src.pos..] == s[RECIPIENT_SIZE..];
      ghost var before := rs;
      rs := rs + [first.value];
      assert forall others: seq<Recipient> :: before + ([first.value] + others) == rs + others;
    }
    assert rs + [] == rs;
    r := Ok(rs);
  }

  /** The header, and how long it is with the magic. */
  method ReadEncryptionHeader(src: ByteSource) returns (r: Result<(PersistentConfig, nat), Error>)
    requires src.Readable() && src.failure.None?
    modifies src
    ensures src.Readable() && old(src.pos) <= src.pos
    ensures match ParseEncryptionHeader(src.data[old(src.pos)..])
            case Err(e) => r == Err(e)
            case Ok((c, rest)) => r == Ok((c, src.pos - old(src.pos) + 8)) && src.data[src.pos..] == rest
  {
    hide ParseOpts, ParseRecipients, ParseU64Field;
    var from := src.pos;
    var opts := ReadOpts(src);
    if opts.Err? {
      return Err(opts.error);
    }
    ghost var s := src.data[src.pos..];
    var methodId := src.ReadExact(2);
    if methodId.Err? {
      return Err(DeserializationError);
    }
    assert methodId.value == s[..2] && src.data[src.pos..] == s[2..];
    var n := ReadU64(src);
    if n.Err? {
      return Err(n.error);
    }
    var recipients := ReadRecipients(src, n.value);
    if recipients.Err? {
      return Err(recipients.error);
    }
    ghost var t := src.data[src.pos..];
    var commitment := src.ReadExact(COMMITMENT_SIZE);
    if commitment.Err? {
      return Err(DeserializationError);
    }
    assert commitment.value == t[..COMMITMENT_SIZE] && src.data[src.pos..] == t[COMMITMENT_SIZE..];
    r := Ok((PersistentConfig(recipients.value, commitment.value), src.pos - from + 8));
  }

  // ---------- Opening the layer ----------

  /** Where header, stream and tail of a layer lie. */
  lemma LayerParts(c: PersistentConfig, g: Aead, base: Nonce, p: Bytes)
    ensures var data, head := EncryptedLayer(c, g, base, p), 8 + |HeaderBytes(c)|;
            && head + 9 <= |data|
            && data[..8] == ENCRYPTION_LAYER_MAGIC
            && data[8..] == HeaderBytes(c) + data[head..]
            && Window(data, head, 9) == Stream(g, base, p, ChunkCount(|p|))
            && data[|data| - 8..] == LE(1, 8)
  {
    hide HeaderBytes, Stream, LE;
    Parts(ENCRYPTION_LAYER_MAGIC, HeaderBytes(c), Stream(g, base, p, ChunkCount(|p|)), EMPTY_OPTS, LE(1, 8));
  }

  lemma Parts(magic: Bytes, head: Bytes, body: Bytes, opts: Bytes, length: Bytes)
    requires |magic| == 8 && |opts| == 1 && |length| == 8
    ensures var data := magic + head + body + (opts + length);
            && data[..8] == magic && data[8..] == head + data[8 + |head|..] && |data| == 17 + |head| + |body|
            && data[8 + |head|..|data| - 9] == body && data[|data| - 8..] == length
  {}

  /** The source holds the layer of `p`, and its magic has been read. */
  ghost predicate HoldsLayer(src: ByteSource, c: PersistentConfig, g: Aead, base: Nonce, p: Bytes)
    reads src
  {
    src.Valid() && src.data == EncryptedLayer(c, g, base, p) && src.pos == 8 && |c.recipients| < U64_LIMIT
  }

  /** Finds the header, the length of the tail and that of the layer, and goes behind the header. */
  method LocateStream(src: ByteSource, ghost c: PersistentConfig, ghost g: Aead, ghost base: Nonce, ghost p: Bytes)
    returns (r: Result<(PersistentConfig, nat, nat, nat), Error>)
    requires src.Valid()
    modifies src
    ensures src.Valid()
    ensures r.Ok? ==> r.value.1 == src.pos && r.value.3 == |src.data|
    ensures old(HoldsLayer(src, c, g, base, p)) ==> r == Ok((c, 8 + |HeaderBytes(c)|, 9, |src.data|))
  {
    hide Stream, LE, HeaderBytes, EncryptedLayer, ParseEncryptionHeader, ParseU64Field;
    if HoldsLayer(src, c, g, base, p) {
      LayerParts(c, g, base, p);
      HeaderRoundTrip(c, src.data[8 + |HeaderBytes(c)|..]);
      ParseU64FieldOf(1, []);
      assert LE(1, 8) + [] == LE(1, 8);
    }
    var header := ReadEncryptionHeader(src);
    if header.Err? {
      return Err(header.error);
    }
    var (config, headerLength) := header.value;
    var end := src.Seek(End(0));
    var atOptions := src.Seek(Current(-8));
    if atOptions.Err? {
      return Err(atOptions.error);
    }
    var optionsLength := ReadU64(src);
    if optionsLength.Err? {
      return Err(optionsLength.error);
    }
    var footerLength := optionsLength.value + 8;
    if footerLength >= U64_LIMIT {
      return Err(DeserializationError);
    }
    var atStream := src.Seek(Start(headerLength));
    if atStream.Err? {
      return Err(atStream.error);
    }
    r := Ok((config, headerLength, footerLength, end.value));
  }

  /**
   * `EncryptionLayerReader::new_skip_magic` and `initialize`. `load` finds key
   * and nonce for a persistent config with the reader's secrets; a config given
   * here, one read under a signature, is used instead of the one in the header.
   */
  method OpenEncryption(src: ByteSource, load: PersistentConfig -> Result<(Aead, Nonce), Error>,
    signed: Option<PersistentConfig>, ghost c: PersistentConfig, ghost g: Aead, ghost base: Nonce, ghost p: Bytes)
    returns (r: Result<EncryptReader, Error>)
    requires src.Valid()
    modifies src
    ensures src.Valid()
    ensures old(HoldsLayer(src, c, g, base, p)) && p != [] ==>
      var config := if signed.Some? then signed.value else c;
      && (load(config).Err? ==> r == Err(load(config).error))
      && (load(config) == Ok((g, base)) ==>
            && r.Ok? && fresh(r.value) && fresh(r.value.inner) && r.value.Synced(p) && r.value.currentPosition == 0)
  {
    hide Stream, HeaderBytes, EncryptedLayer;
    LayerParts(c, g, base, p);
    var located := LocateStream(src, c, g, base, p);
    if located.Err? {
      return Err(located.error);
    }
    var (readConfig, headerLength, footerLength, length) := located.value;
    var parameters := load(if signed.Some? then signed.value else readConfig);
    if parameters.Err? {
      return Err(parameters.error);
    }
    var (key, nonce) := parameters.value;
    var strip := StripHeadTailReader.Create(src, headerLength, footerLength, length, 0);
    if strip.Err? {
      return Err(strip.error);
    }
    var view := new ByteSource(strip.value.View());
    var reader := new EncryptReader(key, nonce, view, None);
    var initialized := reader.Initialize(p);
    r := if initialized.Ok? then Ok(reader) else Err(initialized.error);
  }

  /**
   * What the layer above sees: reads of any sizes from the start yield all of
   * the plaintext. A byte source of it can stand for the reader for whoever
   * uses it with good manners, as `ServeEncrypted` says.
   */
  method Expose(reader: EncryptReader, ghost p: Bytes) returns (above: ByteSource)
    requires reader.Synced(p) && reader.currentPosition == 0 && |p| < I64_LIMIT
    modifies reader, reader.inner
    ensures fresh(above) && above.Valid() && above.data == p && above.pos == 0 && above.manners == GOOD_MANNERS
  {
    var n: nat :| n > 0;
    var bytes := reader.Drain(_ => n, p);
    above := new ByteSource(bytes);
  }
}
