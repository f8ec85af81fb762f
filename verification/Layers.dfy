/** A whole archive: its layers from the header to the end magic, written, and found again from the end. */
module Layers {
  import opened Io
  import opened NonceSchedule
  import opened AeadCipher
  import opened EncryptFormat
  import opened BlockFormat
  import opened Entries
  import opened Footer
  import opened ArchiveWriting
  import opened ArchiveReading
  import opened StripHeadTail
  import CompressFormat
  import CompressionWriting
  import CompressionReading
  import EncryptionWriting
  import E = EncryptionLayer
  import S = SignatureLayer

  const MLA_MAGIC: Bytes := Ascii("MLAFAAAA")
  const END_MLA_MAGIC: Bytes := Ascii("EMLAAAAA")
  const MLA_FORMAT_VERSION: nat := 2
  const ARCHIVE_HEADER: Bytes := MLA_MAGIC + (LE(MLA_FORMAT_VERSION, 4) + EMPTY_OPTS)

  const COMPRESSION_LAYER_MAGIC: Bytes := Ascii("COMLAAAA")
  const COMPRESSION_HEADER: Bytes := COMPRESSION_LAYER_MAGIC + EMPTY_OPTS

  // ---------- What a writer leaves ----------

  /** Key material of the encryption layer. */
  datatype Encryption = Encryption(config: E.PersistentConfig, g: Aead, base: Nonce)

  /** The layers of an archive; of compression, how many blocks were opened. */
  datatype Stack<!K> = Stack(signing: Option<seq<K>>, encryption: Option<Encryption>, blocks: Option<nat>)

  function CompressedLayer(codec: CompressFormat.Codec, d: Bytes, n: nat): Bytes
    requires CompressFormat.Blocks(|d|, n)
  {
    COMPRESSION_HEADER + CompressFormat.Layout(codec, d, n)
  }

  /** Sizes fit their fields, and the block count is one for the entries. */
  ghost predicate Fits<K>(w: Stack<K>, entries: Bytes) {
    && ENTRIES_HEADER <= entries
    && (w.blocks.Some? ==> CompressFormat.Blocks(|entries|, w.blocks.value))
    && (w.encryption.Some? ==> |w.encryption.value.config.recipients| < U64_LIMIT)
    && (w.signing.Some? ==> S.KEY_LENGTH * |w.signing.value| + 8 < U64_LIMIT)
  }

  /** The compression layer, or the entries themselves. */
  ghost function Inner<K>(codec: CompressFormat.Codec, w: Stack<K>, entries: Bytes): Bytes
    requires Fits(w, entries)
  {
    if w.blocks.Some? then CompressedLayer(codec, entries, w.blocks.value) else entries
  }

  /** The encryption layer over it, if any. */
  ghost function Middle<K>(codec: CompressFormat.Codec, w: Stack<K>, entries: Bytes): Bytes
    requires Fits(w, entries)
  {
    var d := Inner(codec, w, entries);
    match w.encryption
    case None => d
    case Some(e) => E.EncryptedLayer(e.config, e.g, e.base, d)
  }

  /** The signature layer over that, if any. */
  ghost function Outer<K, P>(scheme: S.Scheme<K, P>, codec: CompressFormat.Codec, w: Stack<K>, entries: Bytes): Bytes
    requires Fits(w, entries)
  {
    var d := Middle(codec, w, entries);
    if w.signing.Some? then S.SignedLayer(scheme, w.signing.value, ARCHIVE_HEADER, d) else d
  }

  ghost function ArchiveBytes<K, P>(scheme: S.Scheme<K, P>, codec: CompressFormat.Codec, w: Stack<K>,
    entries: Bytes): Bytes
    requires Fits(w, entries)
  {
    ARCHIVE_HEADER + Outer(scheme, codec, w, entries) + (EMPTY_TAIL_OPTS + END_MLA_MAGIC)
  }

  // ---------- Writing ----------

  /** The layers `from_config` builds, and the blocks the entries take. */
  function Written<K>(signing: Option<seq<K>>, encryption: Option<Encryption>, compress: bool,
    entries: Bytes): Stack<K> {
    Stack(signing, encryption, if compress then Some(CompressFormat.BlockCount(|entries|)) else None)
  }

  /** The compression step: nothing, or a compression layer. */
  method WriteCompressed(codec: CompressFormat.Codec, compress: bool, d: Bytes) returns (r: Bytes)
    requires CompressFormat.Sound(codec) && d != []
    ensures r == if compress then CompressedLayer(codec, d, CompressFormat.BlockCount(|d|)) else d
  {
    if !compress {
      return d;
    }
    var writer := new CompressionWriting.CompressWriter(codec, COMPRESSION_HEADER);
    writer.WriteAll(d, COMPRESSION_HEADER);
    assert [] + d == d;
    writer.Finalize(COMPRESSION_HEADER);
    r := writer.inner;
  }

  method WriteEncrypted(encryption: Option<Encryption>, d: Bytes) returns (r: Result<Bytes, Error>)
    ensures r.Ok? ==>
      r.value == match encryption
                 case None => d
                 case Some(e) => E.EncryptedLayer(e.config, e.g, e.base, d)
    ensures |d| < I64_LIMIT ==> r.Ok?
  {
    hide LE, E.HeaderBytes, Stream, Chunks;
    match encryption {
      case None =>
        r := Ok(d);
      case Some(Encryption(config, g, base)) =>
        var head := E.ENCRYPTION_LAYER_MAGIC + E.HeaderBytes(config);
        var writer := new EncryptionWriting.EncryptWriter(g, base, head);
        var written := writer.WriteAll(d, head);
        if written.Err? {
          return Err(written.error);
        }
        assert [] + d == d;
        var finalized := writer.Finalize(head);
        if finalized.Err? {
          return Err(finalized.error);
        }
        r := Ok(writer.inner + EMPTY_TAIL_OPTS);
    }
  }

  method WriteSigned<K, P>(scheme: S.Scheme<K, P>, signing: Option<seq<K>>, d: Bytes) returns (r: Result<Bytes, Error>)
    ensures r.Ok? <==> signing.None? || S.KEY_LENGTH * |signing.value| + 8 < U64_LIMIT
    ensures r.Ok? ==> r.value == if signing.Some? then S.SignedLayer(scheme, signing.value, ARCHIVE_HEADER, d) else d
  {
    match signing {
      case None =>
        r := Ok(d);
      case Some(keys) =>
        var writer := new S.SignatureWriter(scheme, keys, [], ARCHIVE_HEADER);
        var written := writer.Write(d, [], ARCHIVE_HEADER, []);
        assert [] + d == d;
        r := writer.Finalize([], ARCHIVE_HEADER, d);
        if r.Ok? {
          assert [] + S.SignedLayer(scheme, keys, ARCHIVE_HEADER, d) == S.SignedLayer(scheme, keys, ARCHIVE_HEADER, d);
        }
    }
  }

  /**
   * The writing end: what `from_config` and `finalize` of the archive writer
   * put around the entries, for any choice of layers.
   */
  method WriteArchive<K, P>(scheme: S.Scheme<K, P>, codec: CompressFormat.Codec, signing: Option<seq<K>>,
    encryption: Option<Encryption>, compress: bool, entries: Bytes)
    returns (r: Result<Bytes, Error>)
    requires CompressFormat.Sound(codec) && ENTRIES_HEADER <= entries
    requires encryption.Some? ==> |encryption.value.config.recipients| < U64_LIMIT
    ensures var w := Written(signing, encryption, compress, entries);
      && (r.Ok? ==> Fits(w, entries) && r.value == ArchiveBytes(scheme, codec, w, entries))
      && (Fits(w, entries) && |Inner(codec, w, entries)| < I64_LIMIT ==> r.Ok?)
  {
    hide CompressedLayer, E.EncryptedLayer, S.SignedLayer, CompressFormat.BlockCount;
    ghost var w := Written(signing, encryption, compress, entries);
    var inner := WriteCompressed(codec, compress, entries);
    var middle := WriteEncrypted(encryption, inner);
    if middle.Err? {
      return Err(middle.error);
    }
    var outer := WriteSigned(scheme, signing, middle.value);
    if outer.Err? {
      return Err(outer.error);
    }
    assert Outer(scheme, codec, w, entries) == outer.value;
    r := Ok(ARCHIVE_HEADER + outer.value + (EMPTY_TAIL_OPTS + END_MLA_MAGIC));
  }

  // ---------- The header and the tail ----------

  /** `u32::deserialize` */
  method ReadU32(src: ByteSource) returns (r: Result<nat, Error>)
    requires src.Readable()
    modifies src
    ensures src.Readable() && old(src.pos) <= src.pos
    ensures match Take(src.data[old(src.pos)..], 4, DeserializationError)
            case Err(e) => r == Err(e)
            case Ok((b, rest)) => r == Ok(FromLE(b)) && src.data[src.pos..] == rest
    ensures r.Ok? <==> old(src.pos) + 4 <= |src.data|
    ensures r.Ok? ==> src.pos == old(src.pos) + 4 && r.value == FromLE(src.data[old(src.pos)..src.pos])
  {
    ghost var s := src.data[src.pos..];
    var b := src.ReadExact(4);
    if b.Err? {
      return Err(DeserializationError);
    }
    assert b.value == s[..4] && src.data[src.pos..] == s[4..];
    r := Ok(FromLE(b.value));
  }

  /** Only archives of this format and version pass. */
  ghost predicate HeaderChecked(data: Bytes, r: Result<(), Error>) {
    && (r.Ok? ==> 13 <= |data| && data[..8] == MLA_MAGIC && FromLE(data[8..12]) == 2)
    && (8 <= |data| && data[..8] != MLA_MAGIC ==> r == Err(WrongMagic))
    && (12 <= |data| && data[..8] == MLA_MAGIC && FromLE(data[8..12]) != 2 ==> r == Err(UnsupportedVersion))
  }

  /** `ArchiveHeader::deserialize` */
  method ReadArchiveHeader(src: ByteSource) returns (r: Result<(), Error>)
    requires src.Valid()
    modifies src
    ensures src.Valid() && old(src.pos) <= src.pos
    ensures old(src.pos) == 0 && ARCHIVE_HEADER <= src.data ==> r == Ok(()) && src.pos == 13
    ensures old(src.pos) == 0 ==> HeaderChecked(src.data, r) && (r.Ok? ==> 13 <= src.pos)
  {
    hide ParseOpts, LE, FromLE;
    ghost var good := src.pos == 0 && ARCHIVE_HEADER <= src.data;
    if good {
      HeaderFields(src.data);
    }
    var magic := src.ReadExact(8);
    if magic.Err? {
      return Err(magic.error);
    }
    if magic.value != MLA_MAGIC {
      return Err(WrongMagic);
    }
    var version := ReadU32(src);
    if version.Err? {
      return Err(version.error);
    }
    if version.value != MLA_FORMAT_VERSION {
      return Err(UnsupportedVersion);
    }
    r := ReadOpts(src);
    if good {
      assert |src.data[src.pos..]| == |src.data[13..]|;
    }
  }

  lemma HeaderFields(data: Bytes)
    requires ARCHIVE_HEADER <= data
    ensures |ARCHIVE_HEADER| == 13
    ensures data[0..8] == MLA_MAGIC
    ensures Take(data[8..], 4, DeserializationError) == Ok((LE(MLA_FORMAT_VERSION, 4), data[12..]))
      && FromLE(LE(MLA_FORMAT_VERSION, 4)) == MLA_FORMAT_VERSION
    ensures ParseOpts(data[12..], None) == Ok(data[13..])
  {
    hide LE, FromLE;
    U32RoundTrip(MLA_FORMAT_VERSION);
    var version := LE(MLA_FORMAT_VERSION, 4);
    assert data == MLA_MAGIC + (version + EMPTY_OPTS) + data[13..];
    assert data[8..] == version + data[12..];
    assert data[12..] == EMPTY_OPTS + data[13..];
  }

  ghost predicate EndsWithMagic(data: Bytes) {
    8 <= |data| && data[|data| - 8..] == END_MLA_MAGIC
  }

  /** End magic and length of the tail options: how long the tail is with both. */
  method ReadTail(raw: ByteSource) returns (r: Result<nat, Error>)
    requires raw.Valid()
    modifies raw
    ensures raw.Valid()
    ensures r.Ok? ==> EndsWithMagic(raw.data)
    ensures 8 <= |raw.data| && !EndsWithMagic(raw.data) ==> r == Err(WrongEndMagic)
    ensures EndsWithMagic(raw.data) && 16 <= |raw.data| ==>
      match ParseU64Field(raw.data[|raw.data| - 16..])
      case Err(e) => r == Err(e)
      case Ok((n, _)) => r == if n + 16 < U64_LIMIT then Ok(n + 16) else Err(DeserializationError)
  {
    hide LE, FromLE, ParseU64Field;
    var endMagicPosition := raw.Seek(End(-8));
    if endMagicPosition.Err? {
      return Err(endMagicPosition.error);
    }
    assert raw.data[raw.pos..raw.pos + 8] == raw.data[|raw.data| - 8..];
    var endMagic := raw.ReadExact(8);
    if endMagic != Ok(END_MLA_MAGIC) {
      return Err(WrongEndMagic);
    }
    var atOptions := raw.Seek(End(-16));
    if atOptions.Err? {
      return Err(atOptions.error);
    }
    var optionsLength := ReadU64(raw);
    if optionsLength.Err? {
      return Err(optionsLength.error);
    }
    r := if optionsLength.value + 16 < U64_LIMIT then Ok(optionsLength.value + 16) else Err(DeserializationError);
  }

  /**
   * Header, end magic and tail options: shows what lies between them, and
   * returns the header bytes as they were hashed.
   */
  method OpenArchive(src: ByteSource, ghost outer: Bytes) returns (r: Result<ByteSource, Error>, hash: Bytes)
    requires src.Valid()
    modifies src
    ensures src.Valid()
    ensures r.Ok? ==> HeaderChecked(src.data, Ok(())) && EndsWithMagic(src.data)
    ensures src.data == ARCHIVE_HEADER + outer + (EMPTY_TAIL_OPTS + END_MLA_MAGIC) ==>
      && hash == ARCHIVE_HEADER
      && r.Ok? && fresh(r.value) && r.value.Valid() && r.value.data == outer && r.value.pos == 0
  {
    hide LE, FromLE, ParseU64Field;
    hash := [];
    ghost var good := src.data == ARCHIVE_HEADER + outer + (EMPTY_TAIL_OPTS + END_MLA_MAGIC);
    if good {
      TailFields(outer);
    }
    var rewound := src.Seek(Start(0));
    var header := ReadArchiveHeader(src);
    if header.Err? {
      return Err(header.error), hash;
    }
    hash := src.data[..src.pos];
    // what follows the header, with positions counted from there
    var raw := new ByteSource(src.data[src.pos..]);
    if |raw.data| >= 8 {
      SuffixOfSuffix(src.data, src.pos, |raw.data| - 8);
    }
    var tailLength := ReadTail(raw);
    if tailLength.Err? {
      return Err(tailLength.error), hash;
    }
    var toStart := raw.Seek(Start(0));
    var strip := StripHeadTailReader.Create(raw, 0, tailLength.value, |raw.data|, 0);
    if strip.Err? {
      return Err(strip.error), hash;
    }
    var view := new ByteSource(strip.value.View());
    r := Ok(view);
  }

  lemma TailFields(outer: Bytes)
    ensures var data := ARCHIVE_HEADER + outer + (EMPTY_TAIL_OPTS + END_MLA_MAGIC);
            && ARCHIVE_HEADER <= data && |ARCHIVE_HEADER| == 13 && data[..13] == ARCHIVE_HEADER
            && var raw := data[13..];
            && |raw| == |outer| + 17
            && raw[|raw| - 8..|raw|] == END_MLA_MAGIC
            && ParseU64Field(raw[|raw| - 16..]) == Ok((1, END_MLA_MAGIC))
            && Window(raw, 0, 17) == outer
  {
    hide LE, FromLE, ParseU64Field;
    var data := ARCHIVE_HEADER + outer + (EMPTY_TAIL_OPTS + END_MLA_MAGIC);
    SplitAt(ARCHIVE_HEADER, outer, EMPTY_TAIL_OPTS + END_MLA_MAGIC);
    var raw := data[13..];
    assert raw == outer + (EMPTY_OPTS + LE(1, 8) + END_MLA_MAGIC);
    ParseU64FieldOf(1, END_MLA_MAGIC);
    assert raw[|raw| - 16..] == LE(1, 8) + END_MLA_MAGIC;
  }

  // ---------- Telling the layers apart ----------

  lemma MagicsDiffer()
    ensures S.SIGNATURE_LAYER_MAGIC != E.ENCRYPTION_LAYER_MAGIC && S.SIGNATURE_LAYER_MAGIC != COMPRESSION_LAYER_MAGIC
    ensures S.SIGNATURE_LAYER_MAGIC != ENTRIES_MAGIC && E.ENCRYPTION_LAYER_MAGIC != COMPRESSION_LAYER_MAGIC
    ensures E.ENCRYPTION_LAYER_MAGIC != ENTRIES_MAGIC && COMPRESSION_LAYER_MAGIC != ENTRIES_MAGIC
    ensures |S.SIGNATURE_LAYER_MAGIC| == |E.ENCRYPTION_LAYER_MAGIC| == |COMPRESSION_LAYER_MAGIC| == |ENTRIES_MAGIC| == 8
  {
    assert S.SIGNATURE_LAYER_MAGIC[0] == 83 && E.ENCRYPTION_LAYER_MAGIC[0] == 69;
    assert COMPRESSION_LAYER_MAGIC[0] == 67 && ENTRIES_MAGIC[0] == 77;
  }

  /** The first eight bytes of a layer say which one it is. */
  ghost predicate Starts(d: Bytes, magic: Bytes) {
    8 <= |d| && d[..8] == magic
  }

  lemma InnerStarts<K>(codec: CompressFormat.Codec, w: Stack<K>, entries: Bytes)
    requires Fits(w, entries)
    ensures Starts(Inner(codec, w, entries), if w.blocks.Some? then COMPRESSION_LAYER_MAGIC else ENTRIES_MAGIC)
  {
    hide CompressFormat.Layout;
    MagicsDiffer();
    assert ENTRIES_HEADER[..8] == ENTRIES_MAGIC;
  }

  lemma MiddleStarts<K>(codec: CompressFormat.Codec, w: Stack<K>, entries: Bytes)
    requires Fits(w, entries)
    ensures w.encryption.Some? ==> Starts(Middle(codec, w, entries), E.ENCRYPTION_LAYER_MAGIC)
    ensures w.encryption.None? ==>
      Starts(Middle(codec, w, entries), COMPRESSION_LAYER_MAGIC) || Starts(Middle(codec, w, entries), ENTRIES_MAGIC)
    ensures S.ConfigIn(Middle(codec, w, entries))
      == Ok(if w.encryption.Some? then Some(w.encryption.value.config) else None)
    ensures |Inner(codec, w, entries)| <= |Middle(codec, w, entries)|
  {
    hide Inner, E.EncryptedLayer, E.HeaderBytes, E.ParseEncryptionHeader, Stream;
    MagicsDiffer();
    InnerStarts(codec, w, entries);
    var d := Inner(codec, w, entries);
    match w.encryption {
      case None =>
      case Some(Encryption(config, g, base)) =>
        E.LayerParts(config, g, base, d);
        StreamLength(g, base, d, ChunkCount(|d|));
        var layer := E.EncryptedLayer(config, g, base, d);
        E.HeaderRoundTrip(config, layer[8 + |E.HeaderBytes(config)|..]);
    }
  }

  // ---------- Reading ----------

  /** What a reader brings: its keys, what it insists on, and how it finds the encryption key. */
  datatype ReaderConfig<!P> = ReaderConfig(verificationKeys: seq<P>, signatureCheck: bool, acceptUnencrypted: bool,
    load: E.PersistentConfig -> Result<(Aead, Nonce), Error>)

  /** Which archives' signatures a reader accepts. */
  ghost predicate SignatureAccepted<K, P>(scheme: S.Scheme<K, P>, config: ReaderConfig<P>, signing: Option<seq<K>>,
    middle: Bytes) {
    match signing
    case None => !config.signatureCheck
    case Some(keys) =>
      var message := S.Signed(ARCHIVE_HEADER, middle);
      config.signatureCheck ==>
        exists key :: key in config.verificationKeys
          && S.Verified(scheme, key, message, S.SignaturesOf(scheme, keys, message))
  }

  /**
   * No key of the reader verifies any Ed25519 signature the archive carries, or
   * none verifies any ML-DSA signature, or there is no signature at all.
   */
  ghost predicate Unsigned<K, P>(scheme: S.Scheme<K, P>, verificationKeys: seq<P>, signing: Option<seq<K>>,
    message: Bytes) {
    match signing
    case None => true
    case Some(keys) =>
      || (forall p, i :: 0 <= p < |verificationKeys| && 0 <= i < |keys| ==>
            !scheme.verifies(verificationKeys[p], message, S.MLAEd25519(scheme.signEd(keys[i], message))))
      || (forall p, j :: 0 <= p < |verificationKeys| && 0 <= j < |keys| ==>
            !scheme.verifies(verificationKeys[p], message, S.MLAMlDsa87(scheme.signMl(keys[j], message))))
  }

  lemma UnsignedRefused<K, P>(scheme: S.Scheme<K, P>, config: ReaderConfig<P>, signing: Option<seq<K>>, middle: Bytes)
    requires config.signatureCheck
    requires Unsigned(scheme, config.verificationKeys, signing, S.Signed(ARCHIVE_HEADER, middle))
    ensures !SignatureAccepted(scheme, config, signing, middle)
  {
    hide S.Verified, S.SignaturesOf;
    if signing.Some? {
      var message := S.Signed(ARCHIVE_HEADER, middle);
      forall key | key in config.verificationKeys
        ensures !S.Verified(scheme, key, message, S.SignaturesOf(scheme, signing.value, message))
      {
        S.VerifiedExact(scheme, signing.value, message, key);
        var p :| 0 <= p < |config.verificationKeys| && config.verificationKeys[p] == key;
      }
    }
  }

  /** The signature step: verifies and shows the layer inside, or checks that no signature is asked for. */
  method OpenSigned<K, P(==)>(layer: ByteSource, magic: Bytes, hash: Bytes, scheme: S.Scheme<K, P>,
    config: ReaderConfig<P>, ghost codec: CompressFormat.Codec, ghost w: Stack<K>, ghost entries: Bytes)
    returns (r: Result<ByteSource, Error>, magic': Bytes, valid: seq<P>, persistent: Option<E.PersistentConfig>,
      ghost hashed: Bytes)
    requires Fits(w, entries) && layer.Valid() && layer.data == Outer(scheme, codec, w, entries)
    requires layer.pos == 8 && Starts(layer.data, magic) && hash == ARCHIVE_HEADER + magic
    modifies layer
    ensures r.Ok? <==> SignatureAccepted(scheme, config, w.signing, Middle(codec, w, entries))
    ensures r.Ok? ==>
      var inside := r.value;
      && (inside == layer || fresh(inside)) && inside.Valid() && inside.data == Middle(codec, w, entries)
      && inside.pos == 8 && Starts(inside.data, magic')
    ensures r.Ok? && config.signatureCheck ==>
      var message := S.Signed(ARCHIVE_HEADER, Middle(codec, w, entries));
      && w.signing.Some? && hashed == message
      && forall key :: key in valid <==>
           key in config.verificationKeys
             && S.Verified(scheme, key, message, S.SignaturesOf(scheme, w.signing.value, message))
    ensures r.Ok? ==> persistent == None || (w.encryption.Some? && persistent == Some(w.encryption.value.config))
  {
    hide Middle, S.Verified, S.SignatureTail, S.ConfigIn, S.ParseSignatures, S.SerializeSignatures, S.SignaturesOf;
    valid, persistent, hashed, magic' := [], None, [], magic;
    ghost var middle := Middle(codec, w, entries);
    ghost var keys := if w.signing.Some? then w.signing.value else [];
    ghost var signatures := S.SignaturesOf(scheme, keys, S.Signed(ARCHIVE_HEADER, middle));
    ghost var data := S.SerializeSignatures(signatures);
    MiddleStarts(codec, w, entries);
    SignedStarts(scheme, keys, middle);
    MagicsDiffer();
    if magic == S.SIGNATURE_LAYER_MAGIC {
      S.SignaturesRoundTrip(signatures);
      var view;
      view, valid, persistent, hashed :=
        S.OpenSignature(layer, scheme, config.verificationKeys, config.signatureCheck, hash, ARCHIVE_HEADER,
          middle, data);
      match view {
        case Err(e) =>
          r := Err(e);
        case Ok(inside) =>
          magic' := ReadMagic(inside);
          r := Ok(inside);
      }
    } else if config.signatureCheck {
      r := Err(SignatureAskedButNoSignatureLayerFound);
    } else {
      r := Ok(layer);
    }
  }

  /** A signed layer starts with its magic and is what the layer's reader expects. */
  lemma SignedStarts<K, P>(scheme: S.Scheme<K, P>, keys: seq<K>, middle: Bytes)
    ensures var data := S.SerializeSignatures(S.SignaturesOf(scheme, keys, S.Signed(ARCHIVE_HEADER, middle)));
            && S.SignedLayer(scheme, keys, ARCHIVE_HEADER, middle)
              == S.SIGNATURE_HEADER + middle + S.SignatureTail(data)
            && |data| == S.KEY_LENGTH * |keys|
    ensures Starts(S.SignedLayer(scheme, keys, ARCHIVE_HEADER, middle), S.SIGNATURE_LAYER_MAGIC)
  {
    hide S.SignatureTail, S.SerializeSignatures;
    S.SignaturesLength(scheme, keys, S.Signed(ARCHIVE_HEADER, middle));
    assert S.SIGNATURE_HEADER[..8] == S.SIGNATURE_LAYER_MAGIC;
  }

  /** `read_layer_magic`, where there is one. */
  method ReadMagic(layer: ByteSource) returns (magic: Bytes)
    requires layer.Valid() && layer.pos == 0 && 8 <= |layer.data|
    modifies layer
    ensures layer.Valid() && layer.pos == 8 && Starts(layer.data, magic) && layer.manners == old(layer.manners)
  {
    var bytes := layer.ReadExact(8);
    magic := bytes.value;
    assert layer.data[0..8] == layer.data[..8];
  }

  /** The encryption step: decrypts, or checks that an archive without encryption is accepted. */
  method OpenEncrypted<K, P>(layer: ByteSource, magic: Bytes, persistent: Option<E.PersistentConfig>,
    config: ReaderConfig<P>, ghost codec: CompressFormat.Codec, ghost w: Stack<K>, ghost entries: Bytes)
    returns (r: Result<ByteSource, Error>, magic': Bytes)
    requires Fits(w, entries) && layer.Valid() && layer.data == Middle(codec, w, entries)
    requires layer.pos == 8 && Starts(layer.data, magic)
    requires persistent == None || (w.encryption.Some? && persistent == Some(w.encryption.value.config))
    requires w.encryption.Some? ==> KeyFound(config, w.encryption.value)
    modifies layer
    ensures r.Ok? <==>
      if w.encryption.None? then config.acceptUnencrypted else config.load(w.encryption.value.config).Ok?
    ensures r.Ok? ==>
      var inside := r.value;
      && (inside == layer || fresh(inside)) && inside.Valid() && inside.data == Inner(codec, w, entries)
      && inside.pos == 8 && Starts(inside.data, magic')
      && inside.manners == if w.encryption.Some? then GOOD_MANNERS else old(layer.manners)
  {
    hide Inner, E.EncryptedLayer, S.ConfigIn;
    magic' := magic;
    ghost var inner := Inner(codec, w, entries);
    MiddleStarts(codec, w, entries);
    InnerStarts(codec, w, entries);
    MagicsDiffer();
    if magic == E.ENCRYPTION_LAYER_MAGIC {
      ghost var Encryption(c, g, base) := w.encryption.value;
      var reader := E.OpenEncryption(layer, config.load, persistent, c, g, base, inner);
      match reader {
        case Err(e) =>
          r := Err(e);
        case Ok(decrypting) =>
          var inside := E.Expose(decrypting, inner);
          magic' := ReadMagic(inside);
          r := Ok(inside);
      }
    } else if !config.acceptUnencrypted {
      r := Err(EncryptionAskedButNotMarkedPresent);
    } else {
      r := Ok(layer);
    }
  }

  /** Keys found for the archive's encryption config are the writer's. */
  ghost predicate KeyFound<P>(config: ReaderConfig<P>, e: Encryption) {
    var found := config.load(e.config);
    found.Ok? ==> found.value == (e.g, e.base)
  }

  /** `CompressionLayerReader::new_skip_magic` and `initialize`. */
  method OpenCompression(layer: ByteSource, codec: CompressFormat.Codec, ghost entries: Bytes, ghost n: nat)
    returns (r: Result<CompressionReading.CompressReader, Error>)
    requires layer.Valid()
    modifies layer
    ensures
      && old(layer.pos) == 8 && CompressFormat.Sound(codec) && CompressFormat.Blocks(|entries|, n)
      && layer.data == CompressedLayer(codec, entries, n) ==>
      && r.Ok? && fresh(r.value) && fresh(r.value.inner) && r.value.Synced(entries, n) && r.value.underlayerPos == 0
      && r.value.inside && layer.manners.inside == old(layer.manners.inside)
  {
    hide CompressFormat.Layout, ParseOpts;
    ghost var good := layer.pos == 8 && CompressFormat.Blocks(|entries|, n)
      && layer.data == CompressedLayer(codec, entries, n);
    if good {
      CompressedParts(codec, entries, n);
    }
    var opts := ReadOpts(layer);
    if opts.Err? {
      return Err(opts.error);
    }
    var position := layer.pos;
    if good {
      assert |layer.data[position..]| == |layer.data[9..]|;
    }
    var end := layer.Seek(End(0));
    var back := layer.Seek(Start(position));
    var strip := StripHeadTailReader.Create(layer, position, 0, end.value, 0);
    if strip.Err? {
      return Err(strip.error);
    }
    var view := new ByteSource(strip.value.View());
    var reader := new CompressionReading.CompressReader(codec, view);
    var initialized := reader.Initialize(entries, n);
    r := if initialized.Ok? then Ok(reader) else Err(initialized.error);
  }

  lemma CompressedParts(codec: CompressFormat.Codec, entries: Bytes, n: nat)
    requires CompressFormat.Blocks(|entries|, n)
    ensures var layer := CompressedLayer(codec, entries, n);
            9 < |layer| && ParseOpts(layer[8..], None) == Ok(layer[9..])
              && Window(layer, 9, 0) == CompressFormat.Layout(codec, entries, n)
  {
    hide CompressFormat.Layout;
    var layer := CompressedLayer(codec, entries, n);
    assert layer[8] == COMPRESSION_HEADER[8] == 0;
    IndexBehind(codec, entries, n);
    assert layer[8..][1..] == layer[9..];
  }

  lemma IndexBehind(codec: CompressFormat.Codec, entries: Bytes, n: nat)
    requires CompressFormat.Blocks(|entries|, n)
    ensures |CompressFormat.Layout(codec, entries, n)| > 8
  {}

  /** The compression step: decompresses, where there is compression. */
  method OpenCompressed<K>(layer: ByteSource, magic: Bytes, codec: CompressFormat.Codec, ghost w: Stack<K>,
    ghost entries: Bytes)
    returns (r: Result<ByteSource, Error>)
    requires Fits(w, entries) && |entries| < I64_LIMIT && CompressFormat.Sound(codec)
    requires layer.Valid() && layer.data == Inner(codec, w, entries) && layer.pos == 8 && Starts(layer.data, magic)
    modifies layer
    ensures r.Ok? && (r.value == layer || fresh(r.value)) && r.value.Valid() && r.value.data == entries
    ensures layer.manners.inside == old(layer.manners.inside)
    ensures r.value.manners == if w.blocks.Some? then GOOD_MANNERS else old(layer.manners)
  {
    hide CompressedLayer;
    InnerStarts(codec, w, entries);
    MagicsDiffer();
    if magic == COMPRESSION_LAYER_MAGIC {
      var reader := OpenCompression(layer, codec, entries, w.blocks.value);
      match reader {
        case Err(e) =>
          r := Err(e);
        case Ok(decompressing) =>
          // a source of these bytes stands for the reader, as `ServeCompressed` says
          var size: nat :| size > 0;
          var bytes := decompressing.Drain(_ => size, entries, w.blocks.value);
          var inside := new ByteSource(bytes);
          r := Ok(inside);
      }
    } else {
      r := Ok(layer);
    }
  }

  /**
   * `from_config`, on a finished archive of any of the eight stacks of layers.
   * It opens the archive exactly when the signature, encryption and key
   * conditions hold; then every layer has shown exactly the bytes its writer
   * was given, down to the entries, whose footer is decoded; and what was
   * hashed to verify the signature is what the writer signed.
   */
  method FromConfig<K, P(==)>(src: ByteSource, config: ReaderConfig<P>, scheme: S.Scheme<K, P>,
    codec: CompressFormat.Codec, ghost w: Stack<K>, ghost entries: Bytes, ghost sha: Sha, ghost blocks: seq<Block>,
      ghost footer: seq<(Name, EntryInfo)>)
    returns (r: Result<ArchiveReader, Error>, valid: seq<P>, ghost hashed: Bytes)
    requires src.Valid() && CompressFormat.Sound(codec) && |entries| < I64_LIMIT
    requires Archived(sha, blocks, footer, entries) && Fits(w, entries)
    requires src.data == ArchiveBytes(scheme, codec, w, entries)
    requires w.encryption.Some? ==> KeyFound(config, w.encryption.value)
    modifies src
    ensures r.Ok? <==>
      && SignatureAccepted(scheme, config, w.signing, Middle(codec, w, entries))
      && (if w.encryption.None? then config.acceptUnencrypted else config.load(w.encryption.value.config).Ok?)
    ensures r.Ok? ==>
      && r.value.Valid() && r.value.src.data == entries
      && r.value.sha == sha && r.value.blocks == blocks && r.value.footer == footer
      && (w.encryption.Some? || w.blocks.Some? ==> r.value.manners == GOOD_MANNERS)
    ensures r.Ok? && config.signatureCheck ==>
      var message := S.Signed(ARCHIVE_HEADER, Middle(codec, w, entries));
      && w.signing.Some? && hashed == message
      && forall key :: key in valid <==>
           key in config.verificationKeys
             && S.Verified(scheme, key, message, S.SignaturesOf(scheme, w.signing.value, message))
    ensures
      var message := S.Signed(ARCHIVE_HEADER, Middle(codec, w, entries));
      config.signatureCheck && Unsigned(scheme, config.verificationKeys, w.signing, message) ==> r.Err?
  {
    hide Outer, Middle, Inner, SignatureAccepted, Archived, KeyFound, Fits, Unsigned, S.Verified, S.SignaturesOf;
    valid, hashed := [], [];
    if config.signatureCheck
      && Unsigned(scheme, config.verificationKeys, w.signing, S.Signed(ARCHIVE_HEADER, Middle(codec, w, entries))) {
      UnsignedRefused(scheme, config, w.signing, Middle(codec, w, entries));
    }
    MiddleStarts(codec, w, entries);
    OuterStarts(scheme, codec, w, entries);
    var top, hash := OpenArchive(src, Outer(scheme, codec, w, entries));
    match top {
      case Err(e) => return Err(e), valid, hashed;
      case Ok(_) =>
    }
    var magic := ReadMagic(top.value);
    var verified, persistent;
    verified, magic, valid, persistent, hashed :=
      OpenSigned(top.value, magic, hash + magic, scheme, config, codec, w, entries);
    if verified.Err? {
      return Err(verified.error), valid, hashed;
    }
    var decrypted;
    decrypted, magic := OpenEncrypted(verified.value, magic, persistent, config, codec, w, entries);
    if decrypted.Err? {
      return Err(decrypted.error), valid, hashed;
    }
    var decompressed := OpenCompressed(decrypted.value, magic, codec, w, entries);
    match decompressed {
      case Err(e) => r := Err(e);
      case Ok(inside) => r := Open(inside, sha, blocks, footer);
    }
  }

  lemma OuterStarts<K, P>(scheme: S.Scheme<K, P>, codec: CompressFormat.Codec, w: Stack<K>, entries: Bytes)
    requires Fits(w, entries)
    ensures 8 <= |Outer(scheme, codec, w, entries)|
  {
    MiddleStarts(codec, w, entries);
    if w.signing.Some? {
      SignedStarts(scheme, w.signing.value, Middle(codec, w, entries));
    }
  }

  /** Some key the archive is signed with is one the reader verifies with. */
  ghost predicate KnowsSigner<K, P>(scheme: S.Scheme<K, P>, config: ReaderConfig<P>, signing: Option<seq<K>>) {
    match signing
    case None => !config.signatureCheck
    case Some(keys) => config.signatureCheck ==> exists k :: k in keys && scheme.public(k) in config.verificationKeys
  }

  lemma SignerAccepted<K(!new), P>(scheme: S.Scheme<K, P>, config: ReaderConfig<P>, signing: Option<seq<K>>,
    middle: Bytes)
    requires S.Sound(scheme) && KnowsSigner(scheme, config, signing)
    ensures SignatureAccepted(scheme, config, signing, middle)
  {
    hide S.Verified, S.SignaturesOf, S.Sound;
    if signing.Some? && config.signatureCheck {
      var k :| k in signing.value && scheme.public(k) in config.verificationKeys;
      S.OwnKeyVerified(scheme, signing.value, S.Signed(ARCHIVE_HEADER, middle), k);
    }
  }

  /**
   * Writing an archive with any stack of layers and opening it with the right
   * keys: whenever it can be written, the reader gets every entry back.
   */
  method WriteThenOpen<K(!new), P(==)>(scheme: S.Scheme<K, P>, codec: CompressFormat.Codec, signing: Option<seq<K>>,
    encryption: Option<Encryption>,
    compress: bool, config: ReaderConfig<P>, entries: Bytes, ghost sha: Sha, ghost blocks: seq<Block>,
      ghost footer: seq<(Name, EntryInfo)>)
    returns (written: Result<Bytes, Error>, archive: Result<ArchiveReader, Error>)
    requires CompressFormat.Sound(codec) && S.Sound(scheme) && |entries| < I64_LIMIT
      && Archived(sha, blocks, footer, entries)
    requires encryption.Some? ==>
      |encryption.value.config.recipients| < U64_LIMIT
        && config.load(encryption.value.config) == Ok((encryption.value.g, encryption.value.base))
    requires encryption.None? ==> config.acceptUnencrypted
    requires KnowsSigner(scheme, config, signing)
    ensures ENTRIES_HEADER <= entries
    ensures var w := Written(signing, encryption, compress, entries);
      Fits(w, entries) && |Inner(codec, w, entries)| < I64_LIMIT ==> written.Ok?
    ensures written.Ok? && |written.value| < I64_LIMIT ==>
      archive.Ok? && archive.value.Valid() && archive.value.src.data == entries && archive.value.blocks == blocks
  {
    hide Archived, Fits, S.Sound, KnowsSigner, SignatureAccepted, ArchiveBytes, Middle;
    HeaderFirst(sha, blocks, footer, entries);
    ghost var w := Written(signing, encryption, compress, entries);
    written := WriteArchive(scheme, codec, signing, encryption, compress, entries);
    match written {
      case Err(e) =>
        archive := Err(e);
      case Ok(file) =>
        if |file| >= I64_LIMIT {
          archive := Err(InvalidInput);
          return;
        }
        SignerAccepted(scheme, config, signing, Middle(codec, w, entries));
        var src := new ByteSource(file);
        var valid;
        ghost var hashed;
        archive, valid, hashed := FromConfig(src, config, scheme, codec, w, entries, sha, blocks, footer);
    }
  }

  lemma HeaderFirst(sha: Sha, blocks: seq<Block>, footer: seq<(Name, EntryInfo)>, entries: Bytes)
    requires Archived(sha, blocks, footer, entries)
    ensures ENTRIES_HEADER <= entries
  {
    FooterLocated(blocks, footer);
  }
}
