/** The signature layer: what is signed, the signatures behind it, and their verification. */
module SignatureLayer {
  import opened Io
  import opened BlockFormat
  import opened StripHeadTail
  import opened EncryptionLayer

  const SIGNATURE_LAYER_MAGIC: Bytes := Ascii("SIGMLAAA")
  const SIGNATURE_HEADER: Bytes := SIGNATURE_LAYER_MAGIC + EMPTY_OPTS

  const ED25519_LENGTH := 64
  const ML_DSA87_LENGTH := 4627
  const KEY_LENGTH := 4695         // both signatures, each after its method number

  type EdBytes = b: Bytes | |b| == ED25519_LENGTH witness seq(ED25519_LENGTH, _ => 0)
  type MlBytes = b: Bytes | |b| == ML_DSA87_LENGTH witness seq(ML_DSA87_LENGTH, _ => 0)

  datatype Signature = MLAEd25519(ed: EdBytes) | MLAMlDsa87(ml: MlBytes)

  /**
   * The two signature schemes, kept abstract, over private keys `K` and public
   * keys `P`. A hash stands for the bytes that went into it.
   */
  datatype Scheme<!K, !P> = Scheme(
    signEd: (K, Bytes) -> EdBytes, signMl: (K, Bytes) -> MlBytes, verifies: (P, Bytes, Signature) -> bool,
    public: K -> P)

  /** A key's own signatures verify. */
  ghost predicate Sound<K(!new), P>(s: Scheme<K, P>) {
    forall k: K, m: Bytes ::
      s.verifies(s.public(k), m, MLAEd25519(s.signEd(k, m))) && s.verifies(s.public(k), m, MLAMlDsa87(s.signMl(k, m)))
  }

  // ---------- Signature data ----------

  function SerializeSignature(s: Signature): Bytes {
    match s
    case MLAEd25519(ed) => LE(0, 2) + ed
    case MLAMlDsa87(ml) => LE(1, 2) + ml
  }

  function SerializeSignatures(ss: seq<Signature>): Bytes {
    if ss == [] then [] else SerializeSignature(ss[0]) + SerializeSignatures(ss[1..])
  }

  /** Both signatures of every key, in order. */
  function SignaturesOf<K, P>(s: Scheme<K, P>, keys: seq<K>, message: Bytes): (ss: seq<Signature>)
    ensures |ss| == 2 * |keys|
  {
    if keys == [] then []
    else
      var own := [MLAEd25519(s.signEd(keys[0], message)), MLAMlDsa87(s.signMl(keys[0], message))];
      own + SignaturesOf(s, keys[1..], message)
  }

  function ParseSignature(s: Bytes): (r: Result<(Signature, Bytes), Error>)
    ensures r.Ok? ==> |r.value.1| < |s|
  {
    match Take(s, 2, DeserializationError)
    case Err(e) => Err(e)
    case Ok((methodId, afterId)) =>
      if FromLE(methodId) == 0 then
        match Take(afterId, ED25519_LENGTH, DeserializationError)
        case Err(e) => Err(e)
        case Ok((ed, rest)) => Ok((MLAEd25519(ed), rest))
      else if FromLE(methodId) == 1 then
        match Take(afterId, ML_DSA87_LENGTH, DeserializationError)
        case Err(e) => Err(e)
        case Ok((ml, rest)) => Ok((MLAMlDsa87(ml), rest))
      else Err(DeserializationError)
  }

  function ParseSignatures(s: Bytes): Result<seq<Signature>, Error>
    decreases |s|
  {
    if s == [] then Ok([])
    else
      match ParseSignature(s)
      case Err(e) => Err(e)
      case Ok((first, rest)) =>
        match ParseSignatures(rest)
        case Err(e) => Err(e)
        case Ok(others) => Ok([first] + others)
  }

  lemma MethodIds()
    ensures FromLE(LE(0, 2)) == 0 && FromLE(LE(1, 2)) == 1
  {
    assert Pow256(2) == 256 * Pow256(1) && Pow256(1) == 256;
    LERoundTrip(0, 2);
    LERoundTrip(1, 2);
  }

  lemma ParseSignatureOf(s: Signature, rest: Bytes)
    ensures ParseSignature(SerializeSignature(s) + rest) == Ok((s, rest))
  {
    hide LE, FromLE;
    MethodIds();
    match s {
      case MLAEd25519(ed) =>
        assert SerializeSignature(s) + rest == LE(0, 2) + (ed + rest);
        TakeField(LE(0, 2), ed + rest, DeserializationError);
        TakeField(ed, rest, DeserializationError);
      case MLAMlDsa87(ml) =>
        assert SerializeSignature(s) + rest == LE(1, 2) + (ml + rest);
        TakeField(LE(1, 2), ml + rest, DeserializationError);
        TakeField(ml, rest, DeserializationError);
    }
  }

  lemma {:induction false} SignaturesRoundTrip(ss: seq<Signature>)
    ensures ParseSignatures(SerializeSignatures(ss)) == Ok(ss)
  {
    if ss != [] {
      ParseSignatureOf(ss[0], SerializeSignatures(ss[1..]));
      SignaturesRoundTrip(ss[1..]);
      hide ParseSignature;
      assert ss == [ss[0]] + ss[1..];
      assert SerializeSignatures(ss) != [];
    }
  }

  lemma ParsedSignature(s: Bytes)
    ensures match ParseSignature(s)
            case Err(e) => e == DeserializationError
            case Ok((signature, rest)) => SerializeSignature(signature) + rest == s
  {
    if |s| >= 2 {
      LEInjective(s[..2]);
      hide LE, FromLE;
      assert s == s[..2] + s[2..];
      match ParseSignature(s) {
        case Err(_) =>
        case Ok((MLAEd25519(ed), rest)) =>
          Concat3([], LE(0, 2), ed, rest);
          assert s[2..] == ed + rest;
        case Ok((MLAMlDsa87(ml), rest)) =>
          Concat3([], LE(1, 2), ml, rest);
          assert s[2..] == ml + rest;
      }
    }
  }

  /** Only what is written as signatures is read as such. */
  lemma {:induction false} SignaturesUnique(s: Bytes)
    ensures match ParseSignatures(s)
            case Err(e) => e == DeserializationError
            case Ok(ss) => SerializeSignatures(ss) == s
    decreases |s|
  {
    if s != [] {
      ParsedSignature(s);
      hide ParseSignature, SerializeSignature;
      match ParseSignature(s) {
        case Err(_) =>
        case Ok((first, rest)) =>
          SignaturesUnique(rest);
          if ParseSignatures(rest).Ok? {
            FirstSignature(first, ParseSignatures(rest).value);
          }
      }
    }
  }

  lemma {:induction false} SignaturesLength<K, P>(s: Scheme<K, P>, keys: seq<K>, message: Bytes)
    ensures |SerializeSignatures(SignaturesOf(s, keys, message))| == KEY_LENGTH * |keys|
  {
    hide LE;
    if keys != [] {
      SignaturesLength(s, keys[1..], message);
      var ss := SignaturesOf(s, keys, message);
      assert ss[1..][1..] == SignaturesOf(s, keys[1..], message);
      assert SerializeSignatures(ss)
        == SerializeSignature(ss[0]) + (SerializeSignature(ss[1]) + SerializeSignatures(ss[1..][1..]));
    }
  }

  /** In pairs, in the order of the keys. */
  lemma {:induction false} SignaturesExact<K, P>(s: Scheme<K, P>, keys: seq<K>, message: Bytes, i: nat)
    requires i < |keys|
    ensures SignaturesOf(s, keys, message)[2 * i] == MLAEd25519(s.signEd(keys[i], message))
    ensures SignaturesOf(s, keys, message)[2 * i + 1] == MLAMlDsa87(s.signMl(keys[i], message))
  {
    if i > 0 {
      SignaturesExact(s, keys[1..], message, i - 1);
    }
  }

  // ---------- The layer ----------

  /** What is signed: the archive header, the layer's own, and the inner layer. */
  function Signed(archiveHeader: Bytes, inner: Bytes): Bytes {
    archiveHeader + SIGNATURE_HEADER + inner
  }

  /** Tail options, the signatures as a byte vector, and the length of that. */
  function SignatureTail(data: Bytes): (b: Bytes)
    ensures |b| == 25 + |data|
  {
    EMPTY_TAIL_OPTS + (LE(|data|, 8) + (data + LE(|data| + 8, 8)))
  }

  function SignedLayer<K, P>(s: Scheme<K, P>, keys: seq<K>, archiveHeader: Bytes, inner: Bytes): Bytes {
    SIGNATURE_HEADER + inner + SignatureTail(SerializeSignatures(SignaturesOf(s, keys, Signed(archiveHeader, inner))))
  }

  /** The layer's writer: it hashes what it passes on. */
  class SignatureWriter<K, P> {
    const scheme: Scheme<K, P>
    const keys: seq<K>
    var inner: Bytes
    var hash: Bytes

    /** What was passed on and what was hashed, for what was written. */
    ghost predicate Wrote(dest: Bytes, archiveHeader: Bytes, plain: Bytes)
      reads this
    {
      inner == dest + SIGNATURE_HEADER + plain && hash == Signed(archiveHeader, plain)
    }

    constructor (scheme: Scheme<K, P>, keys: seq<K>, dest: Bytes, hash: Bytes)
      ensures this.scheme == scheme && this.keys == keys && Wrote(dest, hash, [])
    {
      this.scheme, this.keys := scheme, keys;
      inner := dest + SIGNATURE_HEADER;
      this.hash := hash + SIGNATURE_HEADER;
    }

    /** `write`, into a sink that takes the whole buffer. */
    method Write(buf: Bytes, ghost dest: Bytes, ghost archiveHeader: Bytes, ghost plain: Bytes) returns (written: nat)
      requires Wrote(dest, archiveHeader, plain)
      modifies this
      ensures Wrote(dest, archiveHeader, plain + buf) && written == |buf|
    {
      hash := hash + buf;
      inner := inner + buf;
      written := |buf|;
      assert dest + SIGNATURE_HEADER + plain + buf == dest + SIGNATURE_HEADER + (plain + buf);
      assert archiveHeader + SIGNATURE_HEADER + plain + buf == archiveHeader + SIGNATURE_HEADER + (plain + buf);
    }

    /** `finalize` */
    method Finalize(ghost dest: Bytes, ghost archiveHeader: Bytes, ghost plain: Bytes) returns (r: Result<Bytes, Error>)
      requires Wrote(dest, archiveHeader, plain)
      modifies this
      ensures r.Ok? <==> KEY_LENGTH * |keys| + 8 < U64_LIMIT
      ensures r.Ok? ==> r.value == dest + SignedLayer(scheme, keys, archiveHeader, plain)
    {
      hide LE, SerializeSignature, SignatureTail;
      var size := KEY_LENGTH * |keys|;
      if size + 8 >= U64_LIMIT {
        return Err(SerializationError);
      }
      var out := inner + EMPTY_TAIL_OPTS;
      out := out + LE(size, 8);
      ghost var before := out;
      var i := 0;
      var message := hash;
      ghost var all := SerializeSignatures(SignaturesOf(scheme, keys, message));
      assert keys[0..] == keys;
      while i < |keys|
        invariant i <= |keys|
        invariant out + SerializeSignatures(SignaturesOf(scheme, keys[i..], message)) == before + all
      {
        ghost var rest := SignaturesOf(scheme, keys[i + 1..], message);
        var ed, ml := scheme.signEd(keys[i], message), scheme.signMl(keys[i], message);
        NextSignatures(MLAEd25519(ed), MLAMlDsa87(ml), rest, out);
        assert keys[i..][1..] == keys[i + 1..];
        out := out + SerializeSignature(MLAEd25519(ed)) + SerializeSignature(MLAMlDsa87(ml));
        i := i + 1;
      }
      assert keys[i..] == [];
      assert out + [] == before + all;
      SignaturesLength(scheme, keys, message);
      assert |all| == size;
      out := out + LE(size + 8, 8);
      LayerCompleted(dest, plain, all);
      assert out == dest + SIGNATURE_HEADER + plain + EMPTY_TAIL_OPTS + LE(|all|, 8) + all + LE(|all| + 8, 8);
      assert SignedLayer(scheme, keys, archiveHeader, plain) == SIGNATURE_HEADER + plain + SignatureTail(all);
      r := Ok(out);
    }
  }

  lemma NextSignatures(a: Signature, b: Signature, rest: seq<Signature>, out: Bytes)
    ensures out + SerializeSignatures([a, b] + rest)
         == out + SerializeSignature(a) + SerializeSignature(b) + SerializeSignatures(rest)
  {
    hide SerializeSignature;
    assert [a, b] + rest == [a] + ([b] + rest);
    FirstSignature(a, [b] + rest);
    FirstSignature(b, rest);
    hide SerializeSignatures;
    Concat3(out, SerializeSignature(a), SerializeSignature(b), SerializeSignatures(rest));
  }

  lemma FirstSignature(a: Signature, rest: seq<Signature>)
    ensures SerializeSignatures([a] + rest) == SerializeSignature(a) + SerializeSignatures(rest)
  {
    hide SerializeSignature;
    assert ([a] + rest)[1..] == rest;
  }

  lemma LayerCompleted(dest: Bytes, plain: Bytes, data: Bytes)
    ensures dest + SIGNATURE_HEADER + plain + EMPTY_TAIL_OPTS + LE(|data|, 8) + data + LE(|data| + 8, 8)
         == dest + (SIGNATURE_HEADER + plain + SignatureTail(data))
  {
    hide LE;
    Concat4(dest + SIGNATURE_HEADER + plain, EMPTY_TAIL_OPTS, LE(|data|, 8), data, LE(|data| + 8, 8));
    Concat3(dest, SIGNATURE_HEADER, plain, SignatureTail(data));
  }

  // ---------- Verification ----------

  /** A key counts when a signature of each kind verifies with it. */
  ghost predicate Verified<K, P>(s: Scheme<K, P>, key: P, message: Bytes, signatures: seq<Signature>) {
    && (exists i :: 0 <= i < |signatures| && signatures[i].MLAEd25519? && s.verifies(key, message, signatures[i]))
    && (exists i :: 0 <= i < |signatures| && signatures[i].MLAMlDsa87? && s.verifies(key, message, signatures[i]))
  }

  /** Some signature of the first kind verifies, and some of the second. */
  method CheckKey<K, P>(s: Scheme<K, P>, key: P, message: Bytes, signatures: seq<Signature>) returns (verified: bool)
    ensures verified <==>
      && (exists i :: 0 <= i < |signatures| && signatures[i].MLAEd25519? && s.verifies(key, message, signatures[i]))
      && (exists j :: 0 <= j < |signatures| && signatures[j].MLAMlDsa87? && s.verifies(key, message, signatures[j]))
  {
    var traditional, postQuantum := false, false;
    for n := 0 to |signatures|
      invariant traditional <==>
        exists i :: 0 <= i < n && signatures[i].MLAEd25519? && s.verifies(key, message, signatures[i])
      invariant postQuantum <==>
        exists j :: 0 <= j < n && signatures[j].MLAMlDsa87? && s.verifies(key, message, signatures[j])
    {
      if s.verifies(key, message, signatures[n]) {
        match signatures[n] {
          case MLAEd25519(_) => traditional := true;
          case MLAMlDsa87(_) => postQuantum := true;
        }
      }
    }
    verified := traditional && postQuantum;
  }

  /**
   * Over the signatures of some signing keys, a key counts if and only if it
   * verifies an Ed25519 signature of one of them and an ML-DSA signature of one.
   */
  lemma VerifiedExact<K, P>(s: Scheme<K, P>, keys: seq<K>, message: Bytes, key: P)
    ensures Verified(s, key, message, SignaturesOf(s, keys, message)) <==>
      && (exists i :: 0 <= i < |keys| && s.verifies(key, message, MLAEd25519(s.signEd(keys[i], message))))
      && (exists j :: 0 <= j < |keys| && s.verifies(key, message, MLAMlDsa87(s.signMl(keys[j], message))))
  {
    hide SignaturesOf;
    var ss := SignaturesOf(s, keys, message);
    forall n | 0 <= n < |ss|
      ensures ss[n] == if n % 2 == 0 then MLAEd25519(s.signEd(keys[n / 2], message))
                       else MLAMlDsa87(s.signMl(keys[n / 2], message))
    {
      SignaturesExact(s, keys, message, n / 2);
    }
    forall i | 0 <= i < |keys| && s.verifies(key, message, MLAEd25519(s.signEd(keys[i], message)))
      ensures exists n :: 0 <= n < |ss| && ss[n].MLAEd25519? && s.verifies(key, message, ss[n])
    {
      assert ss[2 * i].MLAEd25519?;
    }
    forall j | 0 <= j < |keys| && s.verifies(key, message, MLAMlDsa87(s.signMl(keys[j], message)))
      ensures exists n :: 0 <= n < |ss| && ss[n].MLAMlDsa87? && s.verifies(key, message, ss[n])
    {
      assert ss[2 * j + 1].MLAMlDsa87?;
    }
  }

  /** The public key of a signing key verifies what that key signed. */
  lemma OwnKeyVerified<K(!new), P>(s: Scheme<K, P>, keys: seq<K>, message: Bytes, k: K)
    requires Sound(s) && k in keys
    ensures Verified(s, s.public(k), message, SignaturesOf(s, keys, message))
  {
    hide Verified, SignaturesOf;
    VerifiedExact(s, keys, message, s.public(k));
    var i :| 0 <= i < |keys| && keys[i] == k;
    assert s.verifies(s.public(k), message, MLAEd25519(s.signEd(keys[i], message)));
    assert s.verifies(s.public(k), message, MLAMlDsa87(s.signMl(keys[i], message)));
  }

  /** The verification keys with valid signatures of both kinds; it is an error if there are none. */
  method CheckSignatures<K, P(==)>(s: Scheme<K, P>, keys: seq<P>, message: Bytes, signatures: seq<Signature>)
    returns (r: Result<seq<P>, Error>)
    ensures r.Ok? <==> exists key :: key in keys && Verified(s, key, message, signatures)
    ensures r.Err? ==> r.error == NoValidSignatureFound
    ensures r.Ok? ==> forall key :: key in r.value <==> key in keys && Verified(s, key, message, signatures)
    ensures r.Ok? ==> r.value != [] && forall key :: key in r.value <==>
      && key in keys
      && (exists i :: 0 <= i < |signatures| && signatures[i].MLAEd25519? && s.verifies(key, message, signatures[i]))
      && (exists j :: 0 <= j < |signatures| && signatures[j].MLAMlDsa87? && s.verifies(key, message, signatures[j]))
  {
    var valid := [];
    for i := 0 to |keys|
      invariant forall key :: key in valid <==> key in keys[..i] && Verified(s, key, message, signatures)
    {
      assert forall key :: key in keys[..i + 1] <==> key in keys[..i] || key == keys[i];
      var verified := CheckKey(s, keys[i], message, signatures);
      assert verified <==> Verified(s, keys[i], message, signatures);
      if verified {
        valid := valid + [keys[i]];
      }
    }
    assert keys[..|keys|] == keys;
    if valid == [] {
      return Err(NoValidSignatureFound);
    }
    assert valid[0] in valid;
    r := Ok(valid);
  }

  // ---------- Opening the layer ----------

  function ParseByteVec(s: Bytes): Result<(Bytes, Bytes), Error> {
    match ParseU64Field(s)
    case Err(e) => Err(e)
    case Ok((n, rest)) => Take(rest, n, DeserializationError)
  }

  /** `Vec::<u8>::deserialize` */
  method ReadByteVec(src: ByteSource) returns (r: Result<Bytes, Error>)
    requires src.Readable()
    modifies src
    ensures src.Readable() && old(src.pos) <= src.pos
    ensures match ParseByteVec(src.data[old(src.pos)..])
            case Err(e) => r == Err(e)
            case Ok((b, rest)) => r == Ok(b) && src.data[src.pos..] == rest
  {
    hide ParseU64Field;
    var n := ReadU64(src);
    if n.Err? {
      return Err(n.error);
    }
    ghost var s := src.data[src.pos..];
    var b := src.ReadExact(n.value);
    if b.Err? {
      return Err(DeserializationError);
    }
    assert b.value == s[..n.value] && src.data[src.pos..] == s[n.value..];
    r := b;
  }

  /** What lies where in the layer, counted from its end. */
  lemma LayerParts(inner: Bytes, data: Bytes)
    requires |data| + 8 < U64_LIMIT
    ensures var layer, n := SIGNATURE_HEADER + inner + SignatureTail(data), |data|;
            && |layer| == 34 + |inner| + n
            && layer[..8] == SIGNATURE_LAYER_MAGIC && ParseOpts(layer[8..], None) == Ok(layer[9..])
            && ParseU64Field(layer[|layer| - 8..]) == Ok((n + 8, []))
            && ParseByteVec(layer[|layer| - n - 16..]) == Ok((data, LE(n + 8, 8)))
            && ParseU64Field(layer[|layer| - n - 24..]) == Ok((1, layer[|layer| - n - 16..]))
            && Window(layer, 9, n + 25) == inner
  {
    hide LE, FromLE, ParseU64Field, Take;
    var n := |data|;
    var vec := LE(n, 8) + (data + LE(n + 8, 8));
    var layer := SIGNATURE_HEADER + inner + SignatureTail(data);
    Cut(SIGNATURE_LAYER_MAGIC, inner, LE(1, 8), vec, LE(n, 8) + data, LE(n + 8, 8));
    assert vec == LE(n, 8) + data + LE(n + 8, 8);
    ParseU64FieldOf(n + 8, []);
    assert LE(n + 8, 8) + [] == LE(n + 8, 8);
    ParseU64FieldOf(n, data + LE(n + 8, 8));
    TakeField(data, LE(n + 8, 8), DeserializationError);
    ParseU64FieldOf(1, vec);
    assert layer[8] == EMPTY_OPTS[0];
    assert layer[8..][1..] == layer[9..];
  }

  lemma Cut(magic: Bytes, inner: Bytes, opts: Bytes, vec: Bytes, front: Bytes, back: Bytes)
    requires |magic| == 8 && |opts| == 8 && |back| == 8 && vec == front + back
    ensures var layer := magic + EMPTY_OPTS + inner + (EMPTY_OPTS + opts + vec);
            && |layer| == 18 + |inner| + |vec|
            && layer[..8] == magic && layer[8] == 0 && layer[9..|layer| - |vec| - 9] == inner
            && layer[|layer| - |vec|..] == vec && layer[|layer| - 8..] == back
            && layer[|layer| - |vec| - 8..] == opts + vec
  {}

  /** The source holds the layer of `inner` with these signature data, and its magic has been read. */
  ghost predicate HoldsLayer(src: ByteSource, inner: Bytes, data: Bytes)
    reads src
  {
    && src.Valid() && src.pos == 8 && |data| + 8 < U64_LIMIT
    && src.data == SIGNATURE_HEADER + inner + SignatureTail(data)
  }

  /** Finds the signature data and the length of the tail, and goes behind the header. */
  method LocateSignatures(src: ByteSource, ghost inner: Bytes, ghost data: Bytes)
    returns (r: Result<(Bytes, nat, nat), Error>)
    requires src.Valid()
    modifies src
    ensures src.Valid()
    ensures r.Ok? ==> old(src.pos) <= src.pos && r.value.2 == |src.data|
    ensures old(HoldsLayer(src, inner, data)) ==> r == Ok((data, |data| + 25, |src.data|)) && src.pos == 9
  {
    hide LE, FromLE, ParseU64Field, ParseByteVec, ParseOpts, SignatureTail;
    if HoldsLayer(src, inner, data) {
      LayerParts(inner, data);
    }
    ghost var was := src.data[src.pos..];
    var opts := ReadOpts(src);
    if opts.Err? {
      return Err(opts.error);
    }
    var innerPosition := src.pos;
    var atLength := src.Seek(End(-8));
    if atLength.Err? {
      return Err(atLength.error);
    }
    var vecLength := ReadU64(src);
    if vecLength.Err? {
      return Err(vecLength.error);
    }
    var fromEnd := vecLength.value + 8;
    if fromEnd > I64_LIMIT {
      return Err(DeserializationError);
    }
    var atVec := src.Seek(End(-fromEnd));
    if atVec.Err? {
      return Err(atVec.error);
    }
    var signatureData := ReadByteVec(src);
    if signatureData.Err? {
      return Err(signatureData.error);
    }
    var optionsFromEnd := fromEnd + 8;
    if optionsFromEnd > I64_LIMIT {
      return Err(DeserializationError);
    }
    var atOptions := src.Seek(End(-optionsFromEnd));
    if atOptions.Err? {
      return Err(atOptions.error);
    }
    var optionsLength := ReadU64(src);
    if optionsLength.Err? {
      return Err(optionsLength.error);
    }
    var tailLength := optionsFromEnd + optionsLength.value;
    if tailLength >= U64_LIMIT {
      return Err(DeserializationError);
    }
    var end := src.Seek(End(0));
    var atInner := src.Seek(Start(innerPosition));
    r := Ok((signatureData.value, tailLength, end.value));
  }

  /** `deserialize_signatures` */
  method DeserializeSignatures(data: Bytes) returns (r: Result<seq<Signature>, Error>)
    ensures r == ParseSignatures(data)
  {
    hide ParseSignature;
    var rest, signatures := data, [];
    assert forall others: seq<Signature> :: [] + others == others;
    while rest != []
      invariant match ParseSignatures(rest)
                case Err(e) => ParseSignatures(data) == Err(e)
                case Ok(others) => ParseSignatures(data) == Ok(signatures + others)
      decreases |rest|
    {
      match ParseSignature(rest) {
        case Err(e) =>
          return Err(e);
        case Ok((signature, after)) =>
          ghost var before := signatures;
          rest, signatures := after, signatures + [signature];
          assert forall others: seq<Signature> :: before + ([signature] + others) == signatures + others;
      }
    }
    assert signatures + [] == signatures;
    r := Ok(signatures);
  }

  /** The encryption config an inner layer starts with, if it is an encryption layer. */
  function ConfigIn(inner: Bytes): Result<Option<PersistentConfig>, Error> {
    match Take(inner, 8, UnexpectedEof)
    case Err(e) => Err(e)
    case Ok((magic, rest)) =>
      if magic != ENCRYPTION_LAYER_MAGIC then Ok(None)
      else
        match ParseEncryptionHeader(rest)
        case Err(e) => Err(e)
        case Ok((config, _)) => Ok(Some(config))
  }

  /** Reads the inner layer to its end, keeping the encryption config it starts with. */
  method ReadInner(view: ByteSource) returns (r: Result<Option<PersistentConfig>, Error>)
    requires view.Valid() && view.pos == 0
    modifies view
    ensures view.Valid() && r == ConfigIn(view.data)
    ensures r.Ok? ==> view.pos == |view.data|
  {
    hide ParseEncryptionHeader;
    var config := None;
    var magic := view.ReadExact(8);
    if magic.Err? {
      return Err(magic.error);
    }
    if magic.value == ENCRYPTION_LAYER_MAGIC {
      var header := ReadEncryptionHeader(view);
      if header.Err? {
        return Err(header.error);
      }
      config := Some(header.value.0);
    }
    var rest := view.ReadToEnd(|view.data|);
    r := Ok(config);
  }

  /** Which key sets the reader accepts for a message: with data that parses, and a verified key in the set. */
  ghost predicate Acceptable<K, P>(s: Scheme<K, P>, keys: seq<P>, message: Bytes, data: Bytes) {
    ParseSignatures(data).Ok? && exists key :: key in keys && Verified(s, key, message, ParseSignatures(data).value)
  }

  /**
   * `SignatureLayerReader::new_skip_magic`. The view shows exactly the inner
   * layer the writer passed on; what is hashed for the verification is exactly
   * what the writer hashed; and with verification asked for it succeeds if and
   * only if one of the keys has both its signatures.
   */
  method OpenSignature<K, P(==)>(src: ByteSource, scheme: Scheme<K, P>, keys: seq<P>, check: bool,
    archiveHeaderHash: Bytes, ghost archiveHeader: Bytes, ghost inner: Bytes, ghost data: Bytes)
    returns (r: Result<ByteSource, Error>, valid: seq<P>, config: Option<PersistentConfig>, ghost hashed: Bytes)
    requires src.Valid()
    modifies src
    ensures src.Valid()
    ensures
      && old(HoldsLayer(src, inner, data)) && ConfigIn(inner).Ok?
      && archiveHeaderHash == archiveHeader + SIGNATURE_LAYER_MAGIC ==>
      && (r.Ok? <==> check ==> Acceptable(scheme, keys, Signed(archiveHeader, inner), data))
      && (r.Ok? ==> fresh(r.value) && r.value.Valid() && r.value.data == inner && r.value.pos == 0)
      && (r.Ok? && check ==>
            && hashed == Signed(archiveHeader, inner) && config == ConfigIn(inner).value
            && valid != [] && forall key :: key in valid <==>
              key in keys && Verified(scheme, key, Signed(archiveHeader, inner), ParseSignatures(data).value))
      && (r.Ok? && !check ==> valid == [] && config == None)
    ensures
      && old(HoldsLayer(src, inner, data)) && ConfigIn(inner).Ok? && r.Ok? && check
      && archiveHeaderHash == archiveHeader + SIGNATURE_LAYER_MAGIC ==>
      var signatures, message := ParseSignatures(data).value, Signed(archiveHeader, inner);
      forall key :: key in valid <==>
        && key in keys
        && (exists i :: 0 <= i < |signatures| && signatures[i].MLAEd25519?
              && scheme.verifies(key, message, signatures[i]))
        && (exists j :: 0 <= j < |signatures| && signatures[j].MLAMlDsa87?
              && scheme.verifies(key, message, signatures[j]))
  {
    hide SignatureTail, ParseSignatures, Verified, ConfigIn, LE;
    valid, config, hashed := [], None, archiveHeaderHash;
    ghost var good := HoldsLayer(src, inner, data);
    if good {
      LayerParts(inner, data);
    }
    var from := src.pos;
    var located := LocateSignatures(src, inner, data);
    if located.Err? {
      return Err(located.error), valid, config, hashed;
    }
    var (signatureData, tailLength, length) := located.value;
    var hash := archiveHeaderHash + src.data[from..src.pos];
    var strip := StripHeadTailReader.Create(src, src.pos, tailLength, length, 0);
    if strip.Err? {
      return Err(strip.error), valid, config, hashed;
    }
    var view := new ByteSource(strip.value.View());
    if !check {
      return Ok(view), valid, config, hashed;
    }
    var read := ReadInner(view);
    if read.Err? {
      return Err(read.error), valid, config, hashed;
    }
    config := read.value;
    hash := hash + view.data[..view.pos];
    hashed := hash;
    if good && archiveHeaderHash == archiveHeader + SIGNATURE_LAYER_MAGIC {
      HashedIsSigned(src.data, archiveHeader, inner, data);
    }
    var rewound := view.Seek(Start(0));
    var signatures := DeserializeSignatures(signatureData);
    if signatures.Err? {
      return Err(signatures.error), valid, config, hashed;
    }
    var checked := CheckSignatures(scheme, keys, hash, signatures.value);
    if checked.Err? {
      return Err(checked.error), valid, config, hashed;
    }
    valid := checked.value;
    r := Ok(view);
  }

  lemma HashedIsSigned(layer: Bytes, archiveHeader: Bytes, inner: Bytes, data: Bytes)
    requires layer == SIGNATURE_HEADER + inner + SignatureTail(data)
    ensures archiveHeader + SIGNATURE_LAYER_MAGIC + layer[8..9] + inner[..|inner|] == Signed(archiveHeader, inner)
  {
    hide SignatureTail;
    assert layer[8..9] == EMPTY_OPTS;
    assert inner[..|inner|] == inner;
  }
}
