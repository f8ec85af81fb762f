/** Byte strings, little-endian integers and the byte cursor every reader works on. */
module Io {

  type byte = x: int | 0 <= x < 256

  type Bytes = seq<byte>

  datatype Option<+T> = None | Some(value: T)

  datatype Result<+T, +E> = Ok(value: T) | Err(error: E)

  /** The errors of the modelled code, without their message strings. */
  datatype Error =
    | DeserializationError
    | SerializationError
    | InvalidInput
    | UnexpectedEof
    | ReadFailure
    | EndOfStream
    | WrongReaderState
    | WrongWriterState
    | WrongArchiveWriterState
    | WrongBlockSubFileType
    | DuplicateEntryName
    | WrongMagic
    | WrongEndMagic
    | UnsupportedVersion
    | MissingMetadata
    | BadAPIArgument
    | HPKEError
    | InvalidLastTag
    | TruncatedTag
    | UnknownTagPosition
    | AuthenticatedDecryptionWrongTag
    | EntryCountMismatch
    | SeparatorTooBig
    | InvalidEntryNameToPath
    | EncryptionAskedButNotMarkedPresent
    | SignatureAskedButNoSignatureLayerFound
    | NoValidSignatureFound

  const U32_LIMIT: int := 0x1_0000_0000
  const U64_LIMIT: int := 0x1_0000_0000_0000_0000
  const I64_LIMIT: int := 0x8000_0000_0000_0000

  function Min(a: int, b: int): int {
    if a < b then a else b
  }

  lemma SliceOfSlice(s: Bytes, lo: nat, hi: nat, a: nat, b: nat)
    requires lo <= hi <= |s| && a <= b <= hi - lo
    ensures s[lo..hi][a..b] == s[lo + a..lo + b]
  {
    assert |s[lo..hi][a..b]| == |s[lo + a..lo + b]|;
    assert forall i :: 0 <= i < b - a ==> s[lo..hi][a..b][i] == s[lo + a..lo + b][i];
  }

  lemma SliceOfSuffix(s: Bytes, lo: nat, a: nat, b: nat)
    requires lo <= |s| && a <= b <= |s| - lo
    ensures s[lo..][a..b] == s[lo + a..lo + b]
  {
    assert |s[lo..][a..b]| == |s[lo + a..lo + b]|;
    assert forall i :: 0 <= i < b - a ==> s[lo..][a..b][i] == s[lo + a..lo + b][i];
  }

  lemma SuffixOfSuffix(s: Bytes, a: nat, b: nat)
    requires a + b <= |s|
    ensures s[a..][b..] == s[a + b..]
  {}

  lemma SplitAt(a: Bytes, b: Bytes, c: Bytes)
    ensures (a + b + c)[|a|..|a + b|] == b && (a + b + c)[|a|..] == b + c && (a + b + c)[|a + b|..] == c
  {}

  lemma SplitFront(a: Bytes, b: Bytes)
    ensures (a + b)[..|a|] == a && (a + b)[|a|..] == b
  {}

  lemma Concat3(a: Bytes, b: Bytes, c: Bytes, d: Bytes)
    ensures a + b + c + d == a + (b + c + d)
    ensures a + b + c + d == a + (b + (c + d))
  {}

  lemma Concat4(a: Bytes, b: Bytes, c: Bytes, d: Bytes, e: Bytes)
    ensures a + b + c + d + e == a + (b + (c + (d + e)))
    ensures a + (b + c) + d + e == a + (b + (c + (d + e)))
  {
    assert a + (b + c) + d + e == a + b + c + d + e;
  }

  /** An ASCII literal as bytes. */
  function Ascii(s: string): (b: Bytes)
    ensures |b| == |s|
    ensures forall i :: 0 <= i < |s| && s[i] < 128 as char ==> b[i] == s[i] as int
  {
    seq(|s|, i requires 0 <= i < |s| => if s[i] < 128 as char then s[i] as int else 63)
  }

  // ---------- Little-endian integers ----------

  /** The `width` low bytes of `n`, least significant first. */
  function LE(n: nat, width: nat): (b: Bytes)
    ensures |b| == width
  {
    if width == 0 then [] else [n % 256] + LE(n / 256, width - 1)
  }

  function FromLE(b: Bytes): nat {
    if b == [] then 0 else b[0] + 256 * FromLE(b[1..])
  }

  function Pow256(width: nat): (p: nat)
    ensures p > 0
  {
    if width == 0 then 1 else 256 * Pow256(width - 1)
  }

  /** Byte `i` has the weight 256 to the power of `i`. */
  lemma {:induction false} LEByte(n: nat, width: nat, i: nat)
    requires i < width
    ensures LE(n, width)[i] == n / Pow256(i) % 256
  {
    if i > 0 {
      LEByte(n / 256, width - 1, i - 1);
      DivTwice(n, Pow256(i - 1));
    }
  }

  lemma DivTwice(n: nat, m: nat)
    requires m > 0
    ensures n / (256 * m) == n / 256 / m
  {
    var q, r := n / 256 / m, n / 256 % m;
    assert n / 256 == m * q + r;
    var low := n - 256 * m * q;
    assert n == 256 * (m * q + r) + n % 256;
    assert 256 * (m * q + r) == 256 * m * q + 256 * r;
    assert 0 <= low < 256 * m;
    DivUnique(n, 256 * m, q, low);
  }

  lemma DivUnique(n: nat, d: nat, q: nat, r: nat)
    requires d > 0 && n == d * q + r && r < d
    ensures n / d == q
  {
    var q' := n / d;
    assert n == d * q' + n % d;
    if q' < q {
      TimesGrows(d, q' + 1, q);
    } else if q < q' {
      TimesGrows(d, q + 1, q');
    }
  }

  lemma TimesGrows(d: nat, a: nat, b: nat)
    requires a <= b
    ensures d * a <= d * b
  {}

  lemma {:induction false} LERoundTrip(n: nat, width: nat)
    requires n < Pow256(width)
    ensures FromLE(LE(n, width)) == n
  {
    if width > 0 {
      LERoundTrip(n / 256, width - 1);
      assert LE(n, width)[1..] == LE(n / 256, width - 1);
    }
  }

  lemma U64RoundTrip(n: nat)
    requires n < U64_LIMIT
    ensures FromLE(LE(n, 8)) == n
  {
    assert Pow256(4) == U32_LIMIT;
    assert Pow256(8) == 256 * (256 * (256 * (256 * Pow256(4))));
    LERoundTrip(n, 8);
  }

  lemma U32RoundTrip(n: nat)
    requires n < U32_LIMIT
    ensures FromLE(LE(n, 4)) == n
  {
    assert Pow256(4) == U32_LIMIT;
    LERoundTrip(n, 4);
  }

  /** Fixed-width integers decode to at most one byte string. */
  lemma {:induction false} LEInjective(b: Bytes)
    ensures LE(FromLE(b), |b|) == b
  {
    if b != [] {
      LEInjective(b[1..]);
      assert FromLE(b) % 256 == b[0] && FromLE(b) / 256 == FromLE(b[1..]);
    }
  }

  /** Reads one `width`-byte integer off the front of `s`. */
  function ParseInt(s: Bytes, width: nat): Option<(nat, Bytes)> {
    if |s| < width then None else Some((FromLE(s[..width]), s[width..]))
  }

  lemma ParseU64(n: nat, rest: Bytes)
    requires n < U64_LIMIT
    ensures ParseInt(LE(n, 8) + rest, 8) == Some((n, rest))
  {
    U64RoundTrip(n);
    assert (LE(n, 8) + rest)[..8] == LE(n, 8);
    assert (LE(n, 8) + rest)[8..] == rest;
  }

  lemma ParseU32(n: nat, rest: Bytes)
    requires n < U32_LIMIT
    ensures ParseInt(LE(n, 4) + rest, 4) == Some((n, rest))
  {
    U32RoundTrip(n);
    assert (LE(n, 4) + rest)[..4] == LE(n, 4);
    assert (LE(n, 4) + rest)[4..] == rest;
  }

  /** No option present, and the same followed by its length, readable from the end. */
  const EMPTY_OPTS: Bytes := [0]
  const EMPTY_TAIL_OPTS: Bytes := EMPTY_OPTS + LE(1, 8)

  // ---------- Byte cursors ----------

  datatype SeekFrom = Start(offset: nat) | Current(delta: int) | End(delta: int)

  /** Where a seek lands in a window of `len` bytes, before it is compared with the window. */
  function SeekTarget(len: nat, pos: nat, s: SeekFrom): int {
    match s
    case Start(p) => p
    case Current(d) => pos + d
    case End(d) => len + d
  }

  /**
   * How a source has been used so far: whether every read began before its end
   * and every seek went into it, and whether no seek went to its very end.
   */
  datatype Manners = Manners(inside: bool, beforeEnd: bool) {

    function AfterRead(len: nat, pos: nat): Manners {
      Manners(inside && pos < len, beforeEnd)
    }

    function AfterSeek(len: nat, target: int): Manners {
      Manners(inside && 0 <= target <= len, beforeEnd && 0 <= target < len)
    }
  }

  const GOOD_MANNERS := Manners(true, true)

  /**
   * A readable and seekable byte string: the contract of one layer towards the
   * layer above it. A read call may return fewer bytes than asked, but returns
   * none only at the end. A seek outside the string is an error. A source with a
   * `failure` is not seekable and fails where another one ends.
   */
  class ByteSource {
    const data: Bytes
    const failure: Option<Error>
    var pos: nat
    ghost var manners: Manners

    ghost predicate Readable()
      reads this
    {
      pos <= |data| < I64_LIMIT
    }

    ghost predicate Valid()
      reads this
    {
      Readable() && failure.None?
    }

    constructor (data: Bytes)
      requires |data| < I64_LIMIT
      ensures Valid() && this.data == data && pos == 0 && manners == GOOD_MANNERS
    {
      this.data := data;
      failure := None;
      pos, manners := 0, GOOD_MANNERS;
    }

    constructor Failing(data: Bytes, failure: Error)
      requires |data| < I64_LIMIT
      ensures Readable() && this.data == data && this.failure == Some(failure) && pos == 0
      ensures manners == GOOD_MANNERS
    {
      this.data := data;
      this.failure := Some(failure);
      pos, manners := 0, GOOD_MANNERS;
    }

    /** One read call of a source that may fail at its end. */
    method TryRead(n: nat) returns (r: Result<Bytes, Error>)
      requires Readable()
      modifies this
      ensures Readable()
      ensures r.Err? <==> failure.Some? && n > 0 && old(pos) == |data|
      ensures r.Err? ==> r.error == failure.value && pos == old(pos)
      ensures r.Ok? ==> |r.value| <= n && pos == old(pos) + |r.value| && r.value == data[old(pos)..pos]
      ensures r.Ok? && n > 0 && old(pos) < |data| ==> |r.value| > 0
      ensures manners == old(manners).AfterRead(|data|, old(pos))
    {
      manners := manners.AfterRead(|data|, pos);
      var available := Min(n, |data| - pos);
      var count: nat := 0;
      if available > 0 {
        count :| 1 <= count <= available;
      } else if n > 0 && failure.Some? {
        return Err(failure.value);
      }
      r := Ok(data[pos..pos + count]);
      pos := pos + count;
    }

    /** The same into part of a buffer. */
    method ReadInto(buf: array<byte>, offset: nat, limit: nat) returns (r: Result<nat, Error>)
      requires Readable() && offset + limit <= buf.Length
      modifies this, buf
      ensures Readable()
      ensures r.Err? <==> failure.Some? && limit > 0 && old(pos) == |data|
      ensures r.Err? ==> r.error == failure.value && pos == old(pos) && buf[..] == old(buf[..])
      ensures r.Ok? ==>
        && r.value <= limit && pos == old(pos) + r.value
        && buf[..offset + r.value] == old(buf[..offset]) + data[old(pos)..pos]
        && (r.value == 0 && limit > 0 ==> pos == |data|)
      ensures manners == old(manners).AfterRead(|data|, old(pos))
    {
      ghost var before := buf[..offset];
      var read := TryRead(limit);
      match read {
        case Err(e) =>
          r := Err(e);
        case Ok(bytes) =>
          forall i | 0 <= i < |bytes| {
            buf[offset + i] := bytes[i];
          }
          assert buf[..offset] == before && buf[offset..offset + |bytes|] == bytes;
          assert buf[..offset + |bytes|] == before + bytes;
          r := Ok(|bytes|);
      }
    }

    method Read(n: nat) returns (r: Bytes)
      requires Valid()
      modifies this
      ensures Valid()
      ensures |r| <= n && pos == old(pos) + |r|
      ensures r == data[old(pos)..pos]
      ensures n > 0 && old(pos) < |data| ==> |r| > 0
      ensures manners == old(manners).AfterRead(|data|, old(pos))
    {
      var bytes := TryRead(n);
      r := bytes.value;
    }

    /** `take(limit).read_to_end` of a source that may fail at its end. */
    method TryReadToEnd(limit: nat) returns (r: Result<Bytes, Error>)
      requires Readable()
      modifies this
      ensures Readable() && pos == Min(old(pos) + limit, |data|)
      ensures r.Err? <==> failure.Some? && old(pos) + limit > |data|
      ensures r.Err? ==> r.error == failure.value
      ensures r.Ok? ==> r.value == data[old(pos)..pos]
      ensures old(pos) + limit <= |data| ==> manners == old(manners)
    {
      var end := pos + limit;
      var got := [];
      while pos < end
        invariant Readable() && old(pos) <= pos <= end
        invariant got == data[old(pos)..pos]
        invariant end <= |data| ==> manners == old(manners)
        decreases |data| - pos
      {
        var more := TryRead(end - pos);
        if more.Err? {
          return Err(more.error);
        }
        if |more.value| == 0 {
          break;
        }
        got := got + more.value;
      }
      r := Ok(got);
    }

    /** `take(limit).read_to_end` */
    method ReadToEnd(limit: nat) returns (r: Bytes)
      requires Valid()
      modifies this
      ensures Valid()
      ensures pos == Min(old(pos) + limit, |data|)
      ensures r == data[old(pos)..pos]
      ensures old(pos) + limit <= |data| ==> manners == old(manners)
    {
      var bytes := TryReadToEnd(limit);
      r := bytes.value;
    }

    /** `read_exact` */
    method ReadExact(n: nat) returns (r: Result<Bytes, Error>)
      requires Readable()
      modifies this
      ensures Readable() && pos == Min(old(pos) + n, |data|)
      ensures r == if old(pos) + n <= |data| then Ok(data[old(pos)..old(pos) + n])
                   else Err(if failure.Some? then failure.value else UnexpectedEof)
      ensures r.Ok? ==> manners == old(manners)
    {
      r := TryReadToEnd(n);
      if r.Ok? && |r.value| < n {
        r := Err(UnexpectedEof);
      }
    }

    method Seek(s: SeekFrom) returns (r: Result<nat, Error>)
      requires Valid()
      modifies this
      ensures Valid()
      ensures var target := SeekTarget(|data|, old(pos), s);
              if 0 <= target <= |data|
              then r == Ok(target) && pos == target
              else r == Err(InvalidInput) && pos == old(pos)
      ensures manners == old(manners).AfterSeek(|data|, SeekTarget(|data|, old(pos), s))
    {
      var target := SeekTarget(|data|, pos, s);
      manners := manners.AfterSeek(|data|, target);
      if 0 <= target <= |data| {
        pos := target;
        r := Ok(target);
      } else {
        r := Err(InvalidInput);
      }
    }
  }
}
