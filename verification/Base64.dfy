/** Base64, section 4 of RFC 4648, without line breaks. */
module Base64 {
  import opened Io

  const PAD: byte := 61

  type Digit = d: nat | d < 64

  /** The alphabet: upper case, lower case, digits, `+` and `/`. */
  function Char(d: Digit): byte {
    if d < 26 then 65 + d
    else if d < 52 then 97 + (d - 26)
    else if d < 62 then 48 + (d - 52)
    else if d == 62 then 43
    else 47
  }

  function Index(c: byte): Option<Digit> {
    if 65 <= c <= 90 then Some(c - 65)
    else if 97 <= c <= 122 then Some(c - 97 + 26)
    else if 48 <= c <= 57 then Some(c - 48 + 52)
    else if c == 43 then Some(62)
    else if c == 47 then Some(63)
    else None
  }

  lemma IndexOfChar(d: Digit)
    ensures Index(Char(d)) == Some(d) && Char(d) != PAD
  {}

  lemma CharOfIndex(c: byte)
    ensures Index(c).Some? ==> Char(Index(c).value) == c
    ensures Index(PAD) == None
  {}

  /** Table 1 of RFC 4648. */
  const UPPER := "ABCDEFGHIJKLMNOPQRSTUVWXYZ"
  const LOWER := "abcdefghijklmnopqrstuvwxyz"
  const OTHERS := "0123456789+/"
  const ALPHABET := UPPER + LOWER + OTHERS

  lemma UpperTable(d: nat)
    requires d < 26
    ensures UPPER[d] as int == 65 + d
  {}

  lemma LowerTable(d: nat)
    requires d < 26
    ensures LOWER[d] as int == 97 + d
  {}

  lemma OthersTable(d: nat)
    requires d < 12
    ensures OTHERS[d] as int == if d < 10 then 48 + d else if d == 10 then 43 else 47
  {}

  /** The characters are those of the table. */
  lemma CharTable(d: Digit)
    ensures |ALPHABET| == 64 && Char(d) == ALPHABET[d] as int
  {
    assert |UPPER| == |LOWER| == 26 && |OTHERS| == 12;
    if d < 26 {
      UpperTable(d);
    } else if d < 52 {
      LowerTable(d - 26);
    } else {
      OthersTable(d - 52);
    }
  }

  // ---------- Groups ----------

  /** Three bytes as one number, the missing ones zero. */
  function ByteVal(x: Bytes): (v: nat)
    requires 1 <= |x| <= 3
    ensures v < 0x100_0000
  {
    x[0] as nat * 65536 + (if |x| > 1 then x[1] as nat * 256 else 0) + (if |x| > 2 then x[2] as nat else 0)
  }

  /** Digit `j` of a number, of four. */
  function DigitAt(v: nat, j: nat): Digit
    requires v < 0x100_0000 && j < 4
  {
    if j == 0 then v / 262144 else if j == 1 then v / 4096 % 64 else if j == 2 then v / 64 % 64 else v % 64
  }

  /** One to three bytes as four characters, padded. */
  function EncodeGroup(x: Bytes): (e: Bytes)
    requires 1 <= |x| <= 3
    ensures |e| == 4
  {
    var v := ByteVal(x);
    [Char(DigitAt(v, 0)), Char(DigitAt(v, 1)),
     if |x| > 1 then Char(DigitAt(v, 2)) else PAD,
     if |x| > 2 then Char(DigitAt(v, 3)) else PAD]
  }

  function Encode(x: Bytes): Bytes {
    if x == [] then []
    else if |x| <= 3 then EncodeGroup(x)
    else EncodeGroup(x[..3]) + Encode(x[3..])
  }

  lemma EncodeSplit(x: Bytes)
    requires |x| > 3
    ensures Encode(x) == EncodeGroup(x[..3]) + Encode(x[3..])
  {}

  lemma EncodeOne(x: Bytes)
    requires 1 <= |x| <= 3
    ensures Encode(x) == EncodeGroup(x)
  {}

  function Letter(d: nat): byte
    requires d < 64
  {
    CharTable(d);
    ALPHABET[d] as int
  }

  /** Up to three bytes, six bits a character through the table, and padding. */
  lemma EncodeTable(a: byte, b: byte, c: byte)
    ensures Encode([a, b, c])
      == [Letter(a / 4), Letter(a % 4 * 16 + b / 16), Letter(b % 16 * 4 + c / 64), Letter(c % 64)]
    ensures Encode([a, b]) == [Letter(a / 4), Letter(a % 4 * 16 + b / 16), Letter(b % 16 * 4), 61]
    ensures Encode([a]) == [Letter(a / 4), Letter(a % 4 * 16), 61, 61]
  {
    hide Char, DigitAt, Letter;
    SixBits(a, b, c);
    SixBits(a, b, 0);
    SixBits(a, 0, 0);
    EncodeOne([a, b, c]);
    EncodeOne([a, b]);
    EncodeOne([a]);
    hide Encode;
    Lettered(a / 4, a % 4 * 16 + b / 16, b % 16 * 4 + c / 64, c % 64);
    Lettered(a / 4, a % 4 * 16 + b / 16, b % 16 * 4, 0);
    Lettered(a / 4, a % 4 * 16, 0, 0);
  }

  lemma Lettered(a: Digit, b: Digit, c: Digit, d: Digit)
    ensures Char(a) == Letter(a) && Char(b) == Letter(b) && Char(c) == Letter(c) && Char(d) == Letter(d)
  {
    hide Char;
    CharTable(a);
    CharTable(b);
    CharTable(c);
    CharTable(d);
  }

  lemma SixBits(a: byte, b: byte, c: byte)
    ensures var v := a as nat * 65536 + b as nat * 256 + c as nat;
            && v < 0x100_0000
            && DigitAt(v, 0) == a / 4 && DigitAt(v, 1) == a % 4 * 16 + b / 16
            && DigitAt(v, 2) == b % 16 * 4 + c / 64 && DigitAt(v, 3) == c % 64
  {
    hide DigitAt;
    var v := a as nat * 65536 + b as nat * 256 + c as nat;
    Quotients(a, 4);
    Quotients(b, 16);
    Quotients(c, 64);
    var p, q, r, s: Digit := a / 4, a % 4 * 16 + b / 16, b % 16 * 4 + c / 64, c % 64;
    assert v == p * 262144 + q * 4096 + r * 64 + s;
    DigitsUnique(p, q, r, s);
  }

  lemma Quotients(a: byte, n: nat)
    requires n > 0
    ensures a as nat == a as nat / n * n + a as nat % n
  {}

  /** The digits of up to four characters as one number, the missing ones zero. */
  function DigitVal(c: Bytes): Option<nat>
    requires 1 <= |c| <= 4
  {
    if exists i :: 0 <= i < |c| && Index(c[i]).None? then None
    else
      Some(Index(c[0]).value * 262144
        + (if |c| > 1 then Index(c[1]).value * 4096 else 0)
        + (if |c| > 2 then Index(c[2]).value * 64 else 0)
        + (if |c| > 3 then Index(c[3]).value else 0))
  }

  /** The first `n` bytes of a number of three. */
  function BytesOf(v: nat, n: nat): (b: Bytes)
    requires n <= 3
    ensures |b| == n
  {
    [v / 65536 % 256, v / 256 % 256, v % 256][..n]
  }

  function DecodeGroup(c: Bytes): Result<Bytes, Error>
    requires 1 <= |c| <= 4
  {
    match DigitVal(c)
    case None => Err(DeserializationError)
    case Some(v) => Ok(BytesOf(v, |c| - 1))
  }

  function DecodeGroups(s: Bytes): Result<Bytes, Error> {
    if s == [] then Ok([])
    else
      var n := Min(4, |s|);
      match DecodeGroup(s[..n])
      case Err(e) => Err(e)
      case Ok(first) =>
        match DecodeGroups(s[n..])
        case Err(e) => Err(e)
        case Ok(others) => Ok(first + others)
  }

  /** One or two padding characters at the end are dropped. */
  function Unpadded(s: Bytes): Bytes {
    if |s| >= 2 && s[|s| - 2] == PAD && s[|s| - 1] == PAD then s[..|s| - 2]
    else if |s| >= 1 && s[|s| - 1] == PAD then s[..|s| - 1]
    else s
  }

  function Decode(s: Bytes): Result<Bytes, Error> {
    if |s| % 4 != 0 then Err(DeserializationError) else DecodeGroups(Unpadded(s))
  }

  // ---------- Round trip ----------

  /** Digits and bytes of a number are two readings of it. */
  lemma DigitsOfVal(v: nat)
    requires v < 0x100_0000
    ensures DigitAt(v, 0) * 262144 + DigitAt(v, 1) * 4096 + DigitAt(v, 2) * 64 + DigitAt(v, 3) == v
  {}

  lemma BytesOfVal(x: Bytes)
    requires 1 <= |x| <= 3
    ensures BytesOf(ByteVal(x), |x|) == x
    ensures |x| == 1 ==> ByteVal(x) % 65536 == 0
    ensures |x| == 2 ==> ByteVal(x) % 256 == 0
  {
    var v := ByteVal(x);
    assert v / 65536 == x[0];
    assert |x| > 1 ==> v / 256 == x[0] as nat * 256 + x[1] as nat;
  }

  /** An encoded group, without its padding, decodes to the group. */
  lemma GroupRoundTrip(x: Bytes)
    requires 1 <= |x| <= 3
    ensures DecodeGroup(EncodeGroup(x)[..|x| + 1]) == Ok(x)
    ensures forall i :: 0 <= i <= |x| ==> Index(EncodeGroup(x)[i]).Some?
    ensures forall i :: |x| < i < 4 ==> EncodeGroup(x)[i] == PAD
  {
    var v, c := ByteVal(x), EncodeGroup(x)[..|x| + 1];
    hide ByteVal, DigitAt, BytesOf, Index, Char;
    IndexOfChar(DigitAt(v, 0));
    IndexOfChar(DigitAt(v, 1));
    IndexOfChar(DigitAt(v, 2));
    IndexOfChar(DigitAt(v, 3));
    BytesOfVal(x);
    DigitsOfVal(v);
    LowDigits(v);
    assert DigitVal(c) == Some(v);
  }

  lemma LowDigits(v: nat)
    requires v < 0x100_0000
    ensures v % 65536 == 0 ==> DigitAt(v, 2) == 0 && DigitAt(v, 3) == 0
    ensures v % 256 == 0 ==> DigitAt(v, 3) == 0
  {
    if v % 65536 == 0 {
      var k := v / 65536;
      assert v == k * 1024 * 64 && k * 1024 == k * 16 * 64;
    } else if v % 256 == 0 {
      var k := v / 256;
      assert v == k * 4 * 64;
    }
  }

  /** Characters of the alphabet, then `pads` padding characters. */
  ghost predicate Shaped(e: Bytes, pads: nat) {
    && pads <= |e|
    && (forall i :: 0 <= i < |e| - pads ==> Index(e[i]).Some?)
    && (forall i :: |e| - pads <= i < |e| ==> e[i] == PAD)
  }

  lemma ShapedConcat(a: Bytes, b: Bytes, pads: nat)
    requires Shaped(a, 0) && Shaped(b, pads)
    ensures Shaped(a + b, pads)
  {}

  function Pads(x: Bytes): nat {
    (3 - |x| % 3) % 3
  }

  function Groups(x: Bytes): nat {
    (|x| + 2) / 3
  }

  lemma PadsStep(x: Bytes)
    ensures |x| > 3 ==> Pads(x[3..]) == Pads(x) && Groups(x) == 1 + Groups(x[3..])
    ensures 1 <= |x| <= 3 ==> Pads(x) == 3 - |x| && Groups(x) == 1
    ensures x == [] ==> Pads(x) == Groups(x) == 0
    ensures Pads(x) <= 2
  {
    if |x| > 3 {
      var k := |x| / 3;
      assert |x| == 3 * k + |x| % 3;
    }
  }

  /** Length and padding: four characters for every three bytes begun, padding only at the end. */
  lemma {:induction false} EncodeShape(x: Bytes)
    ensures |Encode(x)| == 4 * Groups(x)
    ensures Shaped(Encode(x), Pads(x))
  {
    PadsStep(x);
    hide Pads, Groups, Shaped, Index, EncodeGroup;
    if x == [] {
      NothingShaped();
    } else if |x| <= 3 {
      hide Encode;
      EncodeOne(x);
      GroupShaped(x);
    } else {
      hide Encode;
      EncodeSplit(x);
      EncodeShape(x[3..]);
      GroupShaped(x[..3]);
      ShapedConcat(EncodeGroup(x[..3]), Encode(x[3..]), Pads(x[3..]));
    }
  }

  lemma NothingShaped()
    ensures Shaped([], 0)
  {}

  lemma GroupShaped(x: Bytes)
    requires 1 <= |x| <= 3
    ensures Shaped(EncodeGroup(x), 3 - |x|)
  {
    GroupRoundTrip(x);
    hide EncodeGroup, Index;
  }

  lemma NoGroup()
    ensures DecodeGroups([]) == Ok([])
  {}

  lemma FirstGroup(s: Bytes)
    requires s != []
    ensures var n, first := Min(4, |s|), DecodeGroup(s[..Min(4, |s|)]);
            && (first.Err? ==> DecodeGroups(s) == Err(first.error))
            && (first.Ok? ==> DecodeGroups(s[n..]).Ok? ==>
              DecodeGroups(s) == Ok(first.value + DecodeGroups(s[n..]).value))
            && (first.Ok? ==> DecodeGroups(s[n..]).Err? ==> DecodeGroups(s).Err?)
  {
    hide DecodeGroup;
  }

  /** What the unpadded encoding is. */
  function Data(x: Bytes): Bytes {
    if Pads(x) <= |Encode(x)| then Encode(x)[..|Encode(x)| - Pads(x)] else []
  }

  lemma DataOne(x: Bytes)
    requires 1 <= |x| <= 3
    ensures Data(x) == EncodeGroup(x)[..|x| + 1]
  {
    hide EncodeGroup, Encode, Pads;
    EncodeOne(x);
    PadsStep(x);
  }

  lemma DataSplit(x: Bytes)
    requires |x| > 3
    ensures Data(x) == EncodeGroup(x[..3]) + Data(x[3..])
  {
    hide EncodeGroup, Encode, Pads, Groups, Shaped;
    EncodeSplit(x);
    PadsStep(x);
    EncodeShape(x[3..]);
    PadsFit(x[3..]);
  }

  lemma PadsFit(x: Bytes)
    ensures Pads(x) <= 4 * Groups(x)
  {}

  /** The unpadded encoding decodes back. */
  lemma {:induction false} GroupsRoundTrip(x: Bytes)
    ensures DecodeGroups(Data(x)) == Ok(x)
  {
    hide EncodeGroup, DecodeGroup, Encode, DecodeGroups, Pads;
    NoGroup();
    if x == [] {
      NoData();
    } else if |x| <= 3 {
      DataOne(x);
      GroupRoundTrip(x);
      var s := Data(x);
      FirstGroup(s);
      hide Data;
      assert s[..|s|] == s && s[|s|..] == [] && x + [] == x;
    } else {
      var first, rest := x[..3], x[3..];
      DataSplit(x);
      GroupsRoundTrip(rest);
      GroupRoundTrip(first);
      var s := Data(x);
      FirstGroup(s);
      hide Data;
      assert s[..4] == EncodeGroup(first)[..4] && s[4..] == Data(rest);
      assert x == first + rest;
    }
  }

  lemma NoData()
    ensures Data([]) == []
  {}

  /** Decoding undoes encoding, for every byte string. */
  lemma RoundTrip(x: Bytes)
    ensures Decode(Encode(x)) == Ok(x)
  {
    hide Encode, DecodeGroups, Shaped, Unpadded, Pads, Groups;
    EncodeShape(x);
    PadsStep(x);
    PadsFit(x);
    GroupsRoundTrip(x);
    UnpaddedShape(Encode(x), Pads(x));
  }

  lemma UnpaddedShape(e: Bytes, pads: nat)
    requires Shaped(e, pads) && pads <= 2
    ensures Unpadded(e) == e[..|e| - pads]
  {
    CharOfIndex(PAD);
    hide Index;
    assert e[..|e|] == e;
  }

  // ---------- Which strings are encodings ----------

  lemma DigitsUnique(a: Digit, b: Digit, c: Digit, d: Digit)
    ensures var v := a * 262144 + b * 4096 + c * 64 + d;
            v < 0x100_0000 && DigitAt(v, 0) == a && DigitAt(v, 1) == b && DigitAt(v, 2) == c && DigitAt(v, 3) == d
  {
    var q: nat := a as nat * 64 + b as nat;
    var p: nat := q * 64 + c as nat;
    Over64(a, b);
    Over64(q, c);
    Over64(p, d);
    Nested(p * 64 + d as nat, p, q);
  }

  lemma Over64(q: nat, d: Digit)
    ensures (q * 64 + d as nat) / 64 == q && (q * 64 + d as nat) % 64 == d
  {}

  lemma Nested(v: nat, p: nat, q: nat)
    requires v / 64 == p && p / 64 == q
    ensures v / 4096 == q && v / 262144 == q / 64
  {}

  /** Keeping the first bytes of a number drops its low bits. */
  lemma ValOfBytes(v: nat)
    requires v < 0x100_0000
    ensures ByteVal(BytesOf(v, 3)) == v
    ensures ByteVal(BytesOf(v, 2)) == v - v % 256
    ensures ByteVal(BytesOf(v, 1)) == v - v % 65536
  {}

  /** The bits of the last character of a short group that carry no data. */
  function SpareBits(c: Bytes): nat
    requires 2 <= |c| <= 4
  {
    match DigitVal(c)
    case None => 0
    case Some(v) => if |c| == 2 then v % 65536 else if |c| == 3 then v % 256 else 0
  }

  /** A digit is changed by dropping low bits it has. */
  lemma DroppedTwo(a: Digit, b: Digit)
    ensures var v := a * 262144 + b * 4096;
            v < 0x100_0000 && v % 65536 == b % 16 * 4096 &&
            DigitAt(v - v % 65536, 0) == a && DigitAt(v - v % 65536, 1) == b - b % 16
  {
    hide DigitAt;
    var v := a * 262144 + b * 4096;
    assert v == (a * 4 + b / 16) * 65536 + b % 16 * 4096;
    DigitsUnique(a, b - b % 16, 0, 0);
  }

  lemma DroppedThree(a: Digit, b: Digit, c: Digit)
    ensures var v := a * 262144 + b * 4096 + c * 64;
            v < 0x100_0000 && v % 256 == c % 4 * 64 &&
            DigitAt(v - v % 256, 0) == a && DigitAt(v - v % 256, 1) == b && DigitAt(v - v % 256, 2) == c - c % 4
  {
    hide DigitAt;
    var v := a * 262144 + b * 4096 + c * 64;
    assert v == (a * 1024 + b * 16 + c / 4) * 256 + c % 4 * 64;
    DigitsUnique(a, b, c - c % 4, 0);
  }

  lemma CharUnique(d: Digit, e: Digit)
    ensures Char(d) == Char(e) <==> d == e
  {
    IndexOfChar(d);
    IndexOfChar(e);
  }

  /** Characters that decode, as digits. */
  lemma GroupDigits(c: Bytes) returns (a: Digit, b: Digit, g: Digit, h: Digit)
    requires 2 <= |c| <= 4 && DecodeGroup(c).Ok?
    ensures DecodeGroup(c).value == BytesOf(a * 262144 + b * 4096 + g * 64 + h, |c| - 1)
    ensures DigitVal(c) == Some(a * 262144 + b * 4096 + g * 64 + h)
    ensures c == [Char(a), Char(b), Char(g), Char(h)][..|c|]
    ensures (|c| < 3 ==> g == 0) && (|c| < 4 ==> h == 0)
  {
    forall i | 0 <= i < |c|
      ensures Index(c[i]).Some? && Char(Index(c[i]).value) == c[i]
    {
      CharOfIndex(c[i]);
    }
    hide Index, Char;
    a, b := Index(c[0]).value, Index(c[1]).value;
    g := if |c| > 2 then Index(c[2]).value else 0;
    h := if |c| > 3 then Index(c[3]).value else 0;
  }

  lemma EncodedDigits(x: Bytes, v: nat)
    requires 1 <= |x| <= 3 && v == ByteVal(x)
    ensures EncodeGroup(x)[..|x| + 1]
      == [Char(DigitAt(v, 0)), Char(DigitAt(v, 1)), Char(DigitAt(v, 2)), Char(DigitAt(v, 3))][..|x| + 1]
  {
    hide Char, DigitAt, ByteVal;
  }

  lemma TwoExact(a: Digit, b: Digit, v: nat, x: Bytes)
    requires v == a as nat * 262144 + b as nat * 4096 && x == BytesOf(v, 1)
    ensures EncodeGroup(x)[..2] == [Char(a), Char(b)] <==> v % 65536 == 0
  {
    ValOfBytes(v);
    EncodedDigits(x, ByteVal(x));
    hide DigitAt, ByteVal, BytesOf, Char, EncodeGroup;
    DroppedTwo(a, b);
    CharUnique(b, b - b % 16);
    assert EncodeGroup(x)[..2] == [Char(a), Char(b - b % 16)];
    assert [Char(a), Char(b)][1] == Char(b);
  }

  lemma ThreeExact(a: Digit, b: Digit, g: Digit, v: nat, x: Bytes)
    requires v == a as nat * 262144 + b as nat * 4096 + g as nat * 64 && x == BytesOf(v, 2)
    ensures EncodeGroup(x)[..3] == [Char(a), Char(b), Char(g)] <==> v % 256 == 0
  {
    ValOfBytes(v);
    EncodedDigits(x, ByteVal(x));
    hide DigitAt, ByteVal, BytesOf, Char, EncodeGroup;
    DroppedThree(a, b, g);
    CharUnique(g, g - g % 4);
    assert EncodeGroup(x)[..3] == [Char(a), Char(b), Char(g - g % 4)];
    assert [Char(a), Char(b), Char(g)][2] == Char(g);
  }

  lemma FourExact(a: Digit, b: Digit, g: Digit, h: Digit, v: nat, x: Bytes)
    requires v == a as nat * 262144 + b as nat * 4096 + g as nat * 64 + h as nat && x == BytesOf(v, 3)
    ensures EncodeGroup(x)[..4] == [Char(a), Char(b), Char(g), Char(h)]
  {
    DigitsUnique(a, b, g, h);
    ValOfBytes(v);
    EncodedDigits(x, ByteVal(x));
  }

  /** A group that decodes is an encoding, without padding, exactly when its spare bits are zero. */
  lemma GroupExact(c: Bytes)
    requires 2 <= |c| <= 4 && DecodeGroup(c).Ok?
    ensures var x := DecodeGroup(c).value;
            && |x| == |c| - 1
            && (EncodeGroup(x)[..|c|] == c <==> SpareBits(c) == 0)
  {
    var a, b, g, h := GroupDigits(c);
    hide BytesOf, Char, EncodeGroup, DecodeGroup, DigitVal;
    var v: nat := a as nat * 262144 + b as nat * 4096 + g as nat * 64 + h as nat;
    var x := DecodeGroup(c).value;
    if |c| == 2 {
      TwoExact(a, b, v, x);
    } else if |c| == 3 {
      ThreeExact(a, b, g, v, x);
    } else {
      FourExact(a, b, g, h, v, x);
    }
  }

  /** Where the last group of an unpadded string starts. */
  function LastGroup(s: Bytes): (g: Bytes)
    requires s != []
    ensures 1 <= |g| <= 4 && (|s| % 4 != 1 ==> |g| > 1)
  {
    s[(|s| - 1) / 4 * 4..]
  }

  /** The unpadded string is the unpadded encoding of what it decodes to. */
  ghost predicate Reencodes(s: Bytes, x: Bytes) {
    |s| + Pads(x) == |Encode(x)| && Encode(x)[..|s|] == s
  }

  lemma ReencodesStep(c: Bytes, first: Bytes, rest: Bytes, x: Bytes)
    requires |c| == 4 && |first| == 3 && EncodeGroup(first) == c
    requires rest != [] && x != [] && |rest| + Pads(x) == |Encode(x)|
    ensures |c + rest| + Pads(first + x) == |Encode(first + x)|
    ensures Reencodes(c + rest, first + x) <==> Reencodes(rest, x)
  {
    hide Encode, EncodeGroup;
    assert (first + x)[..3] == first && (first + x)[3..] == x;
    EncodeSplit(first + x);
    assert (c + Encode(x))[..4 + |rest|] == c + Encode(x)[..|rest|];
    assert (c + rest)[4..] == rest && (c + Encode(x)[..|rest|])[4..] == Encode(x)[..|rest|];
  }

  lemma DecodeStep(s: Bytes)
    requires DecodeGroups(s).Ok? && |s| > 4
    ensures DecodeGroup(s[..4]).Ok? && DecodeGroups(s[4..]).Ok?
    ensures DecodeGroups(s).value == DecodeGroup(s[..4]).value + DecodeGroups(s[4..]).value
    ensures LastGroup(s) == LastGroup(s[4..])
  {
    FirstGroup(s);
    hide DecodeGroup, DecodeGroups;
    var at := (|s| - 5) / 4 * 4;
    assert (|s| - 1) / 4 * 4 == 4 + at;
    SuffixOfSuffix(s, 4, at);
  }

  lemma DecodeLast(s: Bytes)
    requires DecodeGroups(s).Ok? && 0 < |s| <= 4
    ensures DecodeGroup(s).Ok? && DecodeGroups(s) == DecodeGroup(s) && LastGroup(s) == s
  {
    FirstGroup(s);
    LastOfOne(s);
    hide DecodeGroup, DecodeGroups, LastGroup;
    assert s[..|s|] == s && s[|s|..] == [];
    NoGroup();
    var x := DecodeGroup(s).value;
    assert x + [] == x;
  }

  lemma LastOfOne(s: Bytes)
    requires 0 < |s| <= 4
    ensures LastGroup(s) == s
  {
    assert (|s| - 1) / 4 == 0;
  }

  /** Accepted strings are the encoding of what they decode to exactly when no spare bit is set. */
  /** What an unpadded string of that length lacks. */
  function PadsOf(length: nat): nat {
    (4 - length % 4) % 4
  }

  lemma PadsOfMore(length: nat)
    ensures length > 4 ==> PadsOf(length) == PadsOf(length - 4) && length % 4 == (length - 4) % 4
    ensures 2 <= length <= 4 ==> PadsOf(length) == 4 - length
  {}

  lemma {:induction false} GroupsExact(s: Bytes)
    requires DecodeGroups(s).Ok? && s != [] && |s| % 4 != 1
    ensures var x := DecodeGroups(s).value;
            && x != [] && |s| + Pads(x) == |Encode(x)| && Pads(x) == PadsOf(|s|)
            && (Reencodes(s, x) <==> SpareBits(LastGroup(s)) == 0)
  {
    hide DecodeGroup, DecodeGroups, EncodeGroup, SpareBits, LastGroup, Reencodes;
    PadsOfMore(|s|);
    if |s| <= 4 {
      DecodeLast(s);
      GroupExact(s);
      OneGroup(s, DecodeGroup(s).value);
    } else {
      DecodeStep(s);
      GroupExact(s[..4]);
      FullGroup(s[..4]);
      GroupsExact(s[4..]);
      var first, x := DecodeGroup(s[..4]).value, DecodeGroups(s[4..]).value;
      assert EncodeGroup(first)[..4] == EncodeGroup(first);
      ReencodesStep(s[..4], first, s[4..], x);
      assert s == s[..4] + s[4..];
    }
  }

  lemma OneGroup(s: Bytes, x: Bytes)
    requires 2 <= |s| <= 4 && |x| == |s| - 1
    ensures Encode(x) == EncodeGroup(x)
    ensures Reencodes(s, x) <==> EncodeGroup(x)[..|s|] == s
  {
    hide EncodeGroup;
  }

  lemma FullGroup(c: Bytes)
    requires |c| == 4
    ensures SpareBits(c) == 0
  {}

  /**
   * Decoding is lenient: a string that decodes is the encoding of its value
   * exactly when the bits its last character has to spare are zero.
   */
  lemma DecodeExact(s: Bytes)
    requires Decode(s).Ok? && s != []
    ensures var u := Unpadded(s);
            u != [] && |u| % 4 != 1 && (Encode(Decode(s).value) == s <==> SpareBits(LastGroup(u)) == 0)
  {
    hide DecodeGroups, Encode, SpareBits, LastGroup;
    var u := Unpadded(s);
    UnpaddedTail(s);
    GroupsExact(u);
    var x := DecodeGroups(u).value;
    EncodeShape(x);
    hide Unpadded, Index;
    assert Encode(x)[|u|..] == s[|u|..];
    assert s == s[..|u|] + s[|u|..] && Encode(x) == Encode(x)[..|u|] + Encode(x)[|u|..];
  }

  lemma UnpaddedTail(s: Bytes)
    requires |s| % 4 == 0 && s != []
    ensures var u := Unpadded(s);
            && u != [] && |u| % 4 != 1 && |s| == |u| + (4 - |u| % 4) % 4 && s[..|u|] == u
            && forall i :: |u| <= i < |s| ==> s[i] == PAD
  {}

  // ---------- The loops ----------

  lemma EncodeStep(data: Bytes, i: nat)
    requires i < |data|
    ensures var n := Min(3, |data| - i); Encode(data[i..]) == EncodeGroup(data[i..i + n]) + Encode(data[i + n..])
  {
    hide EncodeGroup;
    var s := data[i..];
    if |s| <= 3 {
      assert data[i..|data|] == s && EncodeGroup(s) + [] == EncodeGroup(s);
    } else {
      assert s[..3] == data[i..i + 3] && s[3..] == data[i + 3..];
    }
  }

  /** Bytes read one after the other, before the missing ones are made up for. */
  function Shifted(x: Bytes): (v: nat)
    requires |x| <= 3
    ensures |x| == 3 ==> v == ByteVal(x)
    ensures |x| == 2 ==> v * 256 == ByteVal(x)
    ensures |x| == 1 ==> v * 65536 == ByteVal(x)
  {
    if |x| == 0 then 0
    else if |x| == 1 then x[0]
    else if |x| == 2 then x[0] as nat * 256 + x[1] as nat
    else x[0] as nat * 65536 + x[1] as nat * 256 + x[2] as nat
  }

  lemma ShiftedStep(x: Bytes, b: byte)
    requires |x| < 3
    ensures Shifted(x + [b]) == Shifted(x) * 256 + b
  {}

  /** `base64_encode` */
  method EncodeBytes(data: Bytes) returns (r: Result<Bytes, Error>)
    ensures r == if (|data| + 2) / 3 * 4 < U64_LIMIT then Ok(Encode(data)) else Err(SerializationError)
  {
    hide Encode, EncodeGroup, Shifted, ByteVal, DigitAt, Char;
    var capacity := (|data| + 2) / 3 * 4;
    if capacity >= U64_LIMIT {
      return Err(SerializationError);
    }
    var encoded: Bytes := [];
    var i: nat := 0;
    assert data[0..] == data;
    while i < |data|
      invariant i <= |data| && encoded + Encode(data[i..]) == Encode(data)
    {
      var val: nat := 0;
      var n: nat := 0;
      ghost var start := i;
      EncodeStep(data, i);
      ShiftedNothing();
      assert data[start..i] == [];
      while n < 3 && i < |data|
        invariant i == start + n <= |data| && n <= 3 && val == Shifted(data[start..i])
      {
        ShiftedStep(data[start..i], data[i]);
        assert data[start..i + 1] == data[start..i] + [data[i]];
        val := val * 256 + data[i];
        n := n + 1;
        i := i + 1;
      }
      ghost var x := data[start..i];
      if n == 1 {
        val := val * 65536;
      } else if n == 2 {
        val := val * 256;
      }
      var group := EncodeDigits(val, n, x);
      encoded := encoded + group;
    }
    EncodeNothing();
    assert data[i..] == [] && encoded + [] == encoded;
    r := Ok(encoded);
  }

  /** The four characters of a group. */
  method EncodeDigits(val: nat, n: nat, ghost x: Bytes) returns (group: Bytes)
    requires 1 <= n <= 3 && |x| == n && val == ByteVal(x)
    ensures group == EncodeGroup(x)
  {
    hide ByteVal, DigitAt, Char;
    group := [];
    for j := 0 to 4
      invariant group == EncodeGroup(x)[..j]
    {
      if j < n + 1 {
        var idx := DigitAt(val, j);
        group := group + [Char(idx)];
      } else {
        group := group + [PAD];
      }
    }
  }

  lemma ShiftedNothing()
    ensures Shifted([]) == 0
  {}

  lemma EncodeNothing()
    ensures Encode([]) == []
  {}

  /** Digits read one after the other. */
  function ShiftedDigits(c: Bytes): (v: Option<nat>)
    requires |c| <= 4
  {
    if exists i :: 0 <= i < |c| && Index(c[i]).None? then None
    else if |c| == 0 then Some(0)
    else if |c| == 1 then Some(Index(c[0]).value)
    else if |c| == 2 then Some(Index(c[0]).value as nat * 64 + Index(c[1]).value as nat)
    else if |c| == 3 then
      Some(Index(c[0]).value as nat * 4096 + Index(c[1]).value as nat * 64 + Index(c[2]).value as nat)
    else
      Some(Index(c[0]).value as nat * 262144 + Index(c[1]).value as nat * 4096
        + Index(c[2]).value as nat * 64 + Index(c[3]).value as nat)
  }

  lemma ShiftedDigitsStep(c: Bytes, b: byte)
    requires |c| < 4
    ensures ShiftedDigits(c + [b]) ==
      if ShiftedDigits(c).Some? && Index(b).Some?
        then Some(ShiftedDigits(c).value * 64 + Index(b).value as nat) else None
  {
    hide Index;
    var d := c + [b];
    assert d[|c|] == b && forall i :: 0 <= i < |c| ==> d[i] == c[i];
  }

  lemma ShiftedDigitsPrefix(c: Bytes, i: nat)
    requires i <= |c| <= 4 && ShiftedDigits(c[..i]).None?
    ensures ShiftedDigits(c).None?
  {
    hide Index;
    var k :| 0 <= k < i && Index(c[..i][k]).None?;
    assert Index(c[k]).None?;
  }

  /** They are the digits of the group, once the missing ones are made up for. */
  lemma ShiftedDigitsVal(c: Bytes)
    requires 1 <= |c| <= 4
    ensures ShiftedDigits(c).None? <==> DigitVal(c).None?
    ensures ShiftedDigits(c).Some? ==>
      DigitVal(c).value
        == ShiftedDigits(c).value * (if |c| == 4 then 1 else if |c| == 3 then 64 else if |c| == 2 then 4096 else 262144)
  {
    hide Index;
  }

  /** What is still to decode, behind what has been decoded. */
  ghost predicate DecodedTo(whole: Result<Bytes, Error>, decoded: Bytes, rest: Bytes) {
    match DecodeGroups(rest)
    case Err(e) => whole == Err(e)
    case Ok(others) => whole == Ok(decoded + others)
  }

  lemma DecodedStep(whole: Result<Bytes, Error>, decoded: Bytes, s: Bytes, i: nat)
    requires i < |s| && DecodedTo(whole, decoded, s[i..])
    ensures var n := Min(4, |s| - i);
            match DecodeGroup(s[i..i + n])
            case Err(e) => whole == Err(e)
            case Ok(first) => DecodedTo(whole, decoded + first, s[i + n..])
  {
    hide DecodeGroup;
    var rest, n := s[i..], Min(4, |s| - i);
    assert rest[..n] == s[i..i + n] && rest[n..] == s[i + n..];
    assert forall a: Bytes, b: Bytes :: decoded + (a + b) == decoded + a + b;
  }

  /** `base64_decode` */
  method DecodeBytes(encoded0: Bytes) returns (r: Result<Bytes, Error>)
    requires |encoded0| < U64_LIMIT
    ensures r == Decode(encoded0)
  {
    hide DecodeGroups, DecodeGroup, ShiftedDigits, DigitVal, Index, DecodedTo;
    if |encoded0| % 4 != 0 {
      return Err(DeserializationError);
    }
    var encoded := Unpadded(encoded0);
    var decoded: Bytes := [];
    var i: nat := 0;
    DecodedStarts(encoded);
    while i < |encoded|
      invariant i <= |encoded| && DecodedTo(DecodeGroups(encoded), decoded, encoded[i..])
    {
      var val: nat := 0;
      var n: nat := 0;
      ghost var start := i;
      ghost var c := encoded[start..start + Min(4, |encoded| - start)];
      DecodedStep(DecodeGroups(encoded), decoded, encoded, i);
      NoDigits();
      assert encoded[start..i] == [];
      while n < 4 && i < |encoded|
        invariant i == start + n <= |encoded| && n <= 4 && Some(val) == ShiftedDigits(encoded[start..i])
      {
        ShiftedDigitsStep(encoded[start..i], encoded[i]);
        assert encoded[start..i + 1] == encoded[start..i] + [encoded[i]];
        var idx := Index(encoded[i]);
        if idx.None? {
          assert c[..n + 1] == encoded[start..i + 1];
          ShiftedDigitsPrefix(c, n + 1);
          ShiftedDigitsVal(c);
          GroupOf(c);
          return Err(DeserializationError);
        }
        val := val * 64 + idx.value;
        n := n + 1;
        i := i + 1;
      }
      assert c == encoded[start..i];
      ShiftedDigitsVal(c);
      GroupOf(c);
      if n == 3 {
        val := val * 64;
      } else if n == 2 {
        val := val * 4096;
      }
      if n > 1 {
        var bytes := DecodedBytes(val, n);
        decoded := decoded + bytes;
      } else {
        NoBytes(c);
        assert decoded + [] == decoded;
      }
    }
    DecodedEnds(encoded, decoded, i);
    r := Ok(decoded);
  }

  /** The bytes of a group of `n` characters. */
  method DecodedBytes(val: nat, n: nat) returns (bytes: Bytes)
    requires 1 <= n <= 4
    ensures bytes == BytesOf(val, n - 1)
  {
    bytes := [];
    for j := 0 to 3
      invariant bytes == BytesOf(val, Min(j, n - 1))
    {
      if j < n - 1 {
        bytes := bytes + [if j == 0 then val / 65536 % 256 else if j == 1 then val / 256 % 256 else val % 256];
      }
    }
  }

  lemma NoDigits()
    ensures ShiftedDigits([]) == Some(0)
  {}

  lemma GroupOf(c: Bytes)
    requires 1 <= |c| <= 4
    ensures DecodeGroup(c)
      == match DigitVal(c) case None => Err(DeserializationError) case Some(v) => Ok(BytesOf(v, |c| - 1))
  {}

  lemma NoBytes(c: Bytes)
    requires |c| == 1 && DecodeGroup(c).Ok?
    ensures DecodeGroup(c).value == []
  {}

  lemma DecodedStarts(s: Bytes)
    ensures DecodedTo(DecodeGroups(s), [], s[0..])
  {
    assert s[0..] == s;
    assert forall others: Bytes :: [] + others == others;
  }

  lemma DecodedEnds(s: Bytes, decoded: Bytes, i: nat)
    requires i == |s| && DecodedTo(DecodeGroups(s), decoded, s[i..])
    ensures DecodeGroups(s) == Ok(decoded)
  {
    assert s[i..] == [] && decoded + [] == decoded;
  }
}
