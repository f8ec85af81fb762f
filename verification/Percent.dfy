/** Percent escaping of entry names: bytes that are not preserved become `%` and two hexadecimal digits. */
module Percent {
  import opened Io

  const PERCENT: byte := 37

  type Nibble = n: nat | n < 16

  /** Lower case digits only. */
  function HexChar(n: Nibble): byte {
    if n <= 9 then 48 + n else 97 + (n - 10)
  }

  function HexNibble(c: byte): Option<Nibble> {
    if 48 <= c <= 57 then Some(c - 48)
    else if 97 <= c <= 102 then Some(c - 97 + 10)
    else None
  }

  lemma NibbleRoundTrip(n: Nibble, c: byte)
    ensures HexNibble(HexChar(n)) == Some(n)
    ensures HexNibble(c).Some? ==> HexChar(HexNibble(c).value) == c
  {}

  const HEX_DIGITS := "0123456789abcdef"

  lemma HexTable(n: Nibble)
    ensures |HEX_DIGITS| == 16 && HexChar(n) == HEX_DIGITS[n] as int
  {}

  /** One byte, escaped where needed. */
  function EscapeByte(b: byte, keep: Bytes): (e: Bytes)
    ensures e != []
  {
    if b in keep then [b] else [PERCENT, HexChar(b / 16), HexChar(b % 16)]
  }

  function Escape(x: Bytes, keep: Bytes): Bytes {
    if x == [] then [] else EscapeByte(x[0], keep) + Escape(x[1..], keep)
  }

  /** The byte two hexadecimal digits stand for. */
  function Decoded(high: byte, low: byte): Option<byte> {
    match (HexNibble(high), HexNibble(low))
    case (Some(h), Some(l)) => Some(h as nat * 16 + l as nat)
    case _ => None
  }

  /** Bytes that are neither allowed nor start an escape are dropped. */
  function Unescape(s: Bytes, allow: Bytes): Option<Bytes> {
    if s == [] then Some([])
    else if s[0] in allow then Then(s[0], Unescape(s[1..], allow))
    else if s[0] == PERCENT then
      if |s| < 3 then None
      else
        match Decoded(s[1], s[2])
        case None => None
        case Some(b) => if b in allow then None else Then(b, Unescape(s[3..], allow))
    else Unescape(s[1..], allow)
  }

  function Then(b: byte, rest: Option<Bytes>): Option<Bytes> {
    if rest.Some? then Some([b] + rest.value) else None
  }

  /** Outside of escapes there are only allowed bytes. */
  predicate OnlyAllowed(s: Bytes, allow: Bytes) {
    s == []
    || (if s[0] in allow then OnlyAllowed(s[1..], allow)
        else s[0] == PERCENT && |s| >= 3 && OnlyAllowed(s[3..], allow))
  }

  lemma DecodedEscape(b: byte)
    ensures Decoded(HexChar(b / 16), HexChar(b % 16)) == Some(b)
  {
    NibbleRoundTrip(b / 16, 0);
    NibbleRoundTrip(b % 16, 0);
  }

  lemma EscapeDecoded(high: byte, low: byte)
    requires Decoded(high, low).Some?
    ensures var b := Decoded(high, low).value; HexChar(b / 16) == high && HexChar(b % 16) == low
  {
    NibbleRoundTrip(0, high);
    NibbleRoundTrip(0, low);
    var h, l := HexNibble(high).value, HexNibble(low).value;
    assert (h as nat * 16 + l as nat) / 16 == h && (h as nat * 16 + l as nat) % 16 == l;
  }

  /** The first byte escaped decodes to itself, whatever follows. */
  lemma UnescapeFirst(b: byte, rest: Bytes, keep: Bytes)
    requires PERCENT !in keep || b in keep
    ensures Unescape(EscapeByte(b, keep) + rest, keep) == Then(b, Unescape(rest, keep))
  {
    DecodedEscape(b);
    hide Decoded, HexChar;
    var s := EscapeByte(b, keep) + rest;
    if b in keep {
      assert s[1..] == rest;
    } else {
      assert s[3..] == rest;
    }
  }

  /** Unescaping undoes escaping when `%` is not preserved, or there is nothing to escape. */
  lemma {:induction false} RoundTrip(x: Bytes, keep: Bytes)
    requires PERCENT !in keep || forall b :: b in x ==> b in keep
    ensures Unescape(Escape(x, keep), keep) == Some(x)
    ensures OnlyAllowed(Escape(x, keep), keep)
  {
    if x != [] {
      RoundTrip(x[1..], keep);
      UnescapeFirst(x[0], Escape(x[1..], keep), keep);
      assert x == [x[0]] + x[1..];
      var s := Escape(x, keep);
      assert s[|EscapeByte(x[0], keep)|..] == Escape(x[1..], keep);
    }
  }

  /** With `%` preserved an escape is read as the bytes it is made of. */
  lemma {:induction false} RoundTripFails(x: Bytes, keep: Bytes)
    requires PERCENT in keep && exists b :: b in x && b !in keep
    ensures Unescape(Escape(x, keep), keep) != Some(x)
  {
    var e, rest := EscapeByte(x[0], keep), Escape(x[1..], keep);
    var s := Escape(x, keep);
    if x[0] in keep {
      assert s[1..] == rest;
      assert x == [x[0]] + x[1..];
      RoundTripFails(x[1..], keep);
    } else {
      assert s[0] == PERCENT;
      assert Unescape(s, keep).Some? ==> Unescape(s, keep).value[0] == PERCENT;
    }
  }

  /** So it comes back exactly then. */
  lemma RoundTripExact(x: Bytes, keep: Bytes)
    ensures Unescape(Escape(x, keep), keep) == Some(x) <==> PERCENT !in keep || forall b :: b in x ==> b in keep
  {
    if PERCENT !in keep || forall b :: b in x ==> b in keep {
      RoundTrip(x, keep);
    } else {
      RoundTripFails(x, keep);
    }
  }

  /** There is one escaped form: what unescapes to `x` and drops nothing is the escape of `x`. */
  lemma {:induction false} EscapedUnique(s: Bytes, x: Bytes, allow: Bytes)
    requires PERCENT !in allow
    ensures Unescape(s, allow) == Some(x) && OnlyAllowed(s, allow) <==> s == Escape(x, allow)
  {
    if s == Escape(x, allow) {
      RoundTrip(x, allow);
    }
    if Unescape(s, allow) == Some(x) && OnlyAllowed(s, allow) {
      UnescapedIsEscape(s, x, allow);
    }
  }

  lemma {:induction false} UnescapedIsEscape(s: Bytes, x: Bytes, allow: Bytes)
    requires Unescape(s, allow) == Some(x) && OnlyAllowed(s, allow)
    requires PERCENT !in allow
    ensures s == Escape(x, allow)
  {
    if s == [] {
    } else if s[0] in allow {
      UnescapedIsEscape(s[1..], x[1..], allow);
      assert s == [s[0]] + s[1..];
    } else {
      var b := Decoded(s[1], s[2]).value;
      EscapeDecoded(s[1], s[2]);
      hide Decoded, HexChar;
      UnescapedIsEscape(s[3..], x[1..], allow);
      assert s == [s[0], s[1], s[2]] + s[3..];
    }
  }

  // ---------- The loops ----------

  lemma EscapeStep(bytes: Bytes, keep: Bytes, i: nat, done: Bytes)
    requires i < |bytes|
    ensures done + Escape(bytes[i..], keep) == done + EscapeByte(bytes[i], keep) + Escape(bytes[i + 1..], keep)
  {
    hide EscapeByte;
    assert bytes[i..][1..] == bytes[i + 1..];
  }

  lemma Pushed(s: Bytes, a: byte, b: byte, c: byte)
    ensures s + [a] + [b] + [c] == s + [a, b, c]
  {}

  lemma NothingToEscape(bytes: Bytes, keep: Bytes, done: Bytes)
    ensures bytes[0..] == bytes && done + Escape(bytes[|bytes|..], keep) == done
    ensures [] + Escape(bytes, keep) == Escape(bytes, keep)
  {
    assert bytes[|bytes|..] == [];
  }

  /** `mla_percent_escape` */
  method EscapeBytes(bytes: Bytes, keep: Bytes) returns (s: Bytes)
    ensures s == Escape(bytes, keep)
  {
    hide HexChar, Escape;
    s := [];
    NothingToEscape(bytes, keep, s);
    for i := 0 to |bytes|
      invariant s + Escape(bytes[i..], keep) == Escape(bytes, keep)
    {
      var b := bytes[i];
      EscapeStep(bytes, keep, i, s);
      if b in keep {
        s := s + [b];
      } else {
        var low, high := HexChar(b % 16), HexChar(b / 16);
        Pushed(s, PERCENT, high, low);
        s := s + [PERCENT];
        s := s + [high];
        s := s + [low];
      }
    }
    NothingToEscape(bytes, keep, s);
  }

  /** What is still to unescape, behind the result so far. */
  ghost predicate UnescapedTo(whole: Option<Bytes>, result: Bytes, rest: Option<Bytes>) {
    whole == if rest.Some? then Some(result + rest.value) else None
  }

  lemma UnescapedThen(whole: Option<Bytes>, result: Bytes, b: byte, rest: Option<Bytes>)
    requires UnescapedTo(whole, result, Then(b, rest))
    ensures UnescapedTo(whole, result + [b], rest)
  {
    if rest.Some? {
      assert result + ([b] + rest.value) == result + [b] + rest.value;
    }
  }

  /** `mla_percent_unescape` */
  method UnescapeBytes(input: Bytes, allow: Bytes) returns (r: Option<Bytes>)
    ensures r == Unescape(input, allow)
  {
    hide Decoded, Then, UnescapedTo;
    var result: Bytes := [];
    var at: nat := 0;
    ghost var whole := Unescape(input, allow);
    UnescapedStarts(whole);
    assert input[0..] == input;
    while at < |input|
      invariant at <= |input| && UnescapedTo(whole, result, Unescape(input[at..], allow))
    {
      ghost var s := input[at..];
      assert s[1..] == input[at + 1..];
      var b := input[at];
      if b in allow {
        UnescapedThen(whole, result, b, Unescape(s[1..], allow));
        result := result + [b];
        at := at + 1;
      } else if b == PERCENT {
        if at + 2 >= |input| {
          UnescapedNone(whole, result);
          return None;
        }
        var decoded := Decoded(input[at + 1], input[at + 2]);
        if decoded.None? || decoded.value in allow {
          UnescapedNone(whole, result);
          return None;
        }
        assert s[3..] == input[at + 3..];
        UnescapedThen(whole, result, decoded.value, Unescape(s[3..], allow));
        result := result + [decoded.value];
        at := at + 3;
      } else {
        at := at + 1;
      }
    }
    UnescapedEnds(whole, result);
    assert input[at..] == [];
    r := Some(result);
  }

  lemma UnescapedStarts(whole: Option<Bytes>)
    ensures UnescapedTo(whole, [], whole)
  {
    if whole.Some? {
      assert [] + whole.value == whole.value;
    }
  }

  lemma UnescapedNone(whole: Option<Bytes>, result: Bytes)
    ensures UnescapedTo(whole, result, None) ==> whole == None
  {}

  lemma UnescapedEnds(whole: Option<Bytes>, result: Bytes)
    ensures UnescapedTo(whole, result, Some([])) ==> whole == Some(result)
  {
    assert result + [] == result;
  }
}
