/** The entries footer: names with the offsets and sizes of their blocks, sorted by name. */
module Footer {
  import opened Io
  import opened BlockFormat

  type EntryInfo = seq<(nat, nat)>

  // ---------- Order of names ----------

  /** Lexicographic order on bytes. */
  predicate Less(a: Bytes, b: Bytes) {
    if b == [] then false
    else if a == [] then true
    else if a[0] != b[0] then a[0] < b[0]
    else Less(a[1..], b[1..])
  }

  /** Up to `k` the two agree, and there `a` ends or has the smaller byte. */
  ghost predicate SmallerAt(a: Bytes, b: Bytes, k: nat) {
    && k <= |a| && k < |b| && a[..k] == b[..k]
    && (k == |a| || a[k] < b[k])
  }

  lemma SmallerStarts(a: Bytes, b: Bytes, k: nat)
    requires SmallerAt(a, b, k)
    ensures k > 0 ==> a[0] == b[0]
  {
    if k > 0 {
      assert a[..k][0] == a[0] && b[..k][0] == b[0];
    }
  }

  ghost predicate ComesBefore(a: Bytes, b: Bytes) {
    exists k: nat :: SmallerAt(a, b, k)
  }

  /** What the comparison decides. */
  lemma {:induction false} LessExact(a: Bytes, b: Bytes)
    ensures Less(a, b) <==> ComesBefore(a, b)
  {
    if a == [] || b == [] || a[0] != b[0] {
      if Less(a, b) {
        assert SmallerAt(a, b, 0);
      }
      forall k: nat | SmallerAt(a, b, k)
        ensures Less(a, b)
      {
        SmallerStarts(a, b, k);
      }
    } else {
      LessExact(a[1..], b[1..]);
      forall k: nat | SmallerAt(a[1..], b[1..], k)
        ensures SmallerAt(a, b, k + 1)
      {
        assert a[..k + 1] == [a[0]] + a[1..][..k] && b[..k + 1] == [b[0]] + b[1..][..k];
      }
      forall k: nat | SmallerAt(a, b, k)
        ensures k > 0 && SmallerAt(a[1..], b[1..], k - 1)
      {
        assert k > 0;
        assert a[1..][..k - 1] == a[..k][1..] && b[1..][..k - 1] == b[..k][1..];
      }
    }
  }

  lemma {:induction false} LessTransitive(a: Bytes, b: Bytes, c: Bytes)
    requires Less(a, b) && Less(b, c)
    ensures Less(a, c)
  {
    if a != [] && a[0] == b[0] && b[0] == c[0] {
      LessTransitive(a[1..], b[1..], c[1..]);
    }
  }

  lemma {:induction false} LessTotal(a: Bytes, b: Bytes)
    ensures a == b || Less(a, b) || Less(b, a)
    ensures !(Less(a, b) && Less(b, a)) && !Less(a, a)
  {
    if a != [] && b != [] {
      LessTotal(a[1..], b[1..]);
      LessTotal(a[1..], a[1..]);
      assert a == [a[0]] + a[1..] && b == [b[0]] + b[1..];
    } else if a != [] {
      LessTotal(a[1..], a[1..]);
    }
  }

  ghost predicate Sorted(names: seq<Name>) {
    forall i, j :: 0 <= i < j < |names| ==> Less(names[i], names[j])
  }

  lemma SortedExact(names: seq<Name>)
    requires Sorted(names)
    ensures forall i, j :: 0 <= i < j < |names| ==> ComesBefore(names[i], names[j])
  {
    forall i, j | 0 <= i < j < |names|
      ensures ComesBefore(names[i], names[j])
    {
      LessExact(names[i], names[j]);
    }
  }

  /** Sorts the keys of a map, in whatever order they are taken out of it. */
  method SortNames<T>(m: map<Name, T>) returns (names: seq<Name>)
    ensures Sorted(names)
    ensures forall i, j :: 0 <= i < j < |names| ==> ComesBefore(names[i], names[j])
    ensures forall n :: n in names <==> n in m
  {
    names := [];
    var rest := m.Keys;
    while rest != {}
      invariant rest <= m.Keys && Sorted(names)
      invariant forall n :: n in names <==> n in m && n !in rest
      decreases rest
    {
      var n :| n in rest;
      rest := rest - {n};
      names := Insert(names, n);
    }
    SortedExact(names);
  }

  method Insert(names: seq<Name>, n: Name) returns (r: seq<Name>)
    requires Sorted(names) && n !in names
    ensures Sorted(r) && forall x :: x in r <==> x in names || x == n
  {
    var i := 0;
    while i < |names| && Less(names[i], n)
      invariant i <= |names|
      invariant forall k :: 0 <= k < i ==> Less(names[k], n)
    {
      i := i + 1;
    }
    if i < |names| {
      LessTotal(names[i], n);
    }
    forall k | i <= k < |names|
      ensures Less(n, names[k])
    {
      if i < k {
        LessTransitive(n, names[i], names[k]);
      }
    }
    r := names[..i] + [n] + names[i..];
    forall x
      ensures x in r <==> x in names || x == n
    {
      assert names == names[..i] + names[i..];
    }
  }

  lemma NothingIn(names: seq<Name>)
    ensures names == [] || exists n :: n in names
  {
    if names != [] {
      assert names[0] in names;
    }
  }

  /** There is only one way to sort a set of names: the footer does not depend on the map's order. */
  lemma {:induction false} SortedUnique(a: seq<Name>, b: seq<Name>)
    requires Sorted(a) && Sorted(b)
    requires forall n :: n in a <==> n in b
    ensures a == b
  {
    if a == [] {
      NothingIn(b);
    } else {
      assert a[0] in a && a[0] in b;
      assert b[0] in b && b[0] in a;
      var i :| 0 <= i < |b| && b[i] == a[0];
      var j :| 0 <= j < |a| && a[j] == b[0];
      LessTotal(a[0], b[0]);
      assert a[0] == b[0];
      forall n
        ensures n in a[1..] <==> n in b[1..]
      {
        LessTotal(a[0], a[0]);
        assert n in a <==> n == a[0] || n in a[1..];
        assert n in b <==> n == b[0] || n in b[1..];
        assert a[0] !in a[1..] && b[0] !in b[1..];
      }
      SortedUnique(a[1..], b[1..]);
    }
  }

  // ---------- Serialization ----------

  function SerializePairs(info: EntryInfo): (b: Bytes)
    ensures |b| == 16 * |info|
  {
    if info == [] then [] else LE(info[0].0, 8) + (LE(info[0].1, 8) + SerializePairs(info[1..]))
  }

  function SerializeInfo(info: EntryInfo): Bytes {
    LE(|info|, 8) + SerializePairs(info)
  }

  function SerializeEntries(entries: seq<(Name, EntryInfo)>): Bytes {
    if entries == [] then []
    else SerializeName(entries[0].0) + (SerializeInfo(entries[0].1) + SerializeEntries(entries[1..]))
  }

  /** The tag that an index is present, the index, and the length of both. */
  function SerializeFooter(entries: seq<(Name, EntryInfo)>): Bytes {
    var body := LE(|entries|, 8) + SerializeEntries(entries);
    [1] + body + LE(|body| + 1, 8)
  }

  ghost predicate InfoFits(info: EntryInfo) {
    |info| < U64_LIMIT && forall i :: 0 <= i < |info| ==> info[i].0 < U64_LIMIT && info[i].1 < U64_LIMIT
  }

  function ParsePairs(s: Bytes, n: nat): Result<(EntryInfo, Bytes), Error>
    decreases n
  {
    if n == 0 then Ok(([], s))
    else
      match ParseU64Field(s)
      case Err(e) => Err(e)
      case Ok((offset, afterOffset)) =>
        match ParseU64Field(afterOffset)
        case Err(e) => Err(e)
        case Ok((size, afterSize)) =>
          match ParsePairs(afterSize, n - 1)
          case Err(e) => Err(e)
          case Ok((others, rest)) => Ok(([(offset, size)] + others, rest))
  }

  function ParseInfo(s: Bytes): Result<(EntryInfo, Bytes), Error> {
    match ParseU64Field(s)
    case Err(e) => Err(e)
    case Ok((n, rest)) => ParsePairs(rest, n)
  }

  function ParseEntries(s: Bytes, n: nat): Result<(seq<(Name, EntryInfo)>, Bytes), Error>
    decreases n
  {
    if n == 0 then Ok(([], s))
    else
      match ParseName(s, None)
      case Err(e) => Err(e)
      case Ok((name, afterName)) =>
        match ParseInfo(afterName)
        case Err(e) => Err(e)
        case Ok((info, afterInfo)) =>
          match ParseEntries(afterInfo, n - 1)
          case Err(e) => Err(e)
          case Ok((others, rest)) => Ok(([(name, info)] + others, rest))
  }

  /** Collects pairs into a map; of a repeated name the last pair stays. */
  function ToMap(entries: seq<(Name, EntryInfo)>): map<Name, EntryInfo> {
    if entries == [] then map[]
    else ToMap(entries[..|entries| - 1])[entries[|entries| - 1].0 := entries[|entries| - 1].1]
  }

  /** `ArchiveFooter::deserialize_from`: nothing when the tag says there is no index. */
  function DeserializeFooter(s: Bytes): Result<Option<map<Name, EntryInfo>>, Error> {
    match Take(s, 1, DeserializationError)
    case Err(e) => Err(e)
    case Ok((tag, rest)) =>
      if tag[0] != 1 then Ok(None)
      else
        match ParseU64Field(rest)
        case Err(e) => Err(e)
        case Ok((n, afterCount)) =>
          match ParseEntries(afterCount, n)
          case Err(e) => Err(e)
          case Ok((entries, _)) => Ok(Some(ToMap(entries)))
  }

  lemma {:induction false} ParsePairsOf(info: EntryInfo, rest: Bytes)
    requires InfoFits(info)
    ensures ParsePairs(SerializePairs(info) + rest, |info|) == Ok((info, rest))
  {
    hide LE, FromLE, ParseU64Field;
    if info == [] {
      assert SerializePairs(info) + rest == rest;
    } else {
      var others := SerializePairs(info[1..]) + rest;
      assert SerializePairs(info) + rest == LE(info[0].0, 8) + (LE(info[0].1, 8) + others);
      ParseU64FieldOf(info[0].0, LE(info[0].1, 8) + others);
      ParseU64FieldOf(info[0].1, others);
      ParsePairsOf(info[1..], rest);
      assert info == [info[0]] + info[1..];
    }
  }

  lemma ParseInfoOf(info: EntryInfo, rest: Bytes)
    requires InfoFits(info)
    ensures ParseInfo(SerializeInfo(info) + rest) == Ok((info, rest))
  {
    hide LE, FromLE, ParseU64Field;
    ParseU64FieldOf(|info|, SerializePairs(info) + rest);
    assert SerializeInfo(info) + rest == LE(|info|, 8) + (SerializePairs(info) + rest);
    ParsePairsOf(info, rest);
  }

  lemma {:induction false} ParseEntriesOf(entries: seq<(Name, EntryInfo)>, rest: Bytes)
    requires forall i :: 0 <= i < |entries| ==> InfoFits(entries[i].1)
    ensures ParseEntries(SerializeEntries(entries) + rest, |entries|) == Ok((entries, rest))
  {
    hide LE, FromLE, ParseName, ParseInfo, SerializeName, SerializeInfo;
    if entries == [] {
      assert SerializeEntries(entries) + rest == rest;
    } else {
      var (name, info) := entries[0];
      var others := SerializeEntries(entries[1..]) + rest;
      assert SerializeEntries(entries) + rest == SerializeName(name) + (SerializeInfo(info) + others);
      ParseNameOf(name, SerializeInfo(info) + others, None);
      ParseInfoOf(info, others);
      ParseEntriesOf(entries[1..], rest);
      assert entries == [entries[0]] + entries[1..];
    }
  }

  lemma {:induction false} ToMapExact(entries: seq<(Name, EntryInfo)>)
    requires forall i, j :: 0 <= i < j < |entries| ==> entries[i].0 != entries[j].0
    ensures forall i :: 0 <= i < |entries| ==>
      entries[i].0 in ToMap(entries) && ToMap(entries)[entries[i].0] == entries[i].1
    ensures forall n :: n in ToMap(entries) ==> exists i :: 0 <= i < |entries| && entries[i].0 == n
  {
    if entries != [] {
      var front := entries[..|entries| - 1];
      ToMapExact(front);
      forall n | n in ToMap(entries)
        ensures exists i :: 0 <= i < |entries| && entries[i].0 == n
      {
        if n in ToMap(front) {
          var i :| 0 <= i < |front| && front[i].0 == n;
          assert entries[i].0 == n;
        } else {
          assert entries[|entries| - 1].0 == n;
        }
      }
    }
  }

  /** The footer reads back, whatever follows it. */
  lemma FooterRoundTrip(entries: seq<(Name, EntryInfo)>, rest: Bytes)
    requires |entries| < U64_LIMIT && forall i :: 0 <= i < |entries| ==> InfoFits(entries[i].1)
    ensures DeserializeFooter(SerializeFooter(entries) + rest) == Ok(Some(ToMap(entries)))
  {
    hide LE, FromLE, ParseEntries, SerializeEntries, ParseU64Field, ToMap, Take;
    var listed := SerializeEntries(entries);
    var body := LE(|entries|, 8) + listed;
    var after := LE(|body| + 1, 8) + rest;
    var s := SerializeFooter(entries) + rest;
    var afterTag := LE(|entries|, 8) + (listed + after);
    Concat4([1], LE(|entries|, 8), listed, LE(|body| + 1, 8), rest);
    TakeField([1], afterTag, DeserializationError);
    ParseU64FieldOf(|entries|, listed + after);
    ParseEntriesOf(entries, after);
  }
}
