/** Reading the entries footer off a source, field by field. */
module FooterReading {
  import opened Io
  import opened BlockFormat
  import opened Footer

  /** `Vec::<(u64, u64)>::deserialize` */
  method ReadInfo(src: ByteSource) returns (r: Result<EntryInfo, Error>)
    requires src.Readable()
    modifies src
    ensures src.Readable() && old(src.pos) <= src.pos
    ensures r.Ok? ==> src.manners == old(src.manners)
    ensures r.Ok? ==> old(src.pos) + 8 <= src.pos
    ensures match ParseInfo(src.data[old(src.pos)..])
            case Err(e) => r == Err(e)
            case Ok((info, rest)) => r == Ok(info) && src.data[src.pos..] == rest
  {
    hide ParseU64Field;
    var count := ReadU64(src);
    if count.Err? {
      return Err(count.error);
    }
    ghost var all := ParsePairs(src.data[src.pos..], count.value);
    var info: EntryInfo := [];
    assert forall others: EntryInfo :: info + others == others;
    while |info| < count.value
      invariant src.Readable() && old(src.pos) + 8 <= src.pos && |info| <= count.value
      invariant src.manners == old(src.manners)
      invariant match ParsePairs(src.data[src.pos..], count.value - |info|)
                case Err(e) => all == Err(e)
                case Ok((others, rest)) => all == Ok((info + others, rest))
      decreases count.value - |info|
    {
      var offset := ReadU64(src);
      if offset.Err? {
        return Err(offset.error);
      }
      var size := ReadU64(src);
      if size.Err? {
        return Err(size.error);
      }
      var before := info;
      info := info + [(offset.value, size.value)];
      assert forall others: EntryInfo :: before + ([(offset.value, size.value)] + others) == info + others;
    }
    assert info + [] == info;
    r := Ok(info);
  }

  /** `ArchiveFooter::deserialize_from` */
  method ReadFooter(src: ByteSource) returns (r: Result<Option<map<Name, EntryInfo>>, Error>)
    requires src.Readable() && src.failure.None?
    modifies src
    ensures src.Readable()
    ensures r.Ok? ==> src.manners == old(src.manners)
    ensures r == DeserializeFooter(src.data[old(src.pos)..])
  {
    hide ParseU64Field, ParseName, ParseInfo, ToMap;
    ghost var s := src.data[src.pos..];
    var indexPresent := src.ReadExact(1);
    if indexPresent.Err? {
      return Err(DeserializationError);
    }
    assert indexPresent.value == s[..1] && src.data[src.pos..] == s[1..];
    if indexPresent.value[0] != 1 {
      return Ok(None);
    }
    var count := ReadU64(src);
    if count.Err? {
      return Err(count.error);
    }
    ghost var all := ParseEntries(src.data[src.pos..], count.value);
    ghost var entries: seq<(Name, EntryInfo)> := [];
    var entriesInfo: map<Name, EntryInfo> := map[];
    ToMapStarts();
    assert forall others: seq<(Name, EntryInfo)> :: entries + others == others;
    var i := 0;
    while i < count.value
      invariant src.Readable() && i <= count.value && entriesInfo == ToMap(entries)
      invariant src.manners == old(src.manners)
      invariant match ParseEntries(src.data[src.pos..], count.value - i)
                case Err(e) => all == Err(e)
                case Ok((others, rest)) => all == Ok((entries + others, rest))
    {
      var name := ReadName(src);
      if name.Err? {
        return Err(name.error);
      }
      var info := ReadInfo(src);
      if info.Err? {
        return Err(info.error);
      }
      ghost var before := entries;
      entries := entries + [(name.value, info.value)];
      assert forall others: seq<(Name, EntryInfo)> ::
        before + ([(name.value, info.value)] + others) == entries + others;
      ToMapStep(before, name.value, info.value);
      entriesInfo := entriesInfo[name.value := info.value];
      i := i + 1;
    }
    assert entries + [] == entries;
    r := Ok(Some(entriesInfo));
  }

  lemma ToMapStarts()
    ensures ToMap([]) == map[]
  {}

  lemma ToMapStep(entries: seq<(Name, EntryInfo)>, name: Name, info: EntryInfo)
    ensures ToMap(entries + [(name, info)]) == ToMap(entries)[name := info]
  {
    assert (entries + [(name, info)])[..|entries|] == entries;
  }
}
