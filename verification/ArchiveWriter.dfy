/** The archive writer: interleaved entries, their index, and the closing footer. */
module ArchiveWriting {
  import opened Io
  import opened BlockFormat
  import opened Entries
  import opened Footer

  /** The bytes of content hashed so far, per open entry, stand for the hashers. */
  datatype WriterState = OpenedFiles(ids: seq<nat>, hashes: map<nat, Bytes>) | Finalized

  ghost predicate NoRepeats(s: seq<nat>) {
    forall i, j :: 0 <= i < j < |s| ==> s[i] != s[j]
  }

  /** `vec_remove_item` */
  function RemoveItem(s: seq<nat>, x: nat): (r: seq<nat>) {
    if s == [] then []
    else if s[0] == x then s[1..]
    else [s[0]] + RemoveItem(s[1..], x)
  }

  lemma {:induction false} RemoveItemExact(s: seq<nat>, x: nat)
    requires NoRepeats(s)
    ensures NoRepeats(RemoveItem(s, x))
    ensures forall y :: y in RemoveItem(s, x) <==> y in s && y != x
  {
    if s != [] {
      assert s == [s[0]] + s[1..];
      assert forall y :: y in s <==> y == s[0] || y in s[1..];
      if s[0] != x {
        RemoveItemExact(s[1..], x);
        var rest := RemoveItem(s[1..], x);
        assert s[0] !in s[1..];
        assert forall y :: y in [s[0]] + rest <==> y == s[0] || y in rest;
      }
    }
  }

  /** Hashers run for exactly the open entries, over exactly their content. */
  ghost predicate HashesMatch(hashes: map<nat, Bytes>, m: EntryMap) {
    && (forall id :: id in hashes <==> id in m && !m[id].closed)
    && (forall id :: id in hashes ==> hashes[id] == m[id].content)
  }

  ghost predicate StateMatches(state: WriterState, m: EntryMap) {
    && state.OpenedFiles?
    && HashesMatch(state.hashes, m)
    && NoRepeats(state.ids)
    && (forall id :: id in state.ids <==> id in state.hashes)
  }

  /** Names and ids are in bijection. */
  ghost predicate NamesMatch(entriesInfo: map<Name, nat>, m: EntryMap) {
    && (forall id :: id in m ==> m[id].name in entriesInfo && entriesInfo[m[id].name] == id)
    && (forall n :: n in entriesInfo ==> entriesInfo[n] in m && m[entriesInfo[n]].name == n)
  }

  /** The index of every entry is the index of its blocks in the run. */
  ghost predicate IndexMatches(idsInfo: map<nat, EntryInfo>, bs: seq<Block>) {
    && (forall id :: id in idsInfo <==> id in Run(bs))
    && (forall id :: id in idsInfo ==> idsInfo[id] == Index(bs, id))
  }

  /** Ids are handed out in order. */
  ghost predicate IdsFresh(nextId: nat, m: EntryMap) {
    nextId < U64_LIMIT && forall id :: id in m ==> id < nextId
  }

  /** The index entry of a block written next. */
  function Item(bs: seq<Block>, b: Block): (nat, nat) {
    (Offset(bs, |bs|), |b.Content()|)
  }

  lemma IndexOne(sha: Sha, bs: seq<Block>, b: Block, id: nat)
    requires Legal(sha, bs)
    ensures b.IsOf(id) ==> Index(bs + [b], id) == Index(bs, id) + [Item(bs, b)]
    ensures !b.IsOf(id) ==> Index(bs + [b], id) == Index(bs, id)
    ensures id !in Run(bs) ==> Index(bs, id) == []
  {
    EntryShape(sha, bs, id);
    IndexExact(bs, id);
    IndexStep(bs, b, id);
  }

  /** Recording a block in the index of its entry keeps the indexes true. */
  lemma IndexMatchesStep(sha: Sha, idsInfo: map<nat, EntryInfo>, bs: seq<Block>, b: Block)
    requires IndexMatches(idsInfo, bs) && Legal(sha, bs) && Accepts(sha, Run(bs), b)
    ensures var before := if b.id in idsInfo then idsInfo[b.id] else [];
            IndexMatches(idsInfo[b.id := before + [Item(bs, b)]], bs + [b])
  {
    RunStep(bs, b);
    assert forall id :: id in Run(bs + [b]) <==> id in Run(bs) || id == b.id;
    hide Run, Index, Item, Offset, Occurrences, Legal, Flat;
    var before: EntryInfo := if b.id in idsInfo then idsInfo[b.id] else [];
    var info := idsInfo[b.id := before + [Item(bs, b)]];
    forall id | id in info
      ensures info[id] == Index(bs + [b], id)
    {
      IndexOne(sha, bs, b, id);
    }
  }

  // ---------- What each operation does to the maps ----------

  ghost predicate AllClosed(m: EntryMap) {
    forall id :: id in m ==> m[id].closed
  }

  lemma OpenIff(state: WriterState, m: EntryMap, id: nat)
    requires StateMatches(state, m)
    ensures state.OpenedFiles?
    ensures id in state.ids && id in state.hashes <==> id in m && !m[id].closed
    ensures id in state.hashes ==> state.hashes[id] == m[id].content
  {}

  lemma NothingOpen(state: WriterState, m: EntryMap)
    requires StateMatches(state, m)
    ensures state.OpenedFiles?
    ensures state.ids == [] && state.hashes == map[] <==> AllClosed(m)
  {
    if state.ids != [] {
      assert state.ids[0] in state.ids;
    }
    if state.hashes != map[] {
      var id :| id in state.hashes;
    }
  }

  lemma NameTaken(entriesInfo: map<Name, nat>, m: EntryMap, name: Name)
    requires NamesMatch(entriesInfo, m)
    ensures name in entriesInfo <==> HasName(m, name)
  {}

  lemma Started(state: WriterState, entriesInfo: map<Name, nat>, nextId: nat, m: EntryMap, name: Name)
    requires StateMatches(state, m) && NamesMatch(entriesInfo, m) && IdsFresh(nextId, m)
    requires name !in entriesInfo && nextId + 1 < U64_LIMIT
    ensures state.OpenedFiles? && nextId !in m && nextId < U64_LIMIT && forall id :: id in m ==> m[id].name != name
    ensures var m' := m[nextId := Entry(name, [], false)];
            && StateMatches(OpenedFiles(state.ids + [nextId], state.hashes[nextId := []]), m')
            && NamesMatch(entriesInfo[name := nextId], m') && IdsFresh(nextId + 1, m')
  {
    assert forall x :: x in state.ids + [nextId] <==> x in state.ids || x == nextId;
  }

  lemma Appended(state: WriterState, entriesInfo: map<Name, nat>, nextId: nat, m: EntryMap, id: nat, data: Bytes)
    requires StateMatches(state, m) && NamesMatch(entriesInfo, m) && IdsFresh(nextId, m)
    requires id in m && !m[id].closed
    ensures id in state.hashes && id < U64_LIMIT
    ensures var m' := m[id := m[id].(content := m[id].content + data)];
            && StateMatches(state.(hashes := state.hashes[id := state.hashes[id] + data]), m')
            && NamesMatch(entriesInfo, m') && IdsFresh(nextId, m')
  {}

  lemma Ended(state: WriterState, entriesInfo: map<Name, nat>, nextId: nat, m: EntryMap, id: nat)
    requires StateMatches(state, m) && NamesMatch(entriesInfo, m) && IdsFresh(nextId, m)
    requires id in m && !m[id].closed
    ensures id in state.hashes && id < U64_LIMIT
    ensures var m' := m[id := m[id].(closed := true)];
            && StateMatches(OpenedFiles(RemoveItem(state.ids, id), state.hashes - {id}), m')
            && NamesMatch(entriesInfo, m') && IdsFresh(nextId, m')
  {
    RemoveItemExact(state.ids, id);
  }

  lemma IndexKeys(idsInfo: map<nat, EntryInfo>, bs: seq<Block>, id: nat)
    requires IndexMatches(idsInfo, bs)
    ensures id in idsInfo <==> id in Run(bs)
  {}

  lemma FlatStep(bs: seq<Block>, b: Block)
    ensures Flat(bs + [b]) == Flat(bs) + Encode(b)
    ensures Offset(bs, |bs|) == |ENTRIES_HEADER| + |Flat(bs)|
  {
    assert (bs + [b])[..|bs|] == bs == bs[..|bs|];
  }

  // ---------- The finished stream ----------

  /** What follows the blocks of a finished archive. */
  function Closing(footer: seq<(Name, EntryInfo)>): Bytes {
    Encode(EndOfArchiveData) + (SerializeFooter(footer) + EMPTY_TAIL_OPTS)
  }

  function EntriesStream(bs: seq<Block>, footer: seq<(Name, EntryInfo)>): Bytes {
    ENTRIES_HEADER + Flat(bs) + Closing(footer)
  }

  /** The footer lists, sorted by name, every entry of the run with its index. */
  ghost predicate FooterFor(footer: seq<(Name, EntryInfo)>, bs: seq<Block>) {
    && (forall i, j :: 0 <= i < j < |footer| ==> Less(footer[i].0, footer[j].0))
    && (forall id :: id in Run(bs) ==> (Run(bs)[id].name, Index(bs, id)) in footer)
    && (forall i :: 0 <= i < |footer| ==> ListsEntry(footer[i], bs))
  }

  ghost predicate ListsEntry(item: (Name, EntryInfo), bs: seq<Block>) {
    exists id :: id in Run(bs) && item == (Run(bs)[id].name, Index(bs, id))
  }

  /** A finished archive of the entries layer: a legal run without open entries, and its footer. */
  ghost predicate Archived(sha: Sha, bs: seq<Block>, footer: seq<(Name, EntryInfo)>, data: Bytes) {
    Legal(sha, bs) && AllClosed(Run(bs)) && FooterFor(footer, bs) && data == EntriesStream(bs, footer)
  }

  /** Entry info of sorted names, as the serialization collects it. */
  function Collect(names: seq<Name>, entriesInfo: map<Name, nat>, idsInfo: map<nat, EntryInfo>):
    (r: Result<seq<(Name, EntryInfo)>, Error>)
    requires forall n :: n in names ==> n in entriesInfo
    ensures r.Ok? ==> |r.value| == |names|
    ensures r.Ok? ==> forall i :: 0 <= i < |names| ==>
      entriesInfo[names[i]] in idsInfo && r.value[i] == (names[i], idsInfo[entriesInfo[names[i]]])
    ensures (forall n :: n in names ==> entriesInfo[n] in idsInfo) ==> r.Ok?
  {
    if names == [] then Ok([])
    else
      var id := entriesInfo[names[0]];
      assert forall n :: n in names[1..] ==> n in names;
      if id !in idsInfo then Err(WrongWriterState)
      else
        match Collect(names[1..], entriesInfo, idsInfo)
        case Err(e) => Err(e)
        case Ok(others) => Ok([(names[0], idsInfo[id])] + others)
  }

  lemma CollectIsFooter(names: seq<Name>, entriesInfo: map<Name, nat>, idsInfo: map<nat, EntryInfo>, bs: seq<Block>)
    requires Sorted(names) && (forall n :: n in names <==> n in entriesInfo)
    requires NamesMatch(entriesInfo, Run(bs)) && IndexMatches(idsInfo, bs)
    ensures var footer := Collect(names, entriesInfo, idsInfo); footer.Ok? && FooterFor(footer.value, bs)
  {
    hide Index, Run, Less, NamesMatch, IndexMatches, Collect, ListsEntry;
    forall n | n in names
      ensures entriesInfo[n] in idsInfo
    {
      NameInfo(entriesInfo, idsInfo, bs, n);
    }
    var footer := Collect(names, entriesInfo, idsInfo).value;
    forall i | 0 <= i < |footer|
      ensures ListsEntry(footer[i], bs)
    {
      assert names[i] in names;
      NameListed(entriesInfo, idsInfo, bs, names[i]);
    }
    forall id | id in Run(bs)
      ensures (Run(bs)[id].name, Index(bs, id)) in footer
    {
      IdListed(entriesInfo, idsInfo, bs, id);
      var i :| 0 <= i < |names| && names[i] == Run(bs)[id].name;
      assert footer[i] in footer;
    }
  }

  lemma NameListed(entriesInfo: map<Name, nat>, idsInfo: map<nat, EntryInfo>, bs: seq<Block>, name: Name)
    requires NamesMatch(entriesInfo, Run(bs)) && IndexMatches(idsInfo, bs) && name in entriesInfo
    ensures entriesInfo[name] in idsInfo && ListsEntry((name, idsInfo[entriesInfo[name]]), bs)
  {
    hide Run, Index;
    NameInfo(entriesInfo, idsInfo, bs, name);
  }

  lemma IdListed(entriesInfo: map<Name, nat>, idsInfo: map<nat, EntryInfo>, bs: seq<Block>, id: nat)
    requires NamesMatch(entriesInfo, Run(bs)) && IndexMatches(idsInfo, bs) && id in Run(bs)
    ensures
      var name := Run(bs)[id].name;
      name in entriesInfo && entriesInfo[name] == id && id in idsInfo && idsInfo[id] == Index(bs, id)
  {
    hide Run;
  }

  /** A name leads over its id to the index of its entry. */
  lemma NameInfo(entriesInfo: map<Name, nat>, idsInfo: map<nat, EntryInfo>, bs: seq<Block>, name: Name)
    requires NamesMatch(entriesInfo, Run(bs)) && IndexMatches(idsInfo, bs) && name in entriesInfo
    ensures
      var id := entriesInfo[name];
      id in idsInfo && id in Run(bs) && Run(bs)[id].name == name && idsInfo[id] == Index(bs, id)
  {
    hide Run, Index;
  }

  lemma {:induction false} EntriesFit(entries: seq<(Name, EntryInfo)>, i: nat)
    requires i < |entries|
    ensures |entries| <= |SerializeEntries(entries)| && |entries[i].1| <= |SerializeEntries(entries)|
  {
    if |entries| > 1 {
      EntriesFit(entries[1..], if i == 0 then 0 else i - 1);
    }
  }

  lemma IndexFits(sha: Sha, bs: seq<Block>, id: nat)
    requires Legal(sha, bs) && |ENTRIES_HEADER| + |Flat(bs)| < I64_LIMIT
    ensures forall i :: 0 <= i < |Index(bs, id)| ==> Index(bs, id)[i].0 < U64_LIMIT && Index(bs, id)[i].1 < U64_LIMIT
  {
    IndexExact(bs, id);
    hide Run, Flat, Index, Occurrences, Legal;
    forall i | 0 <= i < |Index(bs, id)|
      ensures Index(bs, id)[i].0 < U64_LIMIT && Index(bs, id)[i].1 < U64_LIMIT
    {
      var j := Occurrences(bs, id)[i];
      assert IndexedAt(bs, j, Index(bs, id)[i]);
      LegalPrefix(sha, bs, j);
      FlatSplit(bs, j);
    }
  }

  /**
   * The decoded footer maps exactly the names of the entries to the offsets and
   * sizes of their blocks.
   */
  lemma FooterDecodes(sha: Sha, bs: seq<Block>, footer: seq<(Name, EntryInfo)>, rest: Bytes)
    requires Legal(sha, bs) && FooterFor(footer, bs) && |EntriesStream(bs, footer)| < I64_LIMIT
    ensures DeserializeFooter(SerializeFooter(footer) + rest) == Ok(Some(ToMap(footer)))
    ensures forall id :: id in Run(bs) ==>
      Run(bs)[id].name in ToMap(footer) && ToMap(footer)[Run(bs)[id].name] == Index(bs, id)
    ensures forall n :: n in ToMap(footer) ==> HasName(Run(bs), n)
  {
    hide Run, Flat, Index, Legal, LE, Encode;
    forall i | 0 <= i < |footer|
      ensures InfoFits(footer[i].1)
    {
      EntriesFit(footer, i);
      assert ListsEntry(footer[i], bs);
      var id :| id in Run(bs) && footer[i] == (Run(bs)[id].name, Index(bs, id));
      IndexFits(sha, bs, id);
    }
    if footer != [] {
      EntriesFit(footer, 0);
    }
    FooterRoundTrip(footer, rest);
    forall i, j | 0 <= i < j < |footer|
      ensures footer[i].0 != footer[j].0
    {
      LessTotal(footer[i].0, footer[j].0);
    }
    ToMapExact(footer);
    hide ToMap;
    forall id | id in Run(bs)
      ensures Run(bs)[id].name in ToMap(footer) && ToMap(footer)[Run(bs)[id].name] == Index(bs, id)
    {
      assert (Run(bs)[id].name, Index(bs, id)) in footer;
    }
    forall n | n in ToMap(footer)
      ensures HasName(Run(bs), n)
    {
      var i :| 0 <= i < |footer| && footer[i].0 == n;
      assert ListsEntry(footer[i], bs);
    }
  }

  /** The head of a content block that announces `size` bytes. */
  function ContentHead(id: nat, size: nat): Bytes {
    BLOCK_MAGIC + ([0x01] + (LE(id, 8) + (EMPTY_OPTS + LE(size, 8))))
  }

  /** A reader cannot tell such a block from a whole one: it takes what follows for the missing content. */
  lemma ShortBlockRunsOn(id: nat, size: nat, src: Bytes, more: Bytes, failure: Option<Error>)
    requires id < U64_LIMIT && |src| < size < U64_LIMIT
    ensures ParseHeader(ContentHead(id, size) + src + more, failure) == Ok((ContentHeader(id, size), src + more))
  {
    hide LE, ParseHeader;
    var b := EntryContent(id, seq(size, i requires 0 <= i < size => 0));
    assert ContentHead(id, size) == HeadBytes(b);
    ParseEncoded(b, src + more, failure);
    assert ContentHead(id, size) + src + more == HeadBytes(b) + (src + more);
  }

  class ArchiveWriter {
    const sha: Sha
    var dest: Bytes
    var state: WriterState
    var entriesInfo: map<Name, nat>
    var idsInfo: map<nat, EntryInfo>
    var nextId: nat
    var currentId: nat
    // The blocks written so far.
    ghost var blocks: seq<Block>

    ghost predicate Valid()
      reads this
    {
      && Legal(sha, blocks)
      && dest == ENTRIES_HEADER + Flat(blocks)
      && StateMatches(state, Run(blocks))
      && NamesMatch(entriesInfo, Run(blocks))
      && IndexMatches(idsInfo, blocks)
      && IdsFresh(nextId, Run(blocks))
    }

    constructor (sha: Sha)
      ensures Valid() && blocks == [] && this.sha == sha && nextId == 0
    {
      this.sha := sha;
      dest := ENTRIES_HEADER;
      state := OpenedFiles([], map[]);
      entriesInfo, idsInfo := map[], map[];
      nextId, currentId := 0, 0;
      blocks := [];
    }

    /** Writes a block at the current position. */
    method WriteBlock(b: Block)
      requires Legal(sha, blocks) && Accepts(sha, Run(blocks), b)
      requires dest == ENTRIES_HEADER + Flat(blocks)
      modifies this`dest, this`blocks
      ensures blocks == old(blocks) + [b] && Legal(sha, blocks) && Run(blocks) == Step(Run(old(blocks)), b)
      ensures dest == ENTRIES_HEADER + Flat(blocks)
    {
      hide Encode, Flat;
      FlatStep(blocks, b);
      LegalStep(sha, blocks, b);
      dest := Dump(b, dest);
      blocks := blocks + [b];
    }

    /** `record_offset_and_size_in_index` */
    method RecordOffsetAndSizeInIndex(id: nat, size: nat) returns (r: Result<(), Error>)
      modifies this`idsInfo, this`currentId
      ensures if id in old(idsInfo)
              then r == Ok(()) && idsInfo == old(idsInfo)[id := old(idsInfo)[id] + [(|dest|, size)]] && currentId == id
              else r == Err(WrongWriterState) && unchanged(this)
    {
      if id !in idsInfo {
        return Err(WrongWriterState);
      }
      idsInfo := idsInfo[id := idsInfo[id] + [(|dest|, size)]];
      currentId := id;
      r := Ok(());
    }

    /**
     * `start_entry`: a new entry under a fresh id, unless its name is taken or
     * ids have run out; a refusal changes nothing.
     */
    method StartEntry(name: Name) returns (r: Result<nat, Error>)
      requires Valid()
      modifies this
      ensures Valid()
      ensures r.Ok? <==> !HasName(Run(old(blocks)), name) && old(nextId) + 1 < U64_LIMIT
      ensures r.Ok? ==>
        r.value == old(nextId) && r.value !in Run(old(blocks)) && blocks == old(blocks) + [EntryStart(r.value, name)]
      ensures r.Ok? ==> Run(blocks) == Run(old(blocks))[r.value := Entry(name, [], false)] && nextId == old(nextId) + 1
      ensures r.Err? ==>
        unchanged(this) && r.error == if HasName(Run(blocks), name) then DuplicateEntryName else SerializationError
    {
      hide Flat, Legal, Run, Index, Offset, StateMatches, NamesMatch, IndexMatches, IdsFresh;
      NameTaken(entriesInfo, Run(blocks), name);
      if name in entriesInfo {
        return Err(DuplicateEntryName);
      }
      if nextId + 1 >= U64_LIMIT {
        return Err(SerializationError);
      }
      var id := nextId;
      var b := EntryStart(id, name);
      Started(state, entriesInfo, nextId, Run(blocks), name);
      IndexMatchesStep(sha, idsInfo, blocks, b);
      FlatStep(blocks, b);
      assert id !in idsInfo by {
        IndexKeys(idsInfo, blocks, id);
      }
      nextId := nextId + 1;
      currentId := id;
      entriesInfo := entriesInfo[name := id];
      idsInfo := idsInfo[id := [(|dest|, 0)]];
      assert [] + [Item(blocks, b)] == [(|dest|, 0)];
      state := OpenedFiles(state.ids + [id], state.hashes[id := []]);
      WriteBlock(b);
      r := Ok(id);
    }

    /** Whether an entry is open for content: `check_state_file_opened`. */
    predicate IsOpen(id: nat)
      reads this
    {
      state.OpenedFiles? && id in state.ids && id in state.hashes
    }

    /**
     * `append_entry_content`: one content block, hashed as it goes; nothing for
     * no bytes. That the source holds `size` bytes is not checked: from a shorter
     * one a block is written that announces more than it has.
     */
    method AppendEntryContent(id: nat, size: nat, src: Bytes) returns (r: Result<(), Error>)
      requires Valid() && size < U64_LIMIT
      modifies this
      ensures nextId == old(nextId) && (size <= |src| ==> Valid())
      ensures r.Ok? <==> id in Run(old(blocks)) && !Run(old(blocks))[id].closed
      ensures r.Err? ==> unchanged(this) && r.error == WrongArchiveWriterState
      ensures r.Ok? && |src| < size ==> dest == old(dest) + ContentHead(id, size) + src
      ensures r.Ok? && size <= |src| ==>
        blocks == if size == 0 then old(blocks) else old(blocks) + [EntryContent(id, src[..size])]
      ensures r.Ok? && size <= |src| ==>
        Run(blocks)
          == Run(old(blocks))[id := Run(old(blocks))[id].(content := Run(old(blocks))[id].content + src[..size])]
    {
      hide Flat, Legal, Run, Index, Offset, StateMatches, NamesMatch, IndexMatches, IdsFresh;
      OpenIff(state, Run(blocks), id);
      if !IsOpen(id) {
        return Err(WrongArchiveWriterState);
      }
      if size == 0 {
        // Avoid creating 0-sized block
        assert Run(blocks)[id].content + src[..size] == Run(blocks)[id].content;
        return Ok(());
      }
      if |src| < size {
        IndexKeys(idsInfo, blocks, id);
        var listed := RecordOffsetAndSizeInIndex(id, size);
        state := state.(hashes := state.hashes[id := state.hashes[id] + src]);
        dest := dest + ContentHead(id, size) + src;
        return Ok(());
      }
      var b := EntryContent(id, src[..size]);
      Appended(state, entriesInfo, nextId, Run(blocks), id, src[..size]);
      IndexMatchesStep(sha, idsInfo, blocks, b);
      IndexKeys(idsInfo, blocks, id);
      FlatStep(blocks, b);
      var recorded := RecordOffsetAndSizeInIndex(id, size);
      state := state.(hashes := state.hashes[id := state.hashes[id] + src[..size]]);
      WriteBlock(b);
      r := Ok(());
    }

    /** `end_entry`: the closing block carries the hash of all the entry's content. */
    method EndEntry(id: nat) returns (r: Result<(), Error>)
      requires Valid()
      modifies this
      ensures Valid() && nextId == old(nextId)
      ensures r.Ok? <==> id in Run(old(blocks)) && !Run(old(blocks))[id].closed
      ensures r.Err? ==> unchanged(this) && r.error == WrongArchiveWriterState
      ensures r.Ok? ==> blocks == old(blocks) + [EndOfEntry(id, sha(Run(old(blocks))[id].content))]
      ensures r.Ok? ==> Run(blocks) == Run(old(blocks))[id := Run(old(blocks))[id].(closed := true)]
    {
      hide Flat, Legal, Run, Index, Offset, StateMatches, NamesMatch, IndexMatches, IdsFresh;
      OpenIff(state, Run(blocks), id);
      if !IsOpen(id) {
        return Err(WrongArchiveWriterState);
      }
      var hash := sha(state.hashes[id]);
      var b := EndOfEntry(id, hash);
      Ended(state, entriesInfo, nextId, Run(blocks), id);
      IndexMatchesStep(sha, idsInfo, blocks, b);
      IndexKeys(idsInfo, blocks, id);
      FlatStep(blocks, b);
      state := OpenedFiles(RemoveItem(state.ids, id), state.hashes - {id});
      var recorded := RecordOffsetAndSizeInIndex(id, 0);
      WriteBlock(b);
      r := Ok(());
    }

    /**
     * `finalize`: refused while an entry is open. The stream gets its end mark,
     * the footer sorted by name, and tail options.
     */
    method Finalize() returns (r: Result<(), Error>, ghost footer: seq<(Name, EntryInfo)>)
      requires Valid()
      modifies this
      ensures r.Ok? <==> AllClosed(Run(old(blocks)))
      ensures r.Err? ==> r.error == WrongWriterState && unchanged(this)
      ensures r.Ok? ==> Archived(sha, blocks, footer, dest) && blocks == old(blocks) && state == Finalized
      ensures forall i, j :: 0 <= i < j < |footer| ==> ComesBefore(footer[i].0, footer[j].0)
    {
      hide Flat, Legal, Run, Index, Offset, StateMatches, NamesMatch, IndexMatches, IdsFresh, SerializeFooter, Encode,
        FooterFor, AllClosed, ComesBefore;
      footer := [];
      NothingOpen(state, Run(blocks));
      if state.ids != [] || state.hashes != map[] {
        return Err(WrongWriterState), footer;
      }
      state := Finalized;
      ghost var before := dest;
      dest := Dump(EndOfArchiveData, dest);
      var names := SortNames(entriesInfo);
      CollectIsFooter(names, entriesInfo, idsInfo, blocks);
      var entries := Collect(names, entriesInfo, idsInfo);
      footer := entries.value;
      dest := dest + SerializeFooter(entries.value);
      dest := dest + EMPTY_TAIL_OPTS;
      Concat3(before, Encode(EndOfArchiveData), SerializeFooter(footer), EMPTY_TAIL_OPTS);
      r := Ok(());
    }
  }
}
