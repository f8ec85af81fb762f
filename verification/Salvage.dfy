/** Converting what is left of a truncated archive into a complete one. */
module Salvage {
  import opened Io
  import opened BlockFormat
  import opened Entries
  import opened Footer
  import opened ArchiveWriting

  const CACHE_SIZE := 8388608

  datatype TruncatedReadError =
    | NoError
    | UnexpectedEOFOnNextBlock
    | IOErrorOnNextBlock(error: Error)
    | ErrorOnNextBlock(error: Error)
    | ErrorInFile(error: Error, name: Name)
    | ArchiveEntryIDReuse(id: nat)
    | EntryNameReuse(name: Name)
    | ArchiveEntryIDAlreadyClosed(id: nat)
    | ContentForUnknownFile(id: nat)
    | EOFForUnknownFile(id: nat)
    | UnfinishedEntries(names: seq<Name>, stoppingError: TruncatedReadError)
    | EndOfOriginalArchiveData
    | TruncatedReadInternalError
    | HashDiffers(expected: Hash, obtained: Hash)

  /** The maps of the conversion, all from ids of the archive read. */
  datatype Progress = Progress(idOutput: map<nat, nat>, entryName: map<nat, Name>, done: seq<nat>,
    hash: map<nat, Bytes>)

  datatype Outcome = Continue | Stop(status: TruncatedReadError)

  // ---------- What the maps and the output stand for ----------

  /** Output id `o` was given to an entry seen. */
  ghost predicate Given(idOutput: map<nat, nat>, o: nat) {
    exists id :: id in idOutput && idOutput[id] == o
  }

  ghost predicate Copies(idOutput: map<nat, nat>, seen: EntryMap, out: EntryMap) {
    idOutput.Keys == seen.Keys && forall id :: id in seen ==> idOutput[id] in out && out[idOutput[id]] == seen[id]
  }

  ghost predicate Injective(idOutput: map<nat, nat>) {
    forall i, j :: i in idOutput && j in idOutput && idOutput[i] == idOutput[j] ==> i == j
  }

  /** The output holds the entries seen, each under its own id, and no others. */
  ghost predicate Mirrors(idOutput: map<nat, nat>, seen: EntryMap, out: EntryMap) {
    Copies(idOutput, seen, out) && Injective(idOutput) && forall o :: o in out ==> Given(idOutput, o)
  }

  ghost predicate NamesKept(entryName: map<nat, Name>, seen: EntryMap) {
    forall id :: id in seen ==> id in entryName && entryName[id] == seen[id].name
  }

  ghost predicate DoneKept(done: seq<nat>, seen: EntryMap) {
    forall id :: id in done <==> id in seen && seen[id].closed
  }

  ghost predicate Kept(p: Progress, seen: EntryMap, out: EntryMap) {
    Mirrors(p.idOutput, seen, out) && NamesKept(p.entryName, seen) && DoneKept(p.done, seen)
  }

  ghost predicate Hashing(hash: map<nat, Bytes>, seen: EntryMap) {
    forall id :: (id in hash <==> id in seen && !seen[id].closed) && (id in hash ==> hash[id] == seen[id].content)
  }

  ghost predicate Tracks(p: Progress, seen: EntryMap, out: EntryMap) {
    Kept(p, seen, out) && Hashing(p.hash, seen)
  }

  lemma CopiesStart(idOutput: map<nat, nat>, seen: EntryMap, out: EntryMap, id: nat, o: nat, e: Entry)
    requires Copies(idOutput, seen, out) && id !in seen && o !in out
    ensures Copies(idOutput[id := o], seen[id := e], out[o := e])
    ensures Injective(idOutput) ==> Injective(idOutput[id := o])
  {}

  lemma GivenStart(idOutput: map<nat, nat>, id: nat, o: nat, x: nat)
    requires id !in idOutput && (x == o || Given(idOutput, x))
    ensures Given(idOutput[id := o], x)
  {
    if x == o {
      assert idOutput[id := o][id] == x;
    } else {
      var i :| i in idOutput && idOutput[i] == x;
      assert idOutput[id := o][i] == x;
    }
  }

  lemma MirrorsStart(idOutput: map<nat, nat>, seen: EntryMap, out: EntryMap, id: nat, o: nat, e: Entry)
    requires Mirrors(idOutput, seen, out) && id !in seen && o !in out
    ensures Mirrors(idOutput[id := o], seen[id := e], out[o := e])
  {
    CopiesStart(idOutput, seen, out, id, o, e);
    assert id !in idOutput.Keys;
    hide Given, Injective;
    var out' := out[o := e];
    forall x | x in out'
      ensures Given(idOutput[id := o], x)
    {
      GivenStart(idOutput, id, o, x);
    }
  }

  lemma CopiesUpdate(idOutput: map<nat, nat>, seen: EntryMap, out: EntryMap, id: nat, e: Entry)
    requires Copies(idOutput, seen, out) && Injective(idOutput) && id in seen
    ensures Copies(idOutput, seen[id := e], out[idOutput[id] := e])
  {
    assert seen[id := e].Keys == seen.Keys;
  }

  lemma MirrorsUpdate(idOutput: map<nat, nat>, seen: EntryMap, out: EntryMap, id: nat, e: Entry)
    requires Mirrors(idOutput, seen, out) && id in seen
    ensures id in idOutput && idOutput[id] in out && out[idOutput[id]] == seen[id]
    ensures Mirrors(idOutput, seen[id := e], out[idOutput[id] := e])
  {
    CopiesUpdate(idOutput, seen, out, id, e);
    assert id in idOutput.Keys;
  }

  lemma Known(p: Progress, seen: EntryMap, out: EntryMap, id: nat)
    requires Kept(p, seen, out)
    ensures id in p.idOutput <==> id in seen
    ensures id in p.done <==> id in seen && seen[id].closed
    ensures id in seen ==> id in p.entryName && p.entryName[id] == seen[id].name
    ensures id in seen ==> p.idOutput[id] in out && out[p.idOutput[id]] == seen[id]
    ensures id in seen && Hashing(p.hash, seen) ==>
      (id in p.hash <==> !seen[id].closed) && (id in p.hash ==> p.hash[id] == seen[id].content)
  {}

  /** Names are taken in the output exactly when they were seen. */
  lemma SameNames(p: Progress, seen: EntryMap, out: EntryMap, name: Name)
    requires Kept(p, seen, out)
    ensures HasName(out, name) <==> HasName(seen, name)
  {
    if HasName(out, name) {
      var o :| o in out && out[o].name == name;
      var id :| id in seen && p.idOutput[id] == o;
      assert seen[id].name == name;
    }
    if HasName(seen, name) {
      var id :| id in seen && seen[id].name == name;
      assert out[p.idOutput[id]].name == name;
    }
  }

  lemma NamesUpdate(entryName: map<nat, Name>, seen: EntryMap, id: nat, e: Entry)
    requires NamesKept(entryName, seen)
    ensures NamesKept(entryName[id := e.name], seen[id := e])
    ensures id in seen && e.name == seen[id].name ==> NamesKept(entryName, seen[id := e])
  {}

  lemma DoneUpdate(done: seq<nat>, seen: EntryMap, id: nat, e: Entry)
    requires DoneKept(done, seen)
    ensures !e.closed && (id in seen ==> !seen[id].closed) ==> DoneKept(done, seen[id := e])
    ensures e.closed && id in seen ==> DoneKept(done + [id], seen[id := e])
  {
    assert forall x :: x in done + [id] <==> x in done || x == id;
  }

  lemma HashUpdate(hash: map<nat, Bytes>, seen: EntryMap, id: nat, e: Entry)
    requires Hashing(hash, seen)
    ensures !e.closed ==> Hashing(hash[id := e.content], seen[id := e])
    ensures e.closed ==> Hashing(hash - {id}, seen[id := e])
  {}

  lemma TracksStart(p: Progress, seen: EntryMap, out: EntryMap, id: nat, o: nat, name: Name)
    requires Tracks(p, seen, out) && id !in seen && o !in out
    ensures var e := Entry(name, [], false);
            Tracks(Progress(p.idOutput[id := o], p.entryName[id := name], p.done, p.hash[id := []]), seen[id := e],
              out[o := e])
  {
    hide Mirrors, NamesKept, DoneKept, Hashing;
    var e := Entry(name, [], false);
    MirrorsStart(p.idOutput, seen, out, id, o, e);
    NamesUpdate(p.entryName, seen, id, e);
    DoneUpdate(p.done, seen, id, e);
    HashUpdate(p.hash, seen, id, e);
  }

  lemma TracksContent(p: Progress, seen: EntryMap, out: EntryMap, id: nat, more: Bytes)
    requires Kept(p, seen, out) && id in seen && !seen[id].closed
    ensures id in p.idOutput && p.idOutput[id] in out && out[p.idOutput[id]] == seen[id]
    ensures var e := seen[id].(content := seen[id].content + more);
            && Kept(p, seen[id := e], out[p.idOutput[id] := e])
            && (id in p.hash && Hashing(p.hash, seen) ==>
                  Tracks(p.(hash := p.hash[id := p.hash[id] + more]), seen[id := e], out[p.idOutput[id] := e]))
  {
    hide Mirrors, NamesKept, DoneKept;
    var e := seen[id].(content := seen[id].content + more);
    MirrorsUpdate(p.idOutput, seen, out, id, e);
    NamesUpdate(p.entryName, seen, id, e);
    DoneUpdate(p.done, seen, id, e);
    if id in p.hash && Hashing(p.hash, seen) {
      assert p.hash[id] == seen[id].content;
      HashUpdate(p.hash, seen, id, e);
    }
  }

  lemma TracksEnd(p: Progress, seen: EntryMap, out: EntryMap, id: nat)
    requires Tracks(p, seen, out) && id in seen && !seen[id].closed
    ensures id in p.idOutput && p.idOutput[id] in out && out[p.idOutput[id]] == seen[id]
    ensures var e := seen[id].(closed := true);
            Tracks(p.(done := p.done + [id], hash := p.hash - {id}), seen[id := e], out[p.idOutput[id] := e])
  {
    hide Mirrors, NamesKept, DoneKept, Hashing;
    var e := seen[id].(closed := true);
    MirrorsUpdate(p.idOutput, seen, out, id, e);
    NamesUpdate(p.entryName, seen, id, e);
    DoneUpdate(p.done, seen, id, e);
    HashUpdate(p.hash, seen, id, e);
  }

  // ---------- One block ----------

  /** An `EntryStart` block. */
  method OnStart(output: ArchiveWriter, p: Progress, id: nat, name: Name, ghost seen: EntryMap)
    returns (r: Result<Outcome, Error>, p': Progress)
    requires output.Valid() && Tracks(p, seen, Run(output.blocks))
    modifies output
    ensures output.Valid() && output.nextId <= old(output.nextId) + 1
    ensures match r
            case Err(_) => old(output.nextId) + 1 >= U64_LIMIT
            case Ok(Continue) =>
              && id !in seen && !HasName(seen, name)
              && Tracks(p', seen[id := Entry(name, [], false)], Run(output.blocks))
            case Ok(Stop(status)) =>
              && Kept(p', seen, Run(output.blocks))
              && status == if id in seen then ArchiveEntryIDReuse(id) else EntryNameReuse(name)
    ensures id !in seen && !HasName(seen, name) && old(output.nextId) + 1 < U64_LIMIT ==> r == Ok(Continue)
  {
    hide Run, Kept, Hashing;
    p' := p;
    Known(p, seen, Run(output.blocks), id);
    SameNames(p, seen, Run(output.blocks), name);
    if id in p.idOutput {
      return Ok(Stop(ArchiveEntryIDReuse(id))), p;
    }
    if id in p.done {
      return Ok(Stop(ArchiveEntryIDAlreadyClosed(id))), p;
    }
    var idOutput := output.StartEntry(name);
    match idOutput {
      case Err(e) =>
        if e == DuplicateEntryName {
          KeptName(p, seen, Run(output.blocks), id, name);
          p' := p.(entryName := p.entryName[id := name]);
          r := Ok(Stop(EntryNameReuse(name)));
        } else {
          r := Err(e);
        }
      case Ok(o) =>
        TracksStart(p, seen, old(Run(output.blocks)), id, o, name);
        p' := Progress(p.idOutput[id := o], p.entryName[id := name], p.done, p.hash[id := []]);
        r := Ok(Continue);
    }
  }

  lemma KeptName(p: Progress, seen: EntryMap, out: EntryMap, id: nat, name: Name)
    requires Kept(p, seen, out) && id !in seen
    ensures Kept(p.(entryName := p.entryName[id := name]), seen, out)
  {}

  /**
   * Fills the buffer from the source, as far as it or the block goes. A failure
   * of the source leaves what was read before it.
   */
  method Fill(src: ByteSource, buf: array<byte>, left: nat) returns (n: nat, failure: Option<Error>)
    requires src.Readable() && buf.Length == CACHE_SIZE
    modifies src, buf
    ensures src.Readable() && n <= CACHE_SIZE && n <= left
    ensures src.pos == old(src.pos) + n && buf[..n] == src.data[old(src.pos)..src.pos]
    ensures failure.Some? ==> failure == src.failure && src.pos == |src.data| && n < left
    ensures failure.None? ==> n == Min(Min(CACHE_SIZE, left), |src.data| - old(src.pos))
    ensures failure.None? && n < CACHE_SIZE && n < left ==> src.failure.None?
  {
    n, failure := 0, None;
    while n < CACHE_SIZE
      invariant src.Readable() && n <= CACHE_SIZE && n <= left
      invariant src.pos == old(src.pos) + n && buf[..n] == src.data[old(src.pos)..src.pos]
    {
      ghost var at := src.pos;
      var read := src.ReadInto(buf, n, Min(CACHE_SIZE - n, left - n));
      match read {
        case Err(e) =>
          failure := Some(e);
          return;
        case Ok(count) =>
          if count == 0 {
            return;
          }
          assert src.data[old(src.pos)..at] + src.data[at..src.pos] == src.data[old(src.pos)..src.pos];
          n := n + count;
      }
    }
  }

  /** What the source still has of a block's content. */
  ghost function Rest(data: Bytes, from: nat, length: nat): (b: Bytes)
    requires from <= |data|
  {
    data[from..Min(from + length, |data|)]
  }

  function Grown(seen: EntryMap, id: nat, more: Bytes): EntryMap {
    if id in seen then seen[id := seen[id].(content := seen[id].content + more)] else seen
  }

  lemma GrownTwice(seen: EntryMap, id: nat, a: Bytes, b: Bytes)
    ensures Grown(Grown(seen, id, a), id, b) == Grown(seen, id, a + b)
    ensures Grown(seen, id, []) == seen
  {
    if id in seen {
      assert seen[id].content + a + b == seen[id].content + (a + b);
      assert seen[id].content + [] == seen[id].content;
    }
  }

  lemma GrownKeeps(seen: EntryMap, id: nat, more: Bytes)
    ensures id in Grown(seen, id, more) <==> id in seen
    ensures id in seen ==> Grown(seen, id, more)[id] == seen[id].(content := seen[id].content + more)
  {}

  /** Appends a piece of content to the output entry. */
  method AppendPiece(output: ArchiveWriter, p: Progress, id: nat, piece: Bytes, ghost seen: EntryMap)
    returns (r: Result<(), Error>)
    requires output.Valid() && Tracks(p, seen, Run(output.blocks)) && id in seen && !seen[id].closed
    requires id in p.idOutput && |piece| < U64_LIMIT
    modifies output
    ensures output.Valid() && output.nextId == old(output.nextId) && r.Ok?
    ensures Kept(p, Grown(seen, id, piece), Run(output.blocks))
    ensures id in p.hash
      && Tracks(p.(hash := p.hash[id := p.hash[id] + piece]), Grown(seen, id, piece), Run(output.blocks))
  {
    hide Run, Kept, Hashing, Flat, Legal, StateMatches, NamesMatch, IndexMatches, IdsFresh;
    Known(p, seen, Run(output.blocks), id);
    TracksContent(p, seen, Run(output.blocks), id, piece);
    r := output.AppendEntryContent(p.idOutput[id], |piece|, piece);
    assert piece[..|piece|] == piece;
  }

  /**
   * An `EntryContent` block: what the source has of it goes into the output, in
   * pieces of at most `CACHE_SIZE` bytes.
   */
  method OnContent(src: ByteSource, output: ArchiveWriter, p: Progress, id: nat, length: nat, ghost seen: EntryMap)
    returns (r: Result<Outcome, Error>, p': Progress)
    requires src.Readable() && output.Valid() && Tracks(p, seen, Run(output.blocks))
    modifies src, output
    ensures src.Readable() && output.Valid() && output.nextId == old(output.nextId) && r.Ok?
    ensures id in seen && !seen[id].closed ==>
      && src.pos == Min(old(src.pos) + length, |src.data|)
      && Kept(p', Grown(seen, id, Rest(src.data, old(src.pos), length)), Run(output.blocks))
      && if src.failure.Some? && old(src.pos) + length > |src.data|
         then r.value == Stop(ErrorInFile(src.failure.value, seen[id].name))
         else
           && r.value == Continue
           && Tracks(p', Grown(seen, id, Rest(src.data, old(src.pos), length)), Run(output.blocks))
    ensures !(id in seen && !seen[id].closed) ==>
      && Kept(p', seen, Run(output.blocks))
      && r.value == Stop(if id in seen then ArchiveEntryIDAlreadyClosed(id) else ContentForUnknownFile(id))
  {
    hide Run, Kept, Hashing, Tracks, Rest, Grown, Flat, Legal, StateMatches, NamesMatch, IndexMatches, IdsFresh;
    p' := p;
    TracksKnown(p, seen, Run(output.blocks), id);
    if id !in p.idOutput {
      return Ok(Stop(ContentForUnknownFile(id))), p;
    }
    if id in p.done {
      return Ok(Stop(ArchiveEntryIDAlreadyClosed(id))), p;
    }
    var buf := new byte[CACHE_SIZE];
    var left: nat := length;
    ghost var start := src.pos;
    GrownTwice(seen, id, [], []);
    GrownKeeps(seen, id, []);
    assert src.data[start..src.pos] == [];
    while true
      invariant src.Readable() && output.Valid() && output.nextId == old(output.nextId)
      invariant start <= src.pos && src.pos - start + left == length
      invariant p'.idOutput == p.idOutput && p'.entryName == p.entryName
      invariant Tracks(p', Grown(seen, id, src.data[start..src.pos]), Run(output.blocks))
      decreases left
    {
      ghost var at := src.pos;
      var n, failure := Fill(src, buf, left);
      left := left - n;
      PieceRead(src.data, start, at, src.pos, length);
      GrownTwice(seen, id, src.data[start..at], src.data[at..src.pos]);
      GrownKeeps(seen, id, src.data[start..at]);
      var appended := AppendPiece(output, p', id, buf[..n], Grown(seen, id, src.data[start..at]));
      if failure.Some? {
        return Ok(Stop(ErrorInFile(failure.value, p.entryName[id]))), p';
      }
      p' := p'.(hash := p'.hash[id := p'.hash[id] + buf[..n]]);
      if n < CACHE_SIZE {
        TracksKnown(p', Grown(seen, id, src.data[start..src.pos]), Run(output.blocks), id);
        return Ok(Continue), p';
      }
    }
  }

  lemma TracksKnown(p: Progress, seen: EntryMap, out: EntryMap, id: nat)
    requires Tracks(p, seen, out)
    ensures Kept(p, seen, out)
    ensures id in p.idOutput <==> id in seen
    ensures id in p.done <==> id in seen && seen[id].closed
    ensures id in seen ==> id in p.entryName && p.entryName[id] == seen[id].name
    ensures id in p.hash <==> id in seen && !seen[id].closed
    ensures id in p.hash ==> p.hash[id] == seen[id].content
  {}

  lemma PieceRead(data: Bytes, start: nat, at: nat, now: nat, length: nat)
    requires start <= at <= now <= |data| && now - start <= length
    ensures data[start..at] + data[at..now] == data[start..now]
    ensures now - start == length || now == |data| ==> data[start..now] == Rest(data, start, length)
  {}

  /** An `EndOfEntry` block: closes the output entry when the hash is that of the content seen. */
  method OnEnd(output: ArchiveWriter, p: Progress, id: nat, hash: Hash, ghost seen: EntryMap)
    returns (r: Result<Outcome, Error>, p': Progress)
    requires output.Valid() && Tracks(p, seen, Run(output.blocks))
    modifies output
    ensures output.Valid() && output.nextId == old(output.nextId) && r.Ok?
    ensures r == Ok(Continue) ==>
      id in seen && !seen[id].closed && Tracks(p', seen[id := seen[id].(closed := true)], Run(output.blocks))
    ensures r.value.Stop? ==> Kept(p', seen, Run(output.blocks))
    ensures id in seen && !seen[id].closed ==>
      r.value == if output.sha(seen[id].content) == hash then Continue
        else Stop(HashDiffers(output.sha(seen[id].content), hash))
    ensures !(id in seen && !seen[id].closed) ==>
      r.value == Stop(if id in seen then ArchiveEntryIDAlreadyClosed(id) else EOFForUnknownFile(id))
  {
    hide Run, Kept, Hashing, Tracks, Flat, Legal, StateMatches, NamesMatch, IndexMatches, IdsFresh;
    p' := p;
    TracksKnown(p, seen, Run(output.blocks), id);
    if id !in p.idOutput {
      return Ok(Stop(EOFForUnknownFile(id))), p;
    }
    if id in p.done {
      return Ok(Stop(ArchiveEntryIDAlreadyClosed(id))), p;
    }
    if id !in p.hash {
      return Ok(Stop(TruncatedReadInternalError)), p;
    }
    var computed := output.sha(p.hash[id]);
    TracksEnd(p, seen, Run(output.blocks), id);
    p' := p.(hash := p.hash - {id});
    if computed != hash {
      KeptHash(p, seen, Run(output.blocks), p'.hash);
      return Ok(Stop(HashDiffers(computed, hash))), p';
    }
    var ended := output.EndEntry(p.idOutput[id]);
    p' := p'.(done := p'.done + [id]);
    r := Ok(Continue);
  }

  lemma KeptHash(p: Progress, seen: EntryMap, out: EntryMap, hash: map<nat, Bytes>)
    requires Kept(p, seen, out)
    ensures Kept(p.(hash := hash), seen, out)
  {}

  // ---------- Closing what is still open ----------

  /** The entries seen, all closed but those in `rest`. */
  function ClosedBut(seen: EntryMap, rest: set<nat>): EntryMap {
    map id | id in seen :: if id in rest then seen[id] else seen[id].(closed := true)
  }

  /** Some entry outside `rest` is open under that name. */
  ghost predicate OpenNamed(seen: EntryMap, rest: set<nat>, name: Name) {
    exists id :: id in seen && id !in rest && !seen[id].closed && seen[id].name == name
  }

  /** Exactly the names of the open entries, each once. */
  ghost predicate Unfinished(names: seq<Name>, seen: EntryMap, rest: set<nat>) {
    && (forall n :: n in names <==> OpenNamed(seen, rest, n))
    && (forall i, j :: 0 <= i < j < |names| ==> names[i] != names[j])
  }

  lemma UnfinishedStep(names: seq<Name>, seen: EntryMap, rest: set<nat>, id: nat)
    requires Unfinished(names, seen, rest) && NamesDistinct(seen) && id in seen && id in rest
    ensures seen[id].closed ==> Unfinished(names, seen, rest - {id})
    ensures !seen[id].closed ==> Unfinished(names + [seen[id].name], seen, rest - {id})
  {
    forall n: Name
      ensures OpenNamed(seen, rest - {id}, n) <==> OpenNamed(seen, rest, n) || (!seen[id].closed && n == seen[id].name)
    {
      if i :| i in seen && i !in rest && !seen[i].closed && seen[i].name == n {
        assert i !in rest - {id};
      }
    }
    assert !OpenNamed(seen, rest, seen[id].name);
  }

  lemma CloseStep(idOutput: map<nat, nat>, seen: EntryMap, rest: set<nat>, out: EntryMap, id: nat)
    requires id in seen && id in rest && Mirrors(idOutput, ClosedBut(seen, rest), out)
    ensures idOutput.Keys == seen.Keys && idOutput[id] in out && out[idOutput[id]] == seen[id]
    ensures seen[id].closed ==> Mirrors(idOutput, ClosedBut(seen, rest - {id}), out)
    ensures Mirrors(idOutput, ClosedBut(seen, rest - {id}), out[idOutput[id] := seen[id].(closed := true)])
  {
    var e := seen[id].(closed := true);
    assert idOutput.Keys == ClosedBut(seen, rest).Keys && ClosedBut(seen, rest)[id] == seen[id];
    MirrorsUpdate(idOutput, ClosedBut(seen, rest), out, id, e);
    assert ClosedBut(seen, rest)[id := e] == ClosedBut(seen, rest - {id});
    if seen[id].closed {
      assert out[idOutput[id] := e] == out;
    }
  }

  /** Ends the entries that are still open and lists their names. */
  method EndOpenEntries(output: ArchiveWriter, p: Progress, ghost seen: EntryMap) returns (r: Result<seq<Name>, Error>)
    requires output.Valid() && Kept(p, seen, Run(output.blocks)) && NamesDistinct(seen)
    modifies output
    ensures output.Valid() && r.Ok? && Unfinished(r.value, seen, {})
    ensures Mirrors(p.idOutput, ClosedBut(seen, {}), Run(output.blocks))
  {
    hide Run, Mirrors, Unfinished, Kept, ClosedBut, NamesDistinct, Flat, Legal, StateMatches, NamesMatch,
      IndexMatches, IdsFresh;
    var unfinished := [];
    var rest := p.idOutput.Keys;
    NothingClosed(p, seen, Run(output.blocks));
    while rest != {}
      invariant output.Valid() && rest <= p.idOutput.Keys == seen.Keys
      invariant Mirrors(p.idOutput, ClosedBut(seen, rest), Run(output.blocks)) && Unfinished(unfinished, seen, rest)
      decreases rest
    {
      var id :| id in rest;
      CloseStep(p.idOutput, seen, rest, Run(output.blocks), id);
      UnfinishedStep(unfinished, seen, rest, id);
      KnownClosed(p, seen, old(Run(output.blocks)), id);
      if id !in p.done {
        var ended := output.EndEntry(p.idOutput[id]);
        unfinished := unfinished + [p.entryName[id]];
      }
      rest := rest - {id};
    }
    r := Ok(unfinished);
  }

  lemma KnownClosed(p: Progress, seen: EntryMap, out: EntryMap, id: nat)
    requires Kept(p, seen, out) && id in seen
    ensures id in p.entryName && p.entryName[id] == seen[id].name && (id in p.done <==> seen[id].closed)
  {}

  lemma NothingClosed(p: Progress, seen: EntryMap, out: EntryMap)
    requires Kept(p, seen, out)
    ensures p.idOutput.Keys == seen.Keys
    ensures Mirrors(p.idOutput, ClosedBut(seen, p.idOutput.Keys), out) && Unfinished([], seen, p.idOutput.Keys)
  {
    assert ClosedBut(seen, p.idOutput.Keys) == seen;
  }

  // ---------- A cut stream ----------

  /** An entry grows along a legal run, and not after its end. */
  ghost predicate Earlier(before: EntryMap, after: EntryMap) {
    forall id :: id in before ==>
      && id in after && after[id].name == before[id].name && before[id].content <= after[id].content
      && (before[id].closed ==> after[id] == before[id])
  }

  lemma {:induction false} RunGrows(sha: Sha, bs: seq<Block>, j: nat)
    requires Legal(sha, bs) && j <= |bs|
    ensures Earlier(Run(bs[..j]), Run(bs))
  {
    if j == |bs| {
      assert bs[..j] == bs;
    } else {
      var front := bs[..|bs| - 1];
      RunGrows(sha, front, j);
      assert front[..j] == bs[..j];
      StepGrows(sha, Run(front), bs[|bs| - 1]);
    }
  }

  lemma StepGrows(sha: Sha, m: EntryMap, b: Block)
    requires Accepts(sha, m, b)
    ensures Earlier(m, Step(m, b))
  {}

  /** Block `j` is the one the first `cut` bytes of the stream end in, or it is the end of the blocks. */
  ghost predicate CutIn(bs: seq<Block>, cut: nat, j: nat) {
    j <= |bs| && Offset(bs, j) <= cut && (j < |bs| ==> cut < Offset(bs, j + 1))
  }

  /** The entries those bytes hold: the whole blocks, and of the block cut the content bytes there are. */
  ghost function Received(bs: seq<Block>, cut: nat, j: nat): EntryMap {
    if j < |bs| && bs[j].EntryContent? && DataStart(bs, j) <= cut
    then Grown(Run(bs[..j]), bs[j].id, bs[j].data[..Min(cut - DataStart(bs, j), |bs[j].data|)])
    else if j <= |bs| then Run(bs[..j]) else map[]
  }

  lemma EarlierTransitive(a: EntryMap, b: EntryMap, c: EntryMap)
    requires Earlier(a, b) && Earlier(b, c)
    ensures Earlier(a, c)
  {}

  lemma GrownEarlier(m: EntryMap, id: nat, part: Bytes, data: Bytes)
    requires part <= data && (id in m ==> !m[id].closed)
    ensures Earlier(m, Grown(m, id, part)) && Earlier(Grown(m, id, part), Grown(m, id, data))
  {
    if id in m {
      assert m[id].content + part <= m[id].content + data;
    }
  }

  /** What is received lies between the runs before and behind the block cut. */
  lemma ReceivedBetween(sha: Sha, bs: seq<Block>, cut: nat, j: nat)
    requires Legal(sha, bs) && j < |bs|
    ensures Earlier(Run(bs[..j]), Received(bs, cut, j)) && Earlier(Received(bs, cut, j), Run(bs[..j + 1]))
  {
    hide Run, Legal, Offset, HeadBytes, Earlier, Grown;
    LegalPrefix(sha, bs, j);
    var m, b := Run(bs[..j]), bs[j];
    if b.EntryContent? {
      GrownEarlier(m, b.id,
        b.data[..Min(if DataStart(bs, j) <= cut then cut - DataStart(bs, j) else 0, |b.data|)], b.data);
      GrownEarlier(m, b.id, [], b.data);
      GrownTwice(m, b.id, [], []);
      StepIsGrown(m, b);
    } else {
      StepGrows(sha, m, b);
      EarlierItself(m);
    }
  }

  lemma EarlierItself(m: EntryMap)
    ensures Earlier(m, m)
  {}

  lemma StepIsGrown(m: EntryMap, b: Block)
    requires b.EntryContent?
    ensures Step(m, b) == Grown(m, b.id, b.data)
  {}

  /** What a cut stream holds of an entry is a beginning of it. */
  lemma ReceivedPrefix(sha: Sha, bs: seq<Block>, cut: nat, j: nat)
    requires Legal(sha, bs) && j <= |bs|
    ensures Earlier(Received(bs, cut, j), Run(bs))
    ensures j == |bs| ==> Received(bs, cut, j) == Run(bs)
  {
    hide Run, Legal, Earlier;
    if j == |bs| {
      assert bs[..j] == bs;
      EarlierItself(Run(bs));
    } else {
      ReceivedBetween(sha, bs, cut, j);
      RunGrows(sha, bs, j + 1);
      EarlierTransitive(Received(bs, cut, j), Run(bs[..j + 1]), Run(bs));
    }
  }

  lemma EarlierRuns(sha: Sha, bs: seq<Block>, i: nat, j: nat)
    requires Legal(sha, bs) && i <= j <= |bs|
    ensures Earlier(Run(bs[..i]), Run(bs[..j]))
  {
    hide Run, Earlier, Legal;
    LegalPrefix(sha, bs, j);
    RunGrows(sha, bs[..j], i);
    assert bs[..j][..i] == bs[..i];
  }

  /** An entry whose end block lies in the first `cut` bytes is received whole. */
  lemma ReceivedWhole(sha: Sha, bs: seq<Block>, cut: nat, j: nat, k: nat)
    requires Legal(sha, bs) && CutIn(bs, cut, j) && k < |bs| && bs[k].EndOfEntry? && Offset(bs, k + 1) <= cut
    ensures var id := bs[k].id; id in Received(bs, cut, j) && id in Run(bs) && Received(bs, cut, j)[id] == Run(bs)[id]
  {
    hide Run, Legal, Offset;
    if j <= k {
      if j < k {
        OffsetsIncrease(bs, j + 1, k + 1);
      }
    } else {
      LegalPrefix(sha, bs, k);
      EarlierRuns(sha, bs, k + 1, j);
      if j < |bs| {
        ReceivedBetween(sha, bs, cut, j);
      }
      hide Received;
      RunGrows(sha, bs, k + 1);
    }
  }

  /** A block cut anywhere: its header is there or parsing fails, and what is there of its content begins it. */
  lemma CutBlock(b: Block, more: Bytes, cut: nat, failure: Option<Error>)
    requires b.Fits() && cut <= |Encode(b) + more|
    ensures var s, head := (Encode(b) + more)[..cut], |HeadBytes(b)|;
            && (cut < head ==> ParseHeader(s, failure) == Err(CutError(b, cut, failure)))
            && (head <= cut ==>
                  && ParseHeader(s, failure) == Ok((HeaderOf(b), s[head..]))
                  && Rest(s, head, |b.Content()|) == b.Content()[..Min(cut - head, |b.Content()|)])
  {
    hide ParseHeader, HeadBytes, HeaderOf;
    var head := HeadBytes(b);
    var s := (Encode(b) + more)[..cut];
    if cut < |head| {
      assert s == head[..cut];
      CutHeaderFails(b, cut, failure);
    } else {
      var rest := (b.Content() + more)[..cut - |head|];
      assert s == head + rest;
      ParseEncoded(b, rest, failure);
      SplitFront(head, rest);
      var n := Min(cut - |head|, |b.Content()|);
      SliceOfSuffix(s, |head|, 0, n);
      assert rest[..n] == b.Content()[..n];
    }
  }

  /** The same in the stream: what a reader at block `j`, or at the end mark, finds in its first `cut` bytes. */
  lemma CutStream(sha: Sha, bs: seq<Block>, footer: seq<(Name, EntryInfo)>, data: Bytes, j: nat, failure: Option<Error>)
    requires Legal(sha, bs) && data <= EntriesStream(bs, footer) && j <= |bs| && Offset(bs, j) <= |data|
    ensures var b := if j < |bs| then bs[j] else EndOfArchiveData;
            var at, head := Offset(bs, j), |HeadBytes(b)|;
            && (|data| < at + head ==> ParseHeader(data[at..], failure) == Err(CutError(b, |data| - at, failure)))
            && (at + head <= |data| ==>
                  && ParseHeader(data[at..], failure) == Ok((HeaderOf(b), data[at + head..]))
                  && Rest(data, at + head, |b.Content()|) == b.Content()[..Min(|data| - at - head, |b.Content()|)])
            && (j < |bs| ==> Offset(bs, j + 1) == at + head + |b.Content()|)
  {
    hide Legal, Run, Flat, ParseHeader, HeadBytes, HeaderOf, Encode, CutError;
    var b := if j < |bs| then bs[j] else EndOfArchiveData;
    var at, stream := Offset(bs, j), EntriesStream(bs, footer);
    var more: Bytes;
    if j < |bs| {
      BlockAt(bs, Closing(footer), j);
      LegalPrefix(sha, bs, j);
      more := stream[Offset(bs, j + 1)..];
    } else {
      assert bs[..j] == bs;
      more := SerializeFooter(footer) + EMPTY_TAIL_OPTS;
      SplitFront(ENTRIES_HEADER + Flat(bs), Closing(footer));
    }
    assert stream[at..] == Encode(b) + more;
    CutBlock(b, more, |data| - at, failure);
    var head := |HeadBytes(b)|;
    assert data[at..] == stream[at..][..|data| - at];
    if at + head <= |data| {
      SuffixOfSuffix(data, at, head);
      RestOfSuffix(data, at, head, |b.Content()|);
    }
  }

  lemma RestOfSuffix(data: Bytes, at: nat, head: nat, length: nat)
    requires at + head <= |data|
    ensures Rest(data[at..], head, length) == Rest(data, at + head, length)
  {
    SliceOfSuffix(data, at, head, Min(head + length, |data| - at));
  }

  // ---------- The conversion ----------

  /** Of the errors of block parsing, these two are not I/O errors. */
  predicate IsIoError(e: Error) {
    e != DeserializationError && e != WrongBlockSubFileType
  }

  function NextBlockError(e: Error): TruncatedReadError {
    if e == UnexpectedEof then UnexpectedEOFOnNextBlock
    else if IsIoError(e) then IOErrorOnNextBlock(e)
    else ErrorOnNextBlock(e)
  }

  /** Blocks that continue the conversion. */
  ghost predicate Expected(sha: Sha, seen: EntryMap, h: Header) {
    match h
    case StartHeader(id, name) => id !in seen && !HasName(seen, name)
    case ContentHeader(id, _) => id in seen && !seen[id].closed
    case EndHeader(id, hash) => id in seen && !seen[id].closed && hash == sha(seen[id].content)
    case EndOfDataHeader => false
  }

  /** What they do to the entries seen. */
  function After(seen: EntryMap, h: Header, content: Bytes): EntryMap {
    match h
    case StartHeader(id, name) => seen[id := Entry(name, [], false)]
    case ContentHeader(id, _) => Grown(seen, id, content)
    case EndHeader(id, _) => if id in seen then seen[id := seen[id].(closed := true)] else seen
    case EndOfDataHeader => seen
  }

  /** How many bytes of content a header announces. */
  function Announced(h: Header): nat {
    if h.ContentHeader? then h.length else 0
  }

  /** What any other block is answered with. */
  ghost function Refusal(sha: Sha, seen: EntryMap, h: Header): TruncatedReadError {
    match h
    case StartHeader(id, name) => if id in seen then ArchiveEntryIDReuse(id) else EntryNameReuse(name)
    case ContentHeader(id, _) => if id in seen then ArchiveEntryIDAlreadyClosed(id) else ContentForUnknownFile(id)
    case EndHeader(id, hash) =>
      if id !in seen then EOFForUnknownFile(id)
      else if seen[id].closed then ArchiveEntryIDAlreadyClosed(id)
      else HashDiffers(sha(seen[id].content), hash)
    case EndOfDataHeader => EndOfOriginalArchiveData
  }

  /** What a failure inside content is reported as. */
  ghost function Interruption(seen: EntryMap, h: Header, e: Error): TruncatedReadError {
    if h.ContentHeader? && h.id in seen then ErrorInFile(e, seen[h.id].name) else NoError
  }

  /** The entries a conversion sees in a source, and what stops it. */
  datatype Finding = Finding(seen: EntryMap, stop: TruncatedReadError)

  /** Reading block by block from `pos` on, the entries in `seen` being known. */
  ghost function Find(sha: Sha, data: Bytes, failure: Option<Error>, pos: nat, seen: EntryMap): Finding
    requires pos <= |data|
    decreases |data| - pos
  {
    HeaderConsumes(data[pos..], failure);
    match ParseHeader(data[pos..], failure)
    case Err(e) => Finding(seen, NextBlockError(e))
    case Ok((h, rest)) =>
      if !Expected(sha, seen, h) then Finding(seen, Refusal(sha, seen, h))
      else
        var from, n := |data| - |rest|, Announced(h);
        var seen' := After(seen, h, Rest(data, from, n));
        if from + n > |data| && failure.Some? then Finding(seen', Interruption(seen, h, failure.value))
        else Find(sha, data, failure, Min(from + n, |data|), seen')
  }

  /** How one pass that goes on leaves what is still to be found. */
  lemma FindStep(sha: Sha, data: Bytes, failure: Option<Error>, pos: nat, seen: EntryMap)
    requires pos <= |data|
    ensures var found := Find(sha, data, failure, pos, seen);
            match ParseHeader(data[pos..], failure)
            case Err(e) => found == Finding(seen, NextBlockError(e))
            case Ok((h, rest)) =>
              if Expected(sha, seen, h) then
                var from, n := |data| - |rest|, Announced(h);
                && 0 <= from
                && var seen' := After(seen, h, Rest(data, from, n));
                   if from + n > |data| && failure.Some?
                     then found == Finding(seen', Interruption(seen, h, failure.value))
                   else found == Find(sha, data, failure, Min(from + n, |data|), seen')
              else found == Finding(seen, Refusal(sha, seen, h))
  {
    hide ParseHeader, After, Rest, Expected, Announced;
    HeaderConsumes(data[pos..], failure);
  }

  /** One pass of the loop: parses a header and acts on it. */
  method OnBlock(src: ByteSource, output: ArchiveWriter, p: Progress, ghost seen: EntryMap)
    returns (r: Result<Outcome, Error>, p': Progress, ghost seen': EntryMap)
    requires src.Readable() && output.Valid() && Tracks(p, seen, Run(output.blocks)) && output.nextId + 1 < U64_LIMIT
    modifies src, output
    ensures src.Readable() && output.Valid() && r.Ok? && output.nextId <= old(output.nextId) + 1
    ensures if r.value == Continue then Tracks(p', seen', Run(output.blocks)) && old(src.pos) + 5 <= src.pos
            else Kept(p', seen', Run(output.blocks)) && !r.value.status.UnfinishedEntries?
    ensures match ParseHeader(src.data[old(src.pos)..], src.failure)
            case Err(e) => r.value == Stop(NextBlockError(e)) && seen' == seen
            case Ok((h, rest)) =>
              if Expected(output.sha, seen, h) then
                var from, n := |src.data| - |rest|, Announced(h);
                && 0 <= from
                && seen' == After(seen, h, Rest(src.data, from, n))
                && src.pos == Min(from + n, |src.data|)
                && r.value == if from + n <= |src.data| || src.failure.None? then Continue
                              else Stop(Interruption(seen, h, src.failure.value))
              else seen' == seen && r.value == Stop(Refusal(output.sha, seen, h))
  {
    hide Run, Kept, Hashing, Tracks, Rest, Grown, ParseHeader, Flat, Legal, StateMatches, NamesMatch,
      IndexMatches, IdsFresh;
    seen', p' := seen, p;
    ghost var out := Run(output.blocks);
    ghost var parsed := ParseHeader(src.data[src.pos..], src.failure);
    var header := ReadHeader(src);
    match header {
      case Err(e) =>
        TracksKnown(p, seen, out, 0);
        r := Ok(Stop(NextBlockError(e)));
      case Ok(StartHeader(id, name)) =>
        r, p' := OnStart(output, p, id, name, seen);
        if r == Ok(Continue) {
          seen' := seen[id := Entry(name, [], false)];
        }
      case Ok(ContentHeader(id, length)) =>
        ghost var from := src.pos;
        r, p' := OnContent(src, output, p, id, length, seen);
        if id in seen && !seen[id].closed {
          seen' := Grown(seen, id, Rest(src.data, from, length));
        }
      case Ok(EndHeader(id, hash)) =>
        r, p' := OnEnd(output, p, id, hash, seen);
        if r == Ok(Continue) {
          seen' := seen[id := seen[id].(closed := true)];
        }
      case Ok(EndOfDataHeader) =>
        TracksKnown(p, seen, out, 0);
        r := Ok(Stop(EndOfOriginalArchiveData));
    }
  }

  // ---------- Along a cut stream ----------

  /** The source stands behind `j` whole blocks, whose entries have been seen. */
  ghost predicate AtBlock(bs: seq<Block>, j: nat, pos: nat, seen: EntryMap) {
    j <= |bs| && pos == Offset(bs, j) && seen == Run(bs[..j])
  }

  /** The source stands at its end, inside block `j`, and all it holds has been seen. */
  ghost predicate AtCut(bs: seq<Block>, cut: nat, j: nat, seen: EntryMap) {
    CutIn(bs, cut, j) && seen == Received(bs, cut, j)
  }

  /** Reading block `j` off a cut stream leads behind it, or to the cut. */
  lemma BlockRead(sha: Sha, bs: seq<Block>, footer: seq<(Name, EntryInfo)>, data: Bytes, j: nat, failure: Option<Error>,
    seen: EntryMap)
    requires Legal(sha, bs) && data <= EntriesStream(bs, footer) && j < |bs| && Offset(bs, j) <= |data|
    requires AtBlock(bs, j, Offset(bs, j), seen)
    ensures var h, from := HeaderOf(bs[j]), DataStart(bs, j);
            var n := Announced(h);
            && from + n == Offset(bs, j + 1)
            && (|data| < from ==>
                  && ParseHeader(data[Offset(bs, j)..], failure)
                    == Err(CutError(bs[j], |data| - Offset(bs, j), failure))
                  && AtCut(bs, |data|, j, seen))
            && (from <= |data| ==>
                  && ParseHeader(data[Offset(bs, j)..], failure) == Ok((h, data[from..]))
                  && Expected(sha, seen, h)
                  && (from + n <= |data| ==> AtBlock(bs, j + 1, from + n, After(seen, h, Rest(data, from, n))))
                  && (|data| < from + n ==> AtCut(bs, |data|, j, After(seen, h, Rest(data, from, n)))))
  {
    hide Legal, Run, Flat, ParseHeader, HeadBytes, Encode, EntriesStream, Grown, Offset, Accepts, Step, Expected, After,
      Rest, HeaderOf, Announced, CutError;
    CutStream(sha, bs, footer, data, j, failure);
    LegalPrefix(sha, bs, j);
    BlockExpected(sha, seen, bs[j]);
    var from, content := DataStart(bs, j), bs[j].Content();
    hide AtBlock, AtCut;
    if |data| < from {
      CutInHeader(bs, |data|, j, seen);
    } else if from + |content| <= |data| {
      assert content[..|content|] == content;
      WholeBlock(bs, j, seen);
    } else {
      ContentCut(seen, bs[j], |data| - from);
      CutInContent(bs, |data|, j, seen);
    }
  }

  lemma CutInHeader(bs: seq<Block>, cut: nat, j: nat, seen: EntryMap)
    requires j < |bs| && AtBlock(bs, j, Offset(bs, j), seen) && Offset(bs, j) <= cut < DataStart(bs, j)
    requires DataStart(bs, j) <= Offset(bs, j + 1)
    ensures AtCut(bs, cut, j, seen)
  {
    hide Run, Offset, HeadBytes;
  }

  lemma WholeBlock(bs: seq<Block>, j: nat, seen: EntryMap)
    requires j < |bs| && AtBlock(bs, j, Offset(bs, j), seen) && Run(bs[..j + 1]) == Step(Run(bs[..j]), bs[j])
    ensures AtBlock(bs, j + 1, Offset(bs, j + 1), Step(seen, bs[j]))
  {
    hide Run, Offset, Step;
  }

  lemma CutInContent(bs: seq<Block>, cut: nat, j: nat, seen: EntryMap)
    requires j < |bs| && AtBlock(bs, j, Offset(bs, j), seen) && bs[j].EntryContent?
    requires DataStart(bs, j) <= cut < Offset(bs, j + 1) == DataStart(bs, j) + |bs[j].data|
    ensures AtCut(bs, cut, j, Grown(seen, bs[j].id, bs[j].data[..cut - DataStart(bs, j)]))
  {
    hide Run, Offset, HeadBytes, Grown;
  }

  lemma BlockExpected(sha: Sha, m: EntryMap, b: Block)
    requires Accepts(sha, m, b)
    ensures Expected(sha, m, HeaderOf(b)) && Announced(HeaderOf(b)) == |b.Content()|
    ensures After(m, HeaderOf(b), b.Content()) == Step(m, b)
  {}

  lemma ContentCut(m: EntryMap, b: Block, n: nat)
    requires n < |b.Content()|
    ensures b.EntryContent? && After(m, HeaderOf(b), b.data[..n]) == Grown(m, b.id, b.data[..n])
  {}

  /** Behind the last block there is the end mark, or less. */
  lemma EndRead(sha: Sha, bs: seq<Block>, footer: seq<(Name, EntryInfo)>, data: Bytes, failure: Option<Error>,
    seen: EntryMap)
    requires Legal(sha, bs) && data <= EntriesStream(bs, footer) && Offset(bs, |bs|) <= |data|
    requires AtBlock(bs, |bs|, Offset(bs, |bs|), seen)
    ensures AtCut(bs, |data|, |bs|, seen)
    ensures |data| < Offset(bs, |bs|) + 5 ==>
      ParseHeader(data[Offset(bs, |bs|)..], failure) == Err(DeserializationError)
    ensures Offset(bs, |bs|) + 5 <= |data| ==>
      ParseHeader(data[Offset(bs, |bs|)..], failure) == Ok((EndOfDataHeader, data[Offset(bs, |bs|) + 5..]))
  {
    hide Legal, Run, Flat, ParseHeader, Encode, Grown, Offset;
    CutStream(sha, bs, footer, data, |bs|, failure);
  }

  lemma MirroredNames(sha: Sha, p: Progress, seen: EntryMap, bs: seq<Block>)
    requires Kept(p, seen, Run(bs)) && Legal(sha, bs)
    ensures NamesDistinct(seen)
  {
    LegalNames(sha, bs);
    hide Run, Legal;
    forall i, j | i in seen && j in seen && seen[i].name == seen[j].name
      ensures i == j
    {
      assert Run(bs)[p.idOutput[i]].name == Run(bs)[p.idOutput[j]].name;
    }
  }

  /** What stopped the conversion. */
  function StopOf(status: TruncatedReadError): TruncatedReadError {
    if status.UnfinishedEntries? then status.stoppingError else status
  }

  /** The status names exactly the entries that were open, and stays what it was when there are none. */
  ghost predicate Reports(status: TruncatedReadError, seen: EntryMap) {
    if AllClosed(seen) then !status.UnfinishedEntries?
    else status.UnfinishedEntries? && Unfinished(status.names, seen, {})
  }

  /** The source is the beginning of a finished stream, and stands behind the entries header. */
  ghost predicate CutOf(sha: Sha, bs: seq<Block>, original: seq<(Name, EntryInfo)>, data: Bytes, pos: nat) {
    Legal(sha, bs) && data <= EntriesStream(bs, original) && pos == |ENTRIES_HEADER|
  }

  /**
   * What stops the conversion of the first `cut` bytes of a stream, the cut being
   * in block `j`. Of a source that just ends there, it is the end of the
   * original's data if the end mark is there, an unexpected end of file inside
   * the hash of an end block, and an error on the next block anywhere else. A
   * source that fails there is reported by its failure inside a hash or content.
   */
  ghost function StatusAt(bs: seq<Block>, cut: nat, j: nat, failure: Option<Error>): TruncatedReadError {
    if Offset(bs, |bs|) + 5 <= cut then EndOfOriginalArchiveData
    else if j < |bs| && bs[j].EndOfEntry? && Offset(bs, j) + 14 <= cut then
      match failure
      case None => UnexpectedEOFOnNextBlock
      case Some(e) =>
        if e == UnexpectedEof then UnexpectedEOFOnNextBlock
        else if e == DeserializationError || e == WrongBlockSubFileType then ErrorOnNextBlock(e)
        else IOErrorOnNextBlock(e)
    else if j < |bs| && bs[j].EntryContent? && DataStart(bs, j) <= cut && failure.Some? then
      ErrorInFile(failure.value, if bs[j].id in Run(bs[..j]) then Run(bs[..j])[bs[j].id].name else [0])
    else ErrorOnNextBlock(DeserializationError)
  }

  lemma StatusInHeader(bs: seq<Block>, cut: nat, j: nat, failure: Option<Error>)
    requires j < |bs| && Offset(bs, j) <= cut < DataStart(bs, j) && cut < Offset(bs, |bs|)
    ensures NextBlockError(CutError(bs[j], cut - Offset(bs, j), failure)) == StatusAt(bs, cut, j, failure)
  {
    hide Run, Offset, HeadBytes;
  }

  lemma StatusInContent(bs: seq<Block>, cut: nat, j: nat, e: Error)
    requires j < |bs| && bs[j].EntryContent? && bs[j].id in Run(bs[..j])
    requires DataStart(bs, j) <= cut < Offset(bs, |bs|)
    ensures Interruption(Run(bs[..j]), HeaderOf(bs[j]), e) == StatusAt(bs, cut, j, Some(e))
    ensures StatusAt(bs, cut, j, None) == ErrorOnNextBlock(DeserializationError)
  {
    hide Run, Offset, HeadBytes;
  }

  lemma StatusBehindBlocks(bs: seq<Block>, cut: nat, failure: Option<Error>)
    ensures StatusAt(bs, cut, |bs|, failure)
      == if Offset(bs, |bs|) + 5 <= cut then EndOfOriginalArchiveData else ErrorOnNextBlock(DeserializationError)
  {
    hide Run, Offset;
  }

  /** At a block or, in a source that does not fail, at the cut inside content: what the loop keeps. */
  ghost predicate Along(sha: Sha, bs: seq<Block>, original: seq<(Name, EntryInfo)>, data: Bytes,
    failure: Option<Error>, j: nat, pos: nat, seen: EntryMap) {
    && Legal(sha, bs) && data <= EntriesStream(bs, original)
    && (AtBlock(bs, j, pos, seen)
        || (pos == |data| && j < |bs| && AtCut(bs, |data|, j, seen)
            && StatusAt(bs, |data|, j, failure) == ErrorOnNextBlock(DeserializationError)))
  }

  /** Where a pass of the loop leads from there, whatever the header is. */
  lemma PassAlong(sha: Sha, bs: seq<Block>, original: seq<(Name, EntryInfo)>, data: Bytes, failure: Option<Error>,
    j: nat, pos: nat, seen: EntryMap)
    requires Along(sha, bs, original, data, failure, j, pos, seen) && pos <= |data|
    ensures match ParseHeader(data[pos..], failure)
            case Err(e) => AtCut(bs, |data|, j, seen) && NextBlockError(e) == StatusAt(bs, |data|, j, failure)
            case Ok((h, rest)) =>
              if Expected(sha, seen, h) then
                var from, n := |data| - |rest|, Announced(h);
                && 0 <= from
                && (from + n <= |data| ==>
                  Along(sha, bs, original, data, failure, j + 1, from + n, After(seen, h, Rest(data, from, n))))
                && (from + n > |data| ==>
                      && AtCut(bs, |data|, j, After(seen, h, Rest(data, from, n)))
                      && if failure.Some? then Interruption(seen, h, failure.value) == StatusAt(bs, |data|, j, failure)
                         else Along(sha, bs, original, data, failure, j, |data|, After(seen, h, Rest(data, from, n))))
              else
                && h == EndOfDataHeader && AtCut(bs, |data|, j, seen)
                && StatusAt(bs, |data|, j, failure) == EndOfOriginalArchiveData
  {
    hide Legal, Run, Flat, ParseHeader, HeadBytes, Encode, Grown, Offset, Received, Rest, After,
      EntriesStream, HeaderOf, StatusAt, CutError, NextBlockError, Interruption;
    if AtBlock(bs, j, pos, seen) && j < |bs| {
      BlockRead(sha, bs, original, data, j, failure, seen);
      if |data| < Offset(bs, j + 1) {
        BeforeEnd(bs, |data|, j);
        if |data| < DataStart(bs, j) {
          StatusInHeader(bs, |data|, j, failure);
        } else {
          ContentExpected(sha, bs, j);
          StatusInContent(bs, |data|, j, if failure.Some? then failure.value else UnexpectedEof);
        }
      }
    } else if AtBlock(bs, j, pos, seen) {
      EndRead(sha, bs, original, data, failure, seen);
      StatusBehindBlocks(bs, |data|, failure);
      PlainStatus();
    } else {
      assert data[pos..] == [];
      NothingLeft(failure);
      PlainStatus();
    }
  }

  lemma PlainStatus()
    ensures NextBlockError(DeserializationError) == ErrorOnNextBlock(DeserializationError)
  {}

  /** A block with content is of an entry that is known. */
  lemma ContentExpected(sha: Sha, bs: seq<Block>, j: nat)
    requires Legal(sha, bs) && j < |bs| && Announced(HeaderOf(bs[j])) > 0
    ensures bs[j].EntryContent? && bs[j].id in Run(bs[..j])
  {
    hide Run, Legal;
    LegalPrefix(sha, bs, j);
  }

  lemma BeforeEnd(bs: seq<Block>, cut: nat, j: nat)
    requires j < |bs| && cut < Offset(bs, j + 1)
    ensures cut < Offset(bs, |bs|)
  {
    if j + 1 < |bs| {
      OffsetsIncrease(bs, j + 1, |bs|);
    }
  }

  lemma NothingLeft(failure: Option<Error>)
    ensures ParseHeader([], failure) == Err(DeserializationError)
  {}

  lemma NothingTracked(bs: seq<Block>)
    ensures Tracks(Progress(map[], map[], [], map[]), map[], Run([])) && AtBlock(bs, 0, |ENTRIES_HEADER|, map[])
  {}

  /** The loop over the blocks, up to the first that stops it. */
  method ReadBlocks(src: ByteSource, output: ArchiveWriter, ghost bs: seq<Block>,
    ghost original: seq<(Name, EntryInfo)>)
    returns (stop: TruncatedReadError, p: Progress, ghost seen: EntryMap, ghost j: nat)
    requires src.Readable() && output.Valid() && output.blocks == [] && output.nextId == 0
    modifies src, output
    ensures output.Valid() && Kept(p, seen, Run(output.blocks)) && !stop.UnfinishedEntries?
    ensures Finding(seen, stop) == Find(output.sha, src.data, src.failure, old(src.pos), map[])
    ensures old(CutOf(output.sha, bs, original, src.data, src.pos)) ==>
      AtCut(bs, |src.data|, j, seen) && stop == StatusAt(bs, |src.data|, j, src.failure)
  {
    hide Run, Kept, Tracks, AtBlock, AtCut, After, Expected, Rest, Announced, ParseHeader, EntriesStream, Offset, Along,
      Flat, Legal, StateMatches, NamesMatch, IndexMatches, IdsFresh, Find;
    seen, j, stop := map[], 0, NoError;
    p := Progress(map[], map[], [], map[]);
    NothingTracked(bs);
    ghost var good := CutOf(output.sha, bs, original, src.data, src.pos);
    if good {
      AlongStarts(output.sha, bs, original, src.data, src.failure, src.pos);
    }
    while true
      invariant src.Readable() && output.Valid() && output.nextId <= src.pos
      invariant Tracks(p, seen, Run(output.blocks))
      invariant Find(output.sha, src.data, src.failure, src.pos, seen)
        == Find(output.sha, src.data, src.failure, old(src.pos), map[])
      invariant good ==> Along(output.sha, bs, original, src.data, src.failure, j, src.pos, seen)
      decreases |src.data| - src.pos
    {
      FindStep(output.sha, src.data, src.failure, src.pos, seen);
      if good {
        PassAlong(output.sha, bs, original, src.data, src.failure, j, src.pos, seen);
      }
      ghost var parsed := ParseHeader(src.data[src.pos..], src.failure);
      ghost var whole := parsed.Ok? && |src.data| - |parsed.value.1| + Announced(parsed.value.0) <= |src.data|;
      var outcome;
      outcome, p, seen := OnBlock(src, output, p, seen);
      if outcome.value.Stop? {
        stop := outcome.value.status;
        return;
      }
      if whole {
        j := j + 1;
      }
    }
  }

  lemma AlongStarts(sha: Sha, bs: seq<Block>, original: seq<(Name, EntryInfo)>, data: Bytes,
    failure: Option<Error>, pos: nat)
    requires CutOf(sha, bs, original, data, pos)
    ensures Along(sha, bs, original, data, failure, 0, pos, map[])
  {
    NothingTracked(bs);
  }

  /**
   * `convert_to_archive`, into a fresh output, from behind the entries header.
   * Whatever the source holds, the result is a complete archive of exactly the
   * entries found in its bytes, all closed; those that had not ended are
   * reported, and so is what stopped the conversion.
   * When the source is the beginning of a stream, what was seen is exactly what
   * that beginning holds, and the conversion stops at the original's end mark
   * if and only if the source has it.
   */
  method ConvertToArchive(src: ByteSource, output: ArchiveWriter, ghost bs: seq<Block>,
    ghost original: seq<(Name, EntryInfo)>)
    returns (r: Result<TruncatedReadError, Error>, ghost seen: EntryMap, ghost idOutput: map<nat, nat>, ghost j: nat,
      ghost footer: seq<(Name, EntryInfo)>)
    requires src.Readable() && output.Valid() && output.blocks == [] && output.nextId == 0
    modifies src, output
    ensures r.Ok? && Archived(output.sha, output.blocks, footer, output.dest)
    ensures Mirrors(idOutput, ClosedBut(seen, {}), Run(output.blocks)) && Reports(r.value, seen)
    ensures Finding(seen, StopOf(r.value)) == Find(output.sha, src.data, src.failure, old(src.pos), map[])
    ensures old(CutOf(output.sha, bs, original, src.data, src.pos)) ==>
      && AtCut(bs, |src.data|, j, seen)
      && StopOf(r.value) == StatusAt(bs, |src.data|, j, src.failure)
  {
    hide Run, Mirrors, Kept, ClosedBut, Unfinished, NamesDistinct, AtCut, CutOf, Archived, AllClosed, Offset,
      Flat, Legal, StateMatches, NamesMatch, IndexMatches, IdsFresh;
    var stop, p;
    stop, p, seen, j := ReadBlocks(src, output, bs, original);
    idOutput := p.idOutput;
    MirroredNames(output.sha, p, seen, output.blocks);
    var unfinished := EndOpenEntries(output, p, seen);
    EverythingClosed(idOutput, seen, Run(output.blocks));
    var finalized;
    finalized, footer := output.Finalize();
    if unfinished.value != [] {
      OpenListed(unfinished.value, seen);
      return Ok(UnfinishedEntries(unfinished.value, stop)), seen, idOutput, j, footer;
    }
    OpenListed(unfinished.value, seen);
    r := Ok(stop);
  }

  lemma EverythingClosed(idOutput: map<nat, nat>, seen: EntryMap, out: EntryMap)
    requires Mirrors(idOutput, ClosedBut(seen, {}), out)
    ensures AllClosed(out)
  {
    forall o | o in out
      ensures out[o].closed
    {
      assert Given(idOutput, o);
    }
  }

  lemma OpenListed(names: seq<Name>, seen: EntryMap)
    requires Unfinished(names, seen, {})
    ensures names == [] <==> AllClosed(seen)
  {
    if names != [] {
      assert names[0] in names;
    }
    if !AllClosed(seen) {
      var id :| id in seen && !seen[id].closed;
      assert OpenNamed(seen, {}, seen[id].name);
    }
  }

  lemma MirroredEntry(idOutput: map<nat, nat>, seen: EntryMap, out: EntryMap, id: nat)
    requires Mirrors(idOutput, ClosedBut(seen, {}), out)
    ensures id in idOutput <==> id in seen
    ensures id in seen ==> idOutput[id] in out && out[idOutput[id]] == seen[id].(closed := true)
  {
    assert idOutput.Keys == ClosedBut(seen, {}).Keys;
  }

  lemma OutputGiven(idOutput: map<nat, nat>, seen: EntryMap, out: EntryMap, o: nat) returns (id: nat)
    requires Mirrors(idOutput, ClosedBut(seen, {}), out) && o in out
    ensures id in seen && out[o] == seen[id].(closed := true)
  {
    assert Given(idOutput, o);
    id :| id in idOutput && idOutput[id] == o;
    MirroredEntry(idOutput, seen, out, id);
  }

  /** The output entry is a beginning of the original entry of its name. */
  ghost predicate Salvaged(e: Entry, original: EntryMap) {
    e.closed && exists id :: id in original && original[id].name == e.name && e.content <= original[id].content
  }

  /**
   * Salvage is prefix-safe: after a conversion of the first `cut` bytes of a
   * stream, every output entry begins the original of its name, those whose end
   * was there are whole, and nothing is lost once all blocks are there.
   */
  lemma SalvageIsSafe(sha: Sha, bs: seq<Block>, cut: nat, j: nat, seen: EntryMap, idOutput: map<nat, nat>,
    out: EntryMap)
    requires Legal(sha, bs) && AtCut(bs, cut, j, seen) && Mirrors(idOutput, ClosedBut(seen, {}), out)
    ensures forall o :: o in out ==> Salvaged(out[o], Run(bs))
    ensures forall k :: 0 <= k < |bs| && bs[k].EndOfEntry? && Offset(bs, k + 1) <= cut ==>
      && bs[k].id in Run(bs) && bs[k].id in idOutput && idOutput[bs[k].id] in out
      && out[idOutput[bs[k].id]] == Run(bs)[bs[k].id].(closed := true)
    ensures Offset(bs, |bs|) <= cut ==>
      forall id :: id in Run(bs) ==>
        id in idOutput && idOutput[id] in out && out[idOutput[id]] == Run(bs)[id].(closed := true)
  {
    hide Run, Legal, Offset, Received, Mirrors, ClosedBut;
    ReceivedPrefix(sha, bs, cut, j);
    forall o | o in out
      ensures Salvaged(out[o], Run(bs))
    {
      var id := OutputGiven(idOutput, seen, out, o);
      assert id in Run(bs);
    }
    forall k | 0 <= k < |bs| && bs[k].EndOfEntry? && Offset(bs, k + 1) <= cut
      ensures bs[k].id in Run(bs) && bs[k].id in idOutput && idOutput[bs[k].id] in out
      ensures out[idOutput[bs[k].id]] == Run(bs)[bs[k].id].(closed := true)
    {
      ReceivedWhole(sha, bs, cut, j, k);
      MirroredEntry(idOutput, seen, out, bs[k].id);
    }
    if Offset(bs, |bs|) <= cut {
      if j < |bs| {
        BeforeEnd(bs, cut, j);
      }
      forall id | id in Run(bs)
        ensures id in idOutput && idOutput[id] in out && out[idOutput[id]] == Run(bs)[id].(closed := true)
      {
        MirroredEntry(idOutput, seen, out, id);
      }
    }
  }
}
