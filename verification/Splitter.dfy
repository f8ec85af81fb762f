/** Splitting standard input into entries at a separator, as it streams by. */
module Splitting {
  import opened Io
  import opened BlockFormat
  import opened Entries
  import opened ArchiveWriting

  const STDIN_BUFFER_SIZE := 8192

  // ---------- The batch split ----------

  predicate At(sep: Bytes, s: Bytes, i: nat) {
    i + |sep| <= |s| && s[i..i + |sep|] == sep
  }

  /** The first occurrence at or after `i`. */
  function First(sep: Bytes, s: Bytes, i: nat): (r: Option<nat>)
    ensures r.Some? ==> i <= r.value && At(sep, s, r.value)
    ensures forall k :: i <= k && (r.Some? ==> k < r.value) ==> !At(sep, s, k)
    decreases |s| - i
  {
    if i + |sep| > |s| then None
    else if At(sep, s, i) then Some(i)
    else First(sep, s, i + 1)
  }

  /** The leftmost split into pieces, without overlaps. */
  function Split(sep: Bytes, s: Bytes): (ps: seq<Bytes>)
    requires sep != []
    ensures ps != []
    decreases |s|
  {
    match First(sep, s, 0)
    case None => [s]
    case Some(i) => [s[..i]] + Split(sep, s[i + |sep|..])
  }

  function Last(ps: seq<Bytes>): Bytes
    requires ps != []
  {
    ps[|ps| - 1]
  }

  function Front(ps: seq<Bytes>): seq<Bytes>
    requires ps != []
  {
    ps[..|ps| - 1]
  }

  function Join(sep: Bytes, ps: seq<Bytes>): Bytes
    requires ps != []
  {
    if |ps| == 1 then ps[0] else ps[0] + sep + Join(sep, ps[1..])
  }

  /** The separator does not occur before it is due. */
  ghost predicate Clean(sep: Bytes, p: Bytes) {
    forall k :: 0 <= k < |p| ==> !At(sep, p + sep, k)
  }

  lemma SplitAtNone(sep: Bytes, s: Bytes)
    requires sep != [] && First(sep, s, 0) == None
    ensures Split(sep, s) == [s]
  {}

  lemma SplitAtFirst(sep: Bytes, s: Bytes, i: nat)
    requires sep != [] && First(sep, s, 0) == Some(i)
    ensures i + |sep| <= |s| && s[i..i + |sep|] == sep
    ensures Split(sep, s) == [s[..i]] + Split(sep, s[i + |sep|..])
    ensures Front(Split(sep, s)) == [s[..i]] + Front(Split(sep, s[i + |sep|..]))
    ensures Last(Split(sep, s)) == Last(Split(sep, s[i + |sep|..]))
  {
    hide First;
    assert Split(sep, s) == [s[..i]] + Split(sep, s[i + |sep|..]);
    hide Split;
    FrontOfCons(s[..i], Split(sep, s[i + |sep|..]));
  }

  lemma FrontOfCons(p: Bytes, ps: seq<Bytes>)
    requires ps != []
    ensures Front([p] + ps) == [p] + Front(ps) && Last([p] + ps) == Last(ps)
  {}

  lemma FirstUnique(sep: Bytes, s: Bytes, i: nat)
    requires At(sep, s, i) && forall k :: 0 <= k < i ==> !At(sep, s, k)
    ensures First(sep, s, 0) == Some(i)
  {
    hide At;
    var r := First(sep, s, 0);
  }

  lemma AtPrefix(sep: Bytes, s: Bytes, more: Bytes, i: nat)
    ensures At(sep, s, i) ==> At(sep, s + more, i)
    ensures i + |sep| <= |s| ==> (At(sep, s, i) <==> At(sep, s + more, i))
  {
    if i + |sep| <= |s| {
      assert (s + more)[i..i + |sep|] == s[i..i + |sep|];
    }
  }

  lemma AtSuffix(sep: Bytes, front: Bytes, s: Bytes, i: nat)
    ensures At(sep, front + s, |front| + i) <==> At(sep, s, i)
  {
    if i + |sep| <= |s| {
      assert (front + s)[|front| + i..|front| + i + |sep|] == s[i..i + |sep|];
    }
  }

  /** Joining the pieces gives the input back, and no piece runs into a separator early. */
  lemma {:induction false} SplitExact(sep: Bytes, s: Bytes)
    requires sep != []
    ensures Join(sep, Split(sep, s)) == s
    ensures forall p :: p in Front(Split(sep, s)) ==> Clean(sep, p)
    ensures First(sep, Last(Split(sep, s)), 0) == None
    decreases |s|
  {
    if First(sep, s, 0).None? {
      SplitAtNone(sep, s);
    } else {
      var i := First(sep, s, 0).value;
      SplitAtFirst(sep, s, i);
      var rest := s[i + |sep|..];
      SplitExact(sep, rest);
      CleanUpTo(sep, s, i);
      hide First, Split, Clean;
      assert s == s[..i] + sep + rest;
      assert Split(sep, s)[1..] == Split(sep, rest);
    }
  }

  lemma CleanUpTo(sep: Bytes, s: Bytes, i: nat)
    requires First(sep, s, 0) == Some(i)
    ensures Clean(sep, s[..i])
  {
    assert s == s[..i] + sep + s[i + |sep|..];
    forall k | 0 <= k < i
      ensures !At(sep, s[..i] + sep, k)
    {
      AtPrefix(sep, s[..i] + sep, s[i + |sep|..], k);
    }
  }

  /** There is only one such list of pieces. */
  lemma {:induction false} SplitUnique(sep: Bytes, ps: seq<Bytes>)
    requires sep != [] && ps != []
    requires forall p :: p in Front(ps) ==> Clean(sep, p)
    requires First(sep, Last(ps), 0) == None
    ensures Split(sep, Join(sep, ps)) == ps
  {
    hide First, Split, Clean;
    if |ps| > 1 {
      FrontOfCons(ps[0], ps[1..]);
      assert ps == [ps[0]] + ps[1..];
      assert ps[0] in Front(ps);
      SplitUnique(sep, ps[1..]);
      SplitBehind(sep, ps[0], Join(sep, ps[1..]));
    } else {
      SplitAtNone(sep, ps[0]);
    }
  }

  /** A piece without a separator is the first piece of what it and a separator begin. */
  lemma SplitBehind(sep: Bytes, p: Bytes, rest: Bytes)
    requires sep != [] && Clean(sep, p)
    ensures Split(sep, p + sep + rest) == [p] + Split(sep, rest)
  {
    FirstAfter(sep, p, rest);
    hide First, At, Split, Clean;
    var s := p + sep + rest;
    SplitAtFirst(sep, s, |p|);
    assert s[..|p|] == p && s[|p| + |sep|..] == rest;
  }

  lemma FirstAfter(sep: Bytes, p: Bytes, rest: Bytes)
    requires Clean(sep, p)
    ensures First(sep, p + sep + rest, 0) == Some(|p|)
  {
    var s := p + sep + rest;
    assert s[|p|..|p| + |sep|] == sep;
    forall k | 0 <= k < |p|
      ensures !At(sep, s, k)
    {
      AtPrefix(sep, p + sep, rest, k);
    }
    FirstUnique(sep, s, |p|);
  }

  // ---------- What is held back ----------

  /** The input ends with the first `n` bytes of the separator. */
  predicate EndsWith(s: Bytes, sep: Bytes, n: nat) {
    n <= |s| && n <= |sep| && s[|s| - n..] == sep[..n]
  }

  /** The length of the longest proper prefix of the separator, up to `n`, that ends the input. */
  function HeldUpTo(sep: Bytes, s: Bytes, n: nat): (h: nat)
    requires n < |sep| || n == 0
    ensures h <= n && EndsWith(s, sep, h)
    ensures forall k :: h < k <= n ==> !EndsWith(s, sep, k)
  {
    if n == 0 || EndsWith(s, sep, n) then n else HeldUpTo(sep, s, n - 1)
  }

  function Held(sep: Bytes, s: Bytes): (h: nat)
    ensures h <= |s| && (sep != [] ==> h < |sep|)
  {
    if sep == [] then 0 else HeldUpTo(sep, s, |sep| - 1)
  }

  /** It ends the input and begins the separator, and nothing longer that is shorter than the separator does. */
  lemma HeldExact(sep: Bytes, s: Bytes)
    requires sep != []
    ensures var h := Held(sep, s);
            && h < |sep| && h <= |s| && s[|s| - h..] == sep[..h]
            && forall k :: h < k < |sep| && k <= |s| ==> s[|s| - k..] != sep[..k]
  {
    var h := Held(sep, s);
    forall k | h < k < |sep| && k <= |s|
      ensures s[|s| - k..] != sep[..k]
    {
      assert !EndsWith(s, sep, k);
    }
  }

  /** Looks for the longest prefix of the separator first. */
  method FindHeld(sep: Bytes, s: Bytes) returns (held: nat)
    ensures held == Held(sep, s)
  {
    if sep == [] {
      return 0;
    }
    held := |sep| - 1;
    while held > 0 && !(held <= |s| && s[|s| - held..] == sep[..held])
      invariant held < |sep| && forall k :: held < k < |sep| ==> !EndsWith(s, sep, k)
    {
      held := held - 1;
    }
    HeldUnique(sep, s, held);
  }

  lemma HeldUnique(sep: Bytes, s: Bytes, h: nat)
    requires h < |sep| && EndsWith(s, sep, h)
    requires forall k :: h < k < |sep| ==> !EndsWith(s, sep, k)
    ensures Held(sep, s) == h
  {
    hide EndsWith;
    var r := Held(sep, s);
  }

  lemma EndsEarlier(sep: Bytes, s: Bytes, more: Bytes, n: nat)
    requires |more| <= n && EndsWith(s + more, sep, n)
    ensures EndsWith(s, sep, n - |more|)
  {
    var k := n - |more|;
    assert s[|s| - k..] == (s + more)[|s + more| - n..][..k];
    assert sep[..k] == sep[..n][..k];
  }

  lemma EndsInSuffix(sep: Bytes, front: Bytes, b: Bytes, n: nat)
    requires n <= |b|
    ensures EndsWith(front + b, sep, n) <==> EndsWith(b, sep, n)
  {
    assert (front + b)[|front + b| - n..] == b[|b| - n..];
  }

  /** What ends `cur + h + more` and begins before `h` would have been held longer. */
  lemma NothingBefore(sep: Bytes, cur: Bytes, h: Bytes, more: Bytes, n: nat)
    requires sep != [] && Held(sep, cur + h) == |h| && |h + more| < n < |sep|
    ensures !EndsWith(cur + (h + more), sep, n)
  {
    assert cur + (h + more) == cur + h + more;
    if EndsWith(cur + h + more, sep, n) {
      EndsEarlier(sep, cur + h, more, n);
    }
  }

  /** Nor does an occurrence of the separator begin before it. */
  lemma NoEarlyOccurrence(sep: Bytes, cur: Bytes, h: Bytes, more: Bytes, i: nat)
    requires sep != [] && Held(sep, cur + h) == |h| && First(sep, cur + h, 0) == None
    requires i < |cur|
    ensures !At(sep, cur + (h + more), i)
  {
    hide First, Held, At, EndsWith;
    var s := cur + h;
    assert cur + (h + more) == s + more;
    AtPrefix(sep, s, more, i);
    assert !At(sep, s, i);
    if At(sep, s + more, i) {
      CutOccurrence(sep, s, more, i);
      NotHeld(sep, s, |s| - i);
    }
  }

  /** An occurrence that needs more than `s` makes `s` end with a prefix of the separator. */
  lemma CutOccurrence(sep: Bytes, s: Bytes, more: Bytes, i: nat)
    requires i <= |s| < i + |sep| && At(sep, s + more, i)
    ensures EndsWith(s, sep, |s| - i)
  {
    var k := |s| - i;
    assert (s + more)[i..i + |sep|][..k] == sep[..k];
    assert s[|s| - k..] == (s + more)[i..i + |sep|][..k];
  }

  lemma NotHeld(sep: Bytes, s: Bytes, k: nat)
    requires Held(sep, s) < k < |sep|
    ensures !EndsWith(s, sep, k)
  {
    hide EndsWith;
  }

  /** So what is held back of the whole piece is what is held back of the buffer. */
  lemma HeldInBuffer(sep: Bytes, cur: Bytes, h: Bytes, more: Bytes)
    requires sep != [] && Held(sep, cur + h) == |h|
    ensures Held(sep, cur + (h + more)) == Held(sep, h + more)
  {
    var b := h + more;
    var r := Held(sep, b);
    EndsInSuffix(sep, cur, b, r);
    forall k | r < k < |sep|
      ensures !EndsWith(cur + b, sep, k)
    {
      if k <= |b| {
        EndsInSuffix(sep, cur, b, k);
      } else {
        NothingBefore(sep, cur, h, more, k);
      }
    }
    HeldUnique(sep, cur + b, r);
  }

  // ---------- Splitting what is read later ----------

  /** An occurrence that was the first stays it. */
  lemma FirstAppend(sep: Bytes, s: Bytes, more: Bytes)
    requires First(sep, s, 0).Some?
    ensures First(sep, s + more, 0) == First(sep, s, 0)
  {
    var i := First(sep, s, 0).value;
    AtPrefix(sep, s, more, i);
    forall k | 0 <= k < i
      ensures !At(sep, s + more, k)
    {
      AtPrefix(sep, s, more, k);
    }
    FirstUnique(sep, s + more, i);
  }

  /** Nothing in front of `b` moves the first occurrence. */
  lemma FirstShifted(sep: Bytes, cur: Bytes, b: Bytes)
    requires forall k :: 0 <= k < |cur| ==> !At(sep, cur + b, k)
    ensures First(sep, b, 0).None? ==> First(sep, cur + b, 0) == None
    ensures First(sep, b, 0).Some? ==> First(sep, cur + b, 0) == Some(|cur| + First(sep, b, 0).value)
  {
    hide At;
    var r := First(sep, cur + b, 0);
    if r.Some? {
      AtSuffix(sep, cur, b, r.value - |cur|);
    }
    if First(sep, b, 0).Some? {
      var i := First(sep, b, 0).value;
      AtSuffix(sep, cur, b, i);
      forall k | 0 <= k < |cur| + i
        ensures !At(sep, cur + b, k)
      {
        if |cur| <= k {
          AtSuffix(sep, cur, b, k - |cur|);
        }
      }
      hide First;
      FirstUnique(sep, cur + b, |cur| + i);
    }
  }

  /** More input only changes the last piece. */
  lemma {:induction false} SplitAppend(sep: Bytes, s: Bytes, more: Bytes)
    requires sep != []
    ensures Split(sep, s + more) == Front(Split(sep, s)) + Split(sep, Last(Split(sep, s)) + more)
    decreases |s|
  {
    hide First, At, Split;
    if First(sep, s, 0).None? {
      SplitAtNone(sep, s);
    } else {
      var i := First(sep, s, 0).value;
      SplitAtFirst(sep, s, i);
      var rest := s[i + |sep|..];
      SplitAppend(sep, rest, more);
      FirstAppend(sep, s, more);
      SplitAtFirst(sep, s + more, i);
      assert (s + more)[..i] == s[..i] && (s + more)[i + |sep|..] == rest + more;
    }
  }

  /** The pieces with `cur` in front of the first. */
  function Onto(cur: Bytes, ps: seq<Bytes>): (r: seq<Bytes>)
    requires ps != []
    ensures |r| == |ps|
  {
    [cur + ps[0]] + ps[1..]
  }

  /** What was written of the open piece does not matter for splitting the buffer. */
  lemma SplitBuffer(sep: Bytes, cur: Bytes, h: Bytes, more: Bytes)
    requires sep != [] && Held(sep, cur + h) == |h| && First(sep, cur + h, 0) == None
    ensures Split(sep, cur + (h + more)) == Onto(cur, Split(sep, h + more))
  {
    hide First, At, Held, Split;
    var b := h + more;
    forall i | 0 <= i < |cur|
      ensures !At(sep, cur + b, i)
    {
      NoEarlyOccurrence(sep, cur, h, more, i);
    }
    FirstShifted(sep, cur, b);
    if First(sep, b, 0).None? {
      SplitAtNone(sep, b);
      SplitAtNone(sep, cur + b);
    } else {
      var i := First(sep, b, 0).value;
      SplitAtFirst(sep, b, i);
      SplitAtFirst(sep, cur + b, |cur| + i);
      assert (cur + b)[..|cur| + i] == cur + b[..i] && (cur + b)[|cur| + i + |sep|..] == b[i + |sep|..];
    }
  }

  // ---------- Entries for the pieces ----------

  type Names = seq<Result<Name, Error>>

  /** The first `count` names can be given, one after the other. */
  ghost predicate Usable(m: EntryMap, names: Names, count: nat) {
    && count <= |names|
    && forall i :: 0 <= i < count ==>
         names[i].Ok? && !HasName(m, names[i].value) && forall k :: 0 <= k < i ==> names[k] != names[i]
  }

  /** Entries `first`, `first + 1`, … were added for the pieces, and closed, but the last may still be open. */
  ghost predicate Added(m0: EntryMap, m: EntryMap, first: nat, names: Names, pieces: seq<Bytes>, unclosed: bool) {
    && |pieces| <= |names|
    && (forall id :: id in m <==> id in m0 || first <= id < first + |pieces|)
    && (forall id :: id in m0 ==> m[id] == m0[id] && id < first)
    && (forall i :: 0 <= i < |pieces| ==>
          names[i].Ok? && m[first + i] == Entry(names[i].value, pieces[i], !(unclosed && i == |pieces| - 1)))
  }

  lemma AddedStart(m0: EntryMap, m: EntryMap, first: nat, names: Names, pieces: seq<Bytes>, name: Name)
    requires Added(m0, m, first, names, pieces, false) && |pieces| < |names| && names[|pieces|] == Ok(name)
    ensures Added(m0, m[first + |pieces| := Entry(name, [], false)], first, names, pieces + [[]], true)
  {}

  lemma AddedContent(m0: EntryMap, m: EntryMap, first: nat, names: Names, pieces: seq<Bytes>, more: Bytes)
    requires Added(m0, m, first, names, pieces, true) && pieces != []
    ensures var id := first + |pieces| - 1;
            && id in m && !m[id].closed
            && Added(m0, m[id := m[id].(content := m[id].content + more)], first, names,
              Front(pieces) + [Last(pieces) + more], true)
  {
    var i := |pieces| - 1;
    assert m[first + i] == Entry(names[i].value, pieces[i], false);
  }

  lemma AddedEnd(m0: EntryMap, m: EntryMap, first: nat, names: Names, pieces: seq<Bytes>)
    requires Added(m0, m, first, names, pieces, true) && pieces != []
    ensures var id := first + |pieces| - 1;
            && id in m && !m[id].closed
            && Added(m0, m[id := m[id].(closed := true)], first, names, pieces, false)
  {
    var i := |pieces| - 1;
    assert m[first + i] == Entry(names[i].value, pieces[i], false);
  }

  /** A next name is free exactly when it can be given too. */
  lemma NextUsable(m0: EntryMap, m: EntryMap, first: nat, names: Names, pieces: seq<Bytes>, unclosed: bool)
    requires Added(m0, m, first, names, pieces, unclosed) && Usable(m0, names, |pieces|)
    ensures Usable(m0, names, |pieces| + 1) <==>
      |pieces| < |names| && names[|pieces|].Ok? && !HasName(m, names[|pieces|].value)
  {
    if |pieces| < |names| && names[|pieces|].Ok? {
      var name := names[|pieces|].value;
      if HasName(m, name) {
        var id :| id in m && m[id].name == name;
        if id !in m0 {
          assert names[id - first] == names[|pieces|];
        }
      } else {
        forall id | id in m0
          ensures m0[id].name != name
        {
          assert m[id] == m0[id];
        }
        forall k | 0 <= k < |pieces|
          ensures names[k] != names[|pieces|]
        {
          assert m[first + k].name == names[k].value;
        }
      }
    }
  }

  /** Takes the next name and starts its entry. */
  method StartNext(output: ArchiveWriter, names: Names, next: nat, ghost m0: EntryMap, ghost first: nat,
    ghost pieces: seq<Bytes>)
    returns (r: Result<nat, Error>)
    requires output.Valid() && Added(m0, Run(output.blocks), first, names, pieces, false) && Usable(m0, names, |pieces|)
    requires next == |pieces| && output.nextId == first + |pieces| && output.nextId + |names| - |pieces| < U64_LIMIT
    modifies output
    ensures output.Valid()
    ensures r.Ok? <==> Usable(m0, names, |pieces| + 1)
    ensures r.Ok? ==> r.value == first + |pieces| && output.nextId == old(output.nextId) + 1 && |pieces| < |names|
    ensures r.Ok? ==> Added(m0, Run(output.blocks), first, names, pieces + [[]], true)
    ensures r.Err? ==> r.error in {EntryCountMismatch, InvalidEntryNameToPath, DuplicateEntryName}
  {
    hide Run, Flat, Legal, StateMatches, NamesMatch, IndexMatches, IdsFresh, Usable;
    NextUsable(m0, Run(output.blocks), first, names, pieces, false);
    if next >= |names| {
      return Err(EntryCountMismatch);
    }
    match names[next] {
      case Err(e) =>
        r := Err(InvalidEntryNameToPath);
      case Ok(name) =>
        AddedStart(m0, Run(output.blocks), first, names, pieces, name);
        hide Added;
        r := output.StartEntry(name);
    }
  }

  method AppendTo(output: ArchiveWriter, entryId: nat, bytes: Bytes, ghost names: Names, ghost m0: EntryMap,
    ghost first: nat, ghost pieces: seq<Bytes>)
    returns (r: Result<(), Error>)
    requires output.Valid() && Added(m0, Run(output.blocks), first, names, pieces, true) && pieces != []
    requires entryId == first + |pieces| - 1 && |bytes| < U64_LIMIT
    modifies output
    ensures output.Valid() && output.nextId == old(output.nextId) && r.Ok?
    ensures Added(m0, Run(output.blocks), first, names, Front(pieces) + [Last(pieces) + bytes], true)
  {
    hide Run, Flat, Legal, StateMatches, NamesMatch, IndexMatches, IdsFresh;
    AddedContent(m0, Run(output.blocks), first, names, pieces, bytes);
    hide Added;
    assert bytes[..|bytes|] == bytes;
    r := output.AppendEntryContent(entryId, |bytes|, bytes);
  }

  method EndCurrent(output: ArchiveWriter, entryId: nat, ghost names: Names, ghost m0: EntryMap, ghost first: nat,
    ghost pieces: seq<Bytes>)
    returns (r: Result<(), Error>)
    requires output.Valid() && Added(m0, Run(output.blocks), first, names, pieces, true) && pieces != []
    requires entryId == first + |pieces| - 1
    modifies output
    ensures output.Valid() && output.nextId == old(output.nextId) && r.Ok?
    ensures Added(m0, Run(output.blocks), first, names, pieces, false)
  {
    hide Run, Flat, Legal, StateMatches, NamesMatch, IndexMatches, IdsFresh;
    AddedEnd(m0, Run(output.blocks), first, names, pieces);
    hide Added;
    r := output.EndEntry(entryId);
  }

  /** The writer is in the middle of the entry of the last piece, and enough ids are left. */
  ghost predicate Writing(output: ArchiveWriter, names: Names, next: nat, entryId: nat, m0: EntryMap, first: nat,
    pieces: seq<Bytes>)
    reads output
  {
    && output.Valid() && pieces != []
    && Added(m0, Run(output.blocks), first, names, pieces, true) && Usable(m0, names, |pieces|)
    && next == |pieces| <= |names| && entryId == first + |pieces| - 1
    && output.nextId == first + |pieces| && first + |names| < U64_LIMIT
  }

  /** The pieces after the separators of a buffer, split into `qs`, have been dealt with. */
  function Opened(pieces: seq<Bytes>, qs: seq<Bytes>): (r: seq<Bytes>)
    requires pieces != []
    ensures |r| == |pieces| + |qs|
  {
    if qs == [] then pieces else Front(pieces) + [Last(pieces) + qs[0]] + qs[1..] + [[]]
  }

  lemma OpenedStep(pieces: seq<Bytes>, qs: seq<Bytes>, q: Bytes)
    requires pieces != []
    ensures var o := Opened(pieces, qs); Opened(pieces, qs + [q]) == Front(o) + [Last(o) + q] + [[]]
  {
    var o := Opened(pieces, qs);
    if qs == [] {
      assert (qs + [q])[1..] == [];
    } else {
      assert (qs + [q])[1..] == qs[1..] + [q];
      assert Front(o) == Front(pieces) + [Last(pieces) + qs[0]] + qs[1..];
      assert Last(o) + q == q;
    }
  }

  /** Writing the rest of a buffer's last piece, and all pieces seen as put onto what was open. */
  lemma OpenedWhole(pieces: seq<Bytes>, qs: seq<Bytes>, t: Bytes)
    requires pieces != []
    ensures var o := Opened(pieces, qs); Front(o) + [Last(o) + t] == Front(pieces) + Onto(Last(pieces), qs + [t])
  {
    var o := Opened(pieces, qs);
    if qs == [] {
      assert (qs + [t])[1..] == [];
    } else {
      assert (qs + [t])[1..] == qs[1..] + [t];
      assert Front(o) == Front(pieces) + [Last(pieces) + qs[0]] + qs[1..];
      assert Last(o) + t == t;
    }
  }

  lemma UsableMore(m: EntryMap, names: Names, count: nat, more: nat)
    requires count <= more && Usable(m, names, more)
    ensures Usable(m, names, count)
  {}

  lemma AtInRest(sep: Bytes, b: Bytes, from: nat, idx: nat)
    requires from <= idx <= |b|
    ensures At(sep, b, idx) <==> At(sep, b[from..], idx - from)
    ensures At(sep, b, idx) ==> idx + |sep| <= |b|
  {
    if idx + |sep| <= |b| {
      SliceOfSuffix(b, from, idx - from, idx - from + |sep|);
    }
  }

  lemma SplitRest(sep: Bytes, b: Bytes, from: nat, i: nat)
    requires sep != [] && from <= |b| && First(sep, b[from..], 0) == Some(i)
    ensures from + i + |sep| <= |b|
    ensures Split(sep, b[from..]) == [b[from..from + i]] + Split(sep, b[from + i + |sep|..])
  {
    hide First, Split, At;
    var rest := b[from..];
    SplitAtFirst(sep, rest, i);
    SuffixOfSuffix(b, from, i + |sep|);
    SliceOfSuffix(b, from, 0, i);
    assert rest[..i] == rest[0..i] == b[from..from + i];
    assert rest[i + |sep|..] == b[from + i + |sep|..];
  }

  /** `in_buffer[idx..].starts_with(separator)`: the next separator behind `from` is not before `idx`. */
  lemma NextFound(sep: Bytes, b: Bytes, from: nat, idx: nat)
    requires sep != [] && from <= idx <= |b| && forall k :: 0 <= k < idx - from ==> !At(sep, b[from..], k)
    ensures At(sep, b, idx) <==> At(sep, b[from..], idx - from)
    ensures At(sep, b, idx) ==> Split(sep, b[from..]) == [b[from..idx]] + Split(sep, b[idx + |sep|..])
    ensures idx + |sep| > |b| ==> Split(sep, b[from..]) == [b[from..]]
  {
    hide At, First, Split;
    AtInRest(sep, b, from, idx);
    if At(sep, b, idx) {
      FirstUnique(sep, b[from..], idx - from);
      SplitRest(sep, b, from, idx - from);
    } else if idx + |sep| > |b| {
      NoRoom(sep, b[from..], idx - from);
      SplitAtNone(sep, b[from..]);
    }
  }

  lemma NoRoom(sep: Bytes, s: Bytes, i: nat)
    requires i + |sep| > |s| && forall k :: 0 <= k < i ==> !At(sep, s, k)
    ensures First(sep, s, 0) == None
  {}

  lemma WritingValid(output: ArchiveWriter, names: Names, next: nat, entryId: nat, m0: EntryMap, first: nat,
    pieces: seq<Bytes>)
    requires Writing(output, names, next, entryId, m0, first, pieces)
    ensures output.Valid() && pieces != []
  {}

  /** At a separator: completes the entry of the last piece and starts the next. */
  method NextEntry(output: ArchiveWriter, names: Names, next: nat, entryId: nat, piece: Bytes,
    ghost m0: EntryMap, ghost first: nat, ghost pieces: seq<Bytes>)
    returns (r: Result<nat, Error>)
    requires Writing(output, names, next, entryId, m0, first, pieces) && |piece| < U64_LIMIT
    modifies output
    ensures output.Valid() && pieces != []
    ensures r.Ok? ==> next < |names|
    ensures r.Ok? ==>
      Writing(output, names, next + 1, r.value, m0, first, Front(pieces) + [Last(pieces) + piece] + [[]])
    ensures r.Err? ==> r.error in {EntryCountMismatch, InvalidEntryNameToPath, DuplicateEntryName}
    ensures r.Err? ==> !Usable(m0, names, |pieces| + 1)
  {
    hide Run, Added, Usable, Flat, Legal, StateMatches, NamesMatch, IndexMatches, IdsFresh;
    var appended := AppendTo(output, entryId, piece, names, m0, first, pieces);
    ghost var filled := Front(pieces) + [Last(pieces) + piece];
    var ended := EndCurrent(output, entryId, names, m0, first, filled);
    r := StartNext(output, names, next, m0, first, filled);
  }

  /**
   * Finds the separators in a buffer from left to right, ending an entry and
   * starting the next at each. An empty separator is found again and again, until
   * the names run out.
   */
  method SplitChunk(output: ArchiveWriter, names: Names, next0: nat, entryId0: nat, b: Bytes, sep: Bytes,
    ghost m0: EntryMap, ghost first: nat, ghost pieces0: seq<Bytes>)
    returns (r: Result<(nat, nat), Error>, previousEnd: nat, ghost pieces: seq<Bytes>, ghost qs: seq<Bytes>)
    requires Writing(output, names, next0, entryId0, m0, first, pieces0) && |b| < U64_LIMIT
    modifies output
    ensures output.Valid()
    ensures r.Ok? ==> Writing(output, names, r.value.0, r.value.1, m0, first, pieces)
    ensures r.Ok? && sep != [] ==>
      previousEnd <= |b| && Split(sep, b) == qs + [b[previousEnd..]] && pieces == Opened(pieces0, qs)
    ensures r.Err? ==> r.error in {EntryCountMismatch, InvalidEntryNameToPath, DuplicateEntryName}
    ensures r.Err? && sep != [] ==> !Usable(m0, names, |pieces0| + |Split(sep, b)| - 1)
    ensures sep == [] ==> r.Err?
  {
    hide Run, Added, Usable, Split, First, Flat, Legal, StateMatches, NamesMatch, IndexMatches, IdsFresh, Opened,
      Writing;
    WritingValid(output, names, next0, entryId0, m0, first, pieces0);
    var next, entryId := next0, entryId0;
    previousEnd, pieces, qs := 0, pieces0, [];
    var idx := 0;
    assert b[0..] == b;
    if sep != [] {
      assert [] + Split(sep, b) == Split(sep, b);
    }
    OpenedNothing(pieces0);
    while idx + |sep| <= |b|
      invariant Writing(output, names, next, entryId, m0, first, pieces) && output.Valid() && pieces != []
      invariant previousEnd <= idx <= |b|
      invariant sep == [] ==> idx == 0
      invariant sep != [] ==>
        Split(sep, b) == qs + Split(sep, b[previousEnd..]) && pieces == Opened(pieces0, qs)
      invariant forall k :: 0 <= k < idx - previousEnd ==> !At(sep, b[previousEnd..], k)
      decreases |names| - next, |b| - idx
    {
      if sep != [] {
        NextFound(sep, b, previousEnd, idx);
      }
      if At(sep, b, idx) {
        var piece := b[previousEnd..idx];
        var started := NextEntry(output, names, next, entryId, piece, m0, first, pieces);
        OpenedStep(pieces0, qs, piece);
        ghost var count := |pieces|;
        pieces := Front(pieces) + [Last(pieces) + piece] + [[]];
        qs := qs + [piece];
        match started {
          case Err(e) =>
            r := Err(e);
            if sep != [] && Usable(m0, names, |pieces0| + |Split(sep, b)| - 1) {
              UsableMore(m0, names, count + 1, |pieces0| + |Split(sep, b)| - 1);
            }
            return;
          case Ok(id) =>
            next, entryId := next + 1, id;
            idx := idx + |sep|;
            previousEnd := idx;
        }
      } else {
        idx := idx + 1;
      }
    }
    NextFound(sep, b, previousEnd, idx);
    r := Ok((next, entryId));
  }

  lemma OpenedNothing(pieces: seq<Bytes>)
    requires pieces != []
    ensures Opened(pieces, []) == pieces
  {}

  // ---------- The stream ----------

  /** All input so far splits into the pieces written, the last of them still without what is held back. */
  ghost predicate Streaming(sep: Bytes, consumed: Bytes, pieces: seq<Bytes>, h: Bytes) {
    && sep != [] && pieces != []
    && Split(sep, consumed) == Front(pieces) + [Last(pieces) + h]
    && Held(sep, Last(pieces) + h) == |h|
  }

  /** The pieces once the last buffer's are written, but for its held back end. */
  function Written(sep: Bytes, pieces: seq<Bytes>, qs: seq<Bytes>, t: Bytes): (r: seq<Bytes>)
    requires pieces != []
    ensures r != []
  {
    var o := Opened(pieces, qs);
    Front(o) + [Last(o) + t[..|t| - Held(sep, t)]]
  }

  /** Splitting buffer after buffer splits the whole input, however it is cut into reads. */
  lemma ChunkSplit(sep: Bytes, consumed: Bytes, pieces: seq<Bytes>, h: Bytes, more: Bytes, qs: seq<Bytes>, t: Bytes)
    requires Streaming(sep, consumed, pieces, h) && Split(sep, h + more) == qs + [t]
    ensures Streaming(sep, consumed + more, Written(sep, pieces, qs, t), t[|t| - Held(sep, t)..])
    ensures |Split(sep, consumed + more)| == |pieces| + |qs|
  {
    hide Split, First, Held, Opened;
    var cur, o, cut := Last(pieces), Opened(pieces, qs), |t| - Held(sep, t);
    SplitExact(sep, consumed);
    SplitAppend(sep, consumed, more);
    assert cur + h + more == cur + (h + more);
    SplitBuffer(sep, cur, h, more);
    OpenedWhole(pieces, qs, t);
    assert t[..cut] + t[cut..] == t;
    assert Last(o) + t[..cut] + t[cut..] == Last(o) + t;
    if qs == [] {
      SplitExact(sep, h + more);
      OpenedNothing(pieces);
      assert qs + [t] == [t];
      HeldInBuffer(sep, cur, h, more);
    } else {
      OpenedFresh(pieces, qs);
      assert Last(o) + t == t;
    }
  }

  /** How many pieces there are then, also when the buffer's cannot all be given a name. */
  lemma ChunkCount(sep: Bytes, consumed: Bytes, pieces: seq<Bytes>, h: Bytes, more: Bytes, rest: Bytes)
    requires Streaming(sep, consumed, pieces, h)
    ensures |Split(sep, consumed + more + rest)| >= |Split(sep, consumed + more)|
    ensures |Split(sep, consumed + more)| == |pieces| + |Split(sep, h + more)| - 1
  {
    hide Split, First, Held;
    var cur := Last(pieces);
    SplitExact(sep, consumed);
    SplitAppend(sep, consumed, more);
    assert cur + h + more == cur + (h + more);
    SplitBuffer(sep, cur, h, more);
    SplitAppend(sep, consumed + more, rest);
  }

  lemma NotUsableMore(m: EntryMap, names: Names, count: nat, more: nat)
    requires count <= more && !Usable(m, names, count)
    ensures !Usable(m, names, more)
  {}

  lemma NothingRead(sep: Bytes)
    requires sep != []
    ensures Streaming(sep, [], [[]], [])
  {
    assert First(sep, [], 0) == None;
    SplitAtNone(sep, []);
    var nothing: Bytes := [];
    var ps := [nothing];
    assert Last(ps) + nothing == nothing;
    assert Front(ps) + [nothing] == ps;
  }

  lemma NothingAdded(m0: EntryMap, first: nat, names: Names)
    requires IdsFresh(first, m0)
    ensures Added(m0, m0, first, names, [], false) && Usable(m0, names, 0)
  {}

  /** At the end of the input the open piece is the last one, without what is held back. */
  lemma StreamEnds(sep: Bytes, data: Bytes, pieces: seq<Bytes>, h: Bytes)
    requires Streaming(sep, data, pieces, h)
    ensures pieces == Kept(sep, Split(sep, data)) && |Split(sep, data)| == |pieces|
  {
    hide Split, Held;
    var ps := Split(sep, data);
    assert Front(ps) == Front(pieces) && Last(ps) == Last(pieces) + h;
    assert pieces == Front(pieces) + [Last(pieces)];
  }

  lemma OpenedFresh(pieces: seq<Bytes>, qs: seq<Bytes>)
    requires pieces != [] && qs != []
    ensures Last(Opened(pieces, qs)) == []
  {}

  /** What ends up in the entries: the pieces, but the last without the longest proper separator prefix at its end. */
  function Kept(sep: Bytes, ps: seq<Bytes>): (r: seq<Bytes>)
    requires ps != []
    ensures |r| == |ps|
  {
    Front(ps) + [Last(ps)[..|Last(ps)| - Held(sep, Last(ps))]]
  }

  /** `in_buffer.copy_within(from..from + n, 0)` */
  method CopyWithin(buf: array<byte>, from: nat, n: nat)
    requires from + n <= buf.Length
    modifies buf
    ensures buf[..n] == old(buf[from..from + n])
  {
    forall i | 0 <= i < n {
      buf[i] := buf[from + i];
    }
  }

  /** Splits what the buffer holds, writes it but for what is held back, and moves that to the front. */
  method ProcessBuffer(output: ArchiveWriter, names: Names, next: nat, entryId: nat, inBuffer: array<byte>, end: nat,
    sep: Bytes, ghost m0: EntryMap, ghost first: nat, ghost pieces: seq<Bytes>, ghost consumed: Bytes, ghost h: Bytes,
      ghost more: Bytes, ghost rest: Bytes)
    returns (r: Result<(nat, nat), Error>, offset: nat, ghost pieces': seq<Bytes>)
    requires Writing(output, names, next, entryId, m0, first, pieces)
    requires inBuffer.Length == STDIN_BUFFER_SIZE && end <= inBuffer.Length && inBuffer[..end] == h + more
      && |sep| <= STDIN_BUFFER_SIZE
    requires sep != [] ==> Streaming(sep, consumed, pieces, h)
    modifies output, inBuffer
    ensures output.Valid()
    ensures r.Ok? ==>
      && sep != [] && offset < inBuffer.Length
      && Writing(output, names, r.value.0, r.value.1, m0, first, pieces')
      && Streaming(sep, consumed + more, pieces', inBuffer[..offset])
    ensures r.Err? ==> r.error in {EntryCountMismatch, InvalidEntryNameToPath, DuplicateEntryName}
    ensures r.Err? && sep != [] ==> !Usable(m0, names, |Split(sep, consumed + more + rest)|)
  {
    hide Run, Added, Usable, Split, Held, Flat, Legal, StateMatches, NamesMatch, IndexMatches, IdsFresh,
      Opened, Streaming;
    var b := inBuffer[..end];
    ghost var qs, whole;
    var scanned, previousEnd;
    scanned, previousEnd, whole, qs := SplitChunk(output, names, next, entryId, b, sep, m0, first, pieces);
    offset, pieces' := 0, pieces;
    match scanned {
      case Err(e) =>
        if sep != [] {
          ChunkCount(sep, consumed, pieces, h, more, rest);
          NotUsableMore(m0, names, |pieces| + |Split(sep, b)| - 1, |Split(sep, consumed + more + rest)|);
        }
        r := Err(e);
      case Ok((next', entryId')) =>
        var lastSubslice := b[previousEnd..];
        var held := FindHeld(sep, lastSubslice);
        ChunkSplit(sep, consumed, pieces, h, more, qs, lastSubslice);
        var appended := AppendTo(output, entryId', lastSubslice[..|lastSubslice| - held], names, m0, first, whole);
        pieces' := Written(sep, pieces, qs, lastSubslice);
        assert lastSubslice[|lastSubslice| - held..] == b[end - held..end];
        CopyWithin(inBuffer, end - held, held);
        offset := held;
        r := Ok((next', entryId'));
    }
  }

  /**
   * `add_from_stdin_separated`. However the reads cut the input, the entries
   * written are the leftmost split of it, except that the last one lacks the
   * longest proper prefix of the separator the input ends with: what is held
   * back at the end of the input is never written. It fails exactly when a
   * piece finds no name it can be given.
   */
  method AddFromStdinSeparated(output: ArchiveWriter, names: Names, sep: Bytes, stdin: ByteSource)
    returns (r: Result<(), Error>)
    requires output.Valid() && stdin.Readable() && stdin.pos == 0 && output.nextId + |names| < U64_LIMIT
    modifies output, stdin
    ensures output.Valid()
    ensures |sep| > STDIN_BUFFER_SIZE ==> r == Err(SeparatorTooBig) && unchanged(output) && unchanged(stdin)
    ensures 1 <= |sep| <= STDIN_BUFFER_SIZE && stdin.failure.None? ==>
      && (r.Ok? <==> Usable(Run(old(output.blocks)), names, |Split(sep, stdin.data)|))
      && (r.Ok? ==>
        Added(Run(old(output.blocks)), Run(output.blocks), old(output.nextId), names,
          Kept(sep, Split(sep, stdin.data)), false))
      && (r.Err? ==> r.error in {EntryCountMismatch, InvalidEntryNameToPath, DuplicateEntryName})
    ensures sep == [] && stdin.data != [] ==> r.Err?
  {
    hide Run, Added, Usable, Split, Held, Flat, Legal, StateMatches, NamesMatch, IndexMatches, Opened, Streaming;
    if |sep| > STDIN_BUFFER_SIZE {
      return Err(SeparatorTooBig);
    }
    ghost var m0, first := Run(output.blocks), output.nextId;
    NothingAdded(m0, first, names);
    if sep != [] {
      NothingRead(sep);
    }
    var inBuffer := new byte[STDIN_BUFFER_SIZE];
    var offset: nat := 0;
    var next: nat := 0;
    var started := StartNext(output, names, next, m0, first, []);
    if started.Err? {
      if sep != [] {
        NotUsableMore(m0, names, 1, |Split(sep, stdin.data)|);
      }
      return Err(started.error);
    }
    var entryId := started.value;
    next := next + 1;
    ghost var pieces: seq<Bytes> := [[]];
    assert [] + [[]] == pieces;
    while true
      invariant stdin.Readable() && Writing(output, names, next, entryId, m0, first, pieces)
      invariant offset < inBuffer.Length == STDIN_BUFFER_SIZE
      invariant sep != [] ==> Streaming(sep, stdin.data[..stdin.pos], pieces, inBuffer[..offset])
      invariant sep == [] ==> stdin.pos == 0
      decreases |stdin.data| - stdin.pos
    {
      ghost var at, h := stdin.pos, inBuffer[..offset];
      var read := stdin.ReadInto(inBuffer, offset, STDIN_BUFFER_SIZE - offset);
      match read {
        case Err(e) =>
          return Err(e);
        case Ok(count) =>
          if count == 0 {
            assert inBuffer[..offset] == h;
            break;
          }
          ghost var more := stdin.data[at..stdin.pos];
          assert stdin.data[..at] + more == stdin.data[..stdin.pos];
          assert stdin.data == stdin.data[..at] + more + stdin.data[stdin.pos..];
          var processed;
          processed, offset, pieces := ProcessBuffer(output, names, next, entryId, inBuffer, offset + count, sep,
            m0, first, pieces, stdin.data[..at], h, more, stdin.data[stdin.pos..]);
          if processed.Err? {
            return Err(processed.error);
          }
          next, entryId := processed.value.0, processed.value.1;
      }
    }
    assert stdin.data[..stdin.pos] == stdin.data;
    if sep != [] {
      StreamEnds(sep, stdin.data, pieces, inBuffer[..offset]);
    }
    var ended := EndCurrent(output, entryId, names, m0, first, pieces);
    r := Ok(());
  }

  /**
   * The streamed entries are the batch split exactly when its last piece does
   * not end with the beginning of a separator.
   */
  lemma StreamedIsBatch(sep: Bytes, s: Bytes)
    requires sep != []
    ensures Kept(sep, Split(sep, s)) == Split(sep, s) <==>
      forall n :: 0 < n < |sep| ==> !EndsWith(Last(Split(sep, s)), sep, n)
  {
    hide Split, EndsWith;
    var ps := Split(sep, s);
    var h := Held(sep, Last(ps));
    assert ps == Front(ps) + [Last(ps)];
    assert Kept(sep, ps) == ps ==> Last(Kept(sep, ps)) == Last(ps) && |Last(ps)| - h == |Last(ps)|;
    if h == 0 {
      assert Last(ps)[..|Last(ps)|] == Last(ps);
    }
  }

  /** Not every input is kept whole: with separator `ab`, of `xa` only `x` is written. */
  lemma HeldBackIsLost()
    ensures Split(Ascii("ab"), Ascii("xa")) == [Ascii("xa")]
      && Kept(Ascii("ab"), Split(Ascii("ab"), Ascii("xa"))) == [Ascii("x")]
  {
    var sep, s := Ascii("ab"), Ascii("xa");
    assert s[0] != sep[0];
    assert s[0..2] != sep;
    assert First(sep, s, 0) == None;
    SplitAtNone(sep, s);
    assert EndsWith(s, sep, 1) by {
      assert s[1..] == sep[..1];
    }
    HeldUnique(sep, s, 1);
    assert Front([s]) == [] && s[..1] == Ascii("x");
  }
}
