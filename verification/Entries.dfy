/** What a run of blocks means: the entries it starts, their content, and where their blocks lie. */
module Entries {
  import opened Io
  import opened BlockFormat

  /** SHA-256, kept abstract. */
  type Sha = Bytes -> Hash

  datatype Entry = Entry(name: Name, content: Bytes, closed: bool)

  /** The entries seen so far, by id. */
  type EntryMap = map<nat, Entry>

  // ---------- Legal runs ----------

  /** What a writer may write next: fresh ids and names, content of open entries, and their true hash. */
  ghost predicate Accepts(sha: Sha, m: EntryMap, b: Block) {
    match b
    case EntryStart(id, name) => id !in m && id < U64_LIMIT && forall i :: i in m ==> m[i].name != name
    case EntryContent(id, data) => id in m && id < U64_LIMIT && !m[id].closed && 0 < |data| < U64_LIMIT
    case EndOfEntry(id, hash) => id in m && id < U64_LIMIT && !m[id].closed && hash == sha(m[id].content)
    case EndOfArchiveData => false
  }

  function Step(m: EntryMap, b: Block): EntryMap {
    match b
    case EntryStart(id, name) => m[id := Entry(name, [], false)]
    case EntryContent(id, data) => if id in m then m[id := m[id].(content := m[id].content + data)] else m
    case EndOfEntry(id, _) => if id in m then m[id := m[id].(closed := true)] else m
    case EndOfArchiveData => m
  }

  function Run(bs: seq<Block>): EntryMap {
    if bs == [] then map[] else Step(Run(bs[..|bs| - 1]), bs[|bs| - 1])
  }

  ghost predicate Legal(sha: Sha, bs: seq<Block>) {
    bs == [] || (Legal(sha, bs[..|bs| - 1]) && Accepts(sha, Run(bs[..|bs| - 1]), bs[|bs| - 1]))
  }

  /** Extending a run by one legal block. */
  lemma LegalStep(sha: Sha, bs: seq<Block>, b: Block)
    requires Legal(sha, bs) && Accepts(sha, Run(bs), b)
    ensures Legal(sha, bs + [b]) && Run(bs + [b]) == Step(Run(bs), b)
  {
    assert (bs + [b])[..|bs|] == bs;
  }

  lemma {:induction false} LegalPrefix(sha: Sha, bs: seq<Block>, n: nat)
    requires Legal(sha, bs) && n <= |bs|
    ensures Legal(sha, bs[..n])
    ensures n < |bs| ==>
      Accepts(sha, Run(bs[..n]), bs[n]) && Run(bs[..n + 1]) == Step(Run(bs[..n]), bs[n]) && bs[n].Fits()
    decreases |bs|
  {
    if n == |bs| {
      assert bs[..n] == bs;
    } else if n == |bs| - 1 {
      assert bs[..n + 1] == bs;
    } else {
      var front := bs[..|bs| - 1];
      LegalPrefix(sha, front, n);
      assert front[..n] == bs[..n] && front[..n + 1] == bs[..n + 1] && front[n] == bs[n];
    }
  }

  ghost predicate HasName(m: EntryMap, name: Name) {
    exists id :: id in m && m[id].name == name
  }

  ghost predicate NamesDistinct(m: EntryMap) {
    forall i, j :: i in m && j in m && m[i].name == m[j].name ==> i == j
  }

  lemma {:induction false} LegalNames(sha: Sha, bs: seq<Block>)
    requires Legal(sha, bs)
    ensures NamesDistinct(Run(bs))
  {
    if bs != [] {
      LegalNames(sha, bs[..|bs| - 1]);
    }
  }

  // ---------- Bytes ----------

  const ENTRIES_MAGIC: Bytes := Ascii("MLAENAAA")
  const ENTRIES_HEADER: Bytes := ENTRIES_MAGIC + EMPTY_OPTS

  function Flat(bs: seq<Block>): Bytes {
    if bs == [] then [] else Flat(bs[..|bs| - 1]) + Encode(bs[|bs| - 1])
  }

  /** Position of block `j` in the entries stream. */
  function Offset(bs: seq<Block>, j: nat): (at: nat)
    requires j <= |bs|
  {
    |ENTRIES_HEADER| + |Flat(bs[..j])|
  }

  /** Where the content bytes of block `j` start. */
  function DataStart(bs: seq<Block>, j: nat): nat
    requires j < |bs|
  {
    Offset(bs, j) + |HeadBytes(bs[j])|
  }

  lemma {:induction false} FlatSplit(bs: seq<Block>, j: nat)
    requires j <= |bs|
    ensures Flat(bs[..j]) <= Flat(bs)
    ensures j < |bs| ==> Flat(bs[..j + 1]) == Flat(bs[..j]) + Encode(bs[j])
    decreases |bs|
  {
    if j == |bs| {
      assert bs[..j] == bs;
    } else {
      var front := bs[..|bs| - 1];
      assert bs[..j + 1][..j] == bs[..j];
      if j == |front| {
        assert bs[..j + 1] == bs;
      } else {
        FlatSplit(front, j);
        assert front[..j] == bs[..j];
      }
    }
  }

  /** The stream holds block `j` at its offset, and the next block right behind it. */
  lemma BlockAt(bs: seq<Block>, tail: Bytes, j: nat)
    requires j < |bs|
    ensures var s := ENTRIES_HEADER + Flat(bs) + tail;
            var at := Offset(bs, j);
            Offset(bs, j + 1) == at + |Encode(bs[j])| <= |s| - |tail| && s[at..Offset(bs, j + 1)] == Encode(bs[j]) &&
            s[at..] == Encode(bs[j]) + s[Offset(bs, j + 1)..]
  {
    hide Encode, HeadBytes, Flat;
    FlatSplit(bs, j);
    FlatSplit(bs, j + 1);
    var a, b, flat := Flat(bs[..j]), Encode(bs[j]), Flat(bs);
    var more := flat[|a + b|..];
    assert flat == a + b + more;
    var s := ENTRIES_HEADER + flat + tail;
    assert s == (ENTRIES_HEADER + a) + b + (more + tail);
    SplitAt(ENTRIES_HEADER + a, b, more + tail);
  }

  lemma {:induction false} OffsetsIncrease(bs: seq<Block>, i: nat, j: nat)
    requires i < j <= |bs|
    ensures Offset(bs, i) < Offset(bs, j)
  {
    hide Flat, Encode;
    FlatSplit(bs, j - 1);
    if i < j - 1 {
      OffsetsIncrease(bs, i, j - 1);
    }
  }

  // ---------- Index ----------

  /** Where the blocks of an entry are in the run. */
  function Occurrences(bs: seq<Block>, id: nat): seq<nat> {
    if bs == [] then []
    else
      var front, n := bs[..|bs| - 1], |bs| - 1;
      if bs[n].IsOf(id) then Occurrences(front, id) + [n] else Occurrences(front, id)
  }

  /** Offsets and content sizes of an entry's blocks, in order. */
  function Index(bs: seq<Block>, id: nat): seq<(nat, nat)> {
    if bs == [] then []
    else
      var front, n := bs[..|bs| - 1], |bs| - 1;
      if bs[n].IsOf(id) then Index(front, id) + [(Offset(bs, n), |bs[n].Content()|)] else Index(front, id)
  }

  function Total(index: seq<(nat, nat)>): nat {
    if index == [] then 0 else Total(index[..|index| - 1]) + index[|index| - 1].1
  }

  lemma IndexStep(bs: seq<Block>, b: Block, id: nat)
    ensures Index(bs + [b], id)
      == if b.IsOf(id) then Index(bs, id) + [(Offset(bs, |bs|), |b.Content()|)] else Index(bs, id)
    ensures Occurrences(bs + [b], id) == if b.IsOf(id) then Occurrences(bs, id) + [|bs|] else Occurrences(bs, id)
  {
    hide Flat, Encode;
    var s := bs + [b];
    assert s[..|s| - 1] == bs && s[|s| - 1] == b;
    assert Offset(s, |bs|) == Offset(bs, |bs|) by {
      assert s[..|bs|] == bs[..|bs|];
    }
  }

  lemma RunStep(bs: seq<Block>, b: Block)
    ensures Run(bs + [b]) == Step(Run(bs), b)
  {
    assert (bs + [b])[..|bs|] == bs;
  }

  /** Occurrences are in increasing order. */
  lemma {:induction false} OccurrencesIncrease(bs: seq<Block>, id: nat)
    ensures forall i :: 0 <= i < |Occurrences(bs, id)| ==> Occurrences(bs, id)[i] < |bs|
    ensures forall i, k :: 0 <= i < k < |Occurrences(bs, id)| ==> Occurrences(bs, id)[i] < Occurrences(bs, id)[k]
  {
    if bs != [] {
      OccurrencesIncrease(bs[..|bs| - 1], id);
    }
  }

  /** Occurrences are exactly the entry's blocks. */
  lemma {:induction false} OccurrencesExact(bs: seq<Block>, id: nat, j: nat)
    ensures j in Occurrences(bs, id) <==> j < |bs| && bs[j].IsOf(id)
  {
    if bs != [] {
      var front, n := bs[..|bs| - 1], |bs| - 1;
      OccurrencesExact(front, id, j);
      var occ := Occurrences(front, id);
      assert j in occ + [n] <==> j in occ || j == n;
    }
  }

  ghost predicate IndexedAt(bs: seq<Block>, j: nat, at: (nat, nat)) {
    j < |bs| && at == (Offset(bs, j), |bs[j].Content()|)
  }

  /** The index gives each of those blocks its offset and its content size. */
  lemma {:induction false} IndexExact(bs: seq<Block>, id: nat)
    ensures |Index(bs, id)| == |Occurrences(bs, id)|
    ensures forall i :: 0 <= i < |Index(bs, id)| ==> IndexedAt(bs, Occurrences(bs, id)[i], Index(bs, id)[i])
  {
    if bs != [] {
      var front, n := bs[..|bs| - 1], |bs| - 1;
      IndexExact(front, id);
      forall j: nat, at | IndexedAt(front, j, at)
        ensures IndexedAt(bs, j, at)
      {
        assert front[..j] == bs[..j];
      }
    }
  }

  /** Offsets in an index are strictly increasing. */
  lemma IndexIncreasing(bs: seq<Block>, id: nat)
    ensures forall i, k :: 0 <= i < k < |Index(bs, id)| ==> Index(bs, id)[i].0 < Index(bs, id)[k].0
  {
    IndexExact(bs, id);
    OccurrencesIncrease(bs, id);
    forall i, k | 0 <= i < k < |Index(bs, id)|
      ensures Index(bs, id)[i].0 < Index(bs, id)[k].0
    {
      assert IndexedAt(bs, Occurrences(bs, id)[i], Index(bs, id)[i])
        && IndexedAt(bs, Occurrences(bs, id)[k], Index(bs, id)[k]);
      OffsetsIncrease(bs, Occurrences(bs, id)[i], Occurrences(bs, id)[k]);
    }
  }

  // ---------- Shape and content of an entry ----------

  /** In a legal run an entry is one start, contents that are not empty, and at most one end, last. */
  ghost predicate Shaped(sha: Sha, bs: seq<Block>, id: nat, occ: seq<nat>, e: Entry) {
    && occ != []
    && (forall i :: 0 <= i < |occ| ==> occ[i] < |bs| && bs[occ[i]].IsOf(id))
    && bs[occ[0]] == EntryStart(id, e.name)
    && (e.closed ==> |occ| >= 2 && bs[occ[|occ| - 1]] == EndOfEntry(id, sha(e.content)))
    && (forall i :: 0 < i < (if e.closed then |occ| - 1 else |occ|) ==>
          bs[occ[i]].EntryContent? && bs[occ[i]].data != [])
  }

  lemma {:induction false} EntryShape(sha: Sha, bs: seq<Block>, id: nat)
    requires Legal(sha, bs)
    ensures id !in Run(bs) ==> Occurrences(bs, id) == []
    ensures id in Run(bs) ==> Shaped(sha, bs, id, Occurrences(bs, id), Run(bs)[id])
  {
    if bs != [] {
      var front, n := bs[..|bs| - 1], |bs| - 1;
      EntryShape(sha, front, id);
      var occ, occ' := Occurrences(front, id), Occurrences(bs, id);
      assert forall j :: 0 <= j < n ==> front[j] == bs[j];
      if bs[n].IsOf(id) {
        assert occ' == occ + [n];
        assert forall i :: 0 <= i < |occ| ==> occ'[i] == occ[i];
      }
    }
  }

  /** Block `i` of the entry holds the content bytes that follow the sizes before it. */
  ghost predicate ContentPiece(bs: seq<Block>, index: seq<(nat, nat)>, occ: seq<nat>, i: nat, content: Bytes) {
    i < |index| && i < |occ| && occ[i] < |bs| &&
    var at := Total(index[..i]);
    at + index[i].1 <= |content| && content[at..at + index[i].1] == bs[occ[i]].Content()
  }

  /** `content` is the concatenation of the listed blocks' bytes. */
  ghost predicate Pieced(bs: seq<Block>, index: seq<(nat, nat)>, occ: seq<nat>, content: Bytes) {
    |index| == |occ| && Total(index) == |content| &&
    forall i :: 0 <= i < |index| ==> ContentPiece(bs, index, occ, i, content)
  }

  lemma NothingPieced(bs: seq<Block>)
    ensures Pieced(bs, [], [], [])
  {}

  /** Adding one block, of this entry or of another, keeps the pieces in place. */
  lemma ContentStep(bs: seq<Block>, index: seq<(nat, nat)>, occ: seq<nat>, content: Bytes, b: Block, at: nat)
    requires Pieced(bs, index, occ, content)
    ensures Pieced(bs + [b], index + [(at, |b.Content()|)], occ + [|bs|], content + b.Content())
    ensures Pieced(bs + [b], index, occ, content)
  {
    var index' := index + [(at, |b.Content()|)];
    assert index'[..|index|] == index;
    forall i | 0 <= i < |index|
      ensures ContentPiece(bs + [b], index, occ, i, content)
      ensures ContentPiece(bs + [b], index', occ + [|bs|], i, content + b.Content())
    {
      assert ContentPiece(bs, index, occ, i, content);
      assert index'[..i] == index[..i];
    }
  }

  /** Entry content is the concatenation of its blocks. */
  lemma {:induction false} ContentAt(sha: Sha, bs: seq<Block>, id: nat)
    requires Legal(sha, bs) && id in Run(bs)
    ensures Pieced(bs, Index(bs, id), Occurrences(bs, id), Run(bs)[id].content)
  {
    hide Flat, Encode, Pieced, Index, Occurrences, Legal, Offset;
    var front, n := bs[..|bs| - 1], |bs| - 1;
    var b := bs[n];
    assert front + [b] == bs;
    LegalPrefix(sha, bs, n);
    hide Run;
    RunStep(front, b);
    IndexStep(front, b, id);
    if id in Run(front) {
      ContentAt(sha, front, id);
      hide Run, Index, Occurrences, Legal, Offset;
      var content := Run(front)[id].content;
      ContentStep(front, Index(front, id), Occurrences(front, id), content, b, Offset(front, n));
      assert content + [] == content;
    } else {
      EntryShape(sha, front, id);
      IndexExact(front, id);
      hide Run, Index, Occurrences, Legal, Offset;
      NothingPieced(front);
      ContentStep(front, [], [], [], b, Offset(front, n));
    }
  }

  lemma {:induction false} TotalSplit(index: seq<(nat, nat)>, i: nat)
    requires i < |index|
    ensures Total(index[..i + 1]) == Total(index[..i]) + index[i].1
    ensures Total(index[..i]) + index[i].1 <= Total(index)
    decreases |index|
  {
    assert index[..i + 1][..i] == index[..i];
    if i == |index| - 1 {
      assert index[..i + 1] == index;
    } else {
      TotalSplit(index[..|index| - 1], i);
      assert index[..|index| - 1][..i] == index[..i];
      assert index[..|index| - 1][..i + 1] == index[..i + 1];
    }
  }
}
