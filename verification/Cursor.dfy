/** Runs of reads and seeks on a byte string: what a layer promises to whoever works on it. */
module Cursors {
  import opened Io

  datatype Operation = DoRead(n: nat) | DoSeek(s: SeekFrom)

  datatype Reply = Got(bytes: Bytes) | Moved(answer: nat) | Refused

  /** Whoever works on a reader: its next operation depends on all replies so far. */
  type Client = seq<Reply> -> Operation

  /** One operation on a cursor at `pos` of a byte string. */
  ghost predicate CursorStep(content: Bytes, pos: nat, op: Operation, reply: Reply, pos': nat) {
    && pos <= |content| && pos' <= |content|
    && match op
       case DoRead(n) =>
         && reply.Got? && pos' == pos + |reply.bytes| && |reply.bytes| <= n
         && reply.bytes == content[pos..pos'] && (n > 0 && pos < |content| ==> reply.bytes != [])
       case DoSeek(s) =>
         var target := SeekTarget(|content|, pos, s);
         if 0 <= target <= |content| then reply.Moved? && pos' == target else reply == Refused && pos' == pos
  }

  /** A run of operations on a cursor, with the positions it goes through. */
  datatype History = History(positions: seq<nat>, ops: seq<Operation>, replies: seq<Reply>) {

    ghost predicate OfCursor(content: Bytes, start: nat) {
      && |ops| == |replies| && |positions| == |ops| + 1 && positions[0] == start
      && forall i :: 0 <= i < |ops| ==> CursorStep(content, positions[i], ops[i], replies[i], positions[i + 1])
    }

    ghost predicate AskedBy(client: Client) {
      && |ops| == |replies|
      && forall i :: 0 <= i < |ops| ==> ops[i] == client(replies[..i])
    }

    /** Every answer to a seek is the position reached. */
    ghost predicate Truthful() {
      && |positions| == |replies| + 1
      && forall i :: 0 <= i < |replies| && replies[i].Moved? ==> replies[i].answer == positions[i + 1]
    }

    ghost function At(): nat
      requires positions != []
    {
      positions[|positions| - 1]
    }

    /** The last operation was a read that got something. */
    ghost predicate JustGot() {
      replies != [] && replies[|replies| - 1].Got? && replies[|replies| - 1].bytes != []
    }

    ghost function Then(op: Operation, reply: Reply, pos: nat): History {
      History(positions + [pos], ops + [op], replies + [reply])
    }
  }

  ghost predicate Plays(content: Bytes, start: nat, client: Client, run: History) {
    run.OfCursor(content, start) && run.AskedBy(client) && run.Truthful()
  }

  lemma PlaysNothing(content: Bytes, start: nat, client: Client)
    ensures Plays(content, start, client, History([start], [], []))
  {}

  lemma PlaysOn(content: Bytes, start: nat, client: Client, run: History, op: Operation, reply: Reply, pos: nat)
    requires run.OfCursor(content, start) && run.AskedBy(client)
    requires op == client(run.replies) && CursorStep(content, run.At(), op, reply, pos)
    ensures run.Then(op, reply, pos).OfCursor(content, start) && run.Then(op, reply, pos).AskedBy(client)
    ensures run.Then(op, reply, pos).At() == pos
    ensures run.Truthful() && (reply.Moved? ==> reply.answer == pos) ==> run.Then(op, reply, pos).Truthful()
  {
    hide CursorStep;
    var next := run.Then(op, reply, pos);
    forall i | 0 <= i < |next.ops|
      ensures CursorStep(content, next.positions[i], next.ops[i], next.replies[i], next.positions[i + 1])
      ensures next.ops[i] == client(next.replies[..i])
    {
      if i < |run.ops| {
        assert next.replies[..i] == run.replies[..i];
      } else {
        assert next.replies[..i] == run.replies;
      }
    }
  }

  // ---------- Manners ----------

  function After(m: Manners, len: nat, pos: nat, op: Operation): Manners {
    match op
    case DoRead(_) => m.AfterRead(len, pos)
    case DoSeek(s) => m.AfterSeek(len, SeekTarget(len, pos, s))
  }

  /** A client that only reads before the end and seeks into the string. */
  ghost predicate StaysInside(content: Bytes, start: nat, client: Client) {
    forall run: History :: Plays(content, start, client, run) ==>
      After(GOOD_MANNERS, |content|, run.At(), client(run.replies)).inside
  }

  /** A client that only seeks to positions before the end. */
  ghost predicate SeeksBeforeEnd(content: Bytes, start: nat, client: Client) {
    forall run: History :: Plays(content, start, client, run) ==>
      After(GOOD_MANNERS, |content|, run.At(), client(run.replies)).beforeEnd
  }

  // ---------- Byte sources ----------

  /** A byte source is a cursor on its bytes, whatever is asked of it. */
  method ServeSource(src: ByteSource, client: Client, count: nat) returns (replies: seq<Reply>, ghost run: History)
    requires src.Valid()
    modifies src
    ensures src.Valid() && Plays(src.data, old(src.pos), client, run)
    ensures run.replies == replies && |replies| == count && run.At() == src.pos
  {
    hide CursorStep;
    replies, run := [], History([src.pos], [], []);
    for i := 0 to count
      invariant src.Valid() && Plays(src.data, old(src.pos), client, run)
      invariant run.replies == replies && |replies| == i && run.At() == src.pos
    {
      var op := client(replies);
      var reply := AskSource(src, op);
      PlaysOn(src.data, old(src.pos), client, run, op, reply, src.pos);
      run := run.Then(op, reply, src.pos);
      replies := replies + [reply];
    }
  }

  method AskSource(src: ByteSource, op: Operation) returns (reply: Reply)
    requires src.Valid()
    modifies src
    ensures src.Valid() && CursorStep(src.data, old(src.pos), op, reply, src.pos)
    ensures reply.Moved? ==> reply.answer == src.pos
    ensures src.manners == After(old(src.manners), |src.data|, old(src.pos), op)
  {
    match op {
      case DoRead(n) =>
        var bytes := src.Read(n);
        reply := Got(bytes);
      case DoSeek(s) =>
        var moved := src.Seek(s);
        reply := if moved.Ok? then Moved(moved.value) else Refused;
    }
  }
}
