/** A reader's view of an inner layer without a number of bytes at its start and end. */
module StripHeadTail {
  import opened Io
  import opened Cursors

  function Window(inner: Bytes, head: nat, tail: nat): (w: Bytes)
    requires head + tail <= |inner|
    ensures |w| == |inner| - head - tail
  {
    inner[head..|inner| - tail]
  }

  /** Stacked views add their heads and their tails. */
  lemma WindowsCompose(inner: Bytes, head: nat, tail: nat, head': nat, tail': nat)
    requires head + head' + tail + tail' <= |inner|
    ensures Window(Window(inner, head, tail), head', tail') == Window(inner, head + head', tail + tail')
  {
    SliceOfSlice(inner, head, |inner| - tail, head', |inner| - tail - head - tail');
  }

  class StripHeadTailReader {
    const inner: ByteSource
    const headLen: nat
    const tailLen: nat
    const innerLenInclHeadTail: nat
    var currentPositionInThisLayer: nat

    /** The inner length is the true one, and the inner position is the own position past the head. */
    ghost predicate Valid()
      reads this, inner
    {
      && inner.Valid()
      && innerLenInclHeadTail == |inner.data|
      && headLen + tailLen <= innerLenInclHeadTail
      && currentPositionInThisLayer <= innerLenInclHeadTail - headLen - tailLen
      && inner.pos == headLen + currentPositionInThisLayer
    }

    /** The bytes this view shows. */
    function View(): Bytes
      requires headLen + tailLen <= |inner.data|
    {
      Window(inner.data, headLen, tailLen)
    }

    constructor (inner: ByteSource, headLen: nat, tailLen: nat, innerLen: nat, position: nat)
      requires headLen + tailLen <= innerLen
      ensures this.inner == inner && this.headLen == headLen && this.tailLen == tailLen
      ensures innerLenInclHeadTail == innerLen && currentPositionInThisLayer == position
    {
      this.inner := inner;
      this.headLen := headLen;
      this.tailLen := tailLen;
      innerLenInclHeadTail := innerLen;
      currentPositionInThisLayer := position;
    }

    /** `new`: refuses a head and a tail longer than the inner layer. */
    static method Create(inner: ByteSource, headLen: nat, tailLen: nat, innerLen: nat, position: nat)
      returns (r: Result<StripHeadTailReader, Error>)
      requires inner.Valid()
      ensures r.Ok? <==> headLen + tailLen <= innerLen
      ensures r.Err? ==> r.error == WrongReaderState
      ensures
        && r.Ok? && innerLen == |inner.data| && inner.pos == headLen + position
        && headLen + position + tailLen <= innerLen ==>
        r.value.Valid() && r.value.inner == inner && r.value.View() == Window(inner.data, headLen, tailLen) &&
        r.value.currentPositionInThisLayer == position
    {
      if headLen + tailLen > innerLen {
        return Err(WrongReaderState);
      }
      var reader := new StripHeadTailReader(inner, headLen, tailLen, innerLen, position);
      r := Ok(reader);
    }

    /**
     * Seeks as a cursor on the view, with the contract `ByteSource.Seek` has on
     * its own bytes: exactly the targets inside it are accepted, and a refused
     * seek changes nothing.
     */
    method Seek(s: SeekFrom) returns (r: Result<nat, Error>)
      requires Valid()
      modifies this, inner
      ensures Valid()
      ensures var target := SeekTarget(|View()|, old(currentPositionInThisLayer), s);
              if 0 <= target <= |View()|
              then r == Ok(target) && currentPositionInThisLayer == target
              else r == Err(InvalidInput) && currentPositionInThisLayer == old(currentPositionInThisLayer)
      ensures var target := SeekTarget(|View()|, old(currentPositionInThisLayer), s);
              && inner.manners.inside == old(inner.manners.inside)
              && (inner.manners.beforeEnd != old(inner.manners.beforeEnd) ==> target == |View()|)
    {
      var thisLayerLength := innerLenInclHeadTail - headLen - tailLen;
      match s {
        case Start(askedOffset) =>
          var newInnerPosition := askedOffset + headLen;
          if newInnerPosition > innerLenInclHeadTail - tailLen {
            return Err(InvalidInput);
          }
          var sought := inner.Seek(Start(newInnerPosition));
          currentPositionInThisLayer := askedOffset;
          r := Ok(askedOffset);
        case Current(askedOffset) =>
          var newPosition := currentPositionInThisLayer + askedOffset;
          if newPosition < 0 || newPosition > thisLayerLength {
            return Err(InvalidInput);
          }
          var sought := inner.Seek(s);
          currentPositionInThisLayer := newPosition;
          r := Ok(newPosition);
        case End(askedOffset) =>
          var newPosition := thisLayerLength + askedOffset;
          if newPosition < 0 || askedOffset > 0 {
            return Err(InvalidInput);
          }
          var sought := inner.Seek(End(askedOffset - tailLen));
          currentPositionInThisLayer := newPosition;
          r := Ok(newPosition);
      }
    }

    /** Reads as a cursor on the view: never a byte of head or tail. */
    method Read(n: nat) returns (r: Bytes)
      requires Valid()
      modifies this, inner
      ensures Valid()
      ensures |r| <= n && currentPositionInThisLayer == old(currentPositionInThisLayer) + |r|
      ensures r == View()[old(currentPositionInThisLayer)..currentPositionInThisLayer]
      ensures n > 0 && old(currentPositionInThisLayer) < |View()| ==> r != []
      ensures old(currentPositionInThisLayer) < |View()| ==> inner.manners == old(inner.manners)
    {
      var remaining := innerLenInclHeadTail - headLen - tailLen - currentPositionInThisLayer;
      r := inner.Read(Min(n, remaining));
      ghost var end := currentPositionInThisLayer + |r|;
      SliceOfSlice(inner.data, headLen, |inner.data| - tailLen, currentPositionInThisLayer, end);
      currentPositionInThisLayer := currentPositionInThisLayer + |r|;
    }
  }

  /** A view is a cursor on its window, whatever is asked of it. */
  method ServeView(reader: StripHeadTailReader, client: Client, count: nat)
    returns (replies: seq<Reply>, ghost run: History)
    requires reader.Valid()
    modifies reader, reader.inner
    ensures reader.Valid() && Plays(reader.View(), old(reader.currentPositionInThisLayer), client, run)
    ensures run.replies == replies && |replies| == count && run.At() == reader.currentPositionInThisLayer
  {
    hide CursorStep;
    replies, run := [], History([reader.currentPositionInThisLayer], [], []);
    for i := 0 to count
      invariant reader.Valid() && Plays(reader.View(), old(reader.currentPositionInThisLayer), client, run)
      invariant run.replies == replies && |replies| == i && run.At() == reader.currentPositionInThisLayer
    {
      var op := client(replies);
      var reply := AskView(reader, op);
      PlaysOn(reader.View(), old(reader.currentPositionInThisLayer), client, run, op, reply,
        reader.currentPositionInThisLayer);
      run := run.Then(op, reply, reader.currentPositionInThisLayer);
      replies := replies + [reply];
    }
  }

  method AskView(reader: StripHeadTailReader, op: Operation) returns (reply: Reply)
    requires reader.Valid()
    modifies reader, reader.inner
    ensures reader.Valid()
    ensures CursorStep(reader.View(), old(reader.currentPositionInThisLayer), op, reply,
      reader.currentPositionInThisLayer)
    ensures reply.Moved? ==> reply.answer == reader.currentPositionInThisLayer
  {
    match op {
      case DoRead(n) =>
        var bytes := reader.Read(n);
        reply := Got(bytes);
      case DoSeek(s) =>
        var moved := reader.Seek(s);
        reply := if moved.Ok? then Moved(moved.value) else Refused;
    }
  }
}
