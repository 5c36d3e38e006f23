/** The byte stream between a writer and a reader. `Stream` is what a stream means: every byte
    ever accepted, and how many of them the reader has taken. `ByteStream` is the program's
    stream, a queue of chunks with counters, and refines it. */
module ByteStreams {
  import opened Words
  import opened Chunks

  datatype Stream = Stream(capacity: nat, written: Bytes, taken: nat, closed: bool, error: bool) {
    predicate Valid() {
      taken <= |written| <= taken + capacity
    }

    function Taken(): Bytes
      requires Valid()
    {
      written[..taken]
    }

    function Contents(): Bytes
      requires Valid()
    {
      written[taken..]
    }

    function Buffered(): nat
      requires Valid()
    {
      |written| - taken
    }

    function Available(): nat
      requires Valid()
    {
      capacity - Buffered()
    }

    predicate Finished()
      requires Valid()
    {
      closed && Buffered() == 0
    }

    /** What fits of `data` is accepted; the rest is dropped. */
    function Push(data: Bytes): (s: Stream)
      requires Valid()
      ensures s.Valid()
    {
      this.(written := written + data[..Min(Available(), |data|)])
    }

    function Pop(len: nat): (s: Stream)
      requires Valid()
      ensures s.Valid()
    {
      this.(taken := taken + Min(len, Buffered()))
    }

    function Close(): Stream {
      this.(closed := true)
    }
  }

  function Empty(capacity: nat): Stream {
    Stream(capacity, [], 0, false, false)
  }

  datatype StreamOp = PushOp(data: Bytes) | PopOp(len: nat) | CloseOp

  function StepStream(s: Stream, op: StreamOp): (r: Stream)
    requires s.Valid()
    ensures r.Valid()
  {
    match op
    case PushOp(data) => s.Push(data)
    case PopOp(len) => s.Pop(len)
    case CloseOp => s.Close()
  }

  function RunStream(s: Stream, ops: seq<StreamOp>): (r: Stream)
    requires s.Valid()
    ensures r.Valid()
    decreases ops
  {
    if ops == [] then s else RunStream(StepStream(s, ops[0]), ops[1..])
  }

  function AcceptedBy(s: Stream, op: StreamOp): Bytes
    requires s.Valid()
  {
    if op.PushOp? then op.data[..Min(s.capacity - s.Buffered(), |op.data|)] else []
  }

  function DeliveredBy(s: Stream, op: StreamOp): Bytes
    requires s.Valid()
  {
    if op.PopOp? then s.Contents()[..Min(op.len, s.Buffered())] else []
  }

  /** What the pushes of a run let in, in order. */
  function Accepted(s: Stream, ops: seq<StreamOp>): Bytes
    requires s.Valid()
    decreases ops
  {
    if ops == [] then [] else AcceptedBy(s, ops[0]) + Accepted(StepStream(s, ops[0]), ops[1..])
  }

  /** What the pops of a run hand out, in order. */
  function Delivered(s: Stream, ops: seq<StreamOp>): Bytes
    requires s.Valid()
    decreases ops
  {
    if ops == [] then [] else DeliveredBy(s, ops[0]) + Delivered(StepStream(s, ops[0]), ops[1..])
  }

  lemma FirstInFirstOutStep(s: Stream, op: StreamOp)
    requires s.Valid()
    ensures DeliveredBy(s, op) + StepStream(s, op).Contents() == s.Contents() + AcceptedBy(s, op)
  {
  }

  /** First in, first out, over any run: what was delivered and then what is still buffered is
      what was buffered at the start and then what was accepted. */
  lemma {:induction false} FirstInFirstOut(s: Stream, ops: seq<StreamOp>)
    requires s.Valid()
    ensures Delivered(s, ops) + RunStream(s, ops).Contents() == s.Contents() + Accepted(s, ops)
    ensures RunStream(s, ops).Buffered() <= s.capacity
    decreases ops
  {
    if ops != [] {
      hide StepStream, DeliveredBy, AcceptedBy, Stream.Contents;
      var op, t := ops[0], StepStream(s, ops[0]);
      var rest := ops[1..];
      FirstInFirstOut(t, rest);
      FirstInFirstOutStep(s, op);
      CapacityStays(s, op);
      ThreeParts(DeliveredBy(s, op), Delivered(t, rest), RunStream(t, rest).Contents());
      ThreeParts(DeliveredBy(s, op), t.Contents(), Accepted(t, rest));
      ThreeParts(s.Contents(), AcceptedBy(s, op), Accepted(t, rest));
    }
  }

  lemma CapacityStays(s: Stream, op: StreamOp)
    requires s.Valid()
    ensures StepStream(s, op).capacity == s.capacity
  {
  }

  class ByteStream {
    const capacity: nat
    var currentSize: nat
    var q: seq<Bytes>
    var closed: bool
    var error: bool
    var bytesPushed: nat
    var bytesPopped: nat
    ghost var written: Bytes

    ghost predicate Valid()
      reads this
    {
      && bytesPushed == |written|
      && bytesPopped + currentSize == bytesPushed
      && currentSize <= capacity
      && Flatten(q) == written[bytesPopped..]
      && NoEmptyChunk(q)
    }

    ghost function View(): (s: Stream)
      requires Valid()
      reads this
      ensures s.Valid()
      ensures s.Contents() == Flatten(q)
    {
      Stream(capacity, written, bytesPopped, closed, error)
    }

    constructor (capacity: nat)
      ensures Valid() && View() == Empty(capacity)
    {
      this.capacity := capacity;
      currentSize, q, closed, error := 0, [], false, false;
      bytesPushed, bytesPopped := 0, 0;
      written := [];
    }

    method Push(data: Bytes)
      requires Valid()
      modifies this
      ensures Valid() && View() == old(View()).Push(data)
    {
      var n := Min(AvailableCapacity(), |data|);
      bytesPushed := bytesPushed + n;
      currentSize := currentSize + n;
      FlattenAppend(q, data[..n]);
      if n > 0 {
        q := q + [data[..n]];
      }
      written := written + data[..n];
      assert written[bytesPopped..] == old(written)[bytesPopped..] + data[..n];
    }

    method Close()
      requires Valid()
      modifies this
      ensures Valid() && View() == old(View()).Close()
    {
      closed := true;
    }

    method SetError()
      requires Valid()
      modifies this
      ensures Valid() && View() == old(View()).(error := true)
    {
      error := true;
    }

    function AvailableCapacity(): (n: nat)
      requires Valid()
      reads this
      ensures n == View().Available()
    {
      capacity - currentSize
    }

    function BytesBuffered(): (n: nat)
      requires Valid()
      reads this
      ensures n == View().Buffered()
    {
      currentSize
    }

    predicate IsFinished()
      requires Valid()
      reads this
      ensures IsFinished() == View().Finished()
    {
      closed && currentSize == 0
    }

    /** The front chunk: it is empty only when nothing at all is buffered. */
    function Peek(): (view: Bytes)
      requires Valid()
      reads this
      ensures view <= View().Contents()
      ensures view == [] <==> View().Buffered() == 0
    {
      if q != [] then q[0] else []
    }

    method Pop(len: nat)
      requires Valid()
      modifies this
      ensures Valid() && View() == old(View()).Pop(len)
    {
      hide Flatten;
      FlattenEmpty();
      var numBytes: nat := Min(len, currentSize);
      ghost var target := bytesPopped + numBytes;
      while q != [] && numBytes > 0
        invariant Valid()
        invariant written == old(written) && closed == old(closed) && error == old(error)
        invariant bytesPopped + numBytes == target <= bytesPushed
        decreases |q|, numBytes
      {
        var front := q[0];
        var popLength := Min(numBytes, |front|);
        DropFromFront(q, popLength);
        assert written[bytesPopped + popLength..] == written[bytesPopped..][popLength..];
        if |front| > popLength {
          q := [front[popLength..]] + q[1..];
        } else {
          q := q[1..];
        }
        bytesPopped := bytesPopped + popLength;
        numBytes := numBytes - popLength;
        currentSize := currentSize - popLength;
      }
      assert |Flatten(q)| == currentSize;
    }
  }

  lemma PopTwice(s: Stream, k: nat, view: Bytes)
    requires s.Valid() && k <= s.Buffered() && view <= s.Pop(k).Contents()
    ensures k + |view| <= s.Buffered() && s.Pop(k).Pop(|view|) == s.Pop(k + |view|)
    ensures s.Contents()[..k] + view == s.Contents()[..k + |view|]
  {
    assert s.Pop(k).Contents() == s.Contents()[k..];
    assert s.Contents()[k..][..|view|] == view;
  }

  lemma PopCount(s: Stream, k: nat)
    requires s.Valid()
    ensures s.Pop(0) == s && s.Pop(k) == s.Pop(Min(k, s.Buffered()))
    ensures s.Pop(k).Buffered() == s.Buffered() - Min(k, s.Buffered())
  {
  }

  /** Peeks and pops until `len` bytes are out or the stream is empty, across chunks. The
      exception for an empty peek is never thrown. */
  method Read(reader: ByteStream, len: nat) returns (out: Bytes)
    requires reader.Valid()
    modifies reader
    ensures reader.Valid() && reader.View() == old(reader.View()).Pop(len)
    ensures out == old(reader.View().Contents())[..Min(len, old(reader.View().Buffered()))]
  {
    hide Flatten, Stream.Pop;
    out := [];
    ghost var before := reader.View();
    PopCount(before, len);
    while reader.BytesBuffered() > 0 && |out| < len
      invariant reader.Valid() && |out| <= Min(len, before.Buffered())
      invariant reader.View() == before.Pop(|out|)
      invariant out == before.Contents()[..|out|]
      decreases len - |out|
    {
      PopCount(before, |out|);
      var view := reader.Peek();
      assert view != [];
      view := view[..Min(|view|, len - |out|)];
      PopTwice(before, |out|, view);
      out := out + view;
      reader.Pop(|view|);
    }
    PopCount(before, |out|);
  }
}
