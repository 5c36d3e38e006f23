/** The program's sender. It keeps 32-bit wrapped sequence numbers and unwraps them again near
    its next absolute sequence number; the ghost `model` is the same sender told in absolute
    numbers, and every method is proved to do exactly what `Senders` says. */
module TCPSenders {
  import opened Words
  import opened Wrapping
  import opened Messages
  import opened ByteStreams
  import opened Timers
  import opened Senders
  import opened SenderLaws

  datatype OutSeg = OutSeg(message: SenderMessage, timestamp: u64)

  function Wires(segs: seq<Seg>, isn: Wrap32): (r: seq<SenderMessage>)
    ensures |r| == |segs|
  {
    seq(|segs|, i requires 0 <= i < |segs| => segs[i].Wire(isn))
  }

  function WireFlight(flight: seq<Outstanding>, isn: Wrap32): (r: seq<OutSeg>)
    ensures |r| == |flight|
  {
    seq(|flight|, i requires 0 <= i < |flight| => OutSeg(flight[i].seg.Wire(isn), flight[i].sentAt))
  }

  // ---- how the pushing loop is controlled ----

  /** What the loop's guard and its exit look at: the room left, the bytes buffered, and the SYN
      flag, which stays set on the loop's segment once it is. */
  datatype Loop = Loop(room: int, buffered: int, syn: bool) {
    /** A round that leaves bytes behind, so that no FIN is sent. */
    function Round(): Loop {
      var size := Min(MAX_PAYLOAD, Min(room, buffered));
      Loop(room - size, buffered - size, syn)
    }

    /** The stream is drained, or the guard fails. */
    predicate Stops() {
      buffered == 0 || (room == 0 && !syn)
    }
  }

  /** The loop of this push as it is entered. */
  function LoopOf(s: Sender, out: Stream): Loop
    requires out.Valid()
  {
    Loop(s.Allowance(), out.Buffered(), !s.synSent)
  }

  function Rounds(l: Loop, n: nat): Loop {
    if n == 0 then l else Rounds(l, n - 1).Round()
  }

  lemma RoundOf(room: u64, buffered: nat, syn: bool, size: nat)
    requires size == Min(MAX_PAYLOAD, Min(room, buffered))
    ensures Loop(room, buffered, syn).Round() == Loop((room - size) % TWO64, buffered - size, syn)
  {
  }

  lemma {:induction false} StuckForever(l: Loop, n: nat)
    requires l.syn && 0 <= l.room < l.buffered
    ensures Rounds(l, n).syn && 0 <= Rounds(l, n).room < Rounds(l, n).buffered
  {
    if n > 0 { StuckForever(l, n - 1); }
  }

  lemma {:induction false} Drains(l: Loop, n: nat)
    requires 0 <= l.room && 0 <= l.buffered && (l.syn ==> l.buffered <= l.room)
    ensures var m := Rounds(l, n);
            && 0 <= m.room && 0 <= m.buffered && m.syn == l.syn && (m.syn ==> m.buffered <= m.room)
            && (m.Stops() || m.buffered <= l.buffered - n)
  {
    if n > 0 { Drains(l, n - 1); }
  }

  /** A push's loop ends if and only if it is not the SYN's, or all that is buffered fits the room. */
  lemma PushTerminatesIff(s: Sender, out: Stream)
    requires out.Valid()
    ensures (exists n: nat :: Rounds(LoopOf(s, out), n).Stops()) <==> Ends(s, out)
    ensures Ordered(s) ==> (Ends(s, out) <==> s.synSent || out.Buffered() <= s.window - 1)
  {
    var l := LoopOf(s, out);
    if Ends(s, out) {
      Drains(l, l.buffered);
    } else {
      forall n: nat
        ensures !Rounds(l, n).Stops()
      {
        StuckForever(l, n);
      }
    }
  }

  /** Connecting after anything has been written: the initial window takes the SYN alone, and the
      push never returns. */
  lemma FirstPushOfDataNeverEnds(isn: Wrap32, initialRTO: u64, out: Stream, n: nat)
    requires out.Valid() && out.Buffered() > 0
    ensures !Rounds(LoopOf(NewSender(isn, initialRTO), out), n).Stops()
  {
    StuckForever(LoopOf(NewSender(isn, initialRTO), out), n);
  }

  // ---- one round of the loop is one step of cutting ----

  lemma CutFirst(pos: nat, syn: bool, data: Bytes, fin: bool, size: nat)
    requires size == Min(MAX_PAYLOAD, |data|)
    ensures Cut(pos, syn, data, fin)
            == (if size > 0 || syn || fin then [Seg(pos, syn, data[..size], fin && size == |data|)] else [])
               + (if size < |data| then Cut(pos + size, syn, data[size..], fin) else [])
  {
    assert data[..|data|] == data;
  }

  /** The state of the loop: `k` bytes have left the stream, and the segments queued so far are the
      first of those this push has to queue. */
  ghost predicate PushedSoFar(s: Sender, out: Stream, k: nat, segs: seq<Seg>)
    requires out.Valid()
  {
    && k <= Amount(s, out)
    && segs + Cut(s.next + k, !s.synSent, out.Contents()[k..Amount(s, out)], SendsFin(s, out)) == NewSegments(s, out)
  }

  lemma FirstRound(s: Sender, out: Stream)
    requires out.Valid()
    ensures PushedSoFar(s, out, 0, []) && out.Pop(0) == out
  {
    assert [] + NewSegments(s, out) == NewSegments(s, out);
  }

  lemma RoundSlices(out: Stream, k: nat, n: nat, size: nat, room: nat)
    requires out.Valid() && k <= n && n - k == Min(room, out.Buffered() - k)
    requires size == Min(MAX_PAYLOAD, Min(room, out.Buffered() - k))
    ensures size == Min(MAX_PAYLOAD, n - k) && n <= out.Buffered()
    ensures out.Pop(k).Pop(size) == out.Pop(k + size)
    ensures out.Pop(k).Contents()[..size] == out.Contents()[k..n][..size]
    ensures out.Contents()[k..n][size..] == out.Contents()[k + size..n]
  {
    var contents := out.Contents();
    assert out.Pop(k).Contents() == contents[k..];
    assert contents[k..][..size] == contents[k..k + size] == contents[k..n][..size];
    assert contents[k..n][size..] == contents[k + size..n];
  }

  /** What one round adds, and when that completes the push. */
  lemma RoundIsCut(s: Sender, out: Stream, k: nat, segs: seq<Seg>, room: nat, size: nat, fin: bool)
    requires out.Valid() && Ends(s, out) && PushedSoFar(s, out, k, segs)
    requires room == s.Allowance() - k && (room > 0 || !s.synSent)
    requires size == Min(MAX_PAYLOAD, Min(room, out.Buffered() - k))
    requires fin == (!s.finSent && out.closed && size == out.Buffered() - k && (size < room || !s.synSent))
    ensures out.Pop(k).Pop(size) == out.Pop(k + size) && k + size <= Amount(s, out)
    ensures var payload := out.Pop(k).Contents()[..size];
            var one := if size > 0 || !s.synSent || fin then [Seg(s.next + k, !s.synSent, payload, fin)] else [];
            && (out.Buffered() == k + size ==>
                  segs + one == NewSegments(s, out) && fin == SendsFin(s, out) && k + size == Amount(s, out))
            && (out.Buffered() > k + size ==> !fin && size > 0 && PushedSoFar(s, out, k + size, segs + one))
  {
    var n, syn := Amount(s, out), !s.synSent;
    var data, last := out.Contents()[k..n], SendsFin(s, out);
    assert syn ==> n == out.Buffered();
    RoundSlices(out, k, n, size, room);
    CutFirst(s.next + k, syn, data, last, size);
    CutNothing(s.next + k + size, data[size..]);
    assert fin == (last && size == |data|);
    assert size < |data| ==> size > 0 && out.Buffered() > k + size;
    assert out.Buffered() == k + size ==> size == |data|;
    var one := if size > 0 || syn || fin then [Seg(s.next + k, syn, data[..size], fin)] else [];
    Appended(segs, one, Cut(s.next + k + size, syn, data[size..], last));
    Appended(segs, one, []);
    assert out.Buffered() > k + size && size == |data| ==> !last && !syn;
    hide Cut, NewSegments, Amount, SendsFin, Sender.Allowance;
  }

  lemma CutNothing(pos: nat, data: Bytes)
    ensures data == [] ==> Cut(pos, false, data, false) == []
  {
  }

  lemma Appended(a: seq<Seg>, b: seq<Seg>, c: seq<Seg>)
    ensures a + (b + c) == (a + b) + c
    ensures a + [] == a
  {
  }

  /** The bookkeeping of one round. */
  lemma AfterRound(s: Sender, out: Stream, k: nat, segs: seq<Seg>, room: nat, size: nat, sent: SenderMessage,
                   isn: Wrap32)
      returns (segs': seq<Seg>, k': nat)
    requires out.Valid() && Ends(s, out) && PushedSoFar(s, out, k, segs)
    requires room == s.Allowance() - k && (room > 0 || !s.synSent)
    requires size == Min(MAX_PAYLOAD, Min(room, out.Buffered() - k))
    requires sent.syn == !s.synSent && sent.seqno == Wrap(s.next + k, isn)
    requires sent.fin == (!s.finSent && out.closed && size == out.Buffered() - k && (size < room || sent.syn))
    requires sent.payload == out.Pop(k).Contents()[..size]
    ensures k' == k + size <= out.Buffered() && out.Pop(k).Pop(size) == out.Pop(k')
    ensures Wires(segs', isn) == Wires(segs, isn) + (if sent.SequenceLength() > 0 then [sent] else [])
    ensures out.Buffered() == k' ==>
              segs' == NewSegments(s, out) && sent.fin == SendsFin(s, out) && k' == Amount(s, out)
    ensures out.Buffered() > k' ==> !sent.fin && size > 0 && PushedSoFar(s, out, k', segs')
  {
    var seg := Seg(s.next + k, sent.syn, sent.payload, sent.fin);
    segs', k' := segs + (if sent.SequenceLength() > 0 then [seg] else []), k + size;
    WiresConcat(segs, [seg], isn);
    assert Wires([seg], isn) == [sent];
    assert segs + [] == segs && Wires(segs, isn) + [] == Wires(segs, isn);
    RoundIsCut(s, out, k, segs, room, size, sent.fin);
    hide Ends, PushedSoFar, Wires, NewSegments, SendsFin, Amount, Sender.Allowance;
  }

  /** When the room is used up, so is what this push may take. */
  lemma NoRoomLeft(s: Sender, out: Stream, k: nat, segs: seq<Seg>)
    requires out.Valid() && PushedSoFar(s, out, k, segs) && s.synSent && s.Allowance() == k
    ensures segs == NewSegments(s, out) && k == Amount(s, out) && !SendsFin(s, out)
  {
    assert out.Contents()[k..Amount(s, out)] == [];
  }

  lemma WiresConcat(a: seq<Seg>, b: seq<Seg>, isn: Wrap32)
    ensures Wires(a + b, isn) == Wires(a, isn) + Wires(b, isn)
  {
  }

  /** What sending does to the wire forms of the two queues. */
  lemma MaybeSendWires(s: Sender, isn: Wrap32)
    requires CanSend(s)
    ensures var t := Senders.MaybeSend(s);
            && t == s.(inFlight := t.inFlight, unsent := t.unsent, retransmit := false,
                       timer := if !s.retransmit && s.unsent != [] && !s.timer.running
                                then Clock(s.now, s.rto, true) else s.timer)
            && (s.retransmit ==>
                  && Wires(t.unsent, isn) == Wires(s.unsent, isn)
                  && var flight := WireFlight(s.inFlight, isn);
                     && WireFlight(t.inFlight, isn) == flight[0 := flight[0].(timestamp := s.now)]
                     && Sent(s).Some? && flight[0].message == Sent(s).value.Wire(isn))
            && (!s.retransmit && s.unsent != [] ==>
                  && var unsent := Wires(s.unsent, isn);
                     && Wires(t.unsent, isn) == unsent[1..]
                     && WireFlight(t.inFlight, isn) == WireFlight(s.inFlight, isn) + [OutSeg(unsent[0], s.now)]
                     && Sent(s).Some? && unsent[0] == Sent(s).value.Wire(isn))
            && (!s.retransmit && s.unsent == [] ==> t == s && Sent(s).None?)
  {
    hide Wrap;
  }

  lemma TickFields(s: Sender, ms: nat)
    ensures var t := Senders.Tick(s, ms);
            var now := (s.now + ms) % TWO64;
            var expired := s.timer.Expired(now);
            && t == s.(now := now, rto := t.rto, timer := t.timer, retransmit := t.retransmit,
                       retransmissions := t.retransmissions)
            && t.rto == (if expired && s.window > 0 && !s.holdRTO then s.rto * 2 % TWO64 else s.rto)
            && t.timer == (if expired then Clock(now, t.rto, true) else s.timer)
            && t.retransmit == (s.retransmit || (expired && s.inFlight != []))
            && t.retransmissions == s.retransmissions + One(expired && s.window > 0)
  {
  }

  lemma ReceiveFields(s: Sender, msg: ReceiverMessage)
    requires msg.ackno.Some? && s.next < TWO64
    ensures var ack := Unwrapped(msg.ackno.value, s.isn, s.next);
            Senders.Receive(s, msg) == if ack > s.next then s else AfterAck(s, msg, ack)
  {
    hide DropAcked, Unwrapped;
  }

  /** Every outstanding position is recovered by unwrapping near `next`, and its end by adding. */
  ghost predicate Recovered(flight: seq<Outstanding>, isn: Wrap32, next: u64) {
    forall k :: 0 <= k < |flight| ==>
      && Unwrapped(Wrap(flight[k].seg.pos, isn), isn, next) == flight[k].seg.pos
      && flight[k].seg.End() < TWO64
  }

  lemma NearRecovered(s: Sender)
    requires Near(s) && s.next < TWO63
    ensures Recovered(s.inFlight, s.isn, s.next)
    ensures s.ack < TWO64 && Unwrapped(Wrap(s.ack, s.isn), s.isn, s.next) == s.ack
  {
    RoundTrip(s.ack, s.isn, s.next);
    forall k | 0 <= k < |s.inFlight|
      ensures Unwrapped(Wrap(s.inFlight[k].seg.pos, s.isn), s.isn, s.next) == s.inFlight[k].seg.pos
      ensures s.inFlight[k].seg.End() < TWO64
    {
      RoundTrip(s.inFlight[k].seg.pos, s.isn, s.next);
    }
  }

  /** The sender after taking in an ack that stands for position `ack`. */
  function AfterAck(s: Sender, msg: ReceiverMessage, ack: nat): Sender {
    var newAck, left := s.ack < ack, DropAcked(s.inFlight, ack);
    s.(ack := ack, window := if msg.window > 0 then msg.window else 1,
       holdRTO := msg.window == 0, inFlight := left,
       rto := if newAck then s.initialRTO else s.rto,
       retransmissions := if newAck then 0 else s.retransmissions,
       timer := if left == [] then s.timer.(running := false)
                else if newAck then Clock(s.now, s.initialRTO, true) else s.timer)
  }

  lemma AcceptLaws(s: Sender, msg: ReceiverMessage)
    requires Near(s) && s.next < TWO63 && msg.ackno.Some? && AckValue(s, msg) <= s.next
    ensures var t := Senders.Receive(s, msg); var ack := AckValue(s, msg);
            && Recovered(s.inFlight, s.isn, s.next)
            && s.ack < TWO64 && Unwrapped(Wrap(s.ack, s.isn), s.isn, s.next) == s.ack
            && Unwrapped(msg.ackno.value, s.isn, s.next) == ack
            && Wrap(ack, s.isn) == msg.ackno.value
            && t == AfterAck(s, msg, ack) && t.next == s.next
  {
    NearRecovered(s);
    ReceiveFields(s, msg);
    WrapOfUnwrapped(msg.ackno.value, s.isn, s.next);
    hide Near, DropAcked, Unwrapped, Wrap, Senders.Receive, Recovered;
  }

  class TCPSender {
    const isn: Wrap32
    const initialRTO: u64
    var currentRTO: u64
    const timer: Timer
    var ackno: Wrap32
    var windowSize: u16
    var pushedSegments: seq<SenderMessage>
    var segmentsInFlight: seq<OutSeg>
    var timeAlive: u64
    var consecutiveRetransmissions: nat
    var synSent: bool
    var finSent: bool
    var absoluteSeqno: u64
    var retransmit: bool
    var dontBackOff: bool
    ghost var model: Sender

    /** The plain fields are the model's. */
    ghost predicate Mirrors()
      reads this, timer
    {
      model == Sender(isn, initialRTO, currentRTO, timer.View(), model.ack, windowSize, model.inFlight, model.unsent,
                      timeAlive, consecutiveRetransmissions, synSent, finSent, absoluteSeqno, retransmit, dontBackOff)
    }

    /** The ackno and the two queues are the model's in wrapped form. */
    ghost predicate Wrapped()
      reads this
    {
      && ackno == Wrap(model.ack, isn)
      && pushedSegments == Wires(model.unsent, isn)
      && segmentsInFlight == WireFlight(model.inFlight, isn)
    }

    ghost predicate Valid()
      reads this, timer
    {
      Mirrors() && Wrapped() && model.next < TWO63
    }

    constructor (initialRTO: u64, isn: Wrap32)
      ensures Valid() && model == NewSender(isn, initialRTO) && fresh(timer)
    {
      this.isn, this.initialRTO, currentRTO := isn, initialRTO, initialRTO;
      timer := new Timer();
      ackno, windowSize := isn, 1;
      pushedSegments, segmentsInFlight := [], [];
      timeAlive, consecutiveRetransmissions := 0, 0;
      synSent, finSent, absoluteSeqno := false, false, 0;
      retransmit, dontBackOff := false, false;
      model := NewSender(isn, initialRTO);
    }

    method SequenceNumbersInFlight() returns (amount: nat)
      requires Valid()
      ensures amount == Span(model.Queue())
      ensures Ordered(model) ==> amount == model.next - model.Base()
    {
      amount := 0;
      var k := 0;
      while k < |segmentsInFlight|
        invariant 0 <= k <= |segmentsInFlight|
        invariant amount == Span(Segments(model.inFlight)[..k])
      {
        SpanSnoc(Segments(model.inFlight), k);
        amount := amount + segmentsInFlight[k].message.SequenceLength();
        k := k + 1;
      }
      assert Segments(model.inFlight)[..k] == Segments(model.inFlight);
      k := 0;
      while k < |pushedSegments|
        invariant 0 <= k <= |pushedSegments|
        invariant amount == Span(Segments(model.inFlight)) + Span(model.unsent[..k])
      {
        SpanSnoc(model.unsent, k);
        amount := amount + pushedSegments[k].SequenceLength();
        k := k + 1;
      }
      assert model.unsent[..k] == model.unsent;
      QueueSpan(model);
    }

    /** The oldest outstanding segment once more. */
    method Resend() returns (message: SenderMessage)
      requires Valid() && retransmit && CanSend(model)
      modifies this
      ensures Valid() && CanSend(old(model)) && model == Senders.MaybeSend(old(model))
      ensures Sent(old(model)).Some? && message == Sent(old(model)).value.Wire(isn)
    {
      MaybeSendWires(model, isn);
      hide Segments, Wires, WireFlight, Wrap, Senders.MaybeSend, Sent;
      retransmit := false;
      segmentsInFlight := segmentsInFlight[0 := segmentsInFlight[0].(timestamp := timeAlive)];
      message := segmentsInFlight[0].message;
      model := Senders.MaybeSend(model);
    }

    /** The next segment that was never sent; the timer starts if it is not running. */
    method SendNext() returns (message: SenderMessage)
      requires Valid() && !retransmit && pushedSegments != []
      modifies this, timer
      ensures Valid() && CanSend(old(model)) && model == Senders.MaybeSend(old(model))
      ensures Sent(old(model)).Some? && message == Sent(old(model)).value.Wire(isn)
    {
      MaybeSendWires(model, isn);
      hide Segments, Wires, WireFlight, Wrap, Senders.MaybeSend, Sent;
      message := pushedSegments[0];
      pushedSegments := pushedSegments[1..];
      segmentsInFlight := segmentsInFlight + [OutSeg(message, timeAlive)];
      if !timer.running {
        timer.Start(timeAlive, currentRTO);
      }
      model := Senders.MaybeSend(model);
    }

    /** It takes the front of the outstanding segments if a retransmission is due: the caller sees
        to it that there is one. */
    method MaybeSend() returns (segment: Option<SenderMessage>)
      requires Valid() && CanSend(model)
      modifies this, timer
      ensures Valid() && CanSend(old(model)) && model == Senders.MaybeSend(old(model))
      ensures segment == (if Sent(old(model)).Some? then Some(Sent(old(model)).value.Wire(isn)) else None)
    {
      if retransmit {
        var message := Resend();
        return Some(message);
      }
      if pushedSegments != [] {
        var message := SendNext();
        return Some(message);
      }
      MaybeSendWires(model, isn);
      segment := None;
    }

    /** The loop over the outstanding segments: it unwraps each one's sequence number and stops at
        the first that is not fully acknowledged. */
    method PopAcknowledged(ghost flight: seq<Outstanding>, ghost ack: nat)
      requires segmentsInFlight == WireFlight(flight, isn)
      requires Recovered(flight, isn, absoluteSeqno)
      requires Unwrapped(ackno, isn, absoluteSeqno) == ack
      modifies this`segmentsInFlight
      ensures segmentsInFlight == WireFlight(DropAcked(flight, ack), isn)
    {
      hide Unwrapped, Wrap, IsNearest;
      ghost var rest := flight;
      while segmentsInFlight != []
        invariant segmentsInFlight == WireFlight(rest, isn)
        invariant Recovered(rest, isn, absoluteSeqno)
        invariant DropAcked(rest, ack) == DropAcked(flight, ack)
        decreases |segmentsInFlight|
      {
        var segment := segmentsInFlight[0].message;
        var absolute := Unwrap(segment.seqno, isn, absoluteSeqno);
        var length := segment.SequenceLength();
        var acked := Unwrap(ackno, isn, absoluteSeqno);
        assert absolute == rest[0].seg.pos && absolute + length == rest[0].seg.End();
        if (absolute + length) % TWO64 > acked {
          break;
        }
        assert WireFlight(rest[1..], isn) == segmentsInFlight[1..];
        segmentsInFlight := segmentsInFlight[1..];
        rest := rest[1..];
      }
      assert DropAcked([], ack) == [];
    }

    /** The last part of receiving: the timer stops when nothing is outstanding, and an ackno
        beyond the old one resets the timeout and restarts the timer. */
    method AdjustTimer(oldAckno: Wrap32, ghost newAck: bool)
      requires newAck == (Unwrapped(oldAckno, isn, absoluteSeqno) < Unwrapped(ackno, isn, absoluteSeqno))
      modifies this`currentRTO, this`consecutiveRetransmissions, timer
      ensures currentRTO == (if newAck then initialRTO else old(currentRTO))
      ensures consecutiveRetransmissions == (if newAck then 0 else old(consecutiveRetransmissions))
      ensures timer.View() == (if segmentsInFlight == [] then old(timer.View()).(running := false)
                               else if newAck then Clock(timeAlive, initialRTO, true)
                               else old(timer.View()))
    {
      hide Unwrapped, IsNearest;
      if segmentsInFlight == [] {
        timer.Stop();
      }
      var before := Unwrap(oldAckno, isn, absoluteSeqno);
      var after := Unwrap(ackno, isn, absoluteSeqno);
      if before < after {
        currentRTO := initialRTO;
        consecutiveRetransmissions := 0;
        if segmentsInFlight != [] {
          timer.Start(timeAlive, currentRTO);
        }
      }
    }

    /** A closed window counts as one sequence number wide, and stops the backing off. */
    method AdoptWindow(window: u16)
      modifies this`windowSize, this`dontBackOff
      ensures windowSize == (if window > 0 then window else 1) && dontBackOff == (window == 0)
    {
      if window > 0 {
        windowSize := window;
        dontBackOff := false;
      } else {
        windowSize := 1;
        dontBackOff := true;
      }
    }

    /** An ackno that is not ignored, and the window that comes with it: the sender becomes `t`. */
    method AcceptAck(msg: ReceiverMessage, ghost ack: nat, ghost t: Sender)
      requires Mirrors() && Wrapped() && Recovered(model.inFlight, isn, absoluteSeqno)
      requires msg.ackno == Some(Wrap(ack, isn)) && Unwrapped(Wrap(ack, isn), isn, absoluteSeqno) == ack
      requires Unwrapped(Wrap(model.ack, isn), isn, absoluteSeqno) == model.ack
      requires t == AfterAck(model, msg, ack)
      modifies this, timer
      ensures Mirrors() && Wrapped() && model == t
    {
      hide DropAcked, Unwrapped, Wrap, WireFlight, Wires, Recovered;
      var oldAckno := ackno;
      TakeAck(msg, model.inFlight, ack);
      AdjustTimer(oldAckno, model.ack < ack);
      model := t;
    }

    /** The ackno, its window, and what it acknowledges. */
    method TakeAck(msg: ReceiverMessage, ghost flight: seq<Outstanding>, ghost ack: nat)
      requires msg.ackno.Some? && Unwrapped(msg.ackno.value, isn, absoluteSeqno) == ack
      requires segmentsInFlight == WireFlight(flight, isn) && Recovered(flight, isn, absoluteSeqno)
      modifies this`ackno, this`windowSize, this`dontBackOff, this`segmentsInFlight
      ensures ackno == msg.ackno.value
      ensures windowSize == (if msg.window > 0 then msg.window else 1) && dontBackOff == (msg.window == 0)
      ensures segmentsInFlight == WireFlight(DropAcked(flight, ack), isn)
    {
      hide Unwrapped, Recovered, WireFlight, DropAcked;
      ackno := msg.ackno.value;
      AdoptWindow(msg.window);
      PopAcknowledged(flight, ack);
    }

    /** Any ackno, in order or not, also while a retransmission is due. */
    method Receive(msg: ReceiverMessage)
      requires Valid() && Near(model) && msg.ackno.Some?
      modifies this, timer
      ensures Valid() && model == Senders.Receive(old(model), msg)
    {
      hide Near, Unwrapped, Wrap, WireFlight, Wires, Senders.Receive, Recovered, AfterAck, IsNearest;
      var value := Unwrap(msg.ackno.value, isn, absoluteSeqno);
      if value > absoluteSeqno {
        ReceiveFields(model, msg);
        return;
      }
      AcceptLaws(model, msg);
      AcceptAck(msg, value, Senders.Receive(model, msg));
    }

    method Tick(ms: nat)
      requires Valid()
      modifies this, timer
      ensures Valid() && model == Senders.Tick(old(model), ms)
    {
      TickFields(model, ms);
      hide Segments, Wires, WireFlight, Wrap, Senders.Tick, Sender.Queue;
      model := Senders.Tick(model, ms);
      timeAlive := (timeAlive + ms) % TWO64;
      var expired := timer.IsExpired(timeAlive);
      if expired {
        if segmentsInFlight != [] {
          retransmit := true;
        }
        if windowSize > 0 {
          if !dontBackOff {
            currentRTO := currentRTO * 2 % TWO64;
          }
          consecutiveRetransmissions := consecutiveRetransmissions + 1;
        }
        timer.Start(timeAlive, currentRTO);
      }
    }

    /** One round of the pushing loop: up to a payload's worth of bytes leaves the stream, in a
        segment at the current sequence number, with the FIN if the stream is finished by then and
        there is room (or this is the SYN's segment). The segment is queued unless it is empty. As
        long as bytes stay behind, whether the loop will end or not, it is a round of `Loop`. */
    method PushRound(segment: SenderMessage, room: u64, out: ByteStream)
        returns (sent: SenderMessage, left: u64)
      requires out.Valid() && !segment.fin
      requires absoluteSeqno + out.BytesBuffered() + 1 < TWO64 && (segment.syn ==> absoluteSeqno > 0)
      modifies this`pushedSegments, this`absoluteSeqno, this`finSent, out
      ensures out.Valid()
      ensures var before := old(out.View());
              var size := Min(MAX_PAYLOAD, Min(room, before.Buffered()));
              var fin := !old(finSent) && before.closed && size == before.Buffered() && (size < room || segment.syn);
              && out.View() == before.Pop(size)
              && sent == SenderMessage(Wrap(old(absoluteSeqno) - One(segment.syn), isn), segment.syn,
                                       before.Contents()[..size], fin)
              && absoluteSeqno == old(absoluteSeqno) + size + One(fin)
              && finSent == (old(finSent) || fin)
              && left == (room - size - One(fin)) % TWO64
              && pushedSegments == old(pushedSegments) + (if sent.SequenceLength() > 0 then [sent] else [])
      ensures old(out.View()).Buffered() > Min(MAX_PAYLOAD, Min(room, old(out.View()).Buffered())) ==>
                Loop(left, out.View().Buffered(), sent.syn)
                == Loop(room, old(out.View()).Buffered(), segment.syn).Round()
    {
      hide Wrap, Loop.Round;
      var size := Min(MAX_PAYLOAD, Min(room, out.BytesBuffered()));
      RoundOf(room, out.BytesBuffered(), segment.syn, size);
      var payload := Read(out, size);
      sent := segment.(payload := payload);
      left := room - |payload|;
      sent := sent.(seqno := Wrap(absoluteSeqno - One(segment.syn), isn));
      absoluteSeqno := absoluteSeqno + |payload|;
      sent, left := AttachFin(sent, left, out);
      Enqueue(sent);
    }

    /** The FIN goes along once the stream is finished, if there is room or the segment has the SYN;
        in the latter case the room may wrap around. */
    method AttachFin(segment: SenderMessage, room: u64, out: ByteStream) returns (sent: SenderMessage, left: u64)
      requires out.Valid() && !segment.fin && absoluteSeqno + 1 < TWO64
      modifies this`finSent, this`absoluteSeqno
      ensures var fin := !old(finSent) && out.View().Finished() && (room > 0 || segment.syn);
              && sent == segment.(fin := fin) && left == (room - One(fin)) % TWO64
              && finSent == (old(finSent) || fin) && absoluteSeqno == old(absoluteSeqno) + One(fin)
    {
      sent, left := segment, room;
      if !finSent && out.IsFinished() && (room > 0 || (room == 0 && segment.syn)) {
        finSent := true;
        left := (room - 1) % TWO64;
        absoluteSeqno := absoluteSeqno + 1;
        sent := sent.(fin := true);
      }
    }

    /** An empty segment is not queued. */
    method Enqueue(segment: SenderMessage)
      modifies this`pushedSegments
      ensures pushedSegments == old(pushedSegments) + (if segment.SequenceLength() > 0 then [segment] else [])
    {
      if |segment.payload| > 0 || segment.fin || segment.syn {
        pushedSegments := pushedSegments + [segment];
      }
    }

    /** The invariant of the pushing loop: `k` bytes have left the stream in `segs`, in so many
        rounds. */
    ghost predicate LoopHolds(segment: SenderMessage, room: int, out: ByteStream, s: Sender, before: Stream,
                              k: nat, segs: seq<Seg>, rounds: nat)
      reads this, out
    {
      && out.Valid() && before.Valid() && !segment.fin && segment.syn == !s.synSent
      && k <= before.Buffered() && out.View() == before.Pop(k)
      && absoluteSeqno == s.next + One(!s.synSent) + k && finSent == s.finSent
      && room == s.Allowance() - k && PushedSoFar(s, before, k, segs)
      && Loop(room, before.Buffered() - k, segment.syn) == Rounds(LoopOf(s, before), rounds)
      && pushedSegments == Wires(s.unsent, isn) + Wires(segs, isn)
      && s.next + before.Buffered() + 2 < TWO63
    }

    /** One round, with its bookkeeping. Either it drained the stream and completed the push, or the
        loop goes on with less room and one round more behind it. */
    method FillRound(segment: SenderMessage, room: u64, out: ByteStream, ghost s: Sender, ghost before: Stream,
                     ghost k: nat, ghost segs: seq<Seg>, ghost rounds: nat)
        returns (sent: SenderMessage, left: u64, ghost segs': seq<Seg>, ghost k': nat)
      requires LoopHolds(segment, room, out, s, before, k, segs, rounds) && Ends(s, before)
      requires room > 0 || segment.syn
      modifies this`pushedSegments, this`absoluteSeqno, this`finSent, out
      ensures out.Valid() && out.View() == before.Pop(k') && k' <= before.Buffered()
      ensures before.Buffered() == k' ==>
                && k' == Amount(s, before)
                && pushedSegments == Wires(s.unsent, isn) + Wires(NewSegments(s, before), isn)
                && absoluteSeqno == s.next + One(!s.synSent) + k' + One(SendsFin(s, before))
                && finSent == (s.finSent || SendsFin(s, before))
      ensures before.Buffered() > k' ==>
                LoopHolds(sent, left, out, s, before, k', segs', rounds + 1) && left < room
    {
      hide Cut, NewSegments, PushedSoFar, Wrap, SendsFin, Amount, Wires, Ends, Sender.Allowance, LoopOf;
      ghost var size := Min(MAX_PAYLOAD, Min(room, before.Buffered() - k));
      assert before.Pop(k).Buffered() == before.Buffered() - k;
      sent, left := PushRound(segment, room, out);
      segs', k' := AfterRound(s, before, k, segs, room, size, sent, isn);
    }

    /** The pushing loop, entered with the SYN's segment or with an empty one. */
    method FillWindow(first: SenderMessage, total: u64, out: ByteStream, ghost s: Sender)
      requires out.Valid() && !first.fin && first.syn == !s.synSent && s.next < TWO63
      requires absoluteSeqno == s.next + One(!s.synSent) && finSent == s.finSent
      requires pushedSegments == Wires(s.unsent, isn)
      requires total == s.Allowance() && Ends(s, out.View())
      requires s.next + out.BytesBuffered() + 2 < TWO63
      modifies this`pushedSegments, this`absoluteSeqno, this`finSent, out
      ensures out.Valid() && out.View() == PushedFrom(s, old(out.View()))
      ensures pushedSegments == Wires(s.unsent + NewSegments(s, old(out.View())), isn)
      ensures absoluteSeqno == s.next + One(!s.synSent) + Amount(s, old(out.View())) + One(SendsFin(s, old(out.View())))
      ensures finSent == (s.finSent || SendsFin(s, old(out.View())))
    {
      var segment, room := first, total;
      ghost var before := out.View();
      ghost var segs: seq<Seg>, k: nat, rounds: nat, drained := [], 0, 0, false;
      FirstRound(s, before);
      WiresConcat(s.unsent, NewSegments(s, before), isn);
      assert Wires([], isn) == [] && pushedSegments + [] == pushedSegments;
      hide Cut, NewSegments, PushedSoFar, Wrap, SendsFin, Amount, Wires, Ends, Sender.Allowance;
      while room > 0 || segment.syn
        invariant LoopHolds(segment, room, out, s, before, k, segs, rounds) && !drained
        decreases room
      {
        segment, room, segs, k := FillRound(segment, room, out, s, before, k, segs, rounds);
        if out.BytesBuffered() == 0 {
          drained := true;
          break;
        }
        rounds := rounds + 1;
      }
      if !drained { NoRoomLeft(s, before, k, segs); }
    }

    /** The room for this push, in unsigned 64-bit arithmetic, and the SYN if it has not been sent. */
    method StartPush() returns (segment: SenderMessage, room: u64)
      requires Valid() && Near(model)
      modifies this`synSent, this`absoluteSeqno
      ensures segment.syn == !old(synSent) && !segment.fin && synSent
      ensures absoluteSeqno == old(absoluteSeqno) + One(segment.syn)
      ensures room == model.Allowance()
    {
      NearRecovered(model);
      hide Near, Unwrapped, Wrap, Wires, WireFlight, IsNearest, Recovered, Sender.Allowance;
      var acked := Unwrap(ackno, isn, absoluteSeqno);
      room := (windowSize - (absoluteSeqno - acked) % TWO64) % TWO64;
      AllowanceIs(model, acked);
      segment := SenderMessage(Wrap32(0), false, [], false);
      if !synSent {
        synSent := true;
        segment := segment.(syn := true);
        room := (room - 1) % TWO64;
        absoluteSeqno := absoluteSeqno + 1;
      }
    }

    /** Any push that ends, past the window or not, the first one on buffered data included. */
    method Push(out: ByteStream)
      requires Valid() && Near(model) && out.Valid() && Ends(model, out.View())
      requires absoluteSeqno + out.BytesBuffered() + 2 < TWO63
      modifies this, out
      ensures Valid() && out.Valid() && old(out.View()).Valid() && Ends(old(model), old(out.View()))
      ensures model == Senders.Push(old(model), old(out.View()))
      ensures out.View() == PushedFrom(old(model), old(out.View()))
    {
      ghost var s, before := model, out.View();
      assert before.Valid() && Amount(s, before) <= before.Buffered();
      hide Wrap, Wires, WireFlight, NewSegments, Amount, SendsFin, Near, Ends, Sender.Allowance;
      var segment, room := StartPush();
      FillWindow(segment, room, out, s);
      model := Senders.Push(s, before);
    }

    method SendEmptyMessage() returns (message: SenderMessage)
      requires Valid()
      ensures message == SenderMessage(Wrap(model.next, isn), false, [], false)
    {
      message := SenderMessage(Wrap(absoluteSeqno, isn), false, [], false);
    }
  }

  lemma SpanSnoc(segs: seq<Seg>, k: nat)
    requires k < |segs|
    ensures Span(segs[..k + 1]) == Span(segs[..k]) + segs[k].Len()
  {
    assert segs[..k + 1] == segs[..k] + [segs[k]];
    SpanConcat(segs[..k], [segs[k]]);
    assert [segs[k]][1..] == [];
  }

  lemma QueueSpan(s: Sender)
    ensures Span(s.Queue()) == Span(Segments(s.inFlight)) + Span(s.unsent)
    ensures Ordered(s) ==> Span(s.Queue()) == s.next - s.Base()
  {
    SpanConcat(Segments(s.inFlight), s.unsent);
    if Ordered(s) {
      QueueTiles(s);
      TiledSpan(s.Queue(), s.Base(), s.next);
    }
  }

  /** The unsigned subtractions of a push, one after the other. */
  lemma AllowanceIs(s: Sender, acked: u64)
    ensures acked == s.ack ==>
              var room := (s.window - (s.next - acked) % TWO64) % TWO64;
              s.Allowance() == if s.synSent then room else (room - 1) % TWO64
  {
    assert (s.window - (s.next - acked) % TWO64) % TWO64 == (s.window - (s.next - acked)) % TWO64;
  }

  lemma {:induction false} SpanConcat(a: seq<Seg>, b: seq<Seg>)
    ensures Span(a + b) == Span(a) + Span(b)
  {
    if a == [] {
      assert a + b == b;
    } else {
      assert (a + b)[1..] == a[1..] + b;
      SpanConcat(a[1..], b);
    }
  }
}
