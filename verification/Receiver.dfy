/** The TCP receiver: it turns sequence numbers into stream indices for the reassembler, and
    acknowledges what has been assembled. */
module Receivers {
  import opened Words
  import opened Wrapping
  import opened Messages
  import opened ByteStreams
  import opened Assembly
  import opened Reassemblers

  /** The receiver together with the reassembler and the inbound stream it drives. */
  datatype Receiver = Receiver(isn: Wrap32, syn: bool, fin: bool, asm: Assembler) {
    function Written(): nat {
      |asm.out.written|
    }

    /** The absolute sequence number that is acknowledged. */
    function AckPosition(): nat {
      Written() + 1 + (if fin && asm.out.closed then 1 else 0)
    }

    function Window(): nat
      requires asm.out.Valid()
    {
      Min(asm.out.Available(), MAX_WINDOW)
    }

    function RightEdge(): nat
      requires asm.out.Valid()
    {
      AckPosition() + Window()
    }

    ghost predicate Valid() {
      && asm.Windowed()
      && (asm.last.Some? || asm.out.closed ==> fin)
      && (asm.out.closed ==> asm.last.Some?)
      && (!syn ==> !fin && asm.out.written == [] && asm.pending == map[])
    }
  }

  function NewReceiver(capacity: nat): Receiver {
    Receiver(Wrap32(0), false, false, Fresh(capacity))
  }

  /** The index of the segment's first payload byte, one below its unwrapped sequence number,
      in 64-bit arithmetic. */
  function StreamIndex(m: SenderMessage, isn: Wrap32, checkpoint: u64): u64 {
    (Unwrapped(if m.syn then m.seqno.Plus(1) else m.seqno, isn, checkpoint) - 1) % TWO64
  }

  /** Nothing happens before the first SYN, which sets the zero point for good. */
  function Accept(r: Receiver, m: SenderMessage): Receiver
    requires r.asm.out.Valid() && r.Written() < TWO64
  {
    if !r.syn && !m.syn then r
    else
      var isn := if r.syn then r.isn else m.seqno;
      Receiver(isn, true, r.fin || m.fin,
               Insert(r.asm, StreamIndex(m, isn, r.Written()), m.payload, m.fin))
  }

  function Acknowledge(r: Receiver): ReceiverMessage
    requires r.asm.out.Valid()
  {
    ReceiverMessage(if r.syn then Some(Wrap(r.AckPosition(), r.isn)) else None, r.Window())
  }

  function TakeInbound(r: Receiver, len: nat): Receiver
    requires r.asm.out.Valid()
  {
    r.(asm := Take(r.asm, len))
  }

  // ---- any run of segments and reads ----

  datatype ReceiverEvent = SegmentIn(m: SenderMessage) | ReadInbound(len: nat)

  /** One event is possible as long as the stream has not outgrown 64-bit indices. */
  predicate CanStep(r: Receiver) {
    r.asm.out.Valid() && r.Written() < TWO64
  }

  function StepReceiver(r: Receiver, e: ReceiverEvent): Receiver
    requires CanStep(r)
  {
    match e
    case SegmentIn(m) => Accept(r, m)
    case ReadInbound(len) => TakeInbound(r, len)
  }

  /** What an insertion can change, whatever it brings. */
  lemma InsertProgress(a: Assembler, first: u64, data: Bytes, isLast: bool)
    requires a.Windowed()
    ensures var b := Insert(a, first, data, isLast);
            && b.Windowed()
            && a.out.written <= b.out.written
            && b.out.taken == a.out.taken && b.out.capacity == a.out.capacity
            && (a.out.closed ==> b.out.closed)
            && (b.out.closed && !a.out.closed ==> b.last.Some?)
            && b.last.Some? == (isLast || a.last.Some?)
  {
    InsertWindow(a, first, data, isLast);
  }

  lemma StepValid(r: Receiver, e: ReceiverEvent)
    requires r.Valid() && CanStep(r)
    ensures StepReceiver(r, e).Valid()
    ensures r.asm.out.written <= StepReceiver(r, e).asm.out.written
    ensures r.syn ==> StepReceiver(r, e).syn && StepReceiver(r, e).isn == r.isn
    ensures StepReceiver(r, e).asm.out.capacity == r.asm.out.capacity
  {
    match e
    case SegmentIn(m) =>
      var isn := if r.syn then r.isn else m.seqno;
      InsertProgress(r.asm, StreamIndex(m, isn, r.Written()), m.payload, m.fin);
    case ReadInbound(len) =>
      TakeWindow(r.asm, len);
  }

  /** Neither what is acknowledged nor the edge of the offered window ever moves back
      (section 3.8.6 of RFC 9293 asks receivers not to shrink the window). */
  lemma StepMonotone(r: Receiver, e: ReceiverEvent)
    requires r.Valid() && CanStep(r)
    ensures r.AckPosition() <= StepReceiver(r, e).AckPosition()
    ensures StepReceiver(r, e).asm.out.Valid()
    ensures r.RightEdge() <= StepReceiver(r, e).RightEdge()
  {
    StepValid(r, e);
    match e
    case SegmentIn(m) =>
      var isn := if r.syn then r.isn else m.seqno;
      InsertProgress(r.asm, StreamIndex(m, isn, r.Written()), m.payload, m.fin);
    case ReadInbound(len) =>
  }

  function StepAll(r: Receiver, events: seq<ReceiverEvent>): Option<Receiver>
    decreases events
  {
    if events == [] then Some(r)
    else if !CanStep(r) then None
    else StepAll(StepReceiver(r, events[0]), events[1..])
  }

  lemma {:induction false} RunMonotone(r: Receiver, events: seq<ReceiverEvent>)
    requires r.Valid() && StepAll(r, events).Some?
    ensures var end := StepAll(r, events).value;
            && end.Valid() && end.asm.out.capacity == r.asm.out.capacity
            && r.asm.out.written <= end.asm.out.written
            && r.AckPosition() <= end.AckPosition()
            && r.RightEdge() <= end.RightEdge()
    decreases events
  {
    if events != [] {
      StepValid(r, events[0]);
      StepMonotone(r, events[0]);
      RunMonotone(StepReceiver(r, events[0]), events[1..]);
    }
  }

  /** From the start, over any run: there is an ackno exactly once a SYN has come, and it stands
      for 1 plus the assembled length, plus 1 more once the stream is closed. */
  lemma Acknowledgement(capacity: nat, events: seq<ReceiverEvent>)
    requires StepAll(NewReceiver(capacity), events).Some?
    ensures var end := StepAll(NewReceiver(capacity), events).value;
            && end.Valid()
            && (end.syn <==> exists k :: 0 <= k < |events| && events[k].SegmentIn? && events[k].m.syn)
            && Acknowledge(end).ackno
               == (if end.syn
                   then Some(Wrap(1 + end.Written() + (if end.asm.out.closed then 1 else 0), end.isn))
                   else None)
            && Acknowledge(end).window <= end.asm.out.Available()
  {
    RunMonotone(NewReceiver(capacity), events);
    SynSeen(NewReceiver(capacity), events);
  }

  lemma {:induction false} SynSeen(r: Receiver, events: seq<ReceiverEvent>)
    requires StepAll(r, events).Some?
    ensures StepAll(r, events).value.syn
            <==> r.syn || exists k :: 0 <= k < |events| && events[k].SegmentIn? && events[k].m.syn
    decreases events
  {
    if events != [] {
      var next := StepReceiver(r, events[0]);
      SynSeen(next, events[1..]);
      if k :| 0 <= k < |events| && events[k].SegmentIn? && events[k].m.syn {
        assert k > 0 ==> events[1..][k - 1] == events[k];
      }
      if k :| 0 <= k < |events[1..]| && events[1..][k].SegmentIn? && events[1..][k].m.syn {
        assert events[k + 1] == events[1..][k];
      }
    }
  }

  // ---- segments with a known absolute position ----

  /** The wire form of a segment at absolute position `pos`. */
  ghost predicate StandsAt(m: SenderMessage, pos: nat, isn: Wrap32) {
    m.seqno == Wrap(pos, isn) && (m.syn <==> pos == 0)
  }

  function FirstByte(m: SenderMessage, pos: nat): int {
    pos - 1 + (if m.syn then 1 else 0)
  }

  lemma StreamIndexAt(m: SenderMessage, pos: nat, isn: Wrap32, written: u64)
    requires StandsAt(m, pos, isn) && pos + 1 < TWO64
    requires Distance(FirstByte(m, pos) + 1, written) < TWO31
    ensures StreamIndex(m, isn, written) == FirstByte(m, pos)
  {
    hide Unwrapped, Wrap, Wrap32.Plus;
    if m.syn { WrapPlus(pos, 1, isn); }
    RoundTrip(FirstByte(m, pos) + 1, isn, written);
  }

  lemma AcceptUnfolds(r: Receiver, m: SenderMessage, isn: Wrap32, index: u64)
    requires r.asm.out.Valid() && r.Written() < TWO64 && (r.syn || m.syn)
    requires isn == if r.syn then r.isn else m.seqno
    requires index == StreamIndex(m, isn, r.Written())
    ensures Accept(r, m) == Receiver(isn, true, r.fin || m.fin, Insert(r.asm, index, m.payload, m.fin))
  {
  }

  lemma NotBeforeSyn(r: Receiver, m: SenderMessage)
    requires r.asm.out.Valid() && r.Written() < TWO64
    ensures !r.syn && !m.syn ==> Accept(r, m) == r
  {
  }

  /** A segment whose position is within half the sequence space of what has been assembled is
      inserted at its true stream index. */
  lemma AcceptAt(r: Receiver, m: SenderMessage, pos: nat, isn: Wrap32)
    requires r.asm.out.Valid() && r.Written() < TWO64
    requires StandsAt(m, pos, isn) && (r.syn ==> r.isn == isn) && (r.syn || m.syn)
    requires pos + 1 < TWO64 && Distance(FirstByte(m, pos) + 1, r.Written()) < TWO31
    ensures Accept(r, m)
            == Receiver(isn, true, r.fin || m.fin, Insert(r.asm, FirstByte(m, pos), m.payload, m.fin))
  {
    assert m.syn ==> m.seqno == isn;
    StreamIndexAt(m, pos, isn, r.Written());
    AcceptUnfolds(r, m, isn, FirstByte(m, pos));
  }

  /** A segment without SYN at the initial sequence number itself lies one below stream index 0,
      at 2^64 - 1 in the program's arithmetic: it is beyond any window, so nothing of it is kept.
      A FIN on it still counts, and puts the end of the stream one byte too low. */
  lemma BelowFirstByteIsDropped(r: Receiver, m: SenderMessage)
    requires r.asm.out.Valid() && r.syn && !m.syn && m.seqno == r.isn
    requires r.Written() < TWO31 && r.asm.Edge() < TWO64 - 1
    ensures StreamIndex(m, r.isn, r.Written()) == TWO64 - 1
    ensures Accept(r, m)
            == if m.fin then r.(fin := true, asm := r.asm.(last := Some((TWO64 - 1 + |m.payload|) % TWO64)))
               else r
  {
    assert m.seqno == Wrap(0, r.isn);
    RoundTrip(0, r.isn, r.Written());
  }

  // ---- what the offered window is worth ----

  /** Over any run the window reaches exactly to what the capacity allows beyond what the reader has
      taken, or else is the largest that a header can carry. */
  lemma OfferIsRoom(capacity: nat, events: seq<ReceiverEvent>)
    requires StepAll(NewReceiver(capacity), events).Some?
    ensures var end := StepAll(NewReceiver(capacity), events).value;
            && end.asm.out.Valid() && end.asm.out.capacity == capacity
            && var reach := end.Written() + Acknowledge(end).window;
               && reach <= end.asm.out.taken + capacity
               && (Acknowledge(end).window != 65535 ==> reach == end.asm.out.taken + capacity)
  {
    RunMonotone(NewReceiver(capacity), events);
  }

  /** And over any run every byte of a segment within the offered window is known afterwards, written
      or held back. */
  lemma OfferedIsKept(capacity: nat, events: seq<ReceiverEvent>, m: SenderMessage, pos: nat, i: nat)
    requires StepAll(NewReceiver(capacity), events).Some?
    requires var r := StepAll(NewReceiver(capacity), events).value;
             && r.asm.out.Valid() && r.syn && r.Written() < TWO63
             && !m.syn && 0 < pos && m.seqno == Wrap(pos, r.isn)
             && r.Written() <= pos - 1 && pos - 1 + |m.payload| <= r.Written() + Acknowledge(r).window
             && pos - 1 <= i < pos - 1 + |m.payload|
    ensures var r := StepAll(NewReceiver(capacity), events).value;
            KnownAt(Accept(r, m).asm, i) == Some(m.payload[i - (pos - 1)])
  {
    hide StepAll, Accept, KnownAt, Wrap;
    RunMonotone(NewReceiver(capacity), events);
    OfferIsRoom(capacity, events);
    KeptBelowEdge(StepAll(NewReceiver(capacity), events).value, m, pos, i);
  }

  lemma KeptBelowEdge(r: Receiver, m: SenderMessage, pos: nat, i: nat)
    requires r.Valid() && r.syn && r.Written() < TWO63 && !m.syn && 0 < pos && m.seqno == Wrap(pos, r.isn)
    requires r.Written() <= pos - 1 && pos - 1 + |m.payload| <= Min(r.asm.Edge(), r.Written() + MAX_WINDOW)
    requires pos - 1 <= i < pos - 1 + |m.payload|
    ensures KnownAt(Accept(r, m).asm, i) == Some(m.payload[i - (pos - 1)])
  {
    hide Accept, Insert, KnownAt, Wrap;
    AcceptAt(r, m, pos, r.isn);
    InsertIsOverride(r.asm, pos - 1, m.payload, m.fin, i);
  }

  class TCPReceiver {
    var isn: Wrap32
    var synReceived: bool
    var finReceived: bool

    constructor ()
      ensures isn == Wrap32(0) && !synReceived && !finReceived
    {
      isn, synReceived, finReceived := Wrap32(0), false, false;
    }

    ghost function View(reassembler: Reassembler, inbound: ByteStream): Receiver
      requires reassembler.Valid(inbound)
      reads this, reassembler, reassembler.buffer, reassembler.buffer.buffer, reassembler.intervals, inbound
    {
      Receiver(isn, synReceived, finReceived, reassembler.View(inbound))
    }

    method Receive(message: SenderMessage, reassembler: Reassembler, inbound: ByteStream)
      requires reassembler.Valid(inbound)
      requires inbound.bytesPopped + inbound.capacity + |message.payload| < TWO64
      modifies this, reassembler, reassembler.buffer, reassembler.buffer.buffer, reassembler.intervals, inbound
      ensures reassembler.Valid(inbound)
      ensures View(reassembler, inbound) == Accept(old(View(reassembler, inbound)), message)
      ensures reassembler.buffer.buffer == old(reassembler.buffer.buffer) || fresh(reassembler.buffer.buffer)
    {
      NotBeforeSyn(View(reassembler, inbound), message);
      hide Accept, Assembly.Insert, Unwrapped, IsNearest, CoversWithin, Held;
      if !synReceived && message.syn {
        isn := message.seqno;
        synReceived := true;
      }
      if synReceived {
        var seqno := message.seqno;
        if message.syn {
          seqno := seqno.Plus(1);
        }
        var absolute := Unwrap(seqno, isn, inbound.bytesPushed);
        var streamIndex := (absolute - 1) % TWO64;
        finReceived := finReceived || message.fin;
        AcceptUnfolds(old(View(reassembler, inbound)), message, isn, streamIndex);
        reassembler.Insert(streamIndex, message.payload, message.fin, inbound);
      }
    }

    method Send(ghost reassembler: Reassembler, inbound: ByteStream) returns (response: ReceiverMessage)
      requires reassembler.Valid(inbound)
      ensures response == Acknowledge(View(reassembler, inbound))
    {
      var ackno := None;
      if synReceived {
        ackno := Some(Wrap(inbound.bytesPushed + 1 + (if finReceived && inbound.closed then 1 else 0), isn));
      }
      response := ReceiverMessage(ackno, Min(inbound.AvailableCapacity(), MAX_WINDOW));
    }
  }
}
