/** What holds over every run of a connection, whatever acks arrive: safety of the delivered stream.
    If the acks are the receiver's, in whatever order, nothing unassembled is forgotten either. */
module ConnectionLaws {
  import opened Words
  import opened Wrapping
  import opened Messages
  import opened ByteStreams
  import opened Assembly
  import opened Receivers
  import opened Senders
  import opened SenderLaws
  import opened Conservation
  import opened Connections

  // ---- the sender's side ----

  /** When the sender takes more from its stream, what has been sent and assembled still agrees. */
  lemma AssemblesLater(a: Assembler, s: Bytes, s': Bytes)
    requires Assembles(a, s) && s <= s'
    requires a.last.Some? ==> s == s'
    ensures Assembles(a, s')
  {
  }

  lemma NetLater(c: Connection, out: Stream, finSent: bool, unsentStart: nat)
    requires c.out.Valid() && NetFine(c) && out.Valid() && c.out.Taken() <= out.Taken()
    requires c.snd.finSent ==> finSent && c.out.Taken() == out.Taken()
    requires c.snd.UnsentStart() <= unsentStart
    ensures forall seg :: seg in c.net ==>
              && Faithful(seg, out.Taken(), finSent) && seg.End() <= unsentStart
              && |seg.payload| <= MAX_PAYLOAD && (seg.syn <==> seg.pos == 0)
  {
    forall seg | seg in c.net
      ensures Faithful(seg, out.Taken(), finSent) && seg.End() <= unsentStart
    {
      FaithfulLater(seg, c.out.Taken(), c.snd.finSent, out.Taken(), finSent);
    }
  }

  lemma WriteSafe(c: Connection, data: Bytes)
    requires Safe(c) && Enabled(c, Write(data))
    ensures Safe(Next(c, Write(data)))
  {
    WriterConserves(c.snd, c.out, data);
    hide Ordered, Timed, Assembles, Faithful, Below;
  }

  lemma CloseSafe(c: Connection)
    requires Safe(c) && Enabled(c, CloseOut)
    ensures Safe(Next(c, CloseOut))
  {
    WriterConserves(c.snd, c.out, []);
    hide Ordered, Timed, Assembles, Faithful, Below;
  }

  /** A step at the sender's side leaves the receiver's side in order, if the sender takes only more
      from its stream, and nothing more once the FIN is sent. */
  lemma ReceiverLater(c: Connection, d: Connection)
    requires c.out.Valid() && ReceiverFine(c)
    requires d.rcv == c.rcv && d.out.Valid() && d.snd.isn == c.snd.isn
    requires c.snd.UnsentStart() <= d.snd.UnsentStart() && c.out.Taken() <= d.out.Taken()
    requires c.snd.finSent ==> d.snd.finSent && c.out.taken == d.out.taken
    ensures ReceiverFine(d)
  {
    assert c.snd.finSent ==> c.out.Taken() == d.out.Taken();
    AssemblesLater(c.rcv.asm, c.out.Taken(), d.out.Taken());
    hide Assembles, Receiver.Valid, Sender.UnsentStart, Below;
  }

  lemma PushFields(s: Sender, out: Stream)
    requires out.Valid() && Ends(s, out)
    ensures var t := Push(s, out);
            && t.isn == s.isn && t.ack == s.ack && t.window == s.window && t.finSent == (s.finSent || SendsFin(s, out))
            && (Timed(s) ==> Timed(t)) && t.timer == s.timer && t.rto == s.rto
            && t.inFlight == s.inFlight && t.retransmit == s.retransmit
            && PushedFrom(s, out).written == out.written
            && (s.finSent && out.Finished() ==> PushedFrom(s, out) == out)
  {
  }

  lemma PushSafe(c: Connection)
    requires Safe(c) && Enabled(c, PushStep)
    ensures Safe(Next(c, PushStep))
  {
    hide Push, PushedFrom, SendsFin, Amount, Ordered, Timed, Faithful, Assembles, Below, Sender.UnsentStart;
    var d := Next(c, PushStep);
    PushOrdered(c.snd, c.out);
    PushConserves(c.snd, c.out);
    PushFields(c.snd, c.out);
    NetLater(c, d.out, d.snd.finSent, d.snd.UnsentStart());
    ReceiverLater(c, d);
    hide Conserved, ReceiverFine;
  }

  lemma MaybeSendKeeps(s: Sender)
    requires CanSend(s)
    ensures var t := MaybeSend(s);
            && t.isn == s.isn && t.ack == s.ack && t.window == s.window && t.next == s.next && t.finSent == s.finSent
  {
  }

  lemma SendSender(c: Connection)
    requires Safe(c) && Enabled(c, SendStep)
    ensures SenderFine(Next(c, SendStep))
    ensures c.snd.UnsentStart() <= MaybeSend(c.snd).UnsentStart()
    ensures var seg := Sent(c.snd).value;
            && Faithful(seg, c.out.Taken(), c.snd.finSent) && |seg.payload| <= MAX_PAYLOAD
            && (seg.syn <==> seg.pos == 0)
            && seg.End() <= MaybeSend(c.snd).UnsentStart()
  {
    MaybeSendKeeps(c.snd);
    hide MaybeSend, Sent, Faithful, NetFine, ReceiverFine;
    MaybeSendOrdered(c.snd);
    MaybeSendConserves(c.snd, c.out);
    hide Ordered, Timed, Conserved, Sender.UnsentStart;
  }

  lemma SendSafe(c: Connection)
    requires Safe(c) && Enabled(c, SendStep)
    ensures Safe(Next(c, SendStep))
  {
    hide MaybeSend, Sent, Faithful, Ordered, Timed, Conserved, Assembles, Below, Sender.UnsentStart;
    var d := Next(c, SendStep);
    MaybeSendKeeps(c.snd);
    SendSender(c);
    NetLater(c, c.out, c.snd.finSent, d.snd.UnsentStart());
    ReceiverLater(c, d);
    hide ReceiverFine;
  }

  lemma TickKeeps(s: Sender, ms: nat)
    ensures var t := Tick(s, ms);
            && t.isn == s.isn && t.ack == s.ack && t.window == s.window && t.next == s.next && t.finSent == s.finSent
            && t.UnsentStart() == s.UnsentStart()
  {
  }

  lemma TickSafe(c: Connection, ms: nat)
    requires Safe(c) && Enabled(c, TickStep(ms))
    ensures Safe(Next(c, TickStep(ms)))
  {
    hide Tick, Faithful, Ordered, Timed, Conserved, Sender.UnsentStart;
    TickKeeps(c.snd, ms);
    TickOrdered(c.snd, ms);
    TickConserves(c.snd, c.out, ms);
    ReceiverLater(c, Next(c, TickStep(ms)));
    hide ReceiverFine;
  }

  lemma ReceiveKeeps(s: Sender, msg: ReceiverMessage)
    requires msg.ackno.Some? && s.next < TWO64
    ensures var t := Senders.Receive(s, msg);
            && t.isn == s.isn && t.next == s.next && t.finSent == s.finSent && t.synSent == s.synSent
            && t.retransmit == s.retransmit && t.window >= Min(s.window, 1)
  {
  }

  /** Any message with an ackno. */
  lemma HearSafe(c: Connection, msg: ReceiverMessage)
    requires Safe(c) && msg.ackno.Some?
    ensures c.snd.next < TWO64 && Safe(c.(snd := Senders.Receive(c.snd, msg)))
  {
    SafeWellFormed(c);
    hide Senders.Receive, Faithful, Ordered, Timed, Conserved, Sender.UnsentStart;
    var d := c.(snd := Senders.Receive(c.snd, msg));
    ReceiveKeeps(c.snd, msg);
    ReceiveOrdered(c.snd, msg);
    ReceiveConserves(c.snd, c.out, msg);
    ReceiverLater(c, d);
    hide ReceiverFine;
  }

  /** Where acks arrive and what the acks are makes no difference to safety. */
  lemma SafeApart(c: Connection, acks: seq<Ack>, heard: nat)
    requires Safe(c)
    ensures Safe(c.(acks := acks, heard := heard))
  {
    hide Ordered, Timed, Conserved, Assembles, Faithful, Below;
  }

  // ---- the receiver's side ----

  lemma InsertBelow(a: Assembler, first: u64, data: Bytes, isLast: bool, bound: nat)
    requires a.Windowed() && Below(a, bound) && first + |data| <= bound
    ensures Below(Insert(a, first, data, isLast), bound)
  {
    InsertWindow(a, first, data, isLast);
    var known := Store(a, first, data).pending;
    assert forall i :: i in known ==> i < bound;
    var to := Gap(known.Keys, a.Unassembled());
    assert to > a.Unassembled() ==> to - 1 in known.Keys;
  }

  /** A delivered segment is inserted at its own index, as a slice of what the sender took. */
  lemma DeliverIsInsert(c: Connection, seg: Seg)
    requires Safe(c) && Enabled(c, Deliver(seg))
    ensures var r := Accept(c.rcv, seg.Wire(c.snd.isn));
            if !c.rcv.syn && !seg.syn then r == c.rcv
            else && 0 <= seg.FirstByte() < TWO64
                 && r == Receiver(c.snd.isn, true, c.rcv.fin || seg.fin,
                                  Insert(c.rcv.asm, seg.FirstByte(), seg.payload, seg.fin))
    ensures Faithful(seg, c.out.Taken(), c.snd.finSent) && seg.End() <= c.snd.UnsentStart()
  {
    var m := seg.Wire(c.snd.isn);
    if c.rcv.syn || seg.syn {
      assert FirstByte(m, seg.pos) == seg.FirstByte();
      AcceptAt(c.rcv, m, seg.pos, c.snd.isn);
    }
  }

  lemma DeliverFacts(c: Connection, seg: Seg)
    requires Safe(c) && Enabled(c, Deliver(seg)) && (c.rcv.syn || seg.syn)
    ensures 0 <= seg.FirstByte() < TWO64 && |c.out.Taken()| < TWO64
    ensures c.rcv.asm.Windowed() && Assembles(c.rcv.asm, c.out.Taken())
    ensures c.snd.UnsentStart() > 0 && seg.FirstByte() + |seg.payload| <= c.snd.UnsentStart() - 1
    ensures Below(c.rcv.asm, c.snd.UnsentStart() - 1)
    ensures IsSlice(Insertion(seg.FirstByte(), seg.payload, seg.fin), c.out.Taken())
    ensures c.rcv.asm.last.Some? || seg.fin ==> c.snd.finSent && c.out.taken + 2 <= c.snd.UnsentStart()
  {
    hide Ordered, Timed, Sender.UnsentStart, Accept, Faithful, IsSlice, Insert;
    DeliverIsInsert(c, seg);
    FaithfulSlice(seg, c.out.Taken(), c.snd.finSent);
    assert Below(c.rcv.asm, c.snd.UnsentStart() - 1);
    hide Conserved, Below;
  }

  lemma FaithfulSlice(seg: Seg, taken: Bytes, finSent: bool)
    requires Faithful(seg, taken, finSent)
    ensures 0 <= seg.FirstByte() && seg.End() == seg.FirstByte() + 1 + |seg.payload| + One(seg.fin)
    ensures IsSlice(Insertion(seg.FirstByte(), seg.payload, seg.fin), taken)
    ensures seg.fin ==> finSent && seg.End() == |taken| + 2
  {
  }

  lemma DeliverReceiver(c: Connection, seg: Seg)
    requires Safe(c) && Enabled(c, Deliver(seg)) && (c.rcv.syn || seg.syn)
    ensures var r := Accept(c.rcv, seg.Wire(c.snd.isn));
            && r.syn && r.isn == c.snd.isn
            && Assembles(r.asm, c.out.Taken()) && Below(r.asm, c.snd.UnsentStart() - 1)
            && (r.asm.last.Some? ==> c.snd.finSent && c.out.taken + 2 <= c.snd.UnsentStart())
  {
    DeliverIsInsert(c, seg);
    DeliverFacts(c, seg);
    hide Safe, Insert, Below, Assembles, Faithful, IsSlice, Accept, Sender.UnsentStart;
    EventAssembles(c.rcv.asm, Insertion(seg.FirstByte(), seg.payload, seg.fin), c.out.Taken());
    InsertBelow(c.rcv.asm, seg.FirstByte(), seg.payload, seg.fin, c.snd.UnsentStart() - 1);
  }

  lemma DeliverSafe(c: Connection, seg: Seg)
    requires Safe(c) && Enabled(c, Deliver(seg))
    ensures Safe(Next(c, Deliver(seg)))
  {
    hide Ordered, Timed, Conserved, Assembles, Faithful, Below, Insert, Accept, Sender.UnsentStart;
    var e := SegmentIn(seg.Wire(c.snd.isn));
    StepValid(c.rcv, e);
    var d := Next(c, Deliver(seg));
    assert d.rcv == StepReceiver(c.rcv, e);
    if c.rcv.syn || seg.syn {
      DeliverReceiver(c, seg);
    } else {
      DeliverIsInsert(c, seg);
    }
    hide Receiver.Valid, StepReceiver;
  }

  lemma TakeKeeps(r: Receiver, len: nat, stream: Bytes, bound: int)
    requires r.Valid() && r.Written() < TWO64 && Assembles(r.asm, stream) && |stream| < TWO64
    ensures var t := TakeInbound(r, len);
            && t.Valid() && t.asm.out.capacity == r.asm.out.capacity && Assembles(t.asm, stream)
            && t.syn == r.syn && t.isn == r.isn && t.asm.last == r.asm.last
            && (Below(r.asm, bound) ==> Below(t.asm, bound))
  {
    StepValid(r, ReadInbound(len));
    EventAssembles(r.asm, Reading(len), stream);
    hide Assembles;
  }

  lemma TakeSafe(c: Connection, len: nat)
    requires Safe(c) && Enabled(c, TakeStep(len))
    ensures Safe(Next(c, TakeStep(len)))
  {
    hide Ordered, Timed, Conserved, Assembles, Faithful, Below, TakeInbound, Receiver.Valid, Sender.UnsentStart;
    TakeKeeps(c.rcv, len, c.out.Taken(), c.snd.UnsentStart() - 1);
  }

  // ---- every run ----

  lemma NextSafe(c: Connection, step: Step)
    requires Safe(c) && Enabled(c, step)
    ensures Safe(Next(c, step))
  {
    hide Safe;
    match step
    case Write(data) => WriteSafe(c, data);
    case CloseOut => CloseSafe(c);
    case PushStep => PushSafe(c);
    case SendStep => SendSafe(c);
    case TickStep(ms) => TickSafe(c, ms);
    case Deliver(seg) => DeliverSafe(c, seg);
    case AckStep => SafeApart(c, c.acks + [Offer(c.rcv)], c.heard);
    case AckArrives(k) =>
      HearSafe(c, c.acks[k].Wire(c.snd.isn));
      SafeApart(c.(snd := Senders.Receive(c.snd, c.acks[k].Wire(c.snd.isn))), c.acks, k);
    case AnyAck(msg) => HearSafe(c, msg);
    case TakeStep(len) => TakeSafe(c, len);
  }

  lemma {:induction false} RunSafe(run: seq<Connection>, steps: seq<Step>, k: nat)
    requires IsRun(run, steps) && k < |run|
    requires Safe(run[0])
    ensures Safe(run[k])
  {
    hide Safe, Enabled, Next;
    if k > 0 {
      RunSafe(run, steps, k - 1);
      assert Enabled(run[k - 1], steps[k - 1]) && run[k] == Next(run[k - 1], steps[k - 1]);
      NextSafe(run[k - 1], steps[k - 1]);
    }
  }

  /** A run from the start. */
  ghost predicate Reaches(run: seq<Connection>, steps: seq<Step>, c: Connection) {
    && IsRun(run, steps) && c == run[|steps|]
    && exists isn, rto, m: nat, n: nat | n < TWO62 :: run[0] == Init(isn, rto, m, n)
  }

  lemma StartOfRun(run: seq<Connection>, steps: seq<Step>, c: Connection)
    requires Reaches(run, steps, c)
    ensures Inv(run[0]) && Held(run[0])
  {
    var isn, rto, m: nat, n: nat :| n < TWO62 && run[0] == Init(isn, rto, m, n);
    InitInv(isn, rto, m, n);
  }

  lemma ReachableSafe(run: seq<Connection>, steps: seq<Step>, c: Connection)
    requires Reaches(run, steps, c)
    ensures Safe(c)
  {
    StartOfRun(run, steps, c);
    RunSafe(run, steps, |steps|);
  }

  /** End-to-end safety, whatever is lost, repeated or reordered, and whatever acks arrive: what has
      been written to the inbound stream is a prefix of what was taken from the outbound stream, and
      once the inbound stream is closed it is the whole outbound stream, which is closed as well. */
  lemma EndToEndSafety(run: seq<Connection>, steps: seq<Step>, c: Connection)
    requires Reaches(run, steps, c)
    ensures c.out.Valid() && c.rcv.asm.out.Valid()
    ensures c.rcv.asm.out.written <= c.out.Taken() <= c.out.written
    ensures c.rcv.asm.out.closed ==> c.out.closed && c.rcv.asm.out.written == c.out.written
  {
    ReachableSafe(run, steps, c);
    SafeDelivers(c);
  }

  lemma SafeDelivers(c: Connection)
    requires Safe(c)
    ensures c.out.Valid() && c.rcv.asm.out.Valid()
    ensures c.rcv.asm.out.written <= c.out.Taken() <= c.out.written
    ensures c.rcv.asm.out.closed ==> c.out.closed && c.rcv.asm.out.written == c.out.written
  {
  }

  /** What the receiver acknowledges is never beyond what was handed to the network. */
  lemma AckBelowUnsent(c: Connection)
    requires Safe(c) && c.rcv.syn
    ensures c.rcv.AckPosition() <= c.snd.UnsentStart()
  {
  }

  /** What the receiver says when it acknowledges is the offer, in the form the sender reads. */
  lemma OfferIsAcknowledgement(run: seq<Connection>, steps: seq<Step>, c: Connection)
    requires Reaches(run, steps, c) && c.rcv.syn
    ensures c.rcv.asm.out.Valid() && Acknowledge(c.rcv) == Offer(c.rcv).Wire(c.snd.isn)
  {
    ReachableSafe(run, steps, c);
  }

  /** Every segment in the network, retransmissions included, carries the outbound bytes of its
      position, and its wire number stands for that position near any checkpoint. */
  lemma NetworkIsFaithful(run: seq<Connection>, steps: seq<Step>, c: Connection, seg: Seg, checkpoint: u64)
    requires Reaches(run, steps, c) && seg in c.net
    requires Distance(seg.pos, checkpoint) < TWO31
    ensures c.out.Valid() && Faithful(seg, c.out.Taken(), c.snd.finSent)
    ensures seg.End() <= c.snd.UnsentStart() && |seg.payload| <= MAX_PAYLOAD && (seg.syn <==> seg.pos == 0)
    ensures Unwrapped(seg.Wire(c.snd.isn).seqno, c.snd.isn, checkpoint) == seg.pos
  {
    ReachableSafe(run, steps, c);
    TiledSpan(c.snd.unsent, c.snd.UnsentStart(), c.snd.next);
    RoundTrip(seg.pos, c.snd.isn, checkpoint);
    hide Wrap, Unwrapped;
  }

  /** Sequence numbers count exactly: SYN, bytes taken, FIN. */
  lemma SequenceCount(run: seq<Connection>, steps: seq<Step>, c: Connection)
    requires Reaches(run, steps, c)
    ensures c.snd.next == One(c.snd.synSent) + c.out.taken + One(c.snd.finSent)
  {
    ReachableSafe(run, steps, c);
  }

  /** What the receiver relies on when a segment is delivered: its counters do not wrap. */
  lemma ReceiverReliances(run: seq<Connection>, steps: seq<Step>, c: Connection, seg: Seg)
    requires Reaches(run, steps, c) && seg in c.net
    ensures c.rcv.Valid()
    ensures c.rcv.asm.out.taken + c.rcv.asm.out.capacity + |seg.payload| < TWO64
  {
    ReachableSafe(run, steps, c);
  }

  // ---- genuine acks, in any order ----

  lemma BaseKept(s: Sender, t: Sender)
    requires t.Queue() == s.Queue() && t.next == s.next
    ensures t.Base() == s.Base()
  {
  }

  /** What the sender does by itself does not move the start of what it holds. */
  lemma SenderStepHeld(c: Connection, step: Step)
    requires Held(c) && Enabled(c, step) && (step.PushStep? || step.SendStep? || step.TickStep?)
    ensures Next(c, step).snd.Base() == c.snd.Base() && Next(c, step).snd.ack == c.snd.ack
  {
    hide MaybeSend, Sent, Tick, Push, Timed, Conserved, NetFine, ReceiverFine, Sender.Base;
    match step
    case PushStep =>
      PushOrdered(c.snd, c.out);
      PushFields(c.snd, c.out);
    case SendStep =>
      MaybeSendOrdered(c.snd);
      MaybeSendKeeps(c.snd);
    case TickStep(ms) =>
      TickOrdered(c.snd, ms);
      TickKeeps(c.snd, ms);
      BaseKept(c.snd, Tick(c.snd, ms));
  }

  /** Neither does the receiver move back. */
  lemma ReceiverStepGrows(c: Connection, step: Step)
    requires Safe(c) && Enabled(c, step) && (step.Deliver? || step.TakeStep?)
    ensures var d := Next(c, step);
            && Awaited(c.rcv) <= Awaited(d.rcv) && c.rcv.AckPosition() <= d.rcv.AckPosition()
            && (c.rcv.syn ==> d.rcv.syn)
  {
    hide Accept, TakeInbound, Ordered, Timed, Conserved, Assembles, Faithful, Below;
    var e := if step.Deliver? then SegmentIn(step.seg.Wire(c.snd.isn)) else ReadInbound(step.len);
    StepValid(c.rcv, e);
    StepMonotone(c.rcv, e);
    assert Next(c, step).rcv == StepReceiver(c.rcv, e);
  }

  lemma AckHeld(c: Connection, k: nat)
    requires Held(c) && k < |c.acks| && Distance(c.acks[k].pos, c.snd.next) < TWO31
    ensures c.snd.next < TWO64 && c.rcv.syn
    ensures Senders.Receive(c.snd, c.acks[k].Wire(c.snd.isn)).Base() <= Awaited(c.rcv)
  {
    SafeWellFormed(c);
    var msg := c.acks[k].Wire(c.snd.isn);
    RoundTrip(c.acks[k].pos, c.snd.isn, c.snd.next);
    ReceiveOrdered(c.snd, msg);
    hide AckValue, Senders.Receive, Sender.Base, Wrap, Ordered, Timed, Conserved, NetFine, ReceiverFine;
  }

  lemma HeldLater(c: Connection, d: Connection)
    requires Held(c) && Safe(d) && d.acks == c.acks && d.heard <= |d.acks|
    requires d.snd.Base() <= Awaited(d.rcv) && (!d.rcv.syn ==> d.snd.ack == 0)
    requires (c.rcv.syn ==> d.rcv.syn) && c.rcv.AckPosition() <= d.rcv.AckPosition()
    ensures Held(d)
  {
    hide Safe, Sender.Base, Receiver.AckPosition;
  }

  lemma AckStepHeld(c: Connection)
    requires Held(c) && Enabled(c, AckStep)
    ensures Held(Next(c, AckStep))
  {
    hide Safe, Sender.Base, Receiver.AckPosition;
    var d := Next(c, AckStep);
    SafeApart(c, d.acks, c.heard);
  }

  lemma HeldFacts(c: Connection)
    requires Held(c)
    ensures Safe(c) && c.snd.Base() <= Awaited(c.rcv) && (!c.rcv.syn ==> c.snd.ack == 0) && c.heard <= |c.acks|
  {
  }

  lemma NextHeld(c: Connection, step: Step)
    requires Held(c) && Enabled(c, step) && Genuine(c, step)
    ensures Held(Next(c, step))
  {
    HeldFacts(c);
    NextSafe(c, step);
    hide Safe, Held, Sender.Base, Awaited, Receiver.AckPosition, Push, PushedFrom, MaybeSend, Tick, Accept, TakeInbound,
         Senders.Receive;
    if step.AckStep? {
      AckStepHeld(c);
      return;
    }
    if step.PushStep? || step.SendStep? || step.TickStep? {
      SenderStepHeld(c, step);
    } else if step.Deliver? || step.TakeStep? {
      ReceiverStepGrows(c, step);
    } else if step.AckArrives? {
      AckHeld(c, step.k);
    }
    HeldLater(c, Next(c, step));
  }

  lemma {:induction false} RunHeld(run: seq<Connection>, steps: seq<Step>, k: nat)
    requires IsRun(run, steps) && AcksAreGenuine(run, steps) && k < |run|
    requires Held(run[0])
    ensures Held(run[k])
  {
    hide Held, Enabled, Next, Genuine;
    if k > 0 {
      RunHeld(run, steps, k - 1);
      assert Enabled(run[k - 1], steps[k - 1]) && run[k] == Next(run[k - 1], steps[k - 1]);
      NextHeld(run[k - 1], steps[k - 1]);
    }
  }

  /** Every sequence number that was given out but that the receiver has not assembled is held by
      the sender, in flight or still to be sent, in the one segment that covers it. */
  lemma UnassembledIsHeld(run: seq<Connection>, steps: seq<Step>, c: Connection, p: nat) returns (k: nat)
    requires Reaches(run, steps, c) && AcksAreGenuine(run, steps)
    requires Awaited(c.rcv) <= p < c.snd.next
    ensures k < |c.snd.Queue()| && c.snd.Queue()[k].pos <= p < c.snd.Queue()[k].End()
    ensures c.out.Valid() && Faithful(c.snd.Queue()[k], c.out.Taken(), c.snd.finSent)
  {
    StartOfRun(run, steps, c);
    RunHeld(run, steps, |steps|);
    k := NothingForgotten(c.snd, p);
    assert Segments(c.snd.inFlight) + c.snd.unsent == c.snd.Queue();
  }
}
