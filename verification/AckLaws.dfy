/** What holds over every run of a connection in which acks keep their order: the window is kept,
    and the sender finds what it relies on. */
module AckLaws {
  import opened Words
  import opened Wrapping
  import opened ByteStreams
  import opened Receivers
  import opened Senders
  import opened SenderLaws
  import opened Conservation
  import opened Connections
  import opened ConnectionLaws

  // ---- steps at the sender ----

  /** Nothing of the sender's view of its acks has changed. */
  lemma SameAcks(c: Connection, d: Connection)
    requires c.rcv.asm.out.Valid() && AcksFine(c) && d.rcv == c.rcv && d.acks == c.acks && d.heard == c.heard
    requires d.snd.ack == c.snd.ack && d.snd.window == c.snd.window
    ensures AcksFine(d)
  {
    hide Ack.Edge, Receiver.AckPosition;
  }

  /** A push of the connection stays within the window: its SYN goes alone. */
  lemma PushStays(s: Sender, out: Stream)
    requires Ordered(s) && s.next <= s.ack + s.window && s.next < TWO64
    requires out.Valid() && Ends(s, out) && (!s.synSent ==> out.Buffered() == 0 && !out.closed)
    ensures Push(s, out).next <= s.ack + s.window
  {
    PushWithinWindow(s, out);
  }

  lemma SenderStepInv(c: Connection, step: Step)
    requires Inv(c) && Enabled(c, step) && (step.PushStep? || step.SendStep? || step.TickStep?)
    ensures var d := Next(c, step);
            && Settled(d.snd) && d.snd.next <= d.snd.ack + d.snd.window
            && d.snd.ack == c.snd.ack && d.snd.window == c.snd.window
            && d.rcv == c.rcv && d.acks == c.acks && d.heard == c.heard
  {
    hide MaybeSend, Sent, Tick, Push, Settled, Timed, Conserved, NetFine, ReceiverFine, AcksFine, Sender.UnsentStart;
    match step
    case PushStep =>
      PushOrdered(c.snd, c.out);
      PushFields(c.snd, c.out);
      PushStays(c.snd, c.out);
    case SendStep =>
      MaybeSendOrdered(c.snd);
      MaybeSendKeeps(c.snd);
    case TickStep(ms) =>
      TickOrdered(c.snd, ms);
      TickKeeps(c.snd, ms);
  }

  // ---- steps at the receiver ----

  lemma OfferGrows(r: Receiver, e: ReceiverEvent)
    requires r.Valid() && CanStep(r)
    ensures StepReceiver(r, e).asm.out.Valid()
    ensures Offer(r).pos <= Offer(StepReceiver(r, e)).pos
    ensures Offer(r).Edge() <= Offer(StepReceiver(r, e)).Edge()
  {
    StepMonotone(r, e);
  }

  /** A better offer of the receiver keeps the acks in order below it. */
  lemma AcksGrow(c: Connection, d: Connection)
    requires c.rcv.asm.out.Valid() && AcksFine(c) && d.rcv.asm.out.Valid()
    requires d.snd == c.snd && d.acks == c.acks && d.heard == c.heard && (c.rcv.syn ==> d.rcv.syn)
    requires Offer(c.rcv).pos <= Offer(d.rcv).pos && Offer(c.rcv).Edge() <= Offer(d.rcv).Edge()
    ensures AcksFine(d)
  {
  }

  lemma ReceiverStepInv(c: Connection, step: Step)
    requires Inv(c) && Enabled(c, step) && (step.Deliver? || step.TakeStep?)
    ensures var d := Next(c, step); d.snd == c.snd && d.rcv.asm.out.Valid() && AcksFine(d)
  {
    hide Accept, TakeInbound, Ordered, Timed, Conserved, Faithful, Below, Settled, StepReceiver;
    var e := if step.Deliver? then SegmentIn(step.seg.Wire(c.snd.isn)) else ReadInbound(step.len);
    OfferGrows(c.rcv, e);
    StepValid(c.rcv, e);
    assert Next(c, step).rcv == StepReceiver(c.rcv, e) by { StepIs(c.rcv, e); }
    AcksGrow(c, Next(c, step));
  }

  lemma StepIs(r: Receiver, e: ReceiverEvent)
    requires CanStep(r)
    ensures StepReceiver(r, e) == if e.SegmentIn? then Accept(r, e.m) else TakeInbound(r, e.len)
  {
  }

  // ---- acknowledgements ----

  lemma AckStepInv(c: Connection)
    requires Inv(c) && Enabled(c, AckStep)
    ensures AcksFine(Next(c, AckStep))
  {
    hide Ordered, Settled, Timed, Conserved, NetFine, ReceiverFine, Receiver.AckPosition;
  }

  /** An ack under way is read by the sender as the position it stands for, and keeps to the
      discipline that the sender relies on. */
  lemma AckIsInOrder(c: Connection, k: nat)
    requires Inv(c) && c.heard <= k < |c.acks|
    ensures var msg := c.acks[k].Wire(c.snd.isn);
            && InOrder(c.snd, msg) && AckValue(c.snd, msg) == c.acks[k].pos && EdgeKept(c.snd, msg)
  {
    AckBelowUnsent(c);
    TiledSpan(c.snd.unsent, c.snd.UnsentStart(), c.snd.next);
    RoundTrip(c.acks[k].pos, c.snd.isn, c.snd.next);
  }

  /** Taking in an ack leaves the acks from there on in order above the new last ack. */
  lemma AcksAfter(c: Connection, k: nat, d: Connection)
    requires c.rcv.asm.out.Valid() && AcksFine(c) && c.heard <= k < |c.acks|
    requires d.rcv == c.rcv && d.acks == c.acks && d.heard == k
    requires d.snd.ack == c.acks[k].pos && d.snd.ack + d.snd.window == c.acks[k].Edge()
    ensures AcksFine(d)
  {
    hide Ack.Edge, Receiver.AckPosition;
  }

  lemma AckTaken(c: Connection, k: nat)
    requires Inv(c) && c.heard <= k < |c.acks|
    ensures c.snd.next < TWO64
    ensures var t := Senders.Receive(c.snd, c.acks[k].Wire(c.snd.isn));
            && Settled(t) && t.next <= t.ack + t.window
            && t.ack == c.acks[k].pos && t.ack + t.window == c.acks[k].Edge()
  {
    var msg := c.acks[k].Wire(c.snd.isn);
    AckIsInOrder(c, k);
    AckBelowUnsent(c);
    TiledSpan(c.snd.unsent, c.snd.UnsentStart(), c.snd.next);
    ReceiveOrdered(c.snd, msg);
    ReceiveSettled(c.snd, msg);
    hide Ordered, Settled, Timed, Conserved, AckValue, Senders.Receive, Sender.UnsentStart, Wrap, NetFine, ReceiverFine;
  }

  // ---- every run in which acks keep their order ----

  lemma NextInv(c: Connection, step: Step)
    requires Inv(c) && Enabled(c, step) && KeepsOrder(c, step)
    ensures Inv(Next(c, step))
  {
    NextSafe(c, step);
    hide Safe, Settled, AcksFine, Push, PushedFrom, MaybeSend, Tick, Accept, TakeInbound, Senders.Receive;
    assert c.rcv.asm.out.Valid();
    if step.PushStep? || step.SendStep? || step.TickStep? {
      SenderStepInv(c, step);
      SameAcks(c, Next(c, step));
    } else if step.Deliver? || step.TakeStep? {
      ReceiverStepInv(c, step);
    } else if step.AckStep? {
      AckStepInv(c);
    } else if step.AckArrives? {
      AckTaken(c, step.k);
      AcksAfter(c, step.k, Next(c, step));
    } else {
      SameAcks(c, Next(c, step));
    }
  }

  lemma {:induction false} RunInv(run: seq<Connection>, steps: seq<Step>, k: nat)
    requires IsRun(run, steps) && AcksKeepOrder(run, steps) && k < |run|
    requires Inv(run[0])
    ensures Inv(run[k])
  {
    hide Inv, Enabled, Next, KeepsOrder;
    if k > 0 {
      RunInv(run, steps, k - 1);
      assert Enabled(run[k - 1], steps[k - 1]) && run[k] == Next(run[k - 1], steps[k - 1]);
      NextInv(run[k - 1], steps[k - 1]);
    }
  }

  lemma ReachableInv(run: seq<Connection>, steps: seq<Step>, c: Connection)
    requires Reaches(run, steps, c) && AcksKeepOrder(run, steps)
    ensures Inv(c)
  {
    StartOfRun(run, steps, c);
    RunInv(run, steps, |steps|);
  }

  /** Flow control: the sender stays within the window it knows, and therefore within what the
      receiver offers at this moment (an empty offer counted as one). Its ack is never ahead of
      the receiver, and all that is acknowledged was sent. */
  lemma FlowControl(run: seq<Connection>, steps: seq<Step>, c: Connection)
    requires Reaches(run, steps, c) && AcksKeepOrder(run, steps)
    ensures c.rcv.asm.out.Valid()
    ensures c.snd.next <= c.snd.ack + c.snd.window <= Offer(c.rcv).Edge()
    ensures c.snd.ack <= c.rcv.AckPosition()
    ensures c.rcv.syn ==> c.rcv.AckPosition() <= c.snd.UnsentStart() <= c.snd.next
  {
    ReachableInv(run, steps, c);
    if c.rcv.syn { AckBelowUnsent(c); }
    TiledSpan(c.snd.unsent, c.snd.UnsentStart(), c.snd.next);
  }

  /** What the sender relies on holds whenever it is called: room is counted without wrapping
      around, and each ack that can arrive is in order. */
  lemma SenderReliances(run: seq<Connection>, steps: seq<Step>, c: Connection)
    requires Reaches(run, steps, c) && AcksKeepOrder(run, steps)
    ensures Ordered(c.snd) && Settled(c.snd) && Timed(c.snd) && Near(c.snd)
    ensures c.snd.next <= c.snd.ack + c.snd.window
    ensures c.out.Valid() && c.snd.next + c.out.Buffered() + 2 < TWO63
    ensures forall k :: c.heard <= k < |c.acks| ==> InOrder(c.snd, c.acks[k].Wire(c.snd.isn))
  {
    ReachableInv(run, steps, c);
    WithinWindowIsNear(c.snd);
    forall k | c.heard <= k < |c.acks|
      ensures InOrder(c.snd, c.acks[k].Wire(c.snd.isn))
    {
      AckIsInOrder(c, k);
    }
  }

  /** An ack that arrives leaves a due retransmission with nothing to retransmit if and only if it
      covers everything that was sent. */
  lemma AckLeavesSendable(run: seq<Connection>, steps: seq<Step>, c: Connection, k: nat)
    requires Reaches(run, steps, c) && AcksKeepOrder(run, steps)
    requires CanSend(c.snd) && Enabled(c, AckArrives(k)) && c.heard <= k
    ensures CanSend(Next(c, AckArrives(k)).snd)
            <==> !c.snd.retransmit || c.acks[k].pos < c.snd.UnsentStart()
  {
    ReachableInv(run, steps, c);
    AckIsInOrder(c, k);
    AckBelowUnsent(c);
    TiledSpan(c.snd.unsent, c.snd.UnsentStart(), c.snd.next);
    ReceiveCanSend(c.snd, c.acks[k].Wire(c.snd.isn));
    hide Inv, AckValue, Senders.Receive, Sender.UnsentStart, Wrap;
  }
}
