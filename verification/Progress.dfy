/** A connection can always be completed: from every reachable state, however much has been lost,
    some continuation delivers the whole outbound stream. */
module Progress {
  import opened Words
  import opened Wrapping
  import opened ByteStreams
  import opened Assembly
  import opened Receivers
  import opened Senders
  import opened SenderLaws
  import opened Conservation
  import opened Connections
  import opened ConnectionLaws
  import opened AckLaws

  /** Where a sequence of steps leads, if each is enabled in its turn and only acks of the receiver
      arrive, in order. */
  ghost function Exec(c: Connection, steps: seq<Step>): Option<Connection>
    decreases steps
  {
    if steps == [] then Some(c)
    else if !Enabled(c, steps[0]) || !Genuine(c, steps[0]) || !KeepsOrder(c, steps[0]) then None
    else Exec(Next(c, steps[0]), steps[1..])
  }

  lemma ExecNothing(c: Connection)
    ensures Exec(c, []) == Some(c)
  {
  }

  lemma {:induction false} ExecConcat(c: Connection, a: seq<Step>, b: seq<Step>)
    requires Exec(c, a).Some?
    ensures Exec(c, a + b) == Exec(Exec(c, a).value, b)
    decreases a
  {
    if a == [] {
      assert a + b == b;
    } else {
      assert (a + b)[0] == a[0] && (a + b)[1..] == a[1..] + b;
      ExecConcat(Next(c, a[0]), a[1..], b);
    }
  }

  /** Nothing that the receiver waits for has been dropped, and the sender is less than half the
      sequence space ahead of it. */
  ghost predicate Workable(c: Connection) {
    Held(c) && c.snd.next < Awaited(c.rcv) + TWO31
  }

  /** How far the receiver has got, in sequence numbers. */
  function Progressed(c: Connection): nat {
    Awaited(c.rcv)
  }

  /** What a continuation in this file leaves alone. */
  ghost predicate SameWork(c: Connection, d: Connection) {
    && Workable(d) && CanSend(d.snd) && d.out.written == c.out.written && d.out.closed == c.out.closed
    && d.snd.synSent == c.snd.synSent && d.rcv.asm.out.capacity == c.rcv.asm.out.capacity
    && c.snd.next <= d.snd.next && Progressed(c) <= Progressed(d)
  }

  lemma WorkFacts(c: Connection)
    requires Workable(c)
    ensures WellFormed(c) && Safe(c) && c.snd.next < TWO64 && c.heard <= |c.acks|
  {
    SafeWellFormed(c);
  }

  /** A step that does not bring the sender further keeps it near. */
  lemma OneStep(c: Connection, step: Step)
    requires Workable(c) && Enabled(c, step) && Genuine(c, step) && KeepsOrder(c, step)
    ensures Exec(c, [step]) == Some(Next(c, step)) && Held(Next(c, step))
    ensures Next(c, step).snd.next == c.snd.next && Awaited(c.rcv) <= Awaited(Next(c, step).rcv)
            ==> Workable(Next(c, step))
  {
    NextHeld(c, step);
    assert [step][1..] == [];
    hide Held, Enabled, Next, Genuine;
  }

  // ---- the sender catches up with the receiver's acknowledgement ----

  lemma ClearRetransmit(c: Connection) returns (steps: seq<Step>, d: Connection)
    requires Workable(c) && CanSend(c.snd)
    ensures Exec(c, steps) == Some(d) && SameWork(c, d) && !d.snd.retransmit
    ensures d.rcv == c.rcv && d.snd.next == c.snd.next && d.snd.finSent == c.snd.finSent && d.out == c.out
  {
    hide Workable, Exec;
    if c.snd.retransmit {
      WorkFacts(c);
      steps, d := [SendStep], Next(c, SendStep);
      OneStep(c, SendStep);
    } else {
      assert Exec(c, []) == Some(c) by { ExecNothing(c); }
      steps, d := [], c;
    }
  }

  /** An ack sent now and arriving next. */
  lemma CatchUp(c: Connection) returns (steps: seq<Step>, d: Connection)
    requires Workable(c) && c.rcv.syn && !c.snd.retransmit
    ensures Exec(c, steps) == Some(d) && SameWork(c, d)
    ensures d.rcv == c.rcv && d.snd.next == c.snd.next && d.snd.finSent == c.snd.finSent && d.out == c.out
    ensures d.snd.ack == c.rcv.AckPosition() && Settled(d.snd)
  {
    hide Workable, Exec, Receiver.AckPosition;
    WorkFacts(c);
    var k := |c.acks|;
    var b := Next(c, AckStep);
    OneStep(c, AckStep);
    d := AckLast(b, k);
    ExecConcat(c, [AckStep], [AckArrives(k)]);
    steps := [AckStep] + [AckArrives(k)];
  }

  lemma AckLast(b: Connection, k: nat) returns (d: Connection)
    requires Workable(b) && b.heard <= k < |b.acks| && !b.snd.retransmit
    requires b.rcv.syn && b.acks[k].pos == b.rcv.AckPosition()
    ensures Exec(b, [AckArrives(k)]) == Some(d) && SameWork(b, d)
    ensures d.rcv == b.rcv && d.snd.next == b.snd.next && d.snd.finSent == b.snd.finSent && d.out == b.out
    ensures d.snd.ack == b.acks[k].pos && Settled(d.snd)
  {
    hide Workable, Exec, Senders.Receive, Settled, Wrap, Receiver.AckPosition;
    WorkFacts(b);
    FreshAck(b, k);
    ReceiveKeeps(b.snd, b.acks[k].Wire(b.snd.isn));
    d := Next(b, AckArrives(k));
    OneStep(b, AckArrives(k));
  }

  /** An ack that says where the receiver is settles the sender there. */
  lemma FreshAck(b: Connection, k: nat)
    requires Workable(b) && b.rcv.syn && k < |b.acks| && b.acks[k].pos == b.rcv.AckPosition()
    ensures b.snd.next < TWO64 && Distance(b.acks[k].pos, b.snd.next) < TWO31
    ensures var t := Senders.Receive(b.snd, b.acks[k].Wire(b.snd.isn)); t.ack == b.acks[k].pos && Settled(t)
  {
    SafeWellFormed(b);
    AckBelowUnsent(b);
    TiledSpan(b.snd.unsent, b.snd.UnsentStart(), b.snd.next);
    RoundTrip(b.acks[k].pos, b.snd.isn, b.snd.next);
    ReceiveOrdered(b.snd, b.acks[k].Wire(b.snd.isn));
    hide AckValue, Senders.Receive, Sender.Base, Sender.UnsentStart, Wrap, Ordered, Timed, Conserved, NetFine,
         ReceiverFine, Receiver.AckPosition;
  }

  // ---- the segment that the receiver misses is put on the network ----

  /** Waiting long enough makes a running timer expire. */
  lemma Expire(c: Connection) returns (ms: nat)
    requires Workable(c) && c.snd.inFlight != [] && !c.snd.retransmit
    ensures var d := Next(c, TickStep(ms));
            && d.snd.retransmit && d.snd.inFlight == c.snd.inFlight && d.snd.next == c.snd.next
            && d.snd.ack == c.snd.ack && d.snd.synSent == c.snd.synSent && d.snd.finSent == c.snd.finSent
  {
    ms := TWO64 - 1 - c.snd.now;
    hide NetFine, ReceiverFine, Conserved, Ordered;
  }

  lemma TickSettled(c: Connection, ms: nat)
    requires Safe(c) && Settled(c.snd) && Enabled(c, TickStep(ms))
    ensures var d := Next(c, TickStep(ms)); d.rcv == c.rcv && d.out == c.out && Settled(d.snd)
  {
    TickOrdered(c.snd, ms);
    hide Ordered, Timed, Conserved, NetFine, ReceiverFine, Tick;
  }

  lemma FrontCoversAck(s: Sender)
    requires Ordered(s) && Settled(s) && s.ack < s.next
    ensures s.inFlight != [] ==> s.inFlight[0].seg.pos <= s.ack < s.inFlight[0].seg.End()
    ensures s.inFlight == [] ==> s.unsent != [] && s.unsent[0].pos == s.ack < s.unsent[0].End()
  {
  }

  lemma SenderCovers(c: Connection)
    requires Workable(c) && Settled(c.snd) && c.snd.ack < c.snd.next
    ensures c.snd.inFlight != [] ==> c.snd.inFlight[0].seg.pos <= c.snd.ack < c.snd.inFlight[0].seg.End()
    ensures c.snd.inFlight == [] ==> c.snd.unsent != [] && c.snd.unsent[0].pos == c.snd.ack < c.snd.unsent[0].End()
  {
    FrontCoversAck(c.snd);
  }

  lemma SendFront(c: Connection) returns (steps: seq<Step>, d: Connection, seg: Seg)
    requires Workable(c) && Settled(c.snd) && CanSend(c.snd) && c.snd.ack < c.snd.next
    ensures Exec(c, steps) == Some(d) && SameWork(c, d)
    ensures d.rcv == c.rcv && d.snd.next == c.snd.next && d.snd.finSent == c.snd.finSent
    ensures seg in d.net && seg.pos <= c.snd.ack < seg.End()
  {
    if c.snd.inFlight != [] && !c.snd.retransmit {
      var ms := Expire(c);
      var b := Next(c, TickStep(ms));
      OneStep(c, TickStep(ms));
      assert b.rcv == c.rcv && b.out == c.out && Settled(b.snd) by { TickSettled(c, ms); }
      d, seg := SendNow(b);
      hide Workable, Enabled, Next;
      ExecConcat(c, [TickStep(ms)], [SendStep]);
      steps := [TickStep(ms)] + [SendStep];
    } else {
      d, seg := SendNow(c);
      steps := [SendStep];
    }
  }

  lemma SendNow(c: Connection) returns (d: Connection, seg: Seg)
    requires Workable(c) && Settled(c.snd) && CanSend(c.snd) && c.snd.ack < c.snd.next
    requires (c.snd.inFlight != [] ==> c.snd.retransmit)
    ensures Exec(c, [SendStep]) == Some(d) && SameWork(c, d)
    ensures d.rcv == c.rcv && d.snd.next == c.snd.next && d.snd.finSent == c.snd.finSent
    ensures seg in d.net && seg.pos <= c.snd.ack < seg.End()
  {
    SenderCovers(c);
    WorkFacts(c);
    hide Workable, Exec;
    seg := Sent(c.snd).value;
    d := Next(c, SendStep);
    OneStep(c, SendStep);
  }

  // ---- delivering it advances the receiver ----

  lemma GenuineTake(c: Connection, len: nat)
    ensures Genuine(c, TakeStep(len))
  {
  }

  /** The reader empties the inbound stream. */
  lemma MakeRoom(c: Connection) returns (steps: seq<Step>, d: Connection)
    requires Workable(c) && CanSend(c.snd)
    ensures Exec(c, steps) == Some(d) && SameWork(c, d)
    ensures d.snd == c.snd && d.net == c.net && d.out == c.out
    ensures d.rcv.syn == c.rcv.syn && Progressed(d) == Progressed(c)
    ensures d.rcv.asm.out.Available() == d.rcv.asm.out.capacity
  {
    hide Workable, Held, Safe, Genuine, Exec;
    WorkFacts(c);
    var step := TakeStep(c.rcv.asm.out.Buffered());
    assert Genuine(c, step) by { GenuineTake(c, c.rcv.asm.out.Buffered()); }
    OneStep(c, step);
    steps, d := [step], Next(c, step);
  }

  lemma InsertNextByte(a: Assembler, first: u64, data: Bytes, isLast: bool)
    requires a.Windowed() && first <= a.Unassembled() < first + |data| && a.out.Available() > 0
    ensures |Insert(a, first, data, isLast).out.written| > a.Unassembled()
  {
    InsertWindow(a, first, data, isLast);
    var known := Store(a, first, data).pending;
    assert a.Unassembled() in known.Keys;
    assert Gap(known.Keys, a.Unassembled()) > a.Unassembled();
  }

  /** The segment that covers the receiver's next sequence number brings the next byte or, right
      behind the last one, the end of the stream. */
  lemma DeliverAdvances(c: Connection, seg: Seg)
    requires Workable(c) && seg in c.net && c.rcv.asm.out.Available() > 0
    requires seg.pos <= Progressed(c) < seg.End()
    ensures Enabled(c, Deliver(seg))
    ensures Next(c, Deliver(seg)).rcv.syn
    ensures Progressed(Next(c, Deliver(seg))) > Progressed(c)
  {
    hide Workable, Insert, Assembles, Below, Faithful, Accept;
    WorkFacts(c);
    SegmentFits(c, seg);
    DeliverIsInsert(c, seg);
    var a := c.rcv.asm;
    InsertProgress(a, seg.FirstByte(), seg.payload, seg.fin);
    if c.rcv.syn {
      NotClosedYet(c, seg);
      if c.rcv.Written() < seg.FirstByte() + |seg.payload| {
        InsertNextByte(a, seg.FirstByte(), seg.payload, seg.fin);
      } else {
        LastSegment(c, seg);
      }
    }
  }

  /** It can be delivered, and reaches beyond what has been assembled. */
  lemma SegmentFits(c: Connection, seg: Seg)
    requires Workable(c) && seg in c.net && seg.pos <= Progressed(c) < seg.End()
    ensures Distance(seg.FirstByte() + 1, c.rcv.Written()) < TWO31
    ensures (c.rcv.syn || seg.syn) && c.rcv.asm.Windowed() && 0 <= seg.FirstByte() < TWO64
    ensures c.rcv.syn && !c.rcv.asm.out.closed ==>
              && seg.FirstByte() <= c.rcv.Written() <= seg.FirstByte() + |seg.payload|
              && (c.rcv.Written() == seg.FirstByte() + |seg.payload| ==> seg.fin)
  {
    assert Faithful(seg, c.out.Taken(), c.snd.finSent);
    SegmentNear(c, seg);
    DeliverFacts(c, seg);
    hide Assembles, Below, Timed, Ordered;
  }

  /** Segments are short, so the one that covers the receiver's position starts near it. */
  lemma SegmentNear(c: Connection, seg: Seg)
    requires Workable(c) && seg in c.net && seg.pos <= Progressed(c) < seg.End()
    ensures Distance(seg.FirstByte() + 1, c.rcv.Written()) < TWO31
  {
  }

  lemma NotClosedYet(c: Connection, seg: Seg)
    requires Workable(c) && c.rcv.syn && seg in c.net && Progressed(c) < seg.End()
    ensures !c.rcv.asm.out.closed
  {
    TiledSpan(c.snd.unsent, c.snd.UnsentStart(), c.snd.next);
  }

  lemma LastSegment(c: Connection, seg: Seg)
    requires Workable(c) && Enabled(c, Deliver(seg)) && c.rcv.syn && seg.fin && !c.rcv.asm.out.closed
    requires c.rcv.Written() == seg.FirstByte() + |seg.payload|
    ensures var r := Accept(c.rcv, seg.Wire(c.snd.isn)); r.asm.out.closed && r.fin
  {
    DeliverIsInsert(c, seg);
    DeliverReceiver(c, seg);
    InsertProgress(c.rcv.asm, seg.FirstByte(), seg.payload, seg.fin);
  }

  // ---- completing ----

  lemma Then(c: Connection, a: seq<Step>, d: Connection, b: seq<Step>, e: Connection)
    requires Exec(c, a) == Some(d) && Exec(d, b) == Some(e)
    ensures Exec(c, a + b) == Some(e)
  {
    ExecConcat(c, a, b);
  }

  lemma SameWorkThen(c: Connection, d: Connection, e: Connection)
    requires SameWork(c, d) && SameWork(d, e)
    ensures SameWork(c, e)
  {
    hide Workable, Progressed;
  }

  lemma DeliverNext(c: Connection, seg: Seg) returns (d: Connection)
    requires Workable(c) && CanSend(c.snd) && seg in c.net && c.rcv.asm.out.Available() > 0
    requires seg.pos <= Progressed(c) < seg.End()
    ensures Exec(c, [Deliver(seg)]) == Some(d) && SameWork(c, d)
    ensures d.snd == c.snd && d.out == c.out && Progressed(d) > Progressed(c)
  {
    DeliverAdvances(c, seg);
    d := Next(c, Deliver(seg));
    OneStep(c, Deliver(seg));
    CapacityKept(c, seg);
    hide Workable, Exec, Accept, Progressed;
  }

  lemma CapacityKept(c: Connection, seg: Seg)
    requires Workable(c) && Enabled(c, Deliver(seg))
    ensures Next(c, Deliver(seg)).rcv.asm.out.capacity == c.rcv.asm.out.capacity
  {
    StepValid(c.rcv, SegmentIn(seg.Wire(c.snd.isn)));
  }

  lemma NothingAcked(c: Connection)
    requires Workable(c) && !c.rcv.syn
    ensures c.snd.ack == Awaited(c.rcv) && Settled(c.snd)
  {
    if c.snd.inFlight != [] { TiledWithin(Segments(c.snd.inFlight), c.snd.Base(), c.snd.UnsentStart(), 0); }
  }

  /** Before the SYN arrives, the sender has seen no ack; afterwards it can be brought up to date. */
  lemma Synchronize(c: Connection) returns (steps: seq<Step>, d: Connection)
    requires Workable(c) && CanSend(c.snd)
    ensures Exec(c, steps) == Some(d) && SameWork(c, d)
    ensures d.rcv == c.rcv && d.snd.next == c.snd.next && d.snd.finSent == c.snd.finSent && d.out == c.out
    ensures d.snd.ack == Progressed(d) && Settled(d.snd)
  {
    if c.rcv.syn {
      var first, b := ClearRetransmit(c);
      var second, e := CatchUp(b);
      Then(c, first, b, second, e);
      SameWorkThen(c, b, e);
      steps, d := first + second, e;
    } else {
      NothingAcked(c);
      steps, d := [], c;
    }
    hide Workable;
  }

  /** Whatever has been lost, the receiver can be brought at least one sequence number further. */
  lemma AdvanceOnce(c: Connection) returns (steps: seq<Step>, d: Connection)
    requires Workable(c) && CanSend(c.snd) && c.rcv.asm.out.capacity > 0 && Progressed(c) < c.snd.next
    ensures Exec(c, steps) == Some(d) && SameWork(c, d)
    ensures d.snd.next == c.snd.next && Progressed(d) > Progressed(c)
  {
    var s1, c1 := Synchronize(c);
    var s2, c2, seg := SendFront(c1);
    var s3, c3 := MakeRoom(c2);
    hide Workable, Exec, Progressed;
    Then(c, s1, c1, s2, c2);
    Then(c, s1 + s2, c2, s3, c3);
    SameWorkThen(c, c1, c2);
    SameWorkThen(c, c2, c3);
    assert c2.rcv == c1.rcv && Progressed(c2) == Progressed(c1) by { SameProgress(c1, c2); }
    assert Progressed(c1) == Progressed(c) by { SameProgress(c, c1); }
    d := DeliverNext(c3, seg);
    Then(c, s1 + s2 + s3, c3, [Deliver(seg)], d);
    SameWorkThen(c, c3, d);
    steps := s1 + s2 + s3 + [Deliver(seg)];
  }

  lemma SameProgress(c: Connection, d: Connection)
    requires c.rcv == d.rcv
    ensures Progressed(c) == Progressed(d)
  {
  }

  lemma PushRaises(s: Sender, out: Stream)
    requires out.Valid() && out.closed && s.synSent && !s.finSent && s.ack == s.next < TWO64 && 1 <= s.window
    ensures Push(s, out).synSent && Push(s, out).next > s.next
    ensures PushedFrom(s, out).written == out.written && PushedFrom(s, out).closed
  {
    RoomOf(s);
    hide Sender.Room, Cut;
  }

  lemma PushAdvances(c: Connection) returns (d: Connection)
    requires Workable(c) && CanSend(c.snd) && c.snd.synSent && c.out.closed && !c.snd.finSent
    requires c.snd.ack == c.snd.next == Progressed(c)
    ensures Exec(c, [PushStep]) == Some(d) && SameWork(c, d) && d.snd.next > c.snd.next
  {
    WorkFacts(c);
    hide Exec, Push, PushedFrom, Receiver.AckPosition, NetFine, ReceiverFine, Timed, Conserved;
    PushFields(c.snd, c.out);
    PushRaises(c.snd, c.out);
    PushStays(c.snd, c.out);
    d := Next(c, PushStep);
    OneStep(c, PushStep);
    hide Held;
  }

  /** Once everything sent has been assembled, there is room to send more of a closed stream. */
  lemma PushMore(c: Connection) returns (steps: seq<Step>, d: Connection)
    requires Workable(c) && CanSend(c.snd) && c.snd.synSent && c.out.closed && !c.snd.finSent
    requires Progressed(c) == c.snd.next
    ensures Exec(c, steps) == Some(d) && SameWork(c, d) && d.snd.next > c.snd.next
  {
    var s1, c1 := Synchronize(c);
    SameProgress(c, c1);
    d := PushAdvances(c1);
    hide Workable, Exec, Progressed;
    Then(c, s1, c1, [PushStep], d);
    SameWorkThen(c, c1, d);
    steps := s1 + [PushStep];
  }

  lemma ProgressBounds(c: Connection)
    requires Workable(c)
    ensures Progressed(c) <= c.snd.next <= |c.out.written| + 2
  {
    if c.rcv.syn { AckBelowUnsent(c); }
    TiledSpan(c.snd.unsent, c.snd.UnsentStart(), c.snd.next);
  }

  lemma AllAssembled(c: Connection)
    requires Workable(c) && c.snd.finSent && Progressed(c) == c.snd.next
    ensures c.rcv.asm.out.closed
  {
  }

  /** From any state that keeps the invariant, once the connection has been opened and the
      application has closed its stream, some continuation closes the inbound stream. */
  lemma {:induction false} Completes(c: Connection) returns (steps: seq<Step>, d: Connection)
    requires Workable(c) && CanSend(c.snd) && c.rcv.asm.out.capacity > 0 && c.snd.synSent && c.out.closed
    ensures Exec(c, steps) == Some(d) && SameWork(c, d) && d.rcv.asm.out.closed
    decreases 2 * (|c.out.written| + 2) - c.snd.next - Progressed(c)
  {
    ProgressBounds(c);
    var first, b;
    if Progressed(c) < c.snd.next {
      first, b := AdvanceOnce(c);
    } else if c.snd.finSent {
      AllAssembled(c);
      return [], c;
    } else {
      first, b := PushMore(c);
    }
    ProgressBounds(b);
    hide Workable, Exec, Progressed;
    var rest, e := Completes(b);
    Then(c, first, b, rest, e);
    SameWorkThen(c, b, e);
    steps, d := first + rest, e;
  }

  /** With acks of the receiver in any order, no reachable state is a dead end in which the sender can
      be called on and is less than half the sequence space ahead: once the SYN has been sent and the
      outbound stream is closed, a continuation delivers exactly the whole outbound stream. */
  lemma Completable(run: seq<Connection>, steps: seq<Step>, c: Connection)
      returns (more: seq<Step>, d: Connection)
    requires Reaches(run, steps, c) && AcksAreGenuine(run, steps)
    requires CanSend(c.snd) && c.snd.next < Awaited(c.rcv) + TWO31
    requires c.rcv.asm.out.capacity > 0 && c.snd.synSent && c.out.closed
    ensures Exec(c, more) == Some(d)
    ensures d.rcv.asm.out.closed && d.rcv.asm.out.written == c.out.written
  {
    hide Safe, Exec, Inv;
    StartOfRun(run, steps, c);
    RunHeld(run, steps, |steps|);
    more, d := Completes(c);
    SafeDelivers(d);
  }

  /** Acks that keep their order are near, and so is the sender. */
  lemma {:induction false} OrderedAcksAreGenuine(run: seq<Connection>, steps: seq<Step>, c: Connection)
    requires Reaches(run, steps, c) && AcksKeepOrder(run, steps)
    ensures AcksAreGenuine(run, steps) && c.snd.next < Awaited(c.rcv) + TWO31
  {
    StartOfRun(run, steps, c);
    forall k | 0 <= k < |steps|
      ensures Genuine(run[k], steps[k])
    {
      RunInv(run, steps, k);
      assert Enabled(run[k], steps[k]) && KeepsOrder(run[k], steps[k]);
      NearInOrder(run[k]);
    }
    RunInv(run, steps, |steps|);
    NearInOrder(c);
    hide Inv;
  }

  lemma NearInOrder(c: Connection)
    requires Inv(c)
    ensures c.snd.next < Awaited(c.rcv) + TWO31
    ensures forall k :: c.heard <= k < |c.acks| ==> Distance(c.acks[k].pos, c.snd.next) < TWO31
  {
    if c.rcv.syn { AckBelowUnsent(c); }
    TiledSpan(c.snd.unsent, c.snd.UnsentStart(), c.snd.next);
    hide Ordered, Timed, Conserved, NetFine, ReceiverFine, Sender.UnsentStart, Receiver.AckPosition;
  }

  /** So with acks that keep their order, no reachable state is a dead end in which the sender can be
      called on, whatever was lost, repeated or reordered before. */
  lemma AlwaysCompletable(run: seq<Connection>, steps: seq<Step>, c: Connection)
      returns (more: seq<Step>, d: Connection)
    requires Reaches(run, steps, c) && AcksKeepOrder(run, steps)
    requires CanSend(c.snd) && c.rcv.asm.out.capacity > 0 && c.snd.synSent && c.out.closed
    ensures Exec(c, more) == Some(d)
    ensures d.rcv.asm.out.closed && d.rcv.asm.out.written == c.out.written
  {
    OrderedAcksAreGenuine(run, steps, c);
    more, d := Completable(run, steps, c);
  }
}
