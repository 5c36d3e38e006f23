/** What holds over any run of the sender, whatever acks come in whatever order. */
module SenderRuns {
  import opened Words
  import opened Wrapping
  import opened Messages
  import opened ByteStreams
  import opened Senders
  import opened SenderLaws

  datatype SenderEvent = Pushed(out: Stream) | MaySend | Acked(msg: ReceiverMessage) | Ticked(ms: nat)

  /** What the calls need to return at all: the pushing loop ends, a due retransmission has a
      segment to send, and an ack has an ackno. */
  predicate Allowed(s: Sender, e: SenderEvent) {
    match e
    case Pushed(out) => out.Valid() && Ends(s, out)
    case MaySend => CanSend(s)
    case Acked(msg) => msg.ackno.Some? && s.next < TWO64
    case Ticked(_) => true
  }

  function StepSender(s: Sender, e: SenderEvent): Sender
    requires Allowed(s, e)
  {
    match e
    case Pushed(out) => Push(s, out)
    case MaySend => MaybeSend(s)
    case Acked(msg) => Receive(s, msg)
    case Ticked(ms) => Tick(s, ms)
  }

  predicate IsRun(states: seq<Sender>, events: seq<SenderEvent>) {
    && |states| == |events| + 1
    && forall k :: 0 <= k < |events| ==>
         Allowed(states[k], events[k]) && states[k + 1] == StepSender(states[k], events[k])
  }

  /** An ack that is not ignored. */
  predicate Accepts(s: Sender, e: SenderEvent) {
    e.Acked? && Allowed(s, e) && AckValue(s, e.msg) <= s.next
  }

  lemma NewSenderLaws(isn: Wrap32, initialRTO: u64)
    ensures var s := NewSender(isn, initialRTO); Ordered(s) && Settled(s) && Timed(s) && CanSend(s) && s.Base() == 0
  {
  }

  // ---- the FIN is sent once ----

  function QueuedBy(s: Sender, e: SenderEvent): seq<Seg>
    requires Allowed(s, e)
  {
    if e.Pushed? then NewSegments(s, e.out) else []
  }

  /** Every segment ever queued for sending, in order. */
  function EverQueued(states: seq<Sender>, events: seq<SenderEvent>): seq<Seg>
    requires IsRun(states, events)
    decreases events
  {
    if events == [] then []
    else
      var n := |events| - 1;
      EverQueued(states[..n + 1], events[..n]) + QueuedBy(states[n], events[n])
  }

  lemma StepFins(s: Sender, e: SenderEvent)
    requires Allowed(s, e)
    ensures One(s.finSent) + Fins(QueuedBy(s, e)) == One(StepSender(s, e).finSent)
  {
    if e.Pushed? { PushFins(s, e.out); }
  }

  /** Over any run, one segment ever queued carries the FIN once it has been sent, and none before. */
  lemma {:induction false} FinOnce(states: seq<Sender>, events: seq<SenderEvent>)
    requires IsRun(states, events) && !states[0].finSent
    ensures Fins(EverQueued(states, events)) == One(states[|events|].finSent)
    decreases events
  {
    hide Allowed, StepSender, QueuedBy;
    if events != [] {
      var n := |events| - 1;
      FinOnce(states[..n + 1], events[..n]);
      assert Allowed(states[n], events[n]) && states[n + 1] == StepSender(states[n], events[n]);
      StepFins(states[n], events[n]);
      FinsConcat(EverQueued(states[..n + 1], events[..n]), QueuedBy(states[n], events[n]));
    }
  }

  // ---- nothing unacknowledged is forgotten ----

  /** The highest number acknowledged by any ack that was accepted. */
  function HighestAck(states: seq<Sender>, events: seq<SenderEvent>): nat
    requires IsRun(states, events)
    decreases events
  {
    if events == [] then 0
    else
      var n := |events| - 1;
      var before := HighestAck(states[..n + 1], events[..n]);
      if Accepts(states[n], events[n]) then Max(before, AckValue(states[n], events[n].msg)) else before
  }

  /** No push of the run is a SYN with more than one payload of data. */
  predicate SynsOnce(states: seq<Sender>, events: seq<SenderEvent>)
    requires IsRun(states, events)
  {
    forall k :: 0 <= k < |events| && events[k].Pushed? ==>
      assert Allowed(states[k], events[k]); OneSyn(states[k], events[k].out)
  }

  lemma StepOrdered(s: Sender, e: SenderEvent)
    requires Ordered(s) && Timed(s) && Allowed(s, e) && (e.Pushed? ==> OneSyn(s, e.out))
    ensures var t := StepSender(s, e);
            && Ordered(t) && Timed(t)
            && t.Base() <= if Accepts(s, e) then Max(s.Base(), AckValue(s, e.msg)) else s.Base()
  {
    match e
    case Pushed(out) =>
      PushOrdered(s, out);
      hide Ordered, Sender.Base, Ends;
    case MaySend =>
      MaybeSendOrdered(s);
      hide Ordered, Sender.Base, MaybeSend;
    case Acked(msg) =>
      ReceiveOrdered(s, msg);
      hide Ordered, Sender.Base, Receive, AckValue;
    case Ticked(ms) =>
      TickOrdered(s, ms);
  }

  /** As long as no SYN is repeated, over any run, what is held tiles one range, which starts at or
      below the highest ack and ends at the next sequence number. */
  lemma {:induction false} RunOrdered(states: seq<Sender>, events: seq<SenderEvent>)
    requires IsRun(states, events) && SynsOnce(states, events)
    requires states[0] == NewSender(states[0].isn, states[0].initialRTO)
    ensures var end := states[|events|];
            && Tiled(end.Queue(), end.Base(), end.next) && end.Base() <= HighestAck(states, events)
            && Ordered(end) && Timed(end)
    decreases events
  {
    hide Allowed, StepSender, Accepts, Ordered, Timed, Sender.Base, OneSyn, AckValue;
    NewSenderLaws(states[0].isn, states[0].initialRTO);
    if events != [] {
      var n := |events| - 1;
      var states', events' := states[..n + 1], events[..n];
      assert Allowed(states[n], events[n]) && states[n + 1] == StepSender(states[n], events[n]);
      RunOrdered(states', events');
      StepOrdered(states[n], events[n]);
    }
    QueueTiles(states[|events|]);
  }

  /** Segments that may overlap the ones before them, but leave no gap from `lo` to `hi`. */
  ghost predicate Chained(segs: seq<Seg>, lo: nat, hi: nat) {
    if segs == [] then lo == hi
    else segs[0].pos <= lo < segs[0].End() && Chained(segs[1..], segs[0].End(), hi)
  }

  lemma {:induction false} ChainedConcat(a: seq<Seg>, b: seq<Seg>, lo: nat, mid: nat, hi: nat)
    requires Chained(a, lo, mid) && Chained(b, mid, hi)
    ensures Chained(a + b, lo, hi)
  {
    if a == [] {
      assert a + b == b;
    } else {
      assert (a + b)[1..] == a[1..] + b;
      ChainedConcat(a[1..], b, a[0].End(), mid, hi);
    }
  }

  lemma {:induction false} ChainedCovers(segs: seq<Seg>, lo: nat, hi: nat, p: nat) returns (k: nat)
    requires Chained(segs, lo, hi) && lo <= p < hi
    ensures k < |segs| && segs[k].pos <= p < segs[k].End()
  {
    if p < segs[0].End() {
      k := 0;
    } else {
      var j := ChainedCovers(segs[1..], segs[0].End(), hi, p);
      k := j + 1;
    }
  }

  /** The new segments leave no gap, also when the SYN is repeated: each one after the first then
      starts one number early. */
  lemma {:induction false} CutChains(pos: nat, syn: bool, data: Bytes, fin: bool, lo: nat)
    requires lo == pos || (syn && lo == pos + 1 && data != [])
    ensures Chained(Cut(pos, syn, data, fin), lo, pos + One(syn) + |data| + One(fin))
    decreases |data|
  {
    if |data| > MAX_PAYLOAD {
      var rest := Cut(pos + MAX_PAYLOAD, syn, data[MAX_PAYLOAD..], fin);
      CutChains(pos + MAX_PAYLOAD, syn, data[MAX_PAYLOAD..], fin, pos + One(syn) + MAX_PAYLOAD);
      assert Cut(pos, syn, data, fin)[1..] == rest;
    }
  }

  /** Everything from `lo` on is held, and there is nothing before the SYN. */
  ghost predicate HeldFrom(s: Sender, lo: nat) {
    && Chained(s.Queue(), lo, s.next)
    && (!s.synSent ==> s.next == 0 && s.inFlight == [] && s.unsent == [])
  }

  /** Dropping what an ack covers moves the start to at most the ack. */
  lemma {:induction false} DropAckedChains(flight: seq<Outstanding>, rest: seq<Seg>, lo: nat, hi: nat, ack: nat)
      returns (lo': nat)
    requires Chained(Segments(flight) + rest, lo, hi)
    ensures Chained(Segments(DropAcked(flight, ack)) + rest, lo', hi) && lo' <= Max(lo, ack)
  {
    if flight != [] && flight[0].seg.End() <= ack {
      SegmentsTail(flight);
      assert (Segments(flight) + rest)[1..] == Segments(flight[1..]) + rest;
      lo' := DropAckedChains(flight[1..], rest, flight[0].seg.End(), hi, ack);
    } else {
      lo' := lo;
    }
  }

  lemma PushHeld(s: Sender, out: Stream, lo: nat)
    requires HeldFrom(s, lo) && out.Valid() && Ends(s, out)
    ensures HeldFrom(Push(s, out), lo)
  {
    var more, t := NewSegments(s, out), Push(s, out);
    CutChains(s.next, !s.synSent, out.Contents()[..Amount(s, out)], SendsFin(s, out), s.next);
    ChainedConcat(s.Queue(), more, lo, s.next, t.next);
    assert t.Queue() == s.Queue() + more;
  }

  lemma MaybeSendHeld(s: Sender, lo: nat)
    requires HeldFrom(s, lo) && CanSend(s)
    ensures HeldFrom(MaybeSend(s), lo)
  {
    if s.retransmit {
      assert Segments(MaybeSend(s).inFlight) == Segments(s.inFlight);
    } else if s.unsent != [] {
      SendNextQueues(s);
    }
  }

  lemma ReceiveHeld(s: Sender, msg: ReceiverMessage, lo: nat) returns (lo': nat)
    requires HeldFrom(s, lo) && msg.ackno.Some? && s.next < TWO64
    ensures HeldFrom(Receive(s, msg), lo')
    ensures lo' <= if AckValue(s, msg) <= s.next then Max(lo, AckValue(s, msg)) else lo
  {
    lo' := lo;
    if AckValue(s, msg) <= s.next {
      ReceiveQueue(s, msg);
      DropAckedShrinks(s.inFlight, AckValue(s, msg));
      lo' := DropAckedChains(s.inFlight, s.unsent, lo, s.next, AckValue(s, msg));
    }
    hide AckValue, Receive, Chained;
  }

  lemma StepHeld(s: Sender, e: SenderEvent, lo: nat) returns (lo': nat)
    requires HeldFrom(s, lo) && Allowed(s, e)
    ensures HeldFrom(StepSender(s, e), lo')
    ensures lo' <= if Accepts(s, e) then Max(lo, AckValue(s, e.msg)) else lo
  {
    hide HeldFrom, AckValue, Receive, MaybeSend, Push, Ends;
    lo' := lo;
    match e
    case Pushed(out) => PushHeld(s, out, lo);
    case MaySend => MaybeSendHeld(s, lo);
    case Acked(msg) => lo' := ReceiveHeld(s, msg, lo);
    case Ticked(ms) => TickHeld(s, ms, lo);
  }

  lemma TickHeld(s: Sender, ms: nat, lo: nat)
    requires HeldFrom(s, lo)
    ensures HeldFrom(Tick(s, ms), lo)
  {
    hide Chained, Segments;
  }

  lemma {:induction false} RunHeld(states: seq<Sender>, events: seq<SenderEvent>) returns (lo: nat)
    requires IsRun(states, events) && states[0] == NewSender(states[0].isn, states[0].initialRTO)
    ensures HeldFrom(states[|events|], lo) && lo <= HighestAck(states, events)
    decreases events
  {
    if events == [] {
      lo := 0;
      return;
    }
    hide Allowed, StepSender, Accepts, HeldFrom, AckValue;
    var n := |events| - 1;
    assert Allowed(states[n], events[n]) && states[n + 1] == StepSender(states[n], events[n]);
    lo := RunHeld(states[..n + 1], events[..n]);
    lo := StepHeld(states[n], events[n], lo);
  }

  /** Over any run, with acks old or new, lost, repeated or in any order, and any first push: every
      sequence number given out, from the highest one ever acknowledged on, is in a segment still
      held. */
  lemma UnackedIsHeld(states: seq<Sender>, events: seq<SenderEvent>, p: nat) returns (k: nat)
    requires IsRun(states, events) && states[0] == NewSender(states[0].isn, states[0].initialRTO)
    requires HighestAck(states, events) <= p < states[|events|].next
    ensures k < |states[|events|].Queue()|
    ensures states[|events|].Queue()[k].pos <= p < states[|events|].Queue()[k].End()
  {
    var lo := RunHeld(states, events);
    k := ChainedCovers(states[|events|].Queue(), lo, states[|events|].next, p);
  }

  // ---- a due retransmission with nothing to retransmit ----

  /** No call repairs it. */
  lemma NeverRepaired(s: Sender, e: SenderEvent)
    requires !CanSend(s) && Allowed(s, e)
    ensures !CanSend(StepSender(s, e))
  {
  }
}
