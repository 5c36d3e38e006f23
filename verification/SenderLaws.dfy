/** What the sender's operations keep: the held segments tile one range of sequence numbers,
    carry exactly what was taken from the outbound stream, and stay within the window. */
module SenderLaws {
  import opened Words
  import opened Wrapping
  import opened Messages
  import opened ByteStreams
  import opened Timers
  import opened Senders

  // ---- tiling ----

  /** The segments follow one another without gap or overlap, from `lo` to `hi`. */
  ghost predicate Tiled(segs: seq<Seg>, lo: nat, hi: nat) {
    if segs == [] then lo == hi
    else segs[0].pos == lo && segs[0].Len() > 0 && Tiled(segs[1..], segs[0].End(), hi)
  }

  function Span(segs: seq<Seg>): nat {
    if segs == [] then 0 else segs[0].Len() + Span(segs[1..])
  }

  lemma {:induction false} TiledSpan(segs: seq<Seg>, lo: nat, hi: nat)
    requires Tiled(segs, lo, hi)
    ensures hi == lo + Span(segs)
  {
    if segs != [] { TiledSpan(segs[1..], segs[0].End(), hi); }
  }

  lemma {:induction false} TiledConcat(a: seq<Seg>, b: seq<Seg>, lo: nat, hi: nat)
    ensures Tiled(a + b, lo, hi) <==> Tiled(a, lo, lo + Span(a)) && Tiled(b, lo + Span(a), hi)
  {
    if a == [] {
      assert a + b == b;
    } else {
      assert (a + b)[1..] == a[1..] + b;
      TiledConcat(a[1..], b, a[0].End(), hi);
    }
  }

  lemma TiledHead(segs: seq<Seg>, lo: nat, hi: nat)
    requires Tiled(segs, lo, hi)
    ensures lo == if segs == [] then hi else segs[0].pos
  {
  }

  lemma {:induction false} TiledWithin(segs: seq<Seg>, lo: nat, hi: nat, k: nat)
    requires Tiled(segs, lo, hi) && k < |segs|
    ensures lo <= segs[k].pos < segs[k].End() <= hi
    ensures k == 0 ==> segs[k].pos == lo
  {
    TiledSpan(segs[1..], segs[0].End(), hi);
    if k > 0 { TiledWithin(segs[1..], segs[0].End(), hi, k - 1); }
  }

  /** Every position of the range lies in some segment. */
  lemma {:induction false} TiledCovers(segs: seq<Seg>, lo: nat, hi: nat, p: nat) returns (k: nat)
    requires Tiled(segs, lo, hi) && lo <= p < hi
    ensures k < |segs| && segs[k].pos <= p < segs[k].End()
  {
    if p < segs[0].End() {
      k := 0;
    } else {
      var j := TiledCovers(segs[1..], segs[0].End(), hi, p);
      k := j + 1;
    }
  }

  lemma {:induction false} CutTiles(pos: nat, syn: bool, data: Bytes, fin: bool)
    requires syn ==> |data| <= MAX_PAYLOAD
    ensures Tiled(Cut(pos, syn, data, fin), pos, pos + One(syn) + |data| + One(fin))
    ensures forall i :: 0 <= i < |Cut(pos, syn, data, fin)| ==>
              var seg := Cut(pos, syn, data, fin)[i];
              && seg.syn == syn && seg.pos >= pos && (syn ==> seg.pos == pos) && |seg.payload| <= 1000
              && (i < |Cut(pos, syn, data, fin)| - 1 ==> |seg.payload| == 1000)
    decreases |data|
  {
    if |data| > MAX_PAYLOAD {
      CutTiles(pos + MAX_PAYLOAD, syn, data[MAX_PAYLOAD..], fin);
      var rest := Cut(pos + MAX_PAYLOAD, syn, data[MAX_PAYLOAD..], fin);
      assert Cut(pos, syn, data, fin)[1..] == rest;
    }
  }

  function Fins(segs: seq<Seg>): nat {
    if segs == [] then 0 else One(segs[0].fin) + Fins(segs[1..])
  }

  lemma {:induction false} FinsConcat(a: seq<Seg>, b: seq<Seg>)
    ensures Fins(a + b) == Fins(a) + Fins(b)
  {
    if a == [] {
      assert a + b == b;
    } else {
      assert (a + b)[1..] == a[1..] + b;
      FinsConcat(a[1..], b);
    }
  }

  lemma {:induction false} CutFins(pos: nat, syn: bool, data: Bytes, fin: bool)
    ensures Fins(Cut(pos, syn, data, fin)) == One(fin)
    decreases |data|
  {
    if |data| > MAX_PAYLOAD {
      CutFins(pos + MAX_PAYLOAD, syn, data[MAX_PAYLOAD..], fin);
      assert Cut(pos, syn, data, fin)[1..] == Cut(pos + MAX_PAYLOAD, syn, data[MAX_PAYLOAD..], fin);
    }
  }

  // ---- the invariant of the sender by itself ----

  ghost predicate WellSized(segs: seq<Seg>) {
    forall i :: 0 <= i < |segs| ==> |segs[i].payload| <= MAX_PAYLOAD && (segs[i].syn <==> segs[i].pos == 0)
  }

  /** The held segments tile [Base, next). */
  ghost predicate Ordered(s: Sender) {
    && Tiled(Segments(s.inFlight), s.Base(), s.UnsentStart())
    && Tiled(s.unsent, s.UnsentStart(), s.next)
    && WellSized(Segments(s.inFlight)) && WellSized(s.unsent)
    && 1 <= s.window && s.ack <= s.next
    && (!s.synSent ==> s.next == 0 && !s.finSent && s.inFlight == [] && s.unsent == [])
    && (s.synSent ==> s.next > 0)
  }

  /** Acks have been coming in order: what is acknowledged has been sent, what lies below the held
      segments is acknowledged, and nothing in flight is acknowledged as a whole. */
  ghost predicate Settled(s: Sender) {
    && s.Base() <= s.ack <= s.UnsentStart()
    && (s.inFlight != [] ==> s.ack < s.inFlight[0].seg.End())
  }

  /** The timer runs exactly while something is in flight, for the current timeout. */
  ghost predicate Timed(s: Sender) {
    && (s.timer.running <==> s.inFlight != [])
    && (s.timer.running ==> s.timer.timeout == s.rto)
  }

  /** All that the sender unwraps is less than half the sequence space from its next number. */
  ghost predicate Near(s: Sender) {
    && Distance(s.ack, s.next) < TWO31
    && forall k :: 0 <= k < |s.inFlight| ==>
         Distance(s.inFlight[k].seg.pos, s.next) < TWO31 && |s.inFlight[k].seg.payload| <= MAX_PAYLOAD
  }

  lemma QueueTiles(s: Sender)
    requires Ordered(s)
    ensures Tiled(s.Queue(), s.Base(), s.next) && s.Base() <= s.UnsentStart() <= s.next
  {
    TiledSpan(Segments(s.inFlight), s.Base(), s.UnsentStart());
    TiledSpan(s.unsent, s.UnsentStart(), s.next);
    TiledConcat(Segments(s.inFlight), s.unsent, s.Base(), s.next);
    if s.inFlight != [] {
      assert Segments(s.inFlight)[0] == s.inFlight[0].seg;
    } else {
      assert Segments(s.inFlight) == [];
    }
  }

  /** As long as the sender has not passed its window, everything is near. */
  lemma WithinWindowIsNear(s: Sender)
    requires Ordered(s) && Settled(s) && s.next <= s.ack + s.window
    ensures Near(s)
  {
    QueueTiles(s);
    forall k | 0 <= k < |s.inFlight|
      ensures Distance(s.inFlight[k].seg.pos, s.next) < TWO31 && |s.inFlight[k].seg.payload| <= MAX_PAYLOAD
    {
      TiledWithin(Segments(s.inFlight), s.Base(), s.UnsentStart(), k);
      TiledWithin(Segments(s.inFlight), s.Base(), s.UnsentStart(), 0);
    }
  }

  lemma SegmentsConcat(a: seq<Outstanding>, b: seq<Outstanding>)
    ensures Segments(a + b) == Segments(a) + Segments(b)
  {
  }

  /** Every sequence number from the first held one up to the next one is held. */
  lemma NothingForgotten(s: Sender, p: nat) returns (k: nat)
    requires Ordered(s) && s.Base() <= p < s.next
    ensures k < |s.Queue()| && s.Queue()[k].pos <= p < s.Queue()[k].End()
  {
    QueueTiles(s);
    k := TiledCovers(s.Queue(), s.Base(), s.next, p);
  }

  // ---- pushing ----

  /** A push whose segments lie one behind the other: a SYN with more data than one payload is
      repeated on each segment. */
  predicate OneSyn(s: Sender, out: Stream)
    requires out.Valid()
  {
    s.synSent || out.Buffered() <= MAX_PAYLOAD
  }

  lemma NewSegmentsTile(s: Sender, out: Stream)
    requires Ordered(s) && out.Valid() && Ends(s, out) && OneSyn(s, out)
    ensures Tiled(NewSegments(s, out), s.next, Push(s, out).next)
    ensures WellSized(NewSegments(s, out))
  {
    CutTiles(s.next, !s.synSent, out.Contents()[..Amount(s, out)], SendsFin(s, out));
    hide Cut, SendsFin, Amount, Tiled;
  }

  lemma OneSynKeepsOrder(s: Sender, out: Stream)
    requires Ordered(s) && out.Valid() && Ends(s, out) && OneSyn(s, out)
    ensures Ordered(Push(s, out))
    ensures Push(s, out).Base() == s.Base() && Push(s, out).UnsentStart() == s.UnsentStart()
  {
    var t := Push(s, out);
    var more := NewSegments(s, out);
    NewSegmentsTile(s, out);
    TiledSpan(s.unsent, s.UnsentStart(), s.next);
    TiledConcat(s.unsent, more, s.UnsentStart(), t.next);
    hide Amount, SendsFin, Cut, NewSegments;
    assert s.unsent == [] ==> t.unsent == more;
    assert more == [] ==> t.next == s.next;
    assert more != [] ==> more[0].pos == s.next;
    assert s.inFlight == [] ==> Segments(s.inFlight) == [];
  }

  lemma CutHead(pos: nat, syn: bool, data: Bytes, fin: bool)
    ensures var segs := Cut(pos, syn, data, fin); syn ==> segs != [] && segs[0].syn && segs[0].pos == pos
  {
  }

  lemma RepeatedSynBreaksOrder(s: Sender, out: Stream)
    requires Ordered(s) && out.Valid() && Ends(s, out) && !OneSyn(s, out)
    ensures !Ordered(Push(s, out))
  {
    var data := out.Contents();
    assert data[..Amount(s, out)] == data && s.unsent == [];
    var more := NewSegments(s, out);
    assert Push(s, out).unsent == more;
    CutHead(MAX_PAYLOAD, true, data[MAX_PAYLOAD..], SendsFin(s, out));
    assert more[1].syn && more[1].pos == MAX_PAYLOAD;
  }

  /** A push keeps the tiling if and only if it is not a SYN with more than one payload of data:
      then the flag is on every segment, though only the first is at the initial number. */
  lemma PushOrdered(s: Sender, out: Stream)
    requires Ordered(s) && out.Valid() && Ends(s, out)
    ensures Ordered(Push(s, out)) <==> OneSyn(s, out)
    ensures OneSyn(s, out) ==> Push(s, out).Base() == s.Base() && Push(s, out).UnsentStart() == s.UnsentStart()
    ensures OneSyn(s, out) && Settled(s) ==> Settled(Push(s, out))
  {
    if OneSyn(s, out) {
      OneSynKeepsOrder(s, out);
      hide Ordered, Sender.Base, Sender.UnsentStart;
    } else {
      RepeatedSynBreaksOrder(s, out);
    }
  }

  /** When a push sends nothing that the window does not let out. After the SYN: if the window has
      not been passed before, or nothing is left to send (the room has wrapped around otherwise).
      The SYN itself: unless it takes along a FIN behind data that fill the window. */
  lemma PushWithinWindow(s: Sender, out: Stream)
    requires out.Valid() && Ends(s, out)
    requires 1 <= s.window && s.ack <= s.next < TWO64 && (!s.synSent ==> s.next == 0 && !s.finSent)
    ensures Push(s, out).next <= Max(s.next, s.ack + s.window)
            <==> if s.synSent
                 then s.next <= s.ack + s.window || (out.Buffered() == 0 && (s.finSent || !out.closed))
                 else !(out.closed && out.Buffered() == s.window - 1)
  {
    RoomOf(s);
    hide Sender.Room;
  }

  /** The room as a number: what the window leaves, or 2^64 less the excess. */
  lemma RoomOf(s: Sender)
    requires s.ack <= s.next < TWO64
    ensures s.Room() == if s.next <= s.ack + s.window then s.ack + s.window - s.next
                        else TWO64 + s.ack + s.window - s.next
  {
  }

  /** A push stops only when the room is used up or the stream is drained; then, if the stream is
      finished and there is room, the FIN has been sent. */
  lemma PushGreedy(s: Sender, out: Stream)
    requires out.Valid() && Ends(s, out)
    ensures var t, rest := Push(s, out), PushedFrom(s, out);
            || t.Room() == 0
            || (rest.Buffered() == 0 && (rest.Finished() ==> t.finSent))
  {
    var t := Push(s, out);
    if s.synSent {
      RoomAfter(s, t, Amount(s, out) + One(SendsFin(s, out)));
      hide Sender.Room;
    }
  }

  lemma RoomAfter(s: Sender, t: Sender, n: nat)
    requires t.next == s.next + n && t.window == s.window && t.ack == s.ack && n <= s.Room()
    ensures t.Room() == s.Room() - n
  {
  }

  /** The new segments carry one FIN if this push turns `finSent` on, and none otherwise. */
  lemma PushFins(s: Sender, out: Stream)
    requires out.Valid() && Ends(s, out)
    ensures One(s.finSent) + Fins(NewSegments(s, out)) == One(Push(s, out).finSent)
  {
    CutFins(s.next, !s.synSent, out.Contents()[..Amount(s, out)], SendsFin(s, out));
    hide Cut, Amount;
  }

  // ---- sending ----

  lemma ResendOrdered(s: Sender)
    requires Ordered(s) && Timed(s) && s.retransmit && CanSend(s)
    ensures Segments(MaybeSend(s).inFlight) == Segments(s.inFlight)
    ensures Ordered(MaybeSend(s)) && Timed(MaybeSend(s))
    ensures Sent(s) == Some(s.inFlight[0].seg) && Segments(s.inFlight)[0] == s.inFlight[0].seg
    ensures s.inFlight[0].seg.End() <= s.UnsentStart()
    ensures Settled(s) ==> Settled(MaybeSend(s))
  {
    TiledWithin(Segments(s.inFlight), s.Base(), s.UnsentStart(), 0);
  }

  lemma SendNextQueues(s: Sender)
    requires !s.retransmit && s.unsent != []
    ensures var t := MaybeSend(s);
            && Segments(t.inFlight) == Segments(s.inFlight) + [s.unsent[0]] && t.unsent == s.unsent[1..]
            && t.Queue() == s.Queue() && t.inFlight != [] && t.timer.running
            && (s.inFlight != [] ==> t.inFlight[0] == s.inFlight[0])
            && (s.inFlight == [] ==> t.inFlight[0].seg == s.unsent[0] && Segments(s.inFlight) == [])
  {
    SegmentsConcat(s.inFlight, [Outstanding(s.unsent[0], s.now)]);
    assert Segments([Outstanding(s.unsent[0], s.now)]) == [s.unsent[0]];
    assert s.unsent == [s.unsent[0]] + s.unsent[1..];
  }

  lemma SendNextOrdered(s: Sender)
    requires Ordered(s) && Timed(s) && !s.retransmit && s.unsent != []
    ensures Ordered(MaybeSend(s)) && Timed(MaybeSend(s))
    ensures MaybeSend(s).Base() == s.Base() && MaybeSend(s).UnsentStart() == s.unsent[0].End()
    ensures s.UnsentStart() <= s.unsent[0].End()
    ensures Settled(s) ==> Settled(MaybeSend(s))
  {
    var t, seg := MaybeSend(s), s.unsent[0];
    SendNextQueues(s);
    TiledSpan(Segments(s.inFlight), s.Base(), s.UnsentStart());
    assert [seg][1..] == [];
    TiledConcat(Segments(s.inFlight), [seg], s.Base(), seg.End());
    TiledHead(t.unsent, seg.End(), s.next);
    hide Segments;
  }

  lemma MaybeSendOrdered(s: Sender)
    requires Ordered(s) && Timed(s) && CanSend(s)
    ensures Ordered(MaybeSend(s)) && Timed(MaybeSend(s)) && CanSend(MaybeSend(s))
    ensures Settled(s) ==> Settled(MaybeSend(s))
    ensures MaybeSend(s).Queue() == s.Queue()
    ensures MaybeSend(s).Base() == s.Base() && s.UnsentStart() <= MaybeSend(s).UnsentStart()
    ensures Sent(s).Some? ==> Sent(s).value in s.Queue() && Sent(s).value.End() <= MaybeSend(s).UnsentStart()
    ensures Sent(s).Some? ==> |Sent(s).value.payload| <= MAX_PAYLOAD && (Sent(s).value.syn <==> Sent(s).value.pos == 0)
    ensures s.retransmit ==> Sent(s).Some? && Sent(s).value == s.Queue()[0]
    ensures Sent(s).Some? ==> Outstanding(Sent(s).value, s.now) in MaybeSend(s).inFlight
  {
    if s.retransmit {
      ResendOrdered(s);
    } else if s.unsent != [] {
      SendNextQueues(s);
      SendNextOrdered(s);
    }
    hide Tiled, Segments, Settled;
  }

  // ---- acknowledgements ----

  /** An ack in order: if it is not ignored, it neither goes back nor covers what was never sent. */
  predicate InOrder(s: Sender, msg: ReceiverMessage) {
    && msg.ackno.Some? && s.next < TWO64
    && (AckValue(s, msg) <= s.next ==> s.ack <= AckValue(s, msg) <= s.UnsentStart())
  }

  /** And the edge of the window, a zero window counted as one, does not go back. */
  predicate EdgeKept(s: Sender, msg: ReceiverMessage)
    requires msg.ackno.Some? && s.next < TWO64
  {
    AckValue(s, msg) <= s.next ==> s.ack + s.window <= AckValue(s, msg) + Max(msg.window, 1)
  }

  /** Where a queue of outstanding segments ending at `hi` starts. */
  function StartOf(flight: seq<Outstanding>, hi: nat): nat {
    if flight == [] then hi else flight[0].seg.pos
  }

  lemma SegmentsTail(flight: seq<Outstanding>)
    requires flight != []
    ensures Segments(flight)[1..] == Segments(flight[1..]) && Segments(flight)[0] == flight[0].seg
  {
  }

  /** What an acknowledgement leaves: a tail of the flight, still tiled up to `hi`, whose first
      segment is not fully acknowledged; nothing if and only if all of it is. */
  lemma {:induction false} DropAckedTiles(flight: seq<Outstanding>, lo: nat, hi: nat, ack: nat)
    requires Tiled(Segments(flight), lo, hi) && WellSized(Segments(flight))
    ensures var left := DropAcked(flight, ack);
            && Tiled(Segments(left), StartOf(left, hi), hi) && WellSized(Segments(left))
            && lo <= StartOf(left, hi) <= Max(lo, ack)
            && (left != [] ==> ack < left[0].seg.End())
            && (left == [] <==> flight == [] || hi <= ack)
  {
    if flight == [] {
      assert Segments(flight) == [];
    } else {
      SegmentsTail(flight);
      TiledSpan(Segments(flight[1..]), flight[0].seg.End(), hi);
      if flight[0].seg.End() <= ack {
        hide Segments;
        DropAckedTiles(flight[1..], flight[0].seg.End(), hi, ack);
      }
    }
  }

  lemma ReceiveQueue(s: Sender, msg: ReceiverMessage)
    requires msg.ackno.Some? && s.next < TWO64 && AckValue(s, msg) <= s.next
    ensures var t := Receive(s, msg);
            && t.inFlight == DropAcked(s.inFlight, AckValue(s, msg)) && t.unsent == s.unsent
            && t.ack == AckValue(s, msg) && t.next == s.next && t.synSent == s.synSent && t.finSent == s.finSent
            && t.window == Max(msg.window, 1) && t.retransmit == s.retransmit
            && (t.inFlight == [] ==> !t.timer.running)
            && (t.inFlight != [] ==> || (t.timer == s.timer && t.rto == s.rto)
                                     || (t.timer == Clock(s.now, s.initialRTO, true) && t.rto == s.initialRTO))
  {
    hide DropAcked, AckValue;
  }

  lemma BaseIsStart(s: Sender)
    ensures s.Base() == StartOf(s.inFlight, s.UnsentStart())
  {
  }

  lemma DropAckedShrinks(flight: seq<Outstanding>, ack: nat)
    ensures flight == [] ==> DropAcked(flight, ack) == []
  {
  }

  /** Any ack at all keeps the tiling: what leaves the flight is acknowledged by it, and no segment
      it acknowledges as a whole stays in flight. */
  lemma ReceiveOrdered(s: Sender, msg: ReceiverMessage)
    requires Ordered(s) && Timed(s) && msg.ackno.Some? && s.next < TWO64
    ensures var t := Receive(s, msg);
            && Ordered(t) && Timed(t)
            && s.Base() <= t.Base() && t.UnsentStart() == s.UnsentStart() && t.next == s.next
            && if AckValue(s, msg) > s.next then t == s
               else && t.Base() <= Max(s.Base(), AckValue(s, msg))
                    && (t.inFlight != [] ==> AckValue(s, msg) < t.inFlight[0].seg.End())
                    && t.ack == AckValue(s, msg) && t.window == Max(msg.window, 1)
  {
    if AckValue(s, msg) <= s.next {
      ReceiveQueue(s, msg);
      DropAckedTiles(s.inFlight, s.Base(), s.UnsentStart(), AckValue(s, msg));
      DropAckedShrinks(s.inFlight, AckValue(s, msg));
      BaseIsStart(s);
      BaseIsStart(Receive(s, msg));
      hide DropAcked, AckValue, Tiled, Receive, Sender.Base, Segments;
    }
  }

  /** Acks in order stay settled, and within the window as long as its edge does not go back. */
  lemma ReceiveSettled(s: Sender, msg: ReceiverMessage)
    requires Ordered(s) && Settled(s) && Timed(s) && InOrder(s, msg)
    ensures Settled(Receive(s, msg))
    ensures EdgeKept(s, msg) && s.next <= s.ack + s.window
            ==> Receive(s, msg).next <= Receive(s, msg).ack + Receive(s, msg).window
  {
    ReceiveOrdered(s, msg);
    hide AckValue, Receive, Sender.Base, Sender.UnsentStart, Ordered, Timed;
  }

  /** After an ack the sender can be called on if and only if no retransmission was due, or the ack
      is ignored, or it leaves something in flight: otherwise the next call would take the front of
      an empty queue. */
  lemma ReceiveCanSend(s: Sender, msg: ReceiverMessage)
    requires Ordered(s) && CanSend(s) && msg.ackno.Some? && s.next < TWO64
    ensures CanSend(Receive(s, msg))
            <==> !s.retransmit || AckValue(s, msg) > s.next || AckValue(s, msg) < s.UnsentStart()
  {
    if AckValue(s, msg) <= s.next {
      ReceiveQueue(s, msg);
      DropAckedTiles(s.inFlight, s.Base(), s.UnsentStart(), AckValue(s, msg));
      hide DropAcked, AckValue, Tiled, Receive, Sender.Base, Sender.UnsentStart, Segments;
    }
  }

  lemma TickOrdered(s: Sender, ms: nat)
    requires Ordered(s) && Timed(s)
    ensures Ordered(Tick(s, ms)) && Timed(Tick(s, ms))
    ensures Tick(s, ms).Queue() == s.Queue()
    ensures Settled(s) ==> Settled(Tick(s, ms))
    ensures CanSend(s) ==> CanSend(Tick(s, ms))
  {
    hide Tiled, WellSized, Segments;
  }
}
