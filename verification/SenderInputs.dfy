/** Inputs, each a run from a fresh sender, on which the sender goes beyond its window, repeats
    its SYN, or is left unable to go on: the conditions in `SenderLaws` shut out nothing idle. */
module SenderInputs {
  import opened Words
  import opened Wrapping
  import opened Messages
  import opened ByteStreams
  import opened Senders
  import opened SenderLaws

  function AckOf(n: nat, window: u16, isn: Wrap32): ReceiverMessage {
    ReceiverMessage(Some(Wrap(n, isn)), window)
  }

  lemma AckReadsAs(s: Sender, n: nat, window: u16)
    requires s.next < TWO64 && n <= s.next && s.next - n < TWO31
    ensures AckValue(s, AckOf(n, window, s.isn)) == n
  {
    RoundTrip(n, s.isn, s.next);
  }

  /** A stream with so many bytes written. */
  function Written(n: nat): (out: Stream)
    ensures out.Valid() && out.Buffered() == n && !out.closed
  {
    Stream(n, seq(n, _ => 0), 0, false, false)
  }

  /** Before the SYN, the peer offers a window. */
  function Offered(isn: Wrap32, window: u16): Sender {
    Receive(NewSender(isn, 1000), AckOf(0, window, isn))
  }

  lemma OfferedIs(isn: Wrap32, window: u16)
    requires window > 0
    ensures Offered(isn, window) == NewSender(isn, 1000).(window := window)
    ensures Ordered(Offered(isn, window))
  {
    AckReadsAs(NewSender(isn, 1000), 0, window);
  }

  /** The SYN of a stream that is already finished, through the initial window of one. */
  lemma SynFinOverflowsWindow(isn: Wrap32)
    ensures var s, out := NewSender(isn, 1000), Written(0).Close();
            Push(s, out).next == 2 > s.ack + s.window
  {
  }

  /** The same behind data: a window of 5 takes the SYN and 4 bytes, and then the FIN as well. */
  lemma SynDataFinOverflowsWindow(isn: Wrap32)
    ensures var s, out := Offered(isn, 5), Written(4).Close();
            Ordered(s) && Ends(s, out) && Push(s, out).next == 6 > s.ack + s.window
  {
    OfferedIs(isn, 5);
  }

  /** 1500 bytes written before connecting through a window of 2000: both segments carry the SYN. */
  lemma SynIsRepeated(isn: Wrap32)
    ensures var s, out := Offered(isn, 2000), Written(1500);
            && Ordered(s) && Ends(s, out) && !Ordered(Push(s, out))
            && |NewSegments(s, out)| == 2 && NewSegments(s, out)[0].syn && NewSegments(s, out)[1].syn
  {
    OfferedIs(isn, 2000);
    var s, out := Offered(isn, 2000), Written(1500);
    PushOrdered(s, out);
    var data := out.Contents()[..1500];
    assert NewSegments(s, out) == Cut(0, true, data, false);
    assert Cut(1000, true, data[1000..], false) == [Seg(1000, true, data[1000..], false)];
  }

  /** The SYN is out and acknowledged, with a window of 10. */
  function Opened(isn: Wrap32): Sender {
    Receive(MaybeSend(Push(NewSender(isn, 1000), Written(0))), AckOf(1, 10, isn))
  }

  lemma OpenedIs(isn: Wrap32)
    ensures var s := Opened(isn);
            && s.isn == isn && s.inFlight == [] && s.unsent == [] && s.next == 1 && s.ack == 1 && s.window == 10
            && s.synSent && !s.finSent && !s.retransmit
  {
    var syn := Push(NewSender(isn, 1000), Written(0));
    assert syn.unsent == [Seg(0, true, [], false)];
    var sent := MaybeSend(syn);
    assert sent.inFlight[1..] == [] && sent.inFlight[0].seg.End() == 1;
    AckReadsAs(sent, 1, 10);
  }

  /** Ten bytes more are given out. */
  function PushTen(s: Sender): Sender
    requires s.synSent
  {
    Push(s, Written(10))
  }

  lemma PushTenIs(s: Sender)
    requires s.synSent && s.window == 10 && s.ack == s.next
    ensures PushTen(s)
            == s.(unsent := s.unsent + [Seg(s.next, false, Written(10).Contents(), false)], next := s.next + 10)
  {
    assert Written(10).Contents()[..10] == Written(10).Contents();
  }

  /** The window shrinks from 10 to 5 while 10 bytes are out, in order of sequence numbers; the
      next push sends all 100 bytes of its stream. */
  lemma ShrunkWindowOverflows(isn: Wrap32)
    ensures var full := PushTen(Opened(isn)); var ack := AckOf(1, 5, isn);
            && full.next == 11 && InOrder(full, ack)
            && var s := Receive(full, ack);
               s.synSent && s.next == 11 > s.ack + s.window == 6 && Push(s, Written(100)).next == 111
  {
    OpenedIs(isn);
    var full := PushTen(Opened(isn));
    PushTenIs(Opened(isn));
    AckReadsAs(full, 1, 5);
  }

  /** An ack that was overtaken: the window is 10 throughout, but the older ack moves the ackno
      back from 11 to 1 while numbers up to 21 are out, and the next push sends all 100 bytes. */
  lemma OlderAckOverflows(isn: Wrap32)
    ensures var first := MaybeSend(PushTen(Opened(isn)));
            var second := Receive(first, AckOf(11, 10, isn));
            && second.synSent && second.ack == 11
            && var full := PushTen(second);
               && full.next == 21 == full.ack + full.window && !InOrder(full, AckOf(1, 10, isn))
               && var s := Receive(full, AckOf(1, 10, isn));
                  s.synSent && s.next == 21 > s.ack + s.window == 11 && Push(s, Written(100)).next == 121
  {
    OpenedIs(isn);
    PushTenIs(Opened(isn));
    var first := MaybeSend(PushTen(Opened(isn)));
    AckReadsAs(first, 11, 10);
    var second := Receive(first, AckOf(11, 10, isn));
    PushTenIs(second);
    AckReadsAs(PushTen(second), 1, 10);
  }

  /** The SYN's timer expires, and its ack arrives before the retransmission was handed out: there
      is nothing left to retransmit, yet it stays due. */
  lemma AckBeforeRetransmission(isn: Wrap32)
    ensures var sent := MaybeSend(Push(NewSender(isn, 1000), Written(0)));
            var due := Tick(sent, 1000);
            && due.retransmit && CanSend(due) && InOrder(due, AckOf(1, 10, isn))
            && !CanSend(Receive(due, AckOf(1, 10, isn)))
  {
    var syn := Push(NewSender(isn, 1000), Written(0));
    assert syn.unsent == [Seg(0, true, [], false)];
    var due := Tick(MaybeSend(syn), 1000);
    assert due.unsent == [] && due.inFlight[1..] == [] && due.inFlight[0].seg.End() == 1;
    AckReadsAs(due, 1, 10);
    assert DropAcked(due.inFlight, 1) == [];
  }
}
