/** Nothing the sender takes from the outbound stream is lost, repeated or altered: sequence
    numbers count it exactly, and each held segment carries the bytes of its own position. */
module Conservation {
  import opened Words
  import opened Messages
  import opened ByteStreams
  import opened Senders
  import opened SenderLaws

  /** The segment's payload is the slice of the bytes taken so far at the segment's position;
      a FIN stands right behind all of them. */
  ghost predicate Faithful(seg: Seg, taken: Bytes, finSent: bool) {
    && 0 <= seg.FirstByte()
    && seg.FirstByte() + |seg.payload| <= |taken|
    && seg.payload == taken[seg.FirstByte()..seg.FirstByte() + |seg.payload|]
    && (seg.fin ==> finSent && seg.FirstByte() + |seg.payload| == |taken|)
  }

  ghost predicate AllFaithful(segs: seq<Seg>, taken: Bytes, finSent: bool) {
    forall i :: 0 <= i < |segs| ==> Faithful(segs[i], taken, finSent)
  }

  ghost predicate Conserved(s: Sender, out: Stream) {
    && out.Valid()
    && s.next == One(s.synSent) + out.taken + One(s.finSent)
    && (!s.synSent ==> out.taken == 0 && !s.finSent)
    && (s.finSent ==> out.Finished())
    && AllFaithful(Segments(s.inFlight), out.Taken(), s.finSent)
    && AllFaithful(s.unsent, out.Taken(), s.finSent)
  }

  lemma FaithfulLater(seg: Seg, taken: Bytes, finSent: bool, taken': Bytes, finSent': bool)
    requires Faithful(seg, taken, finSent) && taken <= taken'
    requires finSent ==> finSent' && taken == taken'
    ensures Faithful(seg, taken', finSent')
  {
    var from, to := seg.FirstByte(), seg.FirstByte() + |seg.payload|;
    assert taken'[from..to] == taken[from..to];
  }

  lemma AllFaithfulLater(segs: seq<Seg>, taken: Bytes, finSent: bool, taken': Bytes, finSent': bool)
    requires AllFaithful(segs, taken, finSent) && taken <= taken'
    requires finSent ==> finSent' && taken == taken'
    ensures AllFaithful(segs, taken', finSent')
  {
    forall i | 0 <= i < |segs|
      ensures Faithful(segs[i], taken', finSent')
    {
      FaithfulLater(segs[i], taken, finSent, taken', finSent');
    }
  }

  lemma {:induction false} CutFaithful(pos: nat, syn: bool, data: Bytes, fin: bool, taken: Bytes, finSent: bool)
    requires var from := pos - 1 + One(syn); 0 <= from && from + |data| == |taken| && data == taken[from..]
    requires fin ==> finSent
    ensures AllFaithful(Cut(pos, syn, data, fin), taken, finSent)
    decreases |data|
  {
    if |data| > MAX_PAYLOAD {
      var rest := Cut(pos + MAX_PAYLOAD, syn, data[MAX_PAYLOAD..], fin);
      CutFaithful(pos + MAX_PAYLOAD, syn, data[MAX_PAYLOAD..], fin, taken, finSent);
      var first := Seg(pos, syn, data[..MAX_PAYLOAD], false);
      assert Faithful(first, taken, finSent);
      assert Cut(pos, syn, data, fin) == [first] + rest;
    }
  }

  /** Every push that ends, the first one on buffered data included. */
  lemma PushConserves(s: Sender, out: Stream)
    requires Conserved(s, out) && Ends(s, out)
    ensures Conserved(Push(s, out), PushedFrom(s, out))
    ensures out.Taken() <= PushedFrom(s, out).Taken()
  {
    hide Faithful, Cut, Sender.Allowance;
    var t, rest := Push(s, out), PushedFrom(s, out);
    var n := Amount(s, out);
    TakenGrows(out, n);
    AllFaithfulLater(Segments(s.inFlight), out.Taken(), s.finSent, rest.Taken(), t.finSent);
    AllFaithfulLater(s.unsent, out.Taken(), s.finSent, rest.Taken(), t.finSent);
    if s.finSent {
      NothingToCut(s.next);
      assert out.Contents()[..n] == [];
    } else {
      CutFaithful(s.next, !s.synSent, out.Contents()[..n], SendsFin(s, out), rest.Taken(), t.finSent);
    }
  }

  lemma TakenGrows(out: Stream, n: nat)
    requires out.Valid() && n <= out.Buffered()
    ensures out.Pop(n).Taken() == out.Taken() + out.Contents()[..n]
    ensures out.Pop(n).Taken()[out.taken..] == out.Contents()[..n]
  {
  }

  lemma NothingToCut(pos: nat)
    ensures Cut(pos, false, [], false) == []
  {
  }

  /** The writer goes on writing and may close: nothing that is held changes. */
  lemma WriterConserves(s: Sender, out: Stream, data: Bytes)
    requires Conserved(s, out)
    ensures !out.closed ==> Conserved(s, out.Push(data)) && out.Push(data).Taken() == out.Taken()
    ensures Conserved(s, out.Close())
  {
    assert out.Push(data).Taken() == out.Taken();
  }

  lemma MaybeSendConserves(s: Sender, out: Stream)
    requires CanSend(s) && Conserved(s, out)
    ensures Conserved(MaybeSend(s), out)
    ensures Sent(s).Some? ==> Faithful(Sent(s).value, out.Taken(), s.finSent)
  {
    hide Faithful;
    var t := MaybeSend(s);
    if s.retransmit {
      assert Segments(t.inFlight) == Segments(s.inFlight);
      assert Sent(s).value == Segments(s.inFlight)[0];
    } else if s.unsent != [] {
      SegmentsConcat(s.inFlight, [Outstanding(s.unsent[0], s.now)]);
    }
  }

  lemma {:induction false} DropAckedFaithful(flight: seq<Outstanding>, ack: nat, taken: Bytes, finSent: bool)
    requires AllFaithful(Segments(flight), taken, finSent)
    ensures AllFaithful(Segments(DropAcked(flight, ack)), taken, finSent)
  {
    if flight != [] && flight[0].seg.End() <= ack {
      SegmentsTail(flight);
      DropAckedFaithful(flight[1..], ack, taken, finSent);
    }
  }

  lemma ReceiveConserves(s: Sender, out: Stream, msg: ReceiverMessage)
    requires Conserved(s, out) && msg.ackno.Some? && s.next < TWO64
    ensures Conserved(Receive(s, msg), out)
  {
    if AckValue(s, msg) <= s.next {
      ReceiveQueue(s, msg);
      DropAckedFaithful(s.inFlight, AckValue(s, msg), out.Taken(), s.finSent);
      hide DropAcked, AckValue, Receive;
    }
  }

  lemma TickConserves(s: Sender, out: Stream, ms: nat)
    requires Conserved(s, out)
    ensures Conserved(Tick(s, ms), out)
  {
  }
}
