/** A sender and the one outbound stream it reads, over any run: the application writes and closes,
    and the sender is called in any order, with any acks. */
module SenderHistories {
  import opened Words
  import opened Messages
  import opened ByteStreams
  import opened Senders
  import opened Conservation

  datatype Feed = Feed(snd: Sender, out: Stream)

  datatype Act = Writes(data: Bytes) | Closes | Pushes | Sends | Hears(msg: ReceiverMessage) | Waits(ms: nat)

  /** A closed stream is not written to; otherwise what the sender's calls need to return at all. */
  predicate Possible(f: Feed, act: Act) {
    && f.out.Valid()
    && match act
       case Writes(_) => !f.out.closed
       case Closes => true
       case Pushes => Ends(f.snd, f.out)
       case Sends => CanSend(f.snd)
       case Hears(msg) => msg.ackno.Some? && f.snd.next < TWO64
       case Waits(_) => true
  }

  function After(f: Feed, act: Act): Feed
    requires Possible(f, act)
  {
    match act
    case Writes(data) => f.(out := f.out.Push(data))
    case Closes => f.(out := f.out.Close())
    case Pushes => Feed(Push(f.snd, f.out), PushedFrom(f.snd, f.out))
    case Sends => f.(snd := MaybeSend(f.snd))
    case Hears(msg) => f.(snd := Receive(f.snd, msg))
    case Waits(ms) => f.(snd := Tick(f.snd, ms))
  }

  predicate IsRun(states: seq<Feed>, acts: seq<Act>) {
    && |states| == |acts| + 1
    && forall k :: 0 <= k < |acts| ==> Possible(states[k], acts[k]) && states[k + 1] == After(states[k], acts[k])
  }

  function SentBy(f: Feed, act: Act): seq<Seg>
    requires Possible(f, act)
  {
    if act.Sends? && Sent(f.snd).Some? then [Sent(f.snd).value] else []
  }

  /** Every segment ever handed to the network, in order, retransmissions included. */
  function EverSent(states: seq<Feed>, acts: seq<Act>): seq<Seg>
    requires IsRun(states, acts)
    decreases acts
  {
    if acts == [] then []
    else
      var n := |acts| - 1;
      EverSent(states[..n + 1], acts[..n]) + SentBy(states[n], acts[n])
  }

  lemma StepConserves(f: Feed, act: Act)
    requires Possible(f, act) && Conserved(f.snd, f.out)
    ensures var g := After(f, act);
            && Conserved(g.snd, g.out) && f.out.Taken() <= g.out.Taken()
            && (f.snd.finSent ==> g.snd.finSent && g.out.Taken() == f.out.Taken())
            && AllFaithful(SentBy(f, act), g.out.Taken(), g.snd.finSent)
  {
    hide Faithful, Receive, Ends;
    match act
    case Writes(data) => WriterConserves(f.snd, f.out, data);
    case Closes => WriterConserves(f.snd, f.out, []);
    case Pushes =>
      PushConserves(f.snd, f.out);
      NothingAfterFin(f.snd, f.out);
    case Sends => MaybeSendConserves(f.snd, f.out);
    case Hears(msg) =>
      ReceiveConserves(f.snd, f.out, msg);
      ReceiveFin(f.snd, msg);
    case Waits(ms) => TickConserves(f.snd, f.out, ms);
  }

  lemma NothingAfterFin(s: Sender, out: Stream)
    requires Conserved(s, out)
    ensures s.finSent ==> PushedFrom(s, out) == out
  {
  }

  lemma ReceiveFin(s: Sender, msg: ReceiverMessage)
    requires msg.ackno.Some? && s.next < TWO64
    ensures Receive(s, msg).finSent == s.finSent
  {
  }

  /** At every moment of any run, sequence numbers count SYN, bytes taken and FIN exactly, and every
      segment ever sent, as every one still held, is the slice of what was taken from the stream at
      its position, with the FIN right behind all of it. */
  lemma {:induction false} AlwaysConserved(states: seq<Feed>, acts: seq<Act>)
    requires IsRun(states, acts)
    requires exists isn, rto, capacity :: states[0] == Feed(NewSender(isn, rto), Empty(capacity))
    ensures var end := states[|acts|];
            && Conserved(end.snd, end.out)
            && end.snd.next == One(end.snd.synSent) + |end.out.Taken()| + One(end.snd.finSent)
            && AllFaithful(EverSent(states, acts), end.out.Taken(), end.snd.finSent)
    decreases acts
  {
    hide Possible, After, SentBy, Faithful;
    if acts != [] {
      var n := |acts| - 1;
      var before, end := states[n], states[n + 1];
      AlwaysConserved(states[..n + 1], acts[..n]);
      assert Possible(before, acts[n]) && end == After(before, acts[n]);
      StepConserves(before, acts[n]);
      AllFaithfulLater(EverSent(states[..n + 1], acts[..n]), before.out.Taken(), before.snd.finSent,
                       end.out.Taken(), end.snd.finSent);
    }
  }
}
