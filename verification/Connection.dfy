/** One direction of a connection: a sender reading an outbound stream, a receiver writing an inbound
    stream, and two channels that may lose, repeat and reorder what they carry. Segments and acks
    carry their absolute position along for the sake of the statements; both ends only look at the
    wrapped form. */
module Connections {
  import opened Words
  import opened Wrapping
  import opened Messages
  import opened ByteStreams
  import opened Assembly
  import opened Receivers
  import opened Senders
  import opened SenderLaws
  import opened Conservation

  /** An acknowledgement on its way, at the absolute position it stands for. */
  datatype Ack = Ack(pos: nat, window: u16) {
    function Wire(isn: Wrap32): ReceiverMessage {
      ReceiverMessage(Some(Wrap(pos, isn)), window)
    }

    /** Where the offered window ends, an empty one counted as one (the sender probes it). */
    function Edge(): nat {
      pos + Max(window, 1)
    }
  }

  /** `net` is every segment ever sent, `acks` every ack, in order; `heard` is the index of the ack
      that came last. */
  datatype Connection = Connection(snd: Sender, out: Stream, rcv: Receiver, net: set<Seg>,
                                   acks: seq<Ack>, heard: nat)

  datatype Step =
    | Write(data: Bytes)            // the application writes to the outbound stream
    | CloseOut                      // and closes it
    | PushStep                      // the sender cuts segments
    | SendStep                      // the sender hands one segment to the network
    | TickStep(ms: nat)             // time passes at the sender
    | Deliver(seg: Seg)             // any segment ever sent arrives, perhaps again
    | AckStep                       // the receiver sends an acknowledgement
    | AckArrives(k: nat)            // the k-th one ever sent arrives, perhaps again
    | AnyAck(msg: ReceiverMessage)  // a message arrives that the receiver need not have sent
    | TakeStep(len: nat)            // the application reads from the inbound stream

  function Init(isn: Wrap32, rto: u64, sendCapacity: nat, receiveCapacity: nat): Connection {
    Connection(NewSender(isn, rto), Empty(sendCapacity), NewReceiver(receiveCapacity), {}, [], 0)
  }

  /** The receiver's own offer. */
  function Offer(r: Receiver): Ack
    requires r.asm.out.Valid()
  {
    Ack(r.AckPosition(), r.Window())
  }

  /** The first sequence number the receiver still waits for: the SYN's until it has come. */
  function Awaited(r: Receiver): nat {
    if r.syn then r.AckPosition() else 0
  }

  ghost predicate WellFormed(c: Connection) {
    && c.out.Valid() && c.rcv.asm.out.Valid()
    && c.snd.next < TWO64 && c.rcv.Written() < TWO64
  }

  /** What each step asks for: the first push is made on an open, empty stream, a closed stream is
      not written to, a due retransmission has a segment to send, a delivered segment is within half
      the sequence space of what has been assembled, and fewer than 2^62 bytes are ever written. */
  ghost predicate Enabled(c: Connection, step: Step) {
    && WellFormed(c)
    && match step
       case Write(data) => !c.out.closed && |c.out.written| + |data| < TWO62
       case CloseOut => true
       case PushStep => c.snd.synSent || (c.out.Buffered() == 0 && !c.out.closed)
       case SendStep => CanSend(c.snd) && Sent(c.snd).Some?
       case TickStep(_) => true
       case Deliver(seg) => seg in c.net && Distance(seg.FirstByte() + 1, c.rcv.Written()) < TWO31
       case AckStep => c.rcv.syn
       case AckArrives(k) => k < |c.acks|
       case AnyAck(msg) => msg.ackno.Some?
       case TakeStep(_) => true
  }

  ghost function Next(c: Connection, step: Step): Connection
    requires Enabled(c, step)
  {
    match step
    case Write(data) => c.(out := c.out.Push(data))
    case CloseOut => c.(out := c.out.Close())
    case PushStep => c.(snd := Push(c.snd, c.out), out := PushedFrom(c.snd, c.out))
    case SendStep => c.(snd := MaybeSend(c.snd), net := c.net + {Sent(c.snd).value})
    case TickStep(ms) => c.(snd := Tick(c.snd, ms))
    case Deliver(seg) => c.(rcv := Accept(c.rcv, seg.Wire(c.snd.isn)))
    case AckStep => c.(acks := c.acks + [Offer(c.rcv)])
    case AckArrives(k) => c.(snd := Senders.Receive(c.snd, c.acks[k].Wire(c.snd.isn)), heard := k)
    case AnyAck(msg) => c.(snd := Senders.Receive(c.snd, msg))
    case TakeStep(len) => c.(rcv := TakeInbound(c.rcv, len))
  }

  ghost predicate IsRun(run: seq<Connection>, steps: seq<Step>) {
    && |run| == |steps| + 1
    && forall k :: 0 <= k < |steps| ==> Enabled(run[k], steps[k]) && run[k + 1] == Next(run[k], steps[k])
  }

  // ---- what acks do on a run ----

  /** The acks that arrive were sent by the receiver, and none overtakes a later one; any may be lost
      or repeated. */
  predicate KeepsOrder(c: Connection, step: Step) {
    match step
    case AckArrives(k) => c.heard <= k
    case AnyAck(_) => false
    case _ => true
  }

  /** The acks that arrive were sent by the receiver, in any order, and are less than half the sequence
      space from the sender's next number. */
  predicate Genuine(c: Connection, step: Step) {
    match step
    case AckArrives(k) => k < |c.acks| && Distance(c.acks[k].pos, c.snd.next) < TWO31
    case AnyAck(_) => false
    case _ => true
  }

  ghost predicate AcksKeepOrder(run: seq<Connection>, steps: seq<Step>)
    requires IsRun(run, steps)
  {
    forall k :: 0 <= k < |steps| ==> KeepsOrder(run[k], steps[k])
  }

  ghost predicate AcksAreGenuine(run: seq<Connection>, steps: seq<Step>)
    requires IsRun(run, steps)
  {
    forall k :: 0 <= k < |steps| ==> Genuine(run[k], steps[k])
  }

  // ---- invariants ----

  ghost predicate SenderFine(c: Connection) {
    && Ordered(c.snd) && Timed(c.snd) && Conserved(c.snd, c.out)
    && |c.out.written| < TWO62
  }

  /** Every segment in the network carries the outbound bytes of its position, and was sent. */
  ghost predicate NetFine(c: Connection)
    requires c.out.Valid()
  {
    forall seg :: seg in c.net ==>
      && Faithful(seg, c.out.Taken(), c.snd.finSent)
      && seg.End() <= c.snd.UnsentStart() && |seg.payload| <= MAX_PAYLOAD && (seg.syn <==> seg.pos == 0)
  }

  /** Nothing at or beyond stream index `bound` has been assembled or is held back. */
  ghost predicate Below(a: Assembler, bound: int) {
    |a.out.written| <= bound && forall i :: i in a.pending ==> i < bound
  }

  /** What has been assembled is what the sender took from its stream, up to what was sent. */
  ghost predicate ReceiverFine(c: Connection)
    requires c.out.Valid()
  {
    && c.rcv.Valid() && c.rcv.asm.out.capacity < TWO62
    && Assembles(c.rcv.asm, c.out.Taken())
    && (c.rcv.syn ==> c.rcv.isn == c.snd.isn && Below(c.rcv.asm, c.snd.UnsentStart() - 1))
    && (c.rcv.asm.last.Some? ==> c.snd.finSent && c.out.taken + 2 <= c.snd.UnsentStart())
  }

  /** What every run keeps, whatever acks arrive. */
  ghost predicate Safe(c: Connection) {
    SenderFine(c) && NetFine(c) && ReceiverFine(c)
  }

  /** What every run with genuine acks keeps: nothing that the receiver waits for has been dropped. */
  ghost predicate Held(c: Connection) {
    && Safe(c) && c.snd.Base() <= Awaited(c.rcv) && (!c.rcv.syn ==> c.snd.ack == 0) && c.heard <= |c.acks|
    && forall k :: 0 <= k < |c.acks| ==> c.rcv.syn && c.acks[k].pos <= c.rcv.AckPosition()
  }

  /** Positions and window edges only grow from the sender's last ack over the acks from there on to
      the receiver's present offer. */
  ghost predicate AcksFine(c: Connection)
    requires c.rcv.asm.out.Valid()
  {
    && c.snd.ack <= c.rcv.AckPosition() && c.snd.ack + c.snd.window <= Offer(c.rcv).Edge()
    && (c.acks != [] ==> c.rcv.syn) && (!c.rcv.syn ==> c.snd.ack == 0) && c.heard <= |c.acks|
    && (forall k :: c.heard <= k < |c.acks| ==>
          && c.snd.ack <= c.acks[k].pos <= c.rcv.AckPosition()
          && c.snd.ack + c.snd.window <= c.acks[k].Edge() <= Offer(c.rcv).Edge())
    && (forall j, k :: c.heard <= j < k < |c.acks| ==>
          c.acks[j].pos <= c.acks[k].pos && c.acks[j].Edge() <= c.acks[k].Edge())
  }

  /** What every run keeps in which acks keep their order. */
  ghost predicate Inv(c: Connection) {
    Safe(c) && Settled(c.snd) && c.snd.next <= c.snd.ack + c.snd.window && AcksFine(c)
  }

  lemma InitInv(isn: Wrap32, rto: u64, sendCapacity: nat, receiveCapacity: nat)
    requires receiveCapacity < TWO62
    ensures Inv(Init(isn, rto, sendCapacity, receiveCapacity)) && Held(Init(isn, rto, sendCapacity, receiveCapacity))
  {
  }

  lemma SafeWellFormed(c: Connection)
    requires Safe(c)
    ensures WellFormed(c)
  {
  }
}
