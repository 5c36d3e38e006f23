/** What the TCP sender does, told in absolute sequence numbers: a queue of segments in flight,
    a queue of segments not yet sent, a window, and a retransmission timer. */
module Senders {
  import opened Words
  import opened Wrapping
  import opened Messages
  import opened ByteStreams
  import opened Timers

  const MAX_PAYLOAD: nat := 1000

  /** A segment at its absolute position; position 0 is the SYN. */
  datatype Seg = Seg(pos: nat, syn: bool, payload: Bytes, fin: bool) {
    function Len(): nat {
      (if syn then 1 else 0) + |payload| + (if fin then 1 else 0)
    }

    function End(): nat {
      pos + Len()
    }

    /** The stream index of the first payload byte. */
    function FirstByte(): int {
      pos - 1 + (if syn then 1 else 0)
    }

    function Wire(isn: Wrap32): SenderMessage {
      SenderMessage(Wrap(pos, isn), syn, payload, fin)
    }
  }

  datatype Outstanding = Outstanding(seg: Seg, sentAt: u64)

  datatype Sender = Sender(isn: Wrap32, initialRTO: u64, rto: u64, timer: Clock,
                           ack: nat, window: u16,
                           inFlight: seq<Outstanding>, unsent: seq<Seg>,
                           now: u64, retransmissions: nat,
                           synSent: bool, finSent: bool, next: nat,
                           retransmit: bool, holdRTO: bool) {
    /** How many sequence numbers the window still lets out, in unsigned 64-bit arithmetic: this
        wraps around once more has been given out than the window covers. */
    function Room(): u64 {
      (window - (next - ack)) % TWO64
    }

    /** What is left of it for the pushing loop: a SYN takes one. */
    function Allowance(): u64 {
      (Room() - One(!synSent)) % TWO64
    }

    /** Everything held for (re)transmission, oldest first. */
    function Queue(): seq<Seg> {
      Segments(inFlight) + unsent
    }

    /** Where the held segments start. */
    function Base(): nat {
      if Queue() == [] then next else Queue()[0].pos
    }

    /** Where the segments that were never sent start. */
    function UnsentStart(): nat {
      if unsent == [] then next else unsent[0].pos
    }
  }

  function NewSender(isn: Wrap32, initialRTO: u64): Sender {
    Sender(isn, initialRTO, initialRTO, Clock(0, 0, false), 0, 1, [], [], 0, 0, false, false, 0, false, false)
  }

  function Segments(flight: seq<Outstanding>): (r: seq<Seg>)
    ensures |r| == |flight|
    ensures forall i :: 0 <= i < |r| ==> r[i] == flight[i].seg
  {
    seq(|flight|, i requires 0 <= i < |flight| => flight[i].seg)
  }

  // ---- the four operations ----

  /** `data` cut into segments of at most the maximal payload; a FIN rides on the last one. The
      SYN flag, once set, stays set on every one of them, each one sequence number further back. */
  function Cut(pos: nat, syn: bool, data: Bytes, fin: bool): seq<Seg>
    decreases |data|
  {
    if |data| > MAX_PAYLOAD then
      [Seg(pos, syn, data[..MAX_PAYLOAD], false)] + Cut(pos + MAX_PAYLOAD, syn, data[MAX_PAYLOAD..], fin)
    else if data == [] && !syn && !fin then []
    else [Seg(pos, syn, data, fin)]
  }

  /** Whether a push returns: the SYN's loop goes on until all that is buffered has been taken. */
  predicate Ends(s: Sender, out: Stream)
    requires out.Valid()
  {
    s.synSent || out.Buffered() <= s.Allowance()
  }

  /** How much a push takes from the stream. */
  function Amount(s: Sender, out: Stream): nat
    requires out.Valid()
  {
    Min(s.Allowance(), out.Buffered())
  }

  /** Whether a push sends the FIN: the stream is finished by then, and there is room for it
      (the SYN takes the FIN along without asking for room). */
  predicate SendsFin(s: Sender, out: Stream)
    requires out.Valid()
  {
    && !s.finSent && out.closed && Amount(s, out) == out.Buffered()
    && (!s.synSent || Amount(s, out) < s.Allowance())
  }

  function NewSegments(s: Sender, out: Stream): seq<Seg>
    requires out.Valid()
  {
    Cut(s.next, !s.synSent, out.Contents()[..Amount(s, out)], SendsFin(s, out))
  }

  /** Bit as a number, for sequence-number arithmetic. */
  function One(b: bool): nat {
    if b then 1 else 0
  }

  function Push(s: Sender, out: Stream): Sender
    requires out.Valid() && Ends(s, out)
  {
    s.(unsent := s.unsent + NewSegments(s, out),
       next := s.next + One(!s.synSent) + Amount(s, out) + One(SendsFin(s, out)),
       synSent := true,
       finSent := s.finSent || SendsFin(s, out))
  }

  function PushedFrom(s: Sender, out: Stream): Stream
    requires out.Valid()
  {
    out.Pop(Amount(s, out))
  }

  predicate CanSend(s: Sender) {
    s.retransmit ==> s.inFlight != []
  }

  /** The oldest segment again if a retransmission is due, else the next unsent one. */
  function Sent(s: Sender): Option<Seg>
    requires CanSend(s)
  {
    if s.retransmit then Some(s.inFlight[0].seg)
    else if s.unsent != [] then Some(s.unsent[0])
    else None
  }

  function MaybeSend(s: Sender): Sender
    requires CanSend(s)
  {
    if s.retransmit then
      s.(retransmit := false, inFlight := [s.inFlight[0].(sentAt := s.now)] + s.inFlight[1..])
    else if s.unsent != [] then
      s.(unsent := s.unsent[1..],
         inFlight := s.inFlight + [Outstanding(s.unsent[0], s.now)],
         timer := if s.timer.running then s.timer else Clock(s.now, s.rto, true))
    else s
  }

  function DropAcked(flight: seq<Outstanding>, ack: nat): seq<Outstanding> {
    if flight != [] && flight[0].seg.End() <= ack then DropAcked(flight[1..], ack) else flight
  }

  /** An ackno is read near the next sequence number; one beyond it is ignored. */
  function AckValue(s: Sender, msg: ReceiverMessage): nat
    requires msg.ackno.Some? && s.next < TWO64
  {
    Unwrapped(msg.ackno.value, s.isn, s.next)
  }

  function Receive(s: Sender, msg: ReceiverMessage): Sender
    requires msg.ackno.Some? && s.next < TWO64
  {
    var ack := AckValue(s, msg);
    if ack > s.next then s
    else
      var left := DropAcked(s.inFlight, ack);
      var newAck := s.ack < ack;
      s.(ack := ack,
         window := if msg.window > 0 then msg.window else 1,
         holdRTO := msg.window == 0,
         inFlight := left,
         rto := if newAck then s.initialRTO else s.rto,
         retransmissions := if newAck then 0 else s.retransmissions,
         timer := if left == [] then s.timer.(running := false)
                  else if newAck then Clock(s.now, s.initialRTO, true)
                  else s.timer)
  }

  function Later(s: Sender, ms: nat): u64 {
    (s.now + ms) % TWO64
  }

  predicate Expires(s: Sender, ms: nat) {
    s.timer.Expired(Later(s, ms))
  }

  function Tick(s: Sender, ms: nat): Sender {
    var now := Later(s, ms);
    if !Expires(s, ms) then s.(now := now)
    else
      var rto := if s.window > 0 && !s.holdRTO then s.rto * 2 % TWO64 else s.rto;
      s.(now := now, rto := rto,
         retransmit := s.retransmit || s.inFlight != [],
         retransmissions := if s.window > 0 then s.retransmissions + 1 else s.retransmissions,
         timer := Clock(now, rto, true))
  }
}
