/** The network interface: it frames datagrams for next hops whose Ethernet address it knows, and
    queues the others while it asks for the address (ARP). Framing a datagram of another IP version
    throws an exception, wherever that happens. Which mappings expire when is left to the
    environment. */
module NetworkInterfaces {
  import opened Words

  type EthernetAddress = nat
  type Address = u32

  const BROADCAST: EthernetAddress := 0xFFFF_FFFF_FFFF
  const REQUEST := 1
  const REPLY := 2
  const REQUEST_INTERVAL := 5000

  /** A datagram as its caller built it; only version 4 can be serialized. */
  datatype Datagram = Datagram(version: byte, data: Bytes) {
    predicate Serializes() {
      version == 4
    }
  }

  predicate AllSerialize(dgrams: seq<Datagram>) {
    forall i :: 0 <= i < |dgrams| ==> dgrams[i].Serializes()
  }

  /** How many datagrams come before the first that cannot be serialized. */
  function Framable(dgrams: seq<Datagram>): (n: nat)
    ensures n <= |dgrams| && AllSerialize(dgrams[..n])
    ensures n < |dgrams| ==> !dgrams[n].Serializes()
    ensures n == |dgrams| <==> AllSerialize(dgrams)
  {
    if dgrams == [] || !dgrams[0].Serializes() then 0
    else
      var n := 1 + Framable(dgrams[1..]);
      assert dgrams[..n] == [dgrams[0]] + dgrams[1..][..n - 1];
      n
  }

  datatype ArpMessage = ArpMessage(opcode: u16, senderEthernet: EthernetAddress, senderIp: Address,
                                   targetEthernet: EthernetAddress, targetIp: Address)

  /** What a frame's type and payload parse as; `Other` is any other type or a failed parse. */
  datatype Payload = IPv4(dgram: Datagram) | Arp(msg: ArpMessage) | Other

  datatype Frame = Frame(src: EthernetAddress, dst: EthernetAddress, payload: Payload)

  datatype Interface = Interface(ethernet: EthernetAddress, ip: Address, now: nat,
                                 known: map<Address, EthernetAddress>,
                                 waiting: map<Address, seq<Datagram>>,
                                 asked: map<Address, nat>,
                                 out: seq<Frame>) {
    function Waiting(hop: Address): seq<Datagram> {
      if hop in waiting then waiting[hop] else []
    }
  }

  function NewInterface(ethernet: EthernetAddress, ip: Address): Interface {
    Interface(ethernet, ip, 0, map[], map[], map[], [])
  }

  datatype Event = Send(dgram: Datagram, hop: Address) | Receive(frame: Frame)
                 | Tick(ms: nat, expired: set<Address>) | MaybeSend

  // ---- what each event does ----

  /** A request for the hop's address goes out unless one did in the last 5 seconds. */
  predicate Asks(s: Interface, hop: Address) {
    hop !in s.known && (hop !in s.asked || s.now - s.asked[hop] > REQUEST_INTERVAL)
  }

  function RequestFrame(s: Interface, hop: Address): Frame {
    Frame(s.ethernet, BROADCAST, Arp(ArpMessage(REQUEST, s.ethernet, s.ip, 0, hop)))
  }

  function Framed(src: EthernetAddress, dst: EthernetAddress, dgrams: seq<Datagram>): (r: seq<Frame>)
    ensures |r| == |dgrams|
  {
    seq(|dgrams|, i requires 0 <= i < |dgrams| => Frame(src, dst, IPv4(dgrams[i])))
  }

  function Sending(s: Interface, dgram: Datagram, hop: Address): Interface {
    if hop in s.known then
      if dgram.Serializes() then s.(out := s.out + Framed(s.ethernet, s.known[hop], [dgram])) else s
    else
      var queued := s.(waiting := s.waiting[hop := s.Waiting(hop) + [dgram]]);
      if Asks(s, hop) then queued.(out := s.out + [RequestFrame(s, hop)], asked := s.asked[hop := s.now])
      else queued
  }

  predicate ForUs(s: Interface, frame: Frame) {
    frame.dst == s.ethernet || frame.dst == BROADCAST
  }

  /** Any ARP message for us teaches its sender's address. */
  predicate Learns(s: Interface, frame: Frame) {
    ForUs(s, frame) && frame.payload.Arp?
  }

  function ReplyFrame(s: Interface, msg: ArpMessage): Frame {
    Frame(s.ethernet, msg.senderEthernet,
          Arp(ArpMessage(REPLY, s.ethernet, s.ip, msg.senderEthernet, msg.senderIp)))
  }

  /** The datagrams for the sender that are framed now: those before the first that throws. */
  function Flushed(s: Interface, msg: ArpMessage): seq<Datagram> {
    s.Waiting(msg.senderIp)[..Framable(s.Waiting(msg.senderIp))]
  }

  function Answer(s: Interface, msg: ArpMessage): seq<Frame> {
    if msg.opcode == REQUEST && msg.targetIp == s.ip then [ReplyFrame(s, msg)] else []
  }

  /** The sender's queue is framed, its request forgotten, and a request for our address answered.
      If framing throws, the address is known and some of the queue is framed, but the queue, the
      request and the answer are left as they were. */
  function Learning(s: Interface, msg: ArpMessage): Interface {
    var framed := s.(known := s.known[msg.senderIp := msg.senderEthernet],
                     out := s.out + Framed(s.ethernet, msg.senderEthernet, Flushed(s, msg)));
    if !AllSerialize(s.Waiting(msg.senderIp)) then framed
    else framed.(waiting := s.waiting[msg.senderIp := []], asked := s.asked - {msg.senderIp},
                 out := framed.out + Answer(s, msg))
  }

  function Receiving(s: Interface, frame: Frame): Interface {
    if Learns(s, frame) then Learning(s, frame.payload.msg) else s
  }

  function Delivered(s: Interface, frame: Frame): Option<Datagram> {
    if ForUs(s, frame) && frame.payload.IPv4? then Some(frame.payload.dgram) else None
  }

  function Step(s: Interface, e: Event): Interface {
    match e
    case Send(dgram, hop) => Sending(s, dgram, hop)
    case Receive(frame) => Receiving(s, frame)
    case Tick(ms, expired) => s.(now := s.now + ms, known := s.known - expired)
    case MaybeSend => if s.out == [] then s else s.(out := s.out[1..])
  }

  /** Whether an event ends in the serializer's exception. */
  predicate Throws(s: Interface, e: Event) {
    match e
    case Send(dgram, hop) => hop in s.known && !dgram.Serializes()
    case Receive(frame) => Learns(s, frame) && !AllSerialize(s.Waiting(frame.payload.msg.senderIp))
    case _ => false
  }

  predicate IsRun(states: seq<Interface>, events: seq<Event>) {
    && |states| == |events| + 1
    && forall k :: 0 <= k < |events| ==> states[k + 1] == Step(states[k], events[k])
  }

  // ---- invariants ----

  /** A known hop has nothing waiting and no request pending; whoever has something waiting has
      been asked for; no request lies in the future. */
  ghost predicate Settled(s: Interface, hop: Address) {
    && (hop in s.known ==> s.Waiting(hop) == [] && hop !in s.asked)
    && (s.Waiting(hop) != [] ==> hop in s.asked)
    && (hop in s.asked ==> s.asked[hop] <= s.now)
  }

  ghost predicate Valid(s: Interface) {
    forall hop :: Settled(s, hop)
  }

  /** An event leaves a hop settled if and only if it is not the hop's own ARP message that throws. */
  lemma StepSettled(s: Interface, e: Event, hop: Address)
    requires Settled(s, hop)
    ensures Settled(Step(s, e), hop) <==> !(e.Receive? && Throws(s, e) && e.frame.payload.msg.senderIp == hop)
  {
  }

  /** So the interface stays valid if and only if the event is not an ARP message whose sender has a
      datagram of another version waiting. */
  lemma StepValid(s: Interface, e: Event)
    requires Valid(s)
    ensures Valid(Step(s, e))
            <==> !(e.Receive? && Learns(s, e.frame) && !AllSerialize(s.Waiting(e.frame.payload.msg.senderIp)))
  {
    forall hop {
      StepSettled(s, e, hop);
    }
    hide Settled, Step;
    if e.Receive? && Throws(s, e) {
      var hop := e.frame.payload.msg.senderIp;
      assert Settled(s, hop) && !Settled(Step(s, e), hop);
    }
  }

  // ---- conservation ----

  /** The datagrams that an event puts into frames for a hop. */
  function FramedBy(s: Interface, e: Event, hop: Address): seq<Datagram> {
    match e
    case Send(dgram, h) => if h == hop && hop in s.known && dgram.Serializes() then [dgram] else []
    case Receive(frame) =>
      if Learns(s, frame) && frame.payload.msg.senderIp == hop then Flushed(s, frame.payload.msg) else []
    case _ => []
  }

  /** The frames that an event appends to the output. */
  function Emitted(s: Interface, e: Event): seq<Frame> {
    match e
    case Send(dgram, hop) =>
      if hop in s.known then if dgram.Serializes() then Framed(s.ethernet, s.known[hop], [dgram]) else []
      else if Asks(s, hop) then [RequestFrame(s, hop)] else []
    case Receive(frame) =>
      if Learns(s, frame) then
        var msg := frame.payload.msg;
        Framed(s.ethernet, msg.senderEthernet, Flushed(s, msg))
        + (if AllSerialize(s.Waiting(msg.senderIp)) then Answer(s, msg) else [])
      else []
    case _ => []
  }

  /** The datagrams in a sequence of frames. */
  function AllDatagrams(frames: seq<Frame>): seq<Datagram> {
    if frames == [] then []
    else (if frames[0].payload.IPv4? then [frames[0].payload.dgram] else []) + AllDatagrams(frames[1..])
  }

  function GivenBy(e: Event, hop: Address): seq<Datagram> {
    if e.Send? && e.hop == hop then [e.dgram] else []
  }

  function Given(events: seq<Event>, hop: Address): seq<Datagram>
    decreases events
  {
    if events == [] then [] else Given(events[..|events| - 1], hop) + GivenBy(events[|events| - 1], hop)
  }

  /** For a settled hop, what an event frames and leaves waiting is what was waiting and is given,
      unless it throws on the hop's behalf: a datagram is lost if that happens right at sending,
      and datagrams are framed that stay waiting if some come before the one that throws. */
  lemma StepConserves(s: Interface, e: Event, hop: Address)
    requires Settled(s, hop)
    ensures FramedBy(s, e, hop) + Step(s, e).Waiting(hop) == s.Waiting(hop) + GivenBy(e, hop)
            <==> !(Throws(s, e) && HopOf(e) == hop && (e.Send? || FramedBy(s, e, hop) != []))
  {
    var left, right := FramedBy(s, e, hop) + Step(s, e).Waiting(hop), s.Waiting(hop) + GivenBy(e, hop);
    if Throws(s, e) && HopOf(e) == hop {
      assert |left| == |FramedBy(s, e, hop)| + |s.Waiting(hop)|;
    } else if e.Receive? && Learns(s, e.frame) && HopOf(e) == hop {
      assert s.Waiting(hop)[..|s.Waiting(hop)|] == s.Waiting(hop);
    }
  }

  lemma NothingWaiting(s: Interface)
    ensures s == NewInterface(s.ethernet, s.ip) ==> Valid(s) && forall hop :: s.Waiting(hop) == []
  {
  }

  /** The hop that an event can frame datagrams for. */
  function HopOf(e: Event): Address {
    match e
    case Send(_, hop) => hop
    case Receive(frame) => if frame.payload.Arp? then frame.payload.msg.senderIp else 0
    case _ => 0
  }

  lemma {:induction false} FramedDatagrams(src: EthernetAddress, dst: EthernetAddress, dgrams: seq<Datagram>,
                                           more: seq<Frame>)
    requires AllDatagrams(more) == []
    ensures AllDatagrams(Framed(src, dst, dgrams) + more) == dgrams
  {
    var frames := Framed(src, dst, dgrams) + more;
    if dgrams == [] {
      assert frames == more;
    } else {
      assert frames[1..] == Framed(src, dst, dgrams[1..]) + more;
      FramedDatagrams(src, dst, dgrams[1..], more);
    }
  }

  lemma EmittedCarries(s: Interface, e: Event)
    ensures AllDatagrams(Emitted(s, e)) == FramedBy(s, e, HopOf(e))
  {
    hide Framed, Framable, AllSerialize, Asks;
    match e
    case Send(dgram, hop) =>
      var none: seq<Frame> := [];
      if hop in s.known && dgram.Serializes() {
        FramedDatagrams(s.ethernet, s.known[hop], [dgram], none);
        assert Framed(s.ethernet, s.known[hop], [dgram]) + none == Emitted(s, e);
      } else if hop !in s.known && Asks(s, hop) {
        assert [RequestFrame(s, hop)][1..] == none;
      }
    case Receive(frame) =>
      if Learns(s, frame) {
        var msg := frame.payload.msg;
        var reply := if AllSerialize(s.Waiting(msg.senderIp)) then Answer(s, msg) else [];
        assert AllDatagrams(reply) == [];
        FramedDatagrams(s.ethernet, msg.senderEthernet, Flushed(s, msg), reply);
      }
    case _ =>
  }

  /** The bookkeeping above is about the real output: the frames an event appends carry exactly the
      datagrams it frames for its one hop, each to the address known for that hop right then. */
  lemma EmittedIsFramed(s: Interface, e: Event)
    ensures AllDatagrams(Emitted(s, e)) == FramedBy(s, e, HopOf(e))
    ensures e != MaybeSend ==> Step(s, e).out == s.out + Emitted(s, e)
    ensures forall k :: 0 <= k < |Emitted(s, e)| && Emitted(s, e)[k].payload.IPv4? ==>
              HopOf(e) in Step(s, e).known && Emitted(s, e)[k].dst == Step(s, e).known[HopOf(e)]
    ensures forall hop :: hop != HopOf(e) ==> FramedBy(s, e, hop) == []
  {
    EmittedCarries(s, e);
    hide AllDatagrams, Framable, AllSerialize;
  }

  // ---- over a run ----

  /** A frame that was put out, the hop whose event put it out, and which event that was. */
  datatype Entry = Entry(frame: Frame, hop: Address, at: nat)

  function Tagged(frames: seq<Frame>, hop: Address, at: nat): (r: seq<Entry>)
    ensures |r| == |frames|
  {
    seq(|frames|, i requires 0 <= i < |frames| => Entry(frames[i], hop, at))
  }

  /** Everything put out in a run, in order. */
  function Log(states: seq<Interface>, events: seq<Event>): seq<Entry>
    requires |states| == |events| + 1
    decreases events
  {
    if events == [] then []
    else
      var n := |events| - 1;
      Log(states[..n + 1], events[..n]) + Tagged(Emitted(states[n], events[n]), HopOf(events[n]), n)
  }

  function Frames(log: seq<Entry>): (r: seq<Frame>)
    ensures |r| == |log|
  {
    seq(|log|, i requires 0 <= i < |log| => log[i].frame)
  }

  /** The datagrams put out for a hop. */
  function Carried(log: seq<Entry>, hop: Address): seq<Datagram> {
    if log == [] then []
    else (if log[0].hop == hop && log[0].frame.payload.IPv4? then [log[0].frame.payload.dgram] else [])
         + Carried(log[1..], hop)
  }

  lemma {:induction false} CarriedConcat(a: seq<Entry>, b: seq<Entry>, hop: Address)
    ensures Carried(a + b, hop) == Carried(a, hop) + Carried(b, hop)
  {
    if a == [] {
      assert a + b == b;
    } else {
      assert (a + b)[1..] == a[1..] + b;
      CarriedConcat(a[1..], b, hop);
    }
  }

  lemma {:induction false} CarriedTagged(frames: seq<Frame>, h: Address, at: nat, hop: Address)
    ensures Carried(Tagged(frames, h, at), hop) == if h == hop then AllDatagrams(frames) else []
  {
    if frames != [] {
      assert Tagged(frames, h, at)[1..] == Tagged(frames[1..], h, at);
      CarriedTagged(frames[1..], h, at, hop);
    }
  }

  /** What an event's frames carry for a hop is what the event frames for it. */
  lemma EventCarries(s: Interface, e: Event, at: nat, hop: Address)
    ensures Carried(Tagged(Emitted(s, e), HopOf(e), at), hop) == FramedBy(s, e, hop)
  {
    EmittedIsFramed(s, e);
    CarriedTagged(Emitted(s, e), HopOf(e), at, hop);
    hide Emitted, FramedBy, AllDatagrams, Tagged, Step;
  }

  /** The frames handed out by `maybe_send` in a run, in order. */
  function HandedOut(states: seq<Interface>, events: seq<Event>): seq<Frame>
    requires |states| == |events| + 1
    decreases events
  {
    if events == [] then []
    else
      var n := |events| - 1;
      HandedOut(states[..n + 1], events[..n])
      + (if events[n] == MaybeSend && states[n].out != [] then [states[n].out[0]] else [])
  }

  lemma StepOutput(s: Interface, e: Event, at: nat)
    ensures var handed := if e == MaybeSend && s.out != [] then [s.out[0]] else [];
            handed + Step(s, e).out == s.out + Frames(Tagged(Emitted(s, e), HopOf(e), at))
  {
    EmittedIsFramed(s, e);
    assert Frames(Tagged(Emitted(s, e), HopOf(e), at)) == Emitted(s, e);
    if e == MaybeSend && s.out != [] { assert s.out == [s.out[0]] + s.out[1..]; }
    hide FramedBy, AllDatagrams, Tagged, Frames;
  }

  /** The log is the real output: what was handed out, then what is still to be handed out. */
  lemma {:induction false} LogIsOutput(states: seq<Interface>, events: seq<Event>)
    requires IsRun(states, events) && states[0].out == []
    ensures Frames(Log(states, events)) == HandedOut(states, events) + states[|events|].out
    decreases events
  {
    hide Step, Emitted, Tagged;
    if events != [] {
      var n := |events| - 1;
      var states', events' := states[..n + 1], events[..n];
      LogIsOutput(states', events');
      assert states[n + 1] == Step(states[n], events[n]);
      StepOutput(states[n], events[n], n);
      var entries := Tagged(Emitted(states[n], events[n]), HopOf(events[n]), n);
      assert Frames(Log(states', events') + entries) == Frames(Log(states', events')) + Frames(entries);
      var before, out, out' := HandedOut(states', events'), states[n].out, states[n + 1].out;
      var handed := if events[n] == MaybeSend && out != [] then [out[0]] else [];
      assert (before + handed) + out' == before + (handed + out');
      assert (before + out) + Frames(entries) == before + (out + Frames(entries));
    }
  }

  lemma EmittedFrom(s: Interface, e: Event)
    ensures Step(s, e).ethernet == s.ethernet
    ensures forall k :: 0 <= k < |Emitted(s, e)| ==> Emitted(s, e)[k].src == s.ethernet
  {
  }

  lemma {:induction false} SameEthernet(states: seq<Interface>, events: seq<Event>)
    requires IsRun(states, events)
    ensures states[|events|].ethernet == states[0].ethernet
    decreases events
  {
    if events != [] {
      var n := |events| - 1;
      SameEthernet(states[..n + 1], events[..n]);
      EmittedFrom(states[n], events[n]);
      assert states[n + 1] == Step(states[n], events[n]);
    }
    hide Step, Emitted;
  }

  /** Each datagram put out goes to the address known for its hop right then. */
  lemma {:induction false} LogIsAddressed(states: seq<Interface>, events: seq<Event>, k: nat)
    requires IsRun(states, events) && k < |Log(states, events)| && Log(states, events)[k].frame.payload.IPv4?
    ensures var entry := Log(states, events)[k];
            && entry.at < |events| && entry.hop == HopOf(events[entry.at])
            && entry.hop in states[entry.at + 1].known
            && entry.frame.dst == states[entry.at + 1].known[entry.hop]
            && entry.frame.src == states[0].ethernet
    decreases events
  {
    hide Step, Emitted, FramedBy, AllDatagrams;
    var n := |events| - 1;
    var states', events' := states[..n + 1], events[..n];
    if k < |Log(states', events')| {
      LogIsAddressed(states', events', k);
    } else {
      assert states[n + 1] == Step(states[n], events[n]);
      EmittedIsFramed(states[n], events[n]);
      EmittedFrom(states[n], events[n]);
      SameEthernet(states', events');
    }
  }

  /** Whatever is given for the hop can be serialized. */
  predicate SendsSerialize(events: seq<Event>, hop: Address) {
    forall k :: 0 <= k < |events| && events[k].Send? && events[k].hop == hop ==> events[k].dgram.Serializes()
  }

  lemma {:induction false} GivenSerialize(events: seq<Event>, hop: Address)
    requires SendsSerialize(events, hop)
    ensures AllSerialize(Given(events, hop))
    decreases events
  {
    if events != [] {
      GivenSerialize(events[..|events| - 1], hop);
    }
  }

  /** If everything that can be waiting for the hop serializes, no event throws on its behalf. */
  lemma NoThrow(s: Interface, e: Event, hop: Address, framed: seq<Datagram>)
    requires AllSerialize(framed + s.Waiting(hop)) && AllSerialize(GivenBy(e, hop))
    ensures HopOf(e) == hop ==> !Throws(s, e)
  {
    if e.Receive? && Learns(s, e.frame) && HopOf(e) == hop {
      assert forall i :: 0 <= i < |s.Waiting(hop)| ==> s.Waiting(hop)[i] == (framed + s.Waiting(hop))[|framed| + i];
    }
    if e.Send? && e.hop == hop { assert GivenBy(e, hop)[0] == e.dgram; }
  }

  lemma {:induction false} RunConserves(states: seq<Interface>, events: seq<Event>, hop: Address)
    requires IsRun(states, events) && states[0] == NewInterface(states[0].ethernet, states[0].ip)
    requires SendsSerialize(events, hop)
    ensures Settled(states[|events|], hop)
    ensures Given(events, hop) == Carried(Log(states, events), hop) + states[|events|].Waiting(hop)
    decreases events
  {
    hide Step, FramedBy, GivenBy, Settled, Interface.Waiting, Emitted, Tagged, Carried, Throws, HopOf, AllSerialize;
    NothingWaiting(states[0]);
    if events == [] {
      assert Carried([], hop) == [] by { CarriedTagged([], hop, 0, hop); TaggedNothing(hop); }
    } else {
      var n := |events| - 1;
      var states', events' := states[..n + 1], events[..n];
      RunConserves(states', events', hop);
      assert states[n + 1] == Step(states[n], events[n]);
      GivenSerialize(events', hop);
      GivenSerialize([events[n]], hop);
      OneGiven(events[n], hop);
      NoThrow(states[n], events[n], hop, Carried(Log(states', events'), hop));
      StepSettledQuietly(states[n], events[n], hop);
      StepConserves(states[n], events[n], hop);
      EventCarries(states[n], events[n], n, hop);
      CarriedConcat(Log(states', events'), Tagged(Emitted(states[n], events[n]), HopOf(events[n]), n), hop);
      var framed, waiting := Carried(Log(states', events'), hop), states[n].Waiting(hop);
      var now, given := FramedBy(states[n], events[n], hop), GivenBy(events[n], hop);
      assert (framed + waiting) + given == framed + (waiting + given);
      assert (framed + now) + states[n + 1].Waiting(hop) == framed + (now + states[n + 1].Waiting(hop));
    }
  }

  lemma OneGiven(e: Event, hop: Address)
    ensures Given([e], hop) == GivenBy(e, hop)
  {
    assert [e][..0] == [] && Given([], hop) + GivenBy(e, hop) == GivenBy(e, hop);
  }

  lemma StepSettledQuietly(s: Interface, e: Event, hop: Address)
    requires Settled(s, hop) && (HopOf(e) == hop ==> !Throws(s, e))
    ensures Settled(Step(s, e), hop)
  {
    StepSettled(s, e, hop);
  }

  lemma TaggedNothing(hop: Address)
    ensures Tagged([], hop, 0) == [] && AllDatagrams([]) == []
  {
  }

  /** Over any run and any expiry of mappings, for a hop for which only version 4 is given: what was
      given is, in order, what the frames handed out and the frames still on the output carry for
      it, and then what is waiting for it. So each datagram is framed at most once, in the order
      given, and none is lost. */
  lemma Conservation(states: seq<Interface>, events: seq<Event>, hop: Address)
    requires IsRun(states, events) && states[0] == NewInterface(states[0].ethernet, states[0].ip)
    requires SendsSerialize(events, hop)
    ensures var log := Log(states, events);
            && Frames(log) == HandedOut(states, events) + states[|events|].out
            && Given(events, hop) == Carried(log, hop) + states[|events|].Waiting(hop)
    ensures Settled(states[|events|], hop)
  {
    LogIsOutput(states, events);
    RunConserves(states, events, hop);
  }

  /** And if that is so for every hop, the interface is valid throughout and nothing ever throws. */
  lemma NothingThrows(states: seq<Interface>, events: seq<Event>, k: nat)
    requires IsRun(states, events) && states[0] == NewInterface(states[0].ethernet, states[0].ip) && k <= |events|
    requires forall hop :: SendsSerialize(events, hop)
    ensures Valid(states[k])
    ensures k < |events| ==> !Throws(states[k], events[k])
  {
    hide Step, Settled, Throws;
    var states', events' := states[..k + 1], events[..k];
    forall hop
      ensures Settled(states[k], hop)
    {
      assert SendsSerialize(events, hop);
      RunConserves(states', events', hop);
    }
    if k < |events| {
      var hop := HopOf(events[k]);
      assert SendsSerialize(events, hop);
      RunConserves(states', events', hop);
      GivenSerialize(events', hop);
      GivenSerialize([events[k]], hop);
      OneGiven(events[k], hop);
      NoThrow(states[k], events[k], hop, Carried(Log(states', events'), hop));
    }
  }

  /** One datagram of another version behind one of version 4: the hop's ARP message throws and
      leaves both waiting for a known hop; its next one frames the first datagram again. */
  lemma ThrowingFramesTwice(ethernet: EthernetAddress, ip: Address, hop: Address, data: Bytes)
      returns (states: seq<Interface>, events: seq<Event>)
    ensures IsRun(states, events) && |events| == 4 && states[0] == NewInterface(ethernet, ip)
    ensures Throws(states[2], events[2]) && !Valid(states[3]) && Throws(states[3], events[3])
    ensures Given(events, hop) == [Datagram(4, data), Datagram(6, data)] == states[4].Waiting(hop)
    ensures AllDatagrams(states[4].out) == [Datagram(4, data), Datagram(4, data)]
  {
    hide Given, AllDatagrams, Valid, Learning, Sending;
    var good, bad := Datagram(4, data), Datagram(6, data);
    var arp := Arp(ArpMessage(REPLY, 1, hop, ethernet, ip));
    var heard := Receive(Frame(1, ethernet, arp));
    events := [Send(good, hop), Send(bad, hop), heard, heard];
    var s0 := NewInterface(ethernet, ip);
    var s1 := Step(s0, events[0]);
    var s2 := Step(s1, events[1]);
    var s3 := Step(s2, heard);
    var s4 := Step(s3, heard);
    states := [s0, s1, s2, s3, s4];
    var f := Frame(ethernet, 1, IPv4(good));
    TwoWait(s0, hop, good, bad);
    ThrowAfterOne(s2, arp.msg, good, bad);
    ThrowAfterOne(s3, arp.msg, good, bad);
    assert s4.out == [RequestFrame(s0, hop), f, f];
    NotValid(s3, hop);
    ThreeFrames(RequestFrame(s0, hop), f);
    assert Given(events, hop) == [good, bad] by { GivenFour(events, hop); }
  }

  lemma TwoWait(s: Interface, hop: Address, good: Datagram, bad: Datagram)
    requires s == NewInterface(s.ethernet, s.ip)
    ensures var t := Sending(Sending(s, good, hop), bad, hop);
            && t.ethernet == s.ethernet && t.ip == s.ip && t.known == s.known && t.Waiting(hop) == [good, bad]
            && hop in t.asked && t.out == [RequestFrame(s, hop)]
  {
  }

  lemma ThrowAfterOne(s: Interface, msg: ArpMessage, good: Datagram, bad: Datagram)
    requires s.Waiting(msg.senderIp) == [good, bad] && good.Serializes() && !bad.Serializes()
    ensures var t := Learning(s, msg);
            && t == s.(known := t.known, out := t.out) && msg.senderIp in t.known
            && t.out == s.out + [Frame(s.ethernet, msg.senderEthernet, IPv4(good))]
    ensures !AllSerialize([good, bad])
  {
    assert !AllSerialize([good, bad]) by { assert ![good, bad][1].Serializes(); }
    assert [good, bad][1..] == [bad] && Framable([bad]) == 0;
    assert [good, bad][..1] == [good];
    assert Framed(s.ethernet, msg.senderEthernet, [good]) == [Frame(s.ethernet, msg.senderEthernet, IPv4(good))];
  }

  lemma NotValid(s: Interface, hop: Address)
    requires !Settled(s, hop)
    ensures !Valid(s)
  {
  }

  lemma ThreeFrames(request: Frame, f: Frame)
    requires !request.payload.IPv4? && f.payload.IPv4?
    ensures AllDatagrams([request, f, f]) == [f.payload.dgram, f.payload.dgram]
  {
    assert [request, f, f][1..] == [f, f] && [f, f][1..] == [f] && [f][1..] == [];
    assert AllDatagrams([f]) == [f.payload.dgram];
    assert AllDatagrams([f, f]) == [f.payload.dgram] + AllDatagrams([f]);
  }

  lemma GivenFour(events: seq<Event>, hop: Address)
    requires |events| == 4
    ensures Given(events, hop)
            == GivenBy(events[0], hop) + GivenBy(events[1], hop) + GivenBy(events[2], hop) + GivenBy(events[3], hop)
  {
    assert events[..3][..2] == events[..2] && events[..2][..1] == [events[0]];
    OneGiven(events[0], hop);
    assert Given(events[..2], hop) == Given([events[0]], hop) + GivenBy(events[1], hop);
    assert Given(events[..3], hop) == Given(events[..2], hop) + GivenBy(events[2], hop);
  }

  // ---- requests are spaced ----

  predicate Requests(s: Interface, e: Event, hop: Address) {
    e.Send? && e.hop == hop && Asks(s, hop)
  }

  predicate LearnsOf(s: Interface, e: Event, hop: Address) {
    e.Receive? && Learns(s, e.frame) && e.frame.payload.msg.senderIp == hop
  }

  /** From a request on, its time (or a later request's) stays recorded until the hop is learned. */
  lemma {:induction false} StaysAsked(states: seq<Interface>, events: seq<Event>, hop: Address, i: nat, j: nat)
    requires IsRun(states, events) && i < j <= |events|
    requires Requests(states[i], events[i], hop)
    requires forall k :: i < k < j ==> !LearnsOf(states[k], events[k], hop)
    ensures hop in states[j].asked && states[i].now <= states[j].asked[hop]
    ensures states[i].now <= states[j].now
    decreases j
  {
    assert states[j] == Step(states[j - 1], events[j - 1]);
    if j > i + 1 {
      StaysAsked(states, events, hop, i, j - 1);
    }
  }

  /** Two requests for one hop, with no learning of it in between, are more than 5 seconds apart. */
  lemma RequestsAreSpaced(states: seq<Interface>, events: seq<Event>, hop: Address, i: nat, j: nat)
    requires IsRun(states, events) && i < j < |events|
    requires Requests(states[i], events[i], hop) && Requests(states[j], events[j], hop)
    requires forall k :: i < k < j ==> !LearnsOf(states[k], events[k], hop)
    ensures states[j].now - states[i].now > 5000
  {
    StaysAsked(states, events, hop, i, j);
  }

  // ---- the program's interface ----

  lemma FramableAt(dgrams: seq<Datagram>, i: nat)
    requires i < |dgrams| && i <= Framable(dgrams)
    ensures i == Framable(dgrams) <==> !dgrams[i].Serializes()
  {
    assert i < Framable(dgrams) ==> dgrams[..Framable(dgrams)][i] == dgrams[i];
  }

  class NetworkInterface {
    const ethernetAddress: EthernetAddress
    const ipAddress: Address
    var timeAlive: nat
    var ipEthMap: map<Address, EthernetAddress>
    var datagramQs: map<Address, seq<Datagram>>
    var arpRequestTimes: map<Address, nat>
    var ethernetQ: seq<Frame>

    function View(): Interface
      reads this
    {
      Interface(ethernetAddress, ipAddress, timeAlive, ipEthMap, datagramQs, arpRequestTimes, ethernetQ)
    }

    constructor (ethernet: EthernetAddress, ip: Address)
      ensures View() == NewInterface(ethernet, ip)
    {
      ethernetAddress, ipAddress, timeAlive := ethernet, ip, 0;
      ipEthMap, datagramQs, arpRequestTimes, ethernetQ := map[], map[], map[], [];
    }

    method SendDatagram(dgram: Datagram, nextHop: Address) returns (thrown: bool)
      modifies this
      ensures View() == Step(old(View()), Send(dgram, nextHop))
      ensures thrown == Throws(old(View()), Send(dgram, nextHop))
    {
      thrown := false;
      if nextHop in ipEthMap {
        var dst := ipEthMap[nextHop];
        thrown := PutFrame(dgram, dst);
        assert Framed(ethernetAddress, dst, [dgram]) == [Frame(ethernetAddress, dst, IPv4(dgram))];
      } else {
        var queue := if nextHop in datagramQs then datagramQs[nextHop] else [];
        datagramQs := datagramQs[nextHop := queue + [dgram]];
        if nextHop !in arpRequestTimes || timeAlive - arpRequestTimes[nextHop] > REQUEST_INTERVAL {
          var msg := ArpMessage(REQUEST, ethernetAddress, ipAddress, 0, nextHop);
          ethernetQ := ethernetQ + [Frame(ethernetAddress, BROADCAST, Arp(msg))];
          arpRequestTimes := arpRequestTimes[nextHop := timeAlive];
        }
      }
    }

    /** Serializes the datagram into a frame, or throws before anything is put out. */
    method PutFrame(dgram: Datagram, dst: EthernetAddress) returns (thrown: bool)
      modifies this`ethernetQ
      ensures thrown == !dgram.Serializes()
      ensures ethernetQ == old(ethernetQ) + if thrown then [] else [Frame(ethernetAddress, dst, IPv4(dgram))]
    {
      thrown := dgram.version != 4;
      if !thrown {
        ethernetQ := ethernetQ + [Frame(ethernetAddress, dst, IPv4(dgram))];
      }
    }

    method RecvFrame(frame: Frame) returns (ret: Option<Datagram>, thrown: bool)
      modifies this
      ensures View() == Step(old(View()), Event.Receive(frame))
      ensures ret == Delivered(old(View()), frame)
      ensures (frame.dst == ethernetAddress || frame.dst == 0xFFFF_FFFF_FFFF) && frame.payload.IPv4?
              ==> ret == Some(frame.payload.dgram)
      ensures thrown == Throws(old(View()), Event.Receive(frame))
    {
      ret, thrown := None, false;
      if frame.dst != ethernetAddress && frame.dst != BROADCAST {
        return;
      }
      if frame.payload.IPv4? {
        ret := Some(frame.payload.dgram);
        return;
      }
      if frame.payload.Arp? {
        thrown := Learn(frame.payload.msg);
      }
    }

    method Learn(msg: ArpMessage) returns (thrown: bool)
      modifies this
      ensures View() == Learning(old(View()), msg)
      ensures thrown == !AllSerialize(old(View().Waiting(msg.senderIp)))
    {
      ipEthMap := ipEthMap[msg.senderIp := msg.senderEthernet];
      thrown := FlushQueue(msg.senderIp, msg.senderEthernet);
      if thrown {
        return;
      }
      datagramQs := datagramQs[msg.senderIp := []];
      arpRequestTimes := arpRequestTimes - {msg.senderIp};
      if msg.opcode == REQUEST {
        if msg.targetIp != ipAddress {
          return;
        }
        var reply := ArpMessage(REPLY, ethernetAddress, ipAddress, msg.senderEthernet, msg.senderIp);
        ethernetQ := ethernetQ + [Frame(ethernetAddress, msg.senderEthernet, Arp(reply))];
      }
    }

    /** Frames what waits for the hop, up to the first datagram that throws. */
    method FlushQueue(hop: Address, dst: EthernetAddress) returns (thrown: bool)
      modifies this`ethernetQ
      ensures var queue := View().Waiting(hop);
              && thrown == !AllSerialize(queue)
              && ethernetQ == old(ethernetQ) + Framed(ethernetAddress, dst, queue[..Framable(queue)])
    {
      var queue := if hop in datagramQs then datagramQs[hop] else [];
      var i := 0;
      while i < |queue|
        invariant 0 <= i <= Framable(queue)
        invariant ethernetQ == old(ethernetQ) + Framed(ethernetAddress, dst, queue[..i])
      {
        FramableAt(queue, i);
        thrown := PutFrame(queue[i], dst);
        if thrown {
          return;
        }
        var frame := Frame(ethernetAddress, dst, IPv4(queue[i]));
        assert Framed(ethernetAddress, dst, queue[..i + 1]) == Framed(ethernetAddress, dst, queue[..i]) + [frame];
        i := i + 1;
      }
      thrown := false;
    }

    method Tick(ms: nat, expired: set<Address>)
      modifies this
      ensures View() == Step(old(View()), Event.Tick(ms, expired))
    {
      timeAlive := timeAlive + ms;
      ipEthMap := ipEthMap - expired;
    }

    method MaybeSend() returns (ret: Option<Frame>)
      modifies this
      ensures View() == Step(old(View()), Event.MaybeSend)
      ensures ret == (if old(ethernetQ) == [] then None else Some(old(ethernetQ)[0]))
    {
      ret := None;
      if ethernetQ != [] {
        ret := Some(ethernetQ[0]);
        ethernetQ := ethernetQ[1..];
      }
    }
  }
}
