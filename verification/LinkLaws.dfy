/** What an interface knows and asks, read off its history alone, and what two interfaces on one link
    do for each other. */
module LinkLaws {
  import opened Words
  import opened NetworkInterfaces

  /** The interface is sent an ARP message by the hop. */
  predicate Hears(ethernet: EthernetAddress, e: Event, hop: Address) {
    && e.Receive? && (e.frame.dst == ethernet || e.frame.dst == 0xFFFF_FFFF_FFFF)
    && e.frame.payload.Arp? && e.frame.payload.msg.senderIp == hop
  }

  /** All the milliseconds ticked so far. */
  function Ticks(events: seq<Event>): nat
    decreases events
  {
    if events == [] then 0
    else Ticks(events[..|events| - 1]) + (if events[|events| - 1].Tick? then events[|events| - 1].ms else 0)
  }

  /** What the hop's last ARP message said, unless it has expired since. */
  function LastHeard(ethernet: EthernetAddress, events: seq<Event>, hop: Address): Option<EthernetAddress>
    decreases events
  {
    if events == [] then None
    else
      var e, before := events[|events| - 1], LastHeard(ethernet, events[..|events| - 1], hop);
      if Hears(ethernet, e, hop) then Some(e.frame.payload.msg.senderEthernet)
      else if e.Tick? && hop in e.expired then None
      else before
  }

  /** When the hop was last asked for, unless it has been learned since: that is when a datagram is
      given for it while it is unknown and was not asked for in the last five seconds. */
  function AskedAt(states: seq<Interface>, events: seq<Event>, hop: Address): Option<nat>
    requires IsRun(states, events)
    decreases events
  {
    if events == [] then None
    else
      var n := |events| - 1;
      var e, before := events[n], AskedAt(states[..n + 1], events[..n], hop);
      if e.Send? && e.hop == hop && Due(states[0].ethernet, events[..n], hop, before) then Some(Ticks(events[..n]))
      else if Hears(states[0].ethernet, e, hop) && !Throws(states[n], e) then None
      else before
  }

  predicate Due(ethernet: EthernetAddress, events: seq<Event>, hop: Address, asked: Option<nat>) {
    LastHeard(ethernet, events, hop).None? && (asked.Some? ==> Ticks(events) - asked.value > 5000)
  }

  // ---- the interface agrees with its history ----

  ghost predicate Agrees(s: Interface, hop: Address, ethernet: EthernetAddress, ip: Address, now: nat,
                         heard: Option<EthernetAddress>, asked: Option<nat>) {
    && s.ethernet == ethernet && s.ip == ip && s.now == now
    && (hop in s.known <==> heard.Some?) && (hop in s.known ==> s.known[hop] == heard.value)
    && (hop in s.asked <==> asked.Some?) && (hop in s.asked ==> s.asked[hop] == asked.value)
  }

  lemma StepAgrees(s: Interface, e: Event, hop: Address, now: nat, heard: Option<EthernetAddress>, asked: Option<nat>)
    requires Agrees(s, hop, s.ethernet, s.ip, now, heard, asked)
    ensures Agrees(Step(s, e), hop, s.ethernet, s.ip, now + (if e.Tick? then e.ms else 0),
                   if Hears(s.ethernet, e, hop) then Some(e.frame.payload.msg.senderEthernet)
                   else if e.Tick? && hop in e.expired then None else heard,
                   if e.Send? && e.hop == hop && heard.None? && (asked.Some? ==> now - asked.value > 5000)
                   then Some(now)
                   else if Hears(s.ethernet, e, hop) && !Throws(s, e) then None
                   else asked)
  {
  }

  /** Over any run: an address is known exactly if the hop's last ARP message has not expired, and is
      the one in that message; a request is recorded exactly if and when the history says. */
  lemma {:induction false} KnownIsHeard(states: seq<Interface>, events: seq<Event>, hop: Address)
    requires IsRun(states, events) && states[0] == NewInterface(states[0].ethernet, states[0].ip)
    ensures Agrees(states[|events|], hop, states[0].ethernet, states[0].ip, Ticks(events),
                   LastHeard(states[0].ethernet, events, hop), AskedAt(states, events, hop))
    decreases events
  {
    hide Step, Hears, Throws;
    if events != [] {
      var n := |events| - 1;
      KnownIsHeard(states[..n + 1], events[..n], hop);
      assert states[n + 1] == Step(states[n], events[n]);
      StepAgrees(states[n], events[n], hop, Ticks(events[..n]),
                 LastHeard(states[0].ethernet, events[..n], hop), AskedAt(states[..n + 1], events[..n], hop));
    }
  }

  /** Over any run, a datagram given for a hop makes a request go out, broadcast and for that hop, if
      and only if the hop is unknown and no request for it went out in the last 5000 ms. */
  lemma AsksWhenDue(states: seq<Interface>, events: seq<Event>, dgram: Datagram, hop: Address)
    requires IsRun(states, events) && states[0] == NewInterface(states[0].ethernet, states[0].ip)
    ensures var s, asked := states[|events|], AskedAt(states, events, hop);
            Emitted(s, Send(dgram, hop))
            == if LastHeard(s.ethernet, events, hop).Some?
               then if dgram.version == 4
                    then [Frame(s.ethernet, LastHeard(s.ethernet, events, hop).value, IPv4(dgram))] else []
               else if asked.Some? && Ticks(events) - asked.value <= 5000 then []
               else [Frame(s.ethernet, 0xFFFF_FFFF_FFFF, Arp(ArpMessage(1, s.ethernet, s.ip, 0, hop)))]
  {
    KnownIsHeard(states, events, hop);
    hide IsRun, LastHeard, AskedAt, Ticks;
  }

  // ---- two interfaces on one link ----

  /** A has a datagram for B, whose Ethernet address it does not know. Of those on the link that hear
      A's request only B answers, B's answer makes A frame the datagram, and only B is handed it. */
  lemma AcrossTheLink(a: Interface, b: Interface, c: Interface, d: Datagram)
    requires a.out == [] && b.out == [] && d.version == 4
    requires a.ethernet != b.ethernet && c.ethernet != b.ethernet && b.ethernet != 0xFFFF_FFFF_FFFF
    requires b.ip !in a.known && a.Waiting(b.ip) == []
    requires b.ip in a.asked ==> a.now - a.asked[b.ip] > 5000
    requires b.Waiting(a.ip) == [] && c.Waiting(a.ip) == [] && c.ip != b.ip
    ensures var a1 := Step(a, Send(d, b.ip));
            && a1.out == [Frame(a.ethernet, 0xFFFF_FFFF_FFFF, Arp(ArpMessage(1, a.ethernet, a.ip, 0, b.ip)))]
            && var b1, c1 := Step(b, Receive(a1.out[0])), Step(c, Receive(a1.out[0]));
            && c1.out == c.out && a.ip in c1.known && c1.known[a.ip] == a.ethernet
            && b1.out == [Frame(b.ethernet, a.ethernet, Arp(ArpMessage(2, b.ethernet, b.ip, a.ethernet, a.ip)))]
            && a.ip in b1.known && b1.known[a.ip] == a.ethernet
            && var a2 := Step(Step(a1, MaybeSend), Receive(b1.out[0]));
            && a2.out == [Frame(a.ethernet, b.ethernet, IPv4(d))]
            && b.ip in a2.known && a2.known[b.ip] == b.ethernet && a2.Waiting(b.ip) == []
            && Delivered(Step(b1, MaybeSend), a2.out[0]) == Some(d)
            && Delivered(c1, a2.out[0]) == None && Step(c1, Receive(a2.out[0])) == c1
  {
    assert Framable([d]) == 1 && [d][..1] == [d];
    var a1 := Step(a, Send(d, b.ip));
    var b1 := Step(b, Receive(a1.out[0]));
    assert Framed(c.ethernet, a.ethernet, []) == [];
    assert b1.out == [] + Framed(b.ethernet, a.ethernet, []) + [ReplyFrame(b, a1.out[0].payload.msg)];
    var a2 := Step(Step(a1, MaybeSend), Receive(b1.out[0]));
    assert Framed(a.ethernet, b.ethernet, [d]) == [Frame(a.ethernet, b.ethernet, IPv4(d))];
  }

  /** Whatever else arrives: an IPv4 datagram is handed up if and only if its frame is for this
      interface or for all, and changes nothing. */
  lemma HandedUp(s: Interface, frame: Frame, d: Datagram)
    ensures Delivered(s, frame) == Some(d)
            <==> frame.payload == IPv4(d) && (frame.dst == s.ethernet || frame.dst == 0xFFFF_FFFF_FFFF)
    ensures !frame.payload.Arp? ==> Step(s, Receive(frame)) == s
  {
  }
}
