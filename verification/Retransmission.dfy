/** The retransmission timeout over any run of the sender (section 5 of RFC 6298): it is the
    initial one, doubled once for every expiry since the last new acknowledgement, except for
    expiries while the last advertised window was zero. */
module Retransmission {
  import opened Words
  import opened Timers
  import opened Senders
  import opened SenderLaws
  import opened SenderRuns

  // ---- read off the history alone ----

  predicate NewlyAcks(s: Sender, e: SenderEvent) {
    Accepts(s, e) && s.ack < AckValue(s, e.msg)
  }

  /** Whether the last acknowledgement that was accepted closed the window. */
  predicate ZeroWindow(states: seq<Sender>, events: seq<SenderEvent>)
    requires IsRun(states, events)
    decreases events
  {
    if events == [] then false
    else
      var n := |events| - 1;
      if Accepts(states[n], events[n]) then events[n].msg.window == 0
      else ZeroWindow(states[..n + 1], events[..n])
  }

  /** All the milliseconds ticked so far. */
  function Ticks(events: seq<SenderEvent>): nat
    decreases events
  {
    if events == [] then 0
    else Ticks(events[..|events| - 1]) + (if events[|events| - 1].Ticked? then events[|events| - 1].ms else 0)
  }

  /** The moment of the timer's last start: a first segment going out while none is in flight, a new
      acknowledgement that leaves something in flight, or an expiry. */
  function StartedAt(states: seq<Sender>, events: seq<SenderEvent>): nat
    requires IsRun(states, events)
    decreases events
  {
    if events == [] then 0
    else
      var n := |events| - 1;
      var s, e, before := states[n], events[n], StartedAt(states[..n + 1], events[..n]);
      match e
      case Pushed(_) => before
      case MaySend => if !s.retransmit && s.unsent != [] && s.inFlight == [] then Ticks(events) else before
      case Acked(_) => if NewlyAcks(s, e) && states[n + 1].inFlight != [] then Ticks(events) else before
      case Ticked(ms) => if RunsOut(s, Ticks(events), before) then Ticks(events) else before
  }

  /** Whether at moment `now` the timeout is over for a timer last started at `started`, with times
      and their sums in 64 bits. */
  predicate RunsOut(s: Sender, now: nat, started: nat) {
    s.inFlight != [] && now % TWO64 >= (started + s.rto) % TWO64
  }

  /** Whether the last event of a run is an expiry. */
  predicate EndsInExpiry(states: seq<Sender>, events: seq<SenderEvent>)
    requires IsRun(states, events) && events != []
  {
    var n := |events| - 1;
    events[n].Ticked? && RunsOut(states[n], Ticks(events), StartedAt(states[..n + 1], events[..n]))
  }

  /** Expiries since the last new acknowledgement, leaving out those under a zero window. */
  function Backoffs(states: seq<Sender>, events: seq<SenderEvent>): nat
    requires IsRun(states, events)
    decreases events
  {
    if events == [] then 0
    else
      var n := |events| - 1;
      var before := Backoffs(states[..n + 1], events[..n]);
      if NewlyAcks(states[n], events[n]) then 0
      else if EndsInExpiry(states, events) && !ZeroWindow(states[..n + 1], events[..n]) then before + 1
      else before
  }

  /** All expiries since the last new acknowledgement. */
  function Expiries(states: seq<Sender>, events: seq<SenderEvent>): nat
    requires IsRun(states, events)
    decreases events
  {
    if events == [] then 0
    else
      var n := |events| - 1;
      var before := Expiries(states[..n + 1], events[..n]);
      if NewlyAcks(states[n], events[n]) then 0
      else if EndsInExpiry(states, events) then before + 1
      else before
  }

  function Pow2(n: nat): nat {
    if n == 0 then 1 else 2 * Pow2(n - 1)
  }

  lemma DoubleModulo(a: nat, b: nat)
    requires a == b % TWO64
    ensures a * 2 % TWO64 == b * 2 % TWO64
  {
    var q := b / TWO64;
    assert b * 2 == a * 2 + q * 2 * TWO64;
    ModuloOf(a * 2, q * 2);
  }

  lemma ModuloOf(a: int, turns: int)
    ensures (a + turns * TWO64) % TWO64 == a % TWO64
  {
  }

  /** The timer is in order, and the window is taken as open. */
  ghost predicate TimerRuns(s: Sender) {
    Timed(s) && s.window > 0
  }

  lemma StepTimer(s: Sender, e: SenderEvent)
    requires TimerRuns(s) && Allowed(s, e)
    ensures TimerRuns(StepSender(s, e))
    ensures StepSender(s, e).initialRTO == s.initialRTO
  {
  }

  /** The sender's clock shows the ticks so far, and a running timer the moment it was started. */
  ghost predicate Measures(s: Sender, now: nat, started: nat) {
    && s.now == now % TWO64
    && (s.timer.running ==> s.timer.start == started % TWO64)
  }

  lemma SumModulo(a: nat, b: nat)
    ensures (a % TWO64 + b) % TWO64 == (a + b) % TWO64
  {
    ModuloOf(a % TWO64 + b, a / TWO64);
  }

  /** On such a sender the program's timer expires exactly when the timeout runs out. */
  lemma ExpiryIsRunningOut(s: Sender, ms: nat, now: nat, started: nat)
    requires TimerRuns(s) && Measures(s, now, started)
    ensures Expires(s, ms) <==> RunsOut(s, now + ms, started)
    ensures Later(s, ms) == (now + ms) % TWO64
  {
    SumModulo(now, ms);
    SumModulo(started, s.rto);
  }

  lemma StepMeasures(s: Sender, e: SenderEvent, now: nat, started: nat)
    requires TimerRuns(s) && Allowed(s, e) && Measures(s, now, started)
    ensures var t := StepSender(s, e);
            var now' := now + if e.Ticked? then e.ms else 0;
            var restarts := match e
              case Pushed(_) => false
              case MaySend => !s.retransmit && s.unsent != [] && s.inFlight == []
              case Acked(_) => NewlyAcks(s, e) && t.inFlight != []
              case Ticked(_) => RunsOut(s, now', started);
            Measures(t, now', if restarts then now' else started)
  {
    match e
    case Ticked(ms) => ExpiryIsRunningOut(s, ms, now, started);
    case Acked(msg) => hide DropAcked, AckValue;
    case _ =>
  }

  lemma {:induction false} RunMeasures(states: seq<Sender>, events: seq<SenderEvent>)
    requires IsRun(states, events)
    requires states[0] == NewSender(states[0].isn, states[0].initialRTO)
    ensures TimerRuns(states[|events|]) && Measures(states[|events|], Ticks(events), StartedAt(states, events))
    ensures StartedAt(states, events) <= Ticks(events)
    decreases events
  {
    hide Allowed, StepSender, NewlyAcks, RunsOut, Measures, TimerRuns;
    FirstTimer(states[0]);
    if events != [] {
      var n := |events| - 1;
      assert Allowed(states[n], events[n]) && states[n + 1] == StepSender(states[n], events[n]);
      RunMeasures(states[..n + 1], events[..n]);
      StepTimer(states[n], events[n]);
      StepMeasures(states[n], events[n], Ticks(events[..n]), StartedAt(states[..n + 1], events[..n]));
    }
  }

  /** The timeout is kept to the millisecond: with times below 2^64, time passing makes the oldest
      segment due again and backs off if and only if something is in flight and no less than the
      timeout has been ticked since the timer was last started. */
  lemma ExpiresOnTime(states: seq<Sender>, events: seq<SenderEvent>, ms: nat)
    requires IsRun(states, events) && states[0] == NewSender(states[0].isn, states[0].initialRTO)
    requires Ticks(events) + ms < TWO64 && StartedAt(states, events) + states[|events|].rto < TWO64
    ensures var s := states[|events|];
            var t := Tick(s, ms);
            var elapsed := Ticks(events) - StartedAt(states, events) + ms;
            && StartedAt(states, events) <= Ticks(events)
            && if s.inFlight != [] && elapsed >= s.rto
               then && t.retransmit && CanSend(t) && Sent(t) == Some(s.inFlight[0].seg)
                    && t.rto == (if ZeroWindow(states, events) then s.rto else s.rto * 2 % TWO64)
                    && t.retransmissions == s.retransmissions + 1
               else t.retransmit == s.retransmit && t.rto == s.rto && t.retransmissions == s.retransmissions
  {
    hide Pow2, Backoffs, Expiries, StartedAt, Ticks, ZeroWindow, Tick, TimerRuns, Measures, CanSend, Sent, Allowed;
    RunMeasures(states, events);
    TimeoutOfHistory(states, events);
    TickOnTime(states[|events|], ms, Ticks(events), StartedAt(states, events));
  }

  lemma TickOnTime(s: Sender, ms: nat, now: nat, started: nat)
    requires TimerRuns(s) && Measures(s, now, started) && started <= now
    requires now + ms < TWO64 && started + s.rto < TWO64
    ensures var t := Tick(s, ms);
            if s.inFlight != [] && now - started + ms >= s.rto
            then && t.retransmit && CanSend(t) && Sent(t) == Some(s.inFlight[0].seg)
                 && t.rto == (if s.holdRTO then s.rto else s.rto * 2 % TWO64)
                 && t.retransmissions == s.retransmissions + 1
            else t.retransmit == s.retransmit && t.rto == s.rto && t.retransmissions == s.retransmissions
  {
    hide Measures, Tick, Expires, TimerRuns, CanSend, Sent;
    ExpiryIsRunningOut(s, ms, now, started);
    TickBy(s, ms);
  }

  lemma TickBy(s: Sender, ms: nat)
    requires TimerRuns(s)
    ensures var t := Tick(s, ms);
            if Expires(s, ms)
            then && s.inFlight != [] && t.retransmit && CanSend(t) && Sent(t) == Some(s.inFlight[0].seg)
                 && t.rto == (if s.holdRTO then s.rto else s.rto * 2 % TWO64)
                 && t.retransmissions == s.retransmissions + 1
            else t.retransmit == s.retransmit && t.rto == s.rto && t.retransmissions == s.retransmissions
  {
    hide Later;
  }

  /** Rules 5.1 to 5.6 over any run: the timer runs exactly while something is in flight, for the
      current timeout, and the timeout is the initial one backed off by the history. The count of
      consecutive retransmissions is the number of expiries. All in 64-bit arithmetic. */
  lemma {:induction false} TimeoutOfHistory(states: seq<Sender>, events: seq<SenderEvent>)
    requires IsRun(states, events)
    requires states[0] == NewSender(states[0].isn, states[0].initialRTO)
    ensures var end := states[|events|];
            && TimerRuns(end)
            && end.initialRTO == states[0].initialRTO
            && end.holdRTO == ZeroWindow(states, events)
            && end.rto == states[0].initialRTO * Pow2(Backoffs(states, events)) % TWO64
            && end.retransmissions == Expiries(states, events)
    decreases events
  {
    hide StepSender, Pow2, Expires, RunsOut, NewlyAcks, TimerRuns, Accepts, Measures;
    FirstTimer(states[0]);
    if events != [] {
      var n := |events| - 1;
      var states', events' := states[..n + 1], events[..n];
      assert Allowed(states[n], events[n]) && states[n + 1] == StepSender(states[n], events[n]);
      TimeoutOfHistory(states', events');
      StepTimer(states[n], events[n]);
      TimeoutStep(states[n], events[n], Backoffs(states', events'));
      if events[n].Ticked? {
        RunMeasures(states', events');
        ExpiryIsRunningOut(states[n], events[n].ms, Ticks(events'), StartedAt(states', events'));
      }
    }
  }

  lemma FirstTimer(s: Sender)
    ensures s == NewSender(s.isn, s.initialRTO) ==>
              TimerRuns(s) && Measures(s, 0, 0) && s.rto == s.initialRTO * Pow2(0) % TWO64
  {
  }

  lemma TimeoutStep(s: Sender, e: SenderEvent, backoffs: nat)
    requires TimerRuns(s) && Allowed(s, e) && s.rto == s.initialRTO * Pow2(backoffs) % TWO64
    ensures var t := StepSender(s, e);
            var expired := e.Ticked? && Expires(s, e.ms);
            && t.rto == (s.initialRTO * Pow2(if NewlyAcks(s, e) then 0
                                             else if expired && !s.holdRTO then backoffs + 1
                                             else backoffs)) % TWO64
            && t.retransmissions == (if NewlyAcks(s, e) then 0
                                     else if expired then s.retransmissions + 1
                                     else s.retransmissions)
            && t.holdRTO == (if Accepts(s, e) then e.msg.window == 0 else s.holdRTO)
  {
    Doubled(s.initialRTO, backoffs, s.rto);
    hide Pow2, DropAcked, AckValue, Expires, Later;
  }

  lemma Doubled(initial: nat, backoffs: nat, rto: nat)
    requires rto == initial * Pow2(backoffs) % TWO64
    ensures rto * 2 % TWO64 == initial * Pow2(backoffs + 1) % TWO64
    ensures initial * Pow2(0) == initial
  {
    DoubleModulo(rto, initial * Pow2(backoffs));
    assert initial * Pow2(backoffs) * 2 == initial * Pow2(backoffs + 1);
  }

  /** Rule 5.4 and 5.6: an expiry makes the oldest outstanding segment the next one sent, and the
      timer runs on. */
  lemma ExpiryRetransmitsOldest(s: Sender, ms: nat)
    requires TimerRuns(s) && Expires(s, ms)
    ensures var t := Tick(s, ms);
            && t.retransmit && CanSend(t) && Sent(t) == Some(s.inFlight[0].seg)
            && t.timer == Clock(Later(s, ms), t.rto, true)
  {
  }
}
