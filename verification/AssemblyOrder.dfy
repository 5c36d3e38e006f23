/** With room for the whole stream and nobody reading, the order of arrival does not matter:
    where reassembly ends up depends only on which indices have arrived at all. */
module AssemblyOrder {
  import opened Words
  import opened ByteStreams
  import opened Intervals
  import opened Assembly

  /** `s` from index `n` on, at the indices of `all`. */
  function From(s: Bytes, all: set<nat>, n: nat): map<nat, byte>
    requires forall i :: i in all ==> i < |s|
  {
    map i | i in all && i >= n :: s[i]
  }

  /** The state in which exactly the indices `seen` of `s` have arrived. */
  function Arrived(s: Bytes, capacity: nat, seen: set<nat>, lastSeen: bool): Assembler
    requires forall i :: i in seen ==> i < |s|
  {
    var n := Gap(seen, 0);
    assert n > 0 ==> n - 1 in seen;
    Assembler(Stream(capacity, s[..n], 0, lastSeen && n == |s|, false),
              From(s, seen, n),
              if lastSeen then Some(|s|) else None)
  }

  ghost predicate Fits(event: Event, s: Bytes, capacity: nat) {
    event.Insertion? && IsSlice(event, s) && event.first + |event.data| <= capacity
  }

  ghost predicate AllFit(events: seq<Event>, s: Bytes, capacity: nat) {
    forall event :: event in events ==> Fits(event, s, capacity)
  }

  ghost function Indices(event: Event): set<nat> {
    if event.Insertion? then Range(event.first, event.first + |event.data|) else {}
  }

  ghost predicate InRange(seen: set<nat>, bound: nat) {
    forall i :: i in seen ==> i < bound
  }

  lemma StoredMap(s: Bytes, capacity: nat, seen: set<nat>, lastSeen: bool, event: Event)
    requires InRange(seen, |s|) && InRange(seen, capacity) && Fits(event, s, capacity)
    ensures InRange(seen + Indices(event), |s|)
    ensures Store(Arrived(s, capacity, seen, lastSeen), event.first, event.data).pending
            == From(s, seen + Indices(event), Gap(seen, 0))
  {
    var n := Gap(seen, 0);
    assert n > 0 ==> n - 1 in seen;
  }

  lemma GapAbove(all: set<nat>, seen: set<nat>, s: Bytes)
    requires seen <= all && InRange(all, |s|)
    ensures Gap(From(s, all, Gap(seen, 0)).Keys, Gap(seen, 0)) == Gap(all, 0)
  {
    var n := Gap(seen, 0);
    var e := Gap(From(s, all, n).Keys, n);
    forall i | 0 <= i < e
      ensures i in all
    {
      assert i >= n ==> i in From(s, all, n).Keys;
    }
    GapIsUnique(all, 0, e);
  }

  /** Flushing a state that holds `s` from `n` on, at the indices of `all`. */
  lemma FlushArrived(a: Assembler, s: Bytes, all: set<nat>, n: nat)
    requires InRange(all, |s|) && InRange(all, a.out.capacity) && n <= |s|
    requires a.out.Valid() && a.out.written == s[..n] && a.out.taken == 0
    requires a.pending == From(s, all, n)
    requires Gap(a.pending.Keys, n) == Gap(all, 0)
    ensures var e := Gap(all, 0);
            && n <= e <= |s|
            && Flush(a) == Assembler(a.out.(written := s[..e], closed := a.out.closed || a.last == Some(e)),
                                     From(s, all, e), a.last)
  {
    var e := Gap(all, 0);
    assert e > 0 ==> e - 1 in all;
    var run := BytesOf(a.pending, n, e);
    assert run == s[n..e];
    assert run[..|run|] == run;
    assert s[..n] + s[n..e] == s[..e];
    assert Flush(a).pending == From(s, all, e);
  }

  lemma StoreArrived(s: Bytes, capacity: nat, seen: set<nat>, lastSeen: bool, event: Event)
    requires InRange(seen, |s|) && InRange(seen, capacity) && Fits(event, s, capacity)
    ensures var a, all := Arrived(s, capacity, seen, lastSeen), seen + Indices(event);
            && InRange(all, |s|) && InRange(all, capacity)
            && a.out.Valid()
            && a.(pending := From(s, all, Gap(seen, 0))) == Store(a, event.first, event.data)
            && Gap(From(s, all, Gap(seen, 0)).Keys, Gap(seen, 0)) == Gap(all, 0)
  {
    var n := Gap(seen, 0);
    assert n > 0 ==> n - 1 in seen;
    StoredMap(s, capacity, seen, lastSeen, event);
    GapAbove(seen + Indices(event), seen, s);
  }

  lemma ArriveStep(s: Bytes, capacity: nat, seen: set<nat>, lastSeen: bool, event: Event)
    requires |s| < TWO64
    requires InRange(seen, |s|) && InRange(seen, capacity) && Fits(event, s, capacity)
    ensures InRange(seen + Indices(event), |s|) && InRange(seen + Indices(event), capacity)
    ensures Arrived(s, capacity, seen, lastSeen).out.Valid()
    ensures Insert(Arrived(s, capacity, seen, lastSeen), event.first, event.data, event.isLast)
            == Arrived(s, capacity, seen + Indices(event), lastSeen || event.isLast)
  {
    var a := Arrived(s, capacity, seen, lastSeen);
    var n, all := Gap(seen, 0), seen + Indices(event);
    assert n > 0 ==> n - 1 in seen;
    StoreArrived(s, capacity, seen, lastSeen, event);
    InsertIsFlush(a, event.first, event.data, event.isLast);
    var stored := a.(pending := From(s, all, n), last := if event.isLast then Some(|s|) else a.last);
    FlushArrived(stored, s, all, n);
  }

  ghost function Union(events: seq<Event>): set<nat> {
    if events == [] then {} else Indices(events[0]) + Union(events[1..])
  }

  predicate HasLast(events: seq<Event>) {
    exists event :: event in events && event.Insertion? && event.isLast
  }

  lemma {:induction false} RunArrived(s: Bytes, capacity: nat, seen: set<nat>, lastSeen: bool, events: seq<Event>)
    requires |s| < TWO64
    requires InRange(seen, |s|) && InRange(seen, capacity)
    requires AllFit(events, s, capacity)
    ensures InRange(seen + Union(events), |s|)
    ensures AfterAll(Arrived(s, capacity, seen, lastSeen), events)
            == Some(Arrived(s, capacity, seen + Union(events), lastSeen || HasLast(events)))
    decreases events
  {
    if events == [] {
      assert seen + Union(events) == seen;
    } else {
      var event := events[0];
      assert event in events && Fits(event, s, capacity);
      ArriveStep(s, capacity, seen, lastSeen, event);
      assert InRange(seen + Indices(event), capacity);
      RunArrived(s, capacity, seen + Indices(event), lastSeen || event.isLast, events[1..]);
      assert (seen + Indices(event)) + Union(events[1..]) == seen + Union(events);
      assert forall o :: o in events <==> o == event || o in events[1..];
    }
  }

  /** What a finite collection of slices leads to: the written length is the least index that
      none of them covers, and the rest of what they cover is held back. */
  lemma ResultOfSlices(s: Bytes, capacity: nat, events: seq<Event>)
    requires |s| < TWO64
    requires AllFit(events, s, capacity)
    ensures InRange(Union(events), |s|)
    ensures AfterAll(Fresh(capacity), events) == Some(Arrived(s, capacity, Union(events), HasLast(events)))
    ensures |AfterAll(Fresh(capacity), events).value.out.written| == Gap(Union(events), 0)
  {
    assert Gap({}, 0) == 0;
    assert Arrived(s, capacity, {}, false) == Fresh(capacity);
    RunArrived(s, capacity, {}, false, events);
    assert {} + Union(events) == Union(events);
    assert Gap(Union(events), 0) > 0 ==> Gap(Union(events), 0) - 1 in Union(events);
  }

  lemma {:induction false} InUnion(events: seq<Event>, i: nat)
    ensures i in Union(events) <==> exists event :: event in events && i in Indices(event)
  {
    if events != [] {
      InUnion(events[1..], i);
      assert forall o :: o in events <==> o == events[0] || o in events[1..];
    }
  }

  /** Any two sequences of slices with the same members end in the very same state: written
      bytes, held-back bytes, end of stream and closed flag. Repetition does not matter either. */
  lemma OrderIndependence(s: Bytes, capacity: nat, events: seq<Event>, events': seq<Event>)
    requires |s| < TWO64
    requires AllFit(events, s, capacity)
    requires forall event :: event in events <==> event in events'
    ensures AfterAll(Fresh(capacity), events) == AfterAll(Fresh(capacity), events')
  {
    ResultOfSlices(s, capacity, events);
    ResultOfSlices(s, capacity, events');
    assert Union(events) == Union(events') by {
      forall i: nat
        ensures i in Union(events) <==> i in Union(events')
      {
        InUnion(events, i);
        InUnion(events', i);
      }
    }
  }

  /** The program's own representation follows: two canonical interval sets that cover the
      held-back indices of these two runs are the same set of intervals. */
  lemma OrderIndependentIntervals(s: Bytes, capacity: nat, events: seq<Event>, events': seq<Event>,
                                  x: seq<Interval>, y: seq<Interval>)
    requires |s| < TWO64
    requires AllFit(events, s, capacity)
    requires forall event :: event in events <==> event in events'
    requires Canonical(x) && Canonical(y)
    requires AfterAll(Fresh(capacity), events).Some?
    requires Covered(x) == AfterAll(Fresh(capacity), events).value.pending.Keys
    requires AfterAll(Fresh(capacity), events').Some?
    requires Covered(y) == AfterAll(Fresh(capacity), events').value.pending.Keys
    ensures x == y
  {
    OrderIndependence(s, capacity, events, events');
    CanonicalUnique(x, y);
  }
}
