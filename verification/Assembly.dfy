/** What reassembly means, with no buffer and no interval set: the stream written so far, a map
    from stream index to byte for what is held back, and the end of the stream once known. */
module Assembly {
  import opened Words
  import opened ByteStreams
  import opened Intervals

  datatype Assembler = Assembler(out: Stream, pending: map<nat, byte>, last: Option<nat>) {
    function Unassembled(): nat {
      |out.written|
    }

    /** The first index that does not fit into the stream's capacity. */
    function Edge(): nat {
      out.taken + out.capacity
    }

    /** Everything held back is above what was written and fits the window. */
    ghost predicate Windowed() {
      && out.Valid()
      && forall i :: i in pending ==> Unassembled() < i < Edge()
    }
  }

  function Fresh(capacity: nat): Assembler {
    Assembler(Empty(capacity), map[], None)
  }

  /** The least index from `from` on that is not in `known`. */
  function Gap(known: set<nat>, from: nat): (e: nat)
    ensures from <= e && e !in known
    ensures forall i :: from <= i < e ==> i in known
    decreases |known|
  {
    if from in known then
      assert |known - {from}| < |known|;
      var e := Gap(known - {from}, from + 1);
      assert forall i :: from <= i < e ==> i in known by {
        forall i | from <= i < e
          ensures i in known
        {
          assert i == from || i in known - {from};
        }
      }
      e
    else from
  }

  lemma GapIsUnique(known: set<nat>, from: nat, e: nat)
    requires from <= e && e !in known
    requires forall i :: from <= i < e ==> i in known
    ensures e == Gap(known, from)
  {
  }

  function BytesOf(m: map<nat, byte>, from: nat, to: nat): (r: Bytes)
    requires from <= to
    requires forall i :: from <= i < to ==> i in m
    ensures |r| == to - from
    ensures forall k :: 0 <= k < to - from ==> r[k] == m[from + k]
  {
    seq(to - from, k requires 0 <= k < to - from => m[from + k])
  }

  /** The part of `data` that lies in the window [lo, hi), by stream index. */
  function Clipped(first: nat, data: Bytes, lo: nat, hi: nat): map<nat, byte> {
    var start, end := Max(first, lo), Min(first + |data|, hi);
    map i | i in Range(start, Max(start, end)) :: data[i - first]
  }

  /** New bytes replace older ones at the same index. */
  function Store(a: Assembler, first: nat, data: Bytes): Assembler {
    a.(pending := a.pending + Clipped(first, data, a.Unassembled(), a.Edge()))
  }

  function Ended(out: Stream, last: Option<nat>): Stream {
    if last == Some(|out.written|) then out.Close() else out
  }

  /** The maximal run that continues the stream is written; the stream ends at its last index. */
  function Flush(a: Assembler): Assembler
    requires a.out.Valid()
  {
    var from := a.Unassembled();
    var to := Gap(a.pending.Keys, from);
    var out := a.out.Push(BytesOf(a.pending, from, to));
    Assembler(Ended(out, a.last),
              map i | i in a.pending && !(from <= i < to) :: a.pending[i],
              a.last)
  }

  /** The end of a last substring is computed in 64 bits. A substring that starts beyond the
      window is dropped before anything else happens. */
  function Insert(a: Assembler, first: u64, data: Bytes, isLast: bool): Assembler
    requires a.out.Valid()
  {
    var b := if isLast then a.(last := Some((first + |data|) % TWO64)) else a;
    if first > a.Edge() then b else Flush(Store(b, first, data))
  }

  function Take(a: Assembler, len: nat): Assembler
    requires a.out.Valid()
  {
    a.(out := a.out.Pop(len))
  }

  lemma InsertIsFlush(a: Assembler, first: nat, data: Bytes, isLast: bool)
    requires a.out.Valid() && first <= a.Edge() && first + |data| < TWO64
    ensures Insert(a, first, data, isLast)
            == Flush(Store(a, first, data).(last := if isLast then Some(first + |data|) else a.last))
  {
    hide Flush, Clipped;
    var b := if isLast then a.(last := Some((first + |data|) % TWO64)) else a;
    assert Insert(a, first, data, isLast) == Flush(Store(b, first, data));
    assert Store(b, first, data) == Store(a, first, data).(last := if isLast then Some(first + |data|) else a.last);
  }

  // ---- the window ----

  /** Storing reaches neither below what was written nor beyond the window. */
  lemma StoreWindow(a: Assembler, first: nat, data: Bytes)
    requires a.Windowed()
    ensures forall i :: i in Store(a, first, data).pending ==> a.Unassembled() <= i < a.Edge()
  {
  }

  lemma FlushWindow(a: Assembler)
    requires a.out.Valid()
    requires forall i :: i in a.pending ==> a.Unassembled() <= i < a.Edge()
    ensures var to := Gap(a.pending.Keys, a.Unassembled());
            && to <= a.Edge()
            && Flush(a).out.written == a.out.written + BytesOf(a.pending, a.Unassembled(), to)
            && Flush(a).Windowed()
  {
    var to := Gap(a.pending.Keys, a.Unassembled());
    assert to > a.Unassembled() ==> to - 1 in a.pending.Keys;
    var run := BytesOf(a.pending, a.Unassembled(), to);
    assert run[..|run|] == run;
  }

  /** Every insertion, whatever bytes it brings, keeps the window, and what it delivers is the
      whole maximal run: the stream never cuts it short. */
  lemma InsertWindow(a: Assembler, first: u64, data: Bytes, isLast: bool)
    requires a.Windowed()
    ensures Insert(a, first, data, isLast).Windowed()
    ensures var known := Store(a, first, data).pending;
            Insert(a, first, data, isLast).out.written
            == if first > a.Edge() then a.out.written
               else a.out.written + BytesOf(known, a.Unassembled(), Gap(known.Keys, a.Unassembled()))
  {
    var b := if isLast then a.(last := Some((first + |data|) % TWO64)) else a;
    if first <= a.Edge() {
      StoreWindow(b, first, data);
      FlushWindow(Store(b, first, data));
    }
  }

  /** What is known of an index: the byte written or held back for it, if any. */
  function KnownAt(a: Assembler, i: nat): Option<byte> {
    if i < a.Unassembled() then Some(a.out.written[i])
    else if i in a.pending then Some(a.pending[i])
    else None
  }

  lemma StoreKnown(a: Assembler, first: nat, data: Bytes, i: nat)
    ensures KnownAt(Store(a, first, data), i)
            == if a.Unassembled() <= i < a.Edge() && first <= i < first + |data| then Some(data[i - first])
               else KnownAt(a, i)
  {
  }

  lemma FlushKnown(a: Assembler, i: nat)
    requires a.out.Valid()
    requires forall i :: i in a.pending ==> a.Unassembled() <= i < a.Edge()
    ensures KnownAt(Flush(a), i) == KnownAt(a, i)
    ensures i == Flush(a).Unassembled() ==> KnownAt(a, i) == None
  {
    FlushWindow(a);
    var from, to := a.Unassembled(), Gap(a.pending.Keys, a.Unassembled());
    assert from <= i < to ==> i in a.pending.Keys;
    hide Gap;
  }

  /** Insertion on the map of everything known, for any bytes, conflicting ones included: what was
      written stays; within the window the new bytes replace what was held back; all else is as
      before. And no byte that continues the stream is held back. */
  lemma InsertIsOverride(a: Assembler, first: u64, data: Bytes, isLast: bool, i: nat)
    requires a.Windowed()
    ensures var b := Insert(a, first, data, isLast);
            && KnownAt(b, i)
               == (if a.Unassembled() <= i < a.Edge() && first <= i < first + |data| then Some(data[i - first])
                   else KnownAt(a, i))
            && (i == b.Unassembled() && first <= a.Edge() ==> KnownAt(b, i) == None)
  {
    var b := if isLast then a.(last := Some((first + |data|) % TWO64)) else a;
    if first <= a.Edge() {
      StoreWindow(b, first, data);
      hide Flush, Store;
      StoreKnown(b, first, data, i);
      FlushKnown(Store(b, first, data), i);
    }
  }

  lemma TakeWindow(a: Assembler, len: nat)
    requires a.Windowed()
    ensures Take(a, len).Windowed()
  {
  }

  lemma CountBelow(s: set<nat>, lo: nat, hi: nat)
    requires forall i :: i in s ==> lo <= i < hi
    requires lo <= hi
    ensures |s| <= hi - lo
  {
    RangeSize(lo, hi);
    SubsetSize(s, Range(lo, hi));
  }

  lemma {:induction false} SubsetSize(s: set<nat>, t: set<nat>)
    requires s <= t
    ensures |s| <= |t|
  {
    if s != {} {
      var x :| x in s;
      SubsetSize(s - {x}, t - {x});
    }
  }

  /** Held-back bytes never fill the capacity that is left: the next byte is always missing. */
  lemma PendingBelowAvailable(a: Assembler)
    requires a.Windowed()
    ensures a.pending == map[] || |a.pending| < a.out.Available()
  {
    if a.pending != map[] {
      var i :| i in a.pending.Keys;
      CountBelow(a.pending.Keys, a.Unassembled() + 1, a.Edge());
    }
  }

  // ---- inserting slices of one stream, with reads in between ----

  datatype Event = Insertion(first: nat, data: Bytes, isLast: bool) | Reading(len: nat)

  ghost predicate IsSlice(event: Event, s: Bytes) {
    event.Insertion? ==>
      && event.first + |event.data| <= |s|
      && event.data == s[event.first..event.first + |event.data|]
      && (event.isLast ==> event.first + |event.data| == |s|)
  }

  function After(a: Assembler, event: Event): Assembler
    requires a.out.Valid() && (event.Insertion? ==> event.first < TWO64)
  {
    match event
    case Insertion(first, data, isLast) => Insert(a, first, data, isLast)
    case Reading(len) => Take(a, len)
  }

  /** The stream written so far is a prefix of `s`, what is held back agrees with `s`, and the
      stream is closed exactly when its end is known and has been reached. */
  ghost predicate Assembles(a: Assembler, s: Bytes) {
    && a.Windowed()
    && a.out.written <= s
    && (forall i :: i in a.pending ==> i < |s| && a.pending[i] == s[i])
    && (a.last.Some? ==> a.last.value == |s|)
    && (a.out.closed <==> a.last.Some? && |a.out.written| == |s|)
  }

  lemma StoreAgrees(a: Assembler, first: nat, data: Bytes, s: Bytes)
    requires forall i :: i in a.pending ==> i < |s| && a.pending[i] == s[i]
    requires first + |data| <= |s| && data == s[first..first + |data|]
    ensures forall i :: i in Store(a, first, data).pending
              ==> i < |s| && Store(a, first, data).pending[i] == s[i]
  {
  }

  lemma FlushAssembles(a: Assembler, s: Bytes)
    requires a.out.Valid() && a.out.written <= s
    requires forall i :: i in a.pending ==> a.Unassembled() <= i < a.Edge()
    requires forall i :: i in a.pending ==> i < |s| && a.pending[i] == s[i]
    requires a.last.Some? ==> a.last.value == |s|
    requires a.out.closed ==> a.last.Some? && |a.out.written| == |s|
    ensures Assembles(Flush(a), s) && Flush(a).last == a.last
  {
    FlushWindow(a);
    var from, to := a.Unassembled(), Gap(a.pending.Keys, a.Unassembled());
    assert to > from ==> to - 1 in a.pending.Keys;
    assert BytesOf(a.pending, from, to) == s[from..to];
    assert s[..from] + s[from..to] == s[..to];
    assert Flush(a).out.written == s[..to];
  }

  lemma EventAssembles(a: Assembler, event: Event, s: Bytes)
    requires Assembles(a, s) && IsSlice(event, s) && |s| < TWO64
    ensures event.Insertion? ==> event.first < TWO64
    ensures Assembles(After(a, event), s)
    ensures After(a, event).last.Some? <==> a.last.Some? || (event.Insertion? && event.isLast)
  {
    hide Flush, Gap, Clipped;
    match event
    case Insertion(first, data, isLast) =>
      var b := if isLast then a.(last := Some((first + |data|) % TWO64)) else a;
      if first <= a.Edge() {
        StoreWindow(b, first, data);
        StoreAgrees(b, first, data, s);
        FlushAssembles(Store(b, first, data), s);
      }
    case Reading(len) =>
      TakeWindow(a, len);
  }

  ghost predicate AllSlices(events: seq<Event>, s: Bytes) {
    forall k :: 0 <= k < |events| ==> IsSlice(events[k], s)
  }

  predicate SawLast(events: seq<Event>) {
    exists k :: 0 <= k < |events| && events[k].Insertion? && events[k].isLast
  }

  function AfterAll(a: Assembler, events: seq<Event>): Option<Assembler>
    decreases events
  {
    if events == [] then Some(a)
    else if !a.out.Valid() || (events[0].Insertion? && events[0].first >= TWO64) then None
    else AfterAll(After(a, events[0]), events[1..])
  }

  /** Over any interleaving of slices, in any order and with any overlap, and reads of any size:
      the stream is a prefix of `s`, and it is closed exactly when a last substring has come by
      and all of `s` has been written. */
  lemma {:induction false} RunAssembles(a: Assembler, events: seq<Event>, s: Bytes)
    requires Assembles(a, s) && AllSlices(events, s) && |s| < TWO64
    ensures AfterAll(a, events).Some? && Assembles(AfterAll(a, events).value, s)
    ensures AfterAll(a, events).value.last.Some? <==> a.last.Some? || SawLast(events)
    decreases events
  {
    if events != [] {
      assert IsSlice(events[0], s);
      EventAssembles(a, events[0], s);
      RunAssembles(After(a, events[0]), events[1..], s);
      assert forall k :: 0 <= k < |events| ==> events[k] == if k == 0 then events[0] else events[1..][k - 1];
      assert SawLast(events) <==> (events[0].Insertion? && events[0].isLast) || SawLast(events[1..]) by {
        if SawLast(events[1..]) {
          var k :| 0 <= k < |events[1..]| && events[1..][k].Insertion? && events[1..][k].isLast;
          assert events[k + 1].Insertion? && events[k + 1].isLast;
        }
      }
    }
  }

  lemma Reassembly(capacity: nat, events: seq<Event>, s: Bytes)
    requires AllSlices(events, s) && |s| < TWO64
    ensures var end := AfterAll(Fresh(capacity), events);
            && end.Some?
            && end.value.out.written <= s
            && (end.value.out.closed <==> SawLast(events) && end.value.out.written == s)
  {
    var none := Fresh(capacity);
    if |s| == 0 {
      assert none.out.written == s;
    }
    RunAssembles(none, events, s);
  }
}
