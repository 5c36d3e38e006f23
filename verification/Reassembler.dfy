/** The program's reassembler: a ring buffer holds the bytes, an interval set says which slots
    mean something. Together they represent the map of `Assembly`. */
module Reassemblers {
  import opened Words
  import opened ByteStreams
  import opened Intervals
  import opened CircBuffers
  import opened Assembly

  /** The map that a ring and a set of intervals represent. */
  ghost function Held(ring: Bytes, s: seq<Interval>): map<nat, byte> {
    map i | i in Covered(s) && ring != [] :: ring[i % |ring|]
  }

  ghost predicate CoversWithin(s: seq<Interval>, lo: nat, hi: nat) {
    forall i :: i in Covered(s) ==> lo <= i < hi
  }

  lemma HeldAfterStoreAt(ring: Bytes, s: seq<Interval>, first: nat, data: Bytes, window: nat, r: seq<Interval>, i: nat)
    requires ring != [] && CoversWithin(s, window, window + |ring|)
    requires window <= first && first + |data| <= window + |ring|
    requires Covered(r) == Covered(s) + Range(first, first + |data|)
    ensures var held := Held(Overlay(ring, first, data), r);
            var all := Held(ring, s) + Clipped(first, data, first, first + |data|);
            (i in held <==> i in all) && (i in held ==> held[i] == all[i])
  {
    hide Overlay, Covered;
    if i in Covered(r) {
      OverlayAt(ring, first, data, i, window);
    }
  }

  lemma HeldAfterStore(ring: Bytes, s: seq<Interval>, first: nat, data: Bytes, window: nat, r: seq<Interval>)
    requires CoversWithin(s, window, window + |ring|)
    requires window <= first && first + |data| <= window + |ring|
    requires Covered(r) == Covered(s) + Range(first, first + |data|)
    ensures Held(Overlay(ring, first, data), r)
            == Held(ring, s) + Clipped(first, data, first, first + |data|)
  {
    if ring == [] {
      assert Overlay(ring, first, data) == [] && Clipped(first, data, first, first + |data|) == map[];
      return;
    }
    hide Overlay, Covered, Held, Clipped;
    forall i: nat {
      HeldAfterStoreAt(ring, s, first, data, window, r, i);
    }
  }

  lemma HeldAfterPop(ring: Bytes, s: seq<Interval>)
    requires Canonical(s) && s != [] && ring != [] && CoversWithin(s, s[0].lo, s[0].lo + |ring|)
    ensures s[0].hi - s[0].lo <= |ring|
    ensures Held(Overlay(ring, s[0].lo, Blanks(s[0].hi - s[0].lo)), s[1..])
            == map i | i in Held(ring, s) && !(s[0].lo <= i < s[0].hi) :: Held(ring, s)[i]
  {
    FirstInterval(s);
    assert s[0].Has(s[0].hi - 1);
    var blanks := Blanks(s[0].hi - s[0].lo);
    var held := Held(Overlay(ring, s[0].lo, blanks), s[1..]);
    var expected := map i | i in Held(ring, s) && !(s[0].lo <= i < s[0].hi) :: Held(ring, s)[i];
    assert held.Keys == expected.Keys;
    forall i | i in held
      ensures held[i] == expected[i]
    {
      OverlayAt(ring, s[0].lo, blanks, i, s[0].lo);
    }
  }

  lemma PoppedIsRun(ring: Bytes, s: seq<Interval>)
    requires Canonical(s) && s != [] && ring != []
    ensures forall i :: s[0].lo <= i < s[0].hi ==> i in Held(ring, s)
    ensures Slice(ring, s[0].lo, s[0].hi - s[0].lo) == BytesOf(Held(ring, s), s[0].lo, s[0].hi)
  {
    FirstInterval(s);
    forall i | s[0].lo <= i < s[0].hi
      ensures i in Covered(s)
    {
      assert s[0].Has(i);
    }
  }

  /** The run to deliver is the first interval when that starts right at `from`, else nothing. */
  lemma RunIsFirstInterval(s: seq<Interval>, from: nat)
    requires Canonical(s)
    requires forall i :: i in Covered(s) ==> from <= i
    ensures Gap(Covered(s), from) == if s != [] && s[0].lo == from then s[0].hi else from
  {
    if s != [] {
      FirstInterval(s);
      assert s[0].Has(s[0].lo);
      if s[0].lo == from {
        forall i | from <= i < s[0].hi
          ensures i in Covered(s)
        {
          assert s[0].Has(i);
        }
        GapIsUnique(Covered(s), from, s[0].hi);
      }
    }
  }

  /** Clamping both ends to the window, with the end computed in 64 bits: the program gives up
      exactly when the substring starts beyond the window. */
  lemma Clamp(first: u64, size: nat, lo: nat, hi: nat, start: nat, end: nat)
    requires lo <= hi < TWO64 && (first <= hi ==> first + size < TWO64)
    requires start == Max(Min(first, hi), lo) && end == Max(Min((first + size) % TWO64, hi), lo)
    ensures end < start || start < first <==> first > hi
    ensures first <= hi ==> first <= start <= end <= hi && end == Max(Min(first + size, hi), lo)
    ensures first <= hi && start < end ==> end <= first + size
  {
  }

  function Kept(first: nat, data: Bytes, start: nat, end: nat): Bytes
    requires start < end ==> first <= start && end <= first + |data|
  {
    if start < end then data[start - first..end - first] else []
  }

  /** Storing what the clamping kept is storing the clipped bytes. */
  lemma KeptIsClip(a: Assembler, first: nat, data: Bytes, start: nat, end: nat)
    requires a.out.Valid() && first <= a.Edge()
    requires start == Max(Min(first, a.Edge()), a.Unassembled())
    requires end == Max(Min(first + |data|, a.Edge()), a.Unassembled())
    requires start <= end && (start < end ==> end <= first + |data|)
    ensures a.Unassembled() <= start && start + |Kept(first, data, start, end)| == end <= a.Edge()
    ensures a.pending + Clipped(start, Kept(first, data, start, end), start, start + |Kept(first, data, start, end)|)
            == Store(a, first, data).pending
  {
    hide Clipped;
    ClipOfKept(first, data, a.Unassembled(), a.Edge(), start, end);
  }

  lemma ClipOfKept(first: nat, data: Bytes, lo: nat, hi: nat, start: nat, end: nat)
    requires lo <= hi && first <= hi && start == Max(first, lo) && end == Max(Min(first + |data|, hi), lo)
    requires start <= end && (start < end ==> end <= first + |data|)
    ensures var kept := Kept(first, data, start, end);
            && start + |kept| == end <= hi
            && Clipped(start, kept, start, start + |kept|) == Clipped(first, data, lo, hi)
  {
  }

  lemma InsertUnfolds(a: Assembler, known: Assembler, first: u64, data: Bytes, isLast: bool)
    requires a.out.Valid() && known.out == a.out
    requires known == if isLast then a.(last := Some((first + |data|) % TWO64)) else a
    ensures Assembly.Insert(a, first, data, isLast)
            == if first > a.Edge() then known else Flush(Store(known, first, data))
  {
  }

  lemma FirstFits(s: seq<Interval>, lo: nat, hi: nat)
    requires Canonical(s) && CoversWithin(s, lo, hi) && lo <= hi
    ensures s != [] ==> 0 < s[0].hi - s[0].lo <= hi - lo
  {
    if s != [] {
      FirstInterval(s);
      assert s[0].Has(s[0].lo) && s[0].Has(s[0].hi - 1);
    }
  }

  /** What flushing does to ring, intervals and stream. */
  ghost predicate Hit(s: seq<Interval>, from: nat) {
    s != [] && s[0].lo == from
  }

  /** A window of width 0 covers nothing. */
  lemma HeldKeys(a: Assembler, ring: Bytes, s: seq<Interval>)
    requires a.out.Valid() && a.pending == Held(ring, s)
    requires |ring| == a.out.capacity && CoversWithin(s, a.Unassembled(), a.Edge())
    ensures a.pending.Keys == Covered(s) && (ring == [] ==> Covered(s) == {})
  {
    if ring == [] { assert a.Unassembled() == a.Edge(); }
  }

  lemma FlushHit(a: Assembler, ring: Bytes, s: seq<Interval>)
    requires a.out.Valid() && a.pending == Held(ring, s) && Canonical(s)
    requires ring != [] && |ring| == a.out.capacity && CoversWithin(s, a.Unassembled(), a.Edge())
    requires Hit(s, a.Unassembled())
    ensures s[0].lo <= s[0].hi && s[0].hi - s[0].lo <= |ring|
    ensures Flush(a).pending == Held(Overlay(ring, s[0].lo, Blanks(s[0].hi - s[0].lo)), s[1..])
    ensures Flush(a).out == Ended(a.out.Push(Slice(ring, s[0].lo, s[0].hi - s[0].lo)), a.last)
  {
    assert a.pending.Keys == Covered(s);
    RunIsFirstInterval(s, a.Unassembled());
    HeldAfterPop(ring, s);
    PoppedIsRun(ring, s);
  }

  lemma FlushMiss(a: Assembler, ring: Bytes, s: seq<Interval>)
    requires a.out.Valid() && a.pending == Held(ring, s) && Canonical(s)
    requires |ring| == a.out.capacity && CoversWithin(s, a.Unassembled(), a.Edge())
    requires !Hit(s, a.Unassembled())
    ensures Flush(a).pending == a.pending && Flush(a).out == Ended(a.out, a.last)
  {
    HeldKeys(a, ring, s);
    RunIsFirstInterval(s, a.Unassembled());
    assert a.out.Push([]) == a.out;
  }

  /** Flushing on the representation: what it leaves in the ring and in the set is the map that
      flushing leaves, and is again above what has been written and within the window. */
  lemma FlushByIntervals(a: Assembler, ring: Bytes, s: seq<Interval>, ring': Bytes, s': seq<Interval>, out': Stream)
    requires a.out.Valid() && a.pending == Held(ring, s) && Canonical(s)
    requires |ring| == a.out.capacity && CoversWithin(s, a.Unassembled(), a.Edge())
    requires (Hit(s, a.Unassembled()) ==> s[0].lo <= s[0].hi && s[0].hi - s[0].lo <= |ring|)
    requires (ring', s', out')
             == if Hit(s, a.Unassembled())
                then (Overlay(ring, s[0].lo, Blanks(s[0].hi - s[0].lo)), s[1..],
                      a.out.Push(Slice(ring, s[0].lo, s[0].hi - s[0].lo)))
                else (ring, s, a.out)
    ensures Flush(a) == Assembler(Ended(out', a.last), Held(ring', s'), a.last)
    ensures Canonical(s') && CoversWithin(s', |out'.written| + 1, a.Edge())
  {
    HeldKeys(a, ring, s);
    FlushWindow(a);
    if Hit(s, a.Unassembled()) {
      EmptyCoversNothing(s);
      FlushHit(a, ring, s);
      CanonicalUncons(s);
    } else {
      FlushMiss(a, ring, s);
    }
    assert Held(ring', s').Keys == Covered(s');
  }

  class Reassembler {
    var firstUnassembled: nat
    var firstUnacceptable: nat
    var firstUnpopped: nat
    const buffer: CircBuffer
    const intervals: IntervalSet
    var lastIndex: nat
    var lastSeen: bool

    /** The representation invariant, with the stream that this reassembler writes. */
    ghost predicate Valid(out: ByteStream)
      reads this, buffer, buffer.buffer, intervals, out
    {
      && out.Valid() && buffer.Valid()
      && (buffer.sizeSet ==> buffer.size == out.capacity)
      && Canonical(intervals.intervals)
      && (!buffer.sizeSet ==> intervals.intervals == [])
      && CoversWithin(intervals.intervals, out.bytesPushed + 1, out.bytesPopped + out.capacity)
    }

    ghost function View(out: ByteStream): Assembler
      requires Valid(out)
      reads this, buffer, buffer.buffer, intervals, out
    {
      Assembler(out.View(), Held(buffer.buffer[..], intervals.intervals),
                if lastSeen then Some(lastIndex) else None)
    }

    constructor (out: ByteStream)
      requires out.Valid() && out.View() == Empty(out.capacity)
      ensures Valid(out) && View(out) == Fresh(out.capacity)
      ensures fresh(buffer) && fresh(buffer.buffer) && fresh(intervals)
    {
      firstUnassembled, firstUnacceptable, firstUnpopped := 0, 0, 0;
      buffer := new CircBuffer();
      intervals := new IntervalSet();
      lastIndex, lastSeen := 0, false;
    }

    /** Steps 2 and 3 of an insertion into `a`: what the clamping left of the substring goes into
        the ring, its range into the set. */
    method StoreClamped(firstIndex: nat, data: Bytes, start: nat, end: nat, ghost a: Assembler)
      requires buffer.Valid() && buffer.buffer.Length == a.out.capacity
      requires Canonical(intervals.intervals) && CoversWithin(intervals.intervals, a.Unassembled(), a.Edge())
      requires a.out.Valid() && a.pending == Held(buffer.buffer[..], intervals.intervals)
      requires firstIndex <= a.Edge()
      requires start == Max(Min(firstIndex, a.Edge()), a.Unassembled())
      requires end == Max(Min(firstIndex + |data|, a.Edge()), a.Unassembled())
      requires start <= end && (start < end ==> end <= firstIndex + |data|)
      modifies buffer.buffer, intervals
      ensures buffer.Valid() && Canonical(intervals.intervals)
      ensures CoversWithin(intervals.intervals, a.Unassembled(), a.Edge())
      ensures Held(buffer.buffer[..], intervals.intervals) == Store(a, firstIndex, data).pending
    {
      hide Held, Overlay, Clipped, Store, Covered;
      ghost var ring, s := buffer.buffer[..], intervals.intervals;
      var kept := Kept(firstIndex, data, start, end);
      KeptIsClip(a, firstIndex, data, start, end);
      buffer.Insert(start, kept);
      intervals.MergeAndInsert(Interval(start, start + |kept|));
      HeldAfterStore(ring, s, start, kept, a.Unassembled(), intervals.intervals);
    }

    /** Step 4: the first interval goes to the stream if it continues it. */
    method FlushFirst(out: ByteStream)
      requires out.Valid() && firstUnassembled == out.bytesPushed
      requires buffer.Valid() && Canonical(intervals.intervals)
      requires intervals.intervals != [] ==>
                 intervals.intervals[0].hi - intervals.intervals[0].lo <= buffer.buffer.Length
      modifies buffer.buffer, intervals, out
      ensures out.Valid() && buffer.Valid()
      ensures (buffer.buffer[..], intervals.intervals, out.View())
              == old(var ring, s := buffer.buffer[..], intervals.intervals;
                     if Hit(s, out.bytesPushed)
                     then (Overlay(ring, s[0].lo, Blanks(s[0].hi - s[0].lo)), s[1..],
                           out.View().Push(Slice(ring, s[0].lo, s[0].hi - s[0].lo)))
                     else (ring, s, out.View()))
    {
      if !intervals.IsEmpty() {
        if intervals.intervals[0].lo == firstUnassembled {
          var smallest := intervals.PopSmallest();
          var bytes := buffer.Pop(smallest.lo, smallest.hi - smallest.lo);
          out.Push(bytes);
        }
      }
    }

    /** Steps 4 and 5: flush, then close the stream if this was its end. */
    method FlushAndClose(out: ByteStream)
      requires out.Valid() && firstUnassembled == out.bytesPushed
      requires buffer.Valid() && buffer.buffer.Length == out.capacity
      requires Canonical(intervals.intervals)
      requires CoversWithin(intervals.intervals, out.bytesPushed, out.bytesPopped + out.capacity)
      modifies buffer.buffer, intervals, out
      ensures Valid(out)
      ensures View(out) == Flush(Assembler(old(out.View()),
                                           old(Held(buffer.buffer[..], intervals.intervals)),
                                           old(if lastSeen then Some(lastIndex) else None)))
    {
      ghost var ring, s, stream := buffer.buffer[..], intervals.intervals, out.View();
      FirstFits(s, out.bytesPushed, out.bytesPopped + out.capacity);
      FlushFirst(out);
      FlushByIntervals(Assembler(stream, Held(ring, s), if lastSeen then Some(lastIndex) else None),
                       ring, s, buffer.buffer[..], intervals.intervals, out.View());
      if lastSeen && out.bytesPushed == lastIndex {
        out.Close();
      }
    }

    /** Steps 0 and 1: the end of the stream if it is announced, and the window of this moment. */
    method Prepare(firstIndex: u64, size: nat, isLast: bool, out: ByteStream)
      requires Valid(out)
      modifies this, buffer
      ensures Valid(out) && buffer.buffer.Length == out.capacity
      ensures View(out) == if isLast then old(View(out)).(last := Some((firstIndex + size) % TWO64)) else old(View(out))
      ensures firstUnassembled == out.bytesPushed && firstUnacceptable == out.bytesPopped + out.capacity
      ensures buffer.buffer == old(buffer.buffer) || fresh(buffer.buffer)
    {
      if isLast {
        lastIndex := (firstIndex + size) % TWO64;
        lastSeen := true;
      }
      firstUnpopped := out.bytesPopped;
      firstUnassembled := out.bytesPushed;
      firstUnacceptable := firstUnassembled + out.AvailableCapacity();
      if out.capacity > 0 {
        buffer.SetSize(out.capacity);
      }
      assert Held(buffer.buffer[..], intervals.intervals) == old(View(out)).pending;
    }

    method Insert(firstIndex: u64, data: Bytes, isLast: bool, out: ByteStream)
      requires Valid(out)
      requires out.bytesPopped + out.capacity + |data| < TWO64
      modifies this, buffer, buffer.buffer, intervals, out
      ensures Valid(out) && View(out) == Assembly.Insert(old(View(out)), firstIndex, data, isLast)
      ensures buffer.buffer == old(buffer.buffer) || fresh(buffer.buffer)
    {
      hide Held, Clipped, Flush, Covered, Assembly.Insert;
      ghost var before := View(out);
      Prepare(firstIndex, |data|, isLast, out);
      ghost var known := View(out);
      InsertUnfolds(before, known, firstIndex, data, isLast);
      var start := Max(Min(firstIndex, firstUnacceptable), firstUnassembled);
      var end := Max(Min((firstIndex + |data|) % TWO64, firstUnacceptable), firstUnassembled);
      Clamp(firstIndex, |data|, firstUnassembled, firstUnacceptable, start, end);
      if end < start {
        return;
      }
      if start < firstIndex {
        return;
      }
      StoreClamped(firstIndex, data, start, end, known);
      FlushAndClose(out);
    }

    method BytesPending(ghost out: ByteStream) returns (pending: nat)
      requires Valid(out)
      ensures pending == |View(out).pending|
      ensures pending == 0 || pending < out.View().Available()
    {
      var total := 0;
      var k := 0;
      while k < |intervals.intervals|
        invariant 0 <= k <= |intervals.intervals|
        invariant total == TotalLength(intervals.intervals[..k])
      {
        TotalLengthSnoc(intervals.intervals[..k], intervals.intervals[k]);
        assert intervals.intervals[..k + 1] == intervals.intervals[..k] + [intervals.intervals[k]];
        total := total + (intervals.intervals[k].hi - intervals.intervals[k].lo);
        k := k + 1;
      }
      assert intervals.intervals[..k] == intervals.intervals;
      TotalLengthCounts(intervals.intervals);
      assert View(out).pending.Keys == Covered(intervals.intervals);
      PendingBelowAvailable(View(out));
      pending := total;
    }
  }

  /** The stream's reader takes bytes behind the reassembler's back; the window only moves up. */
  method TakeFrom(r: Reassembler, out: ByteStream, len: nat)
    requires r.Valid(out)
    modifies out
    ensures r.Valid(out) && r.View(out) == Take(old(r.View(out)), len)
  {
    out.Pop(len);
  }
}
