/** The reassembler's set of stored index ranges. The program keeps half-open intervals in an
    ordered set; the model keeps that set as the sequence of its elements in order. */
module Intervals {
  import opened Words

  datatype Interval = Interval(lo: nat, hi: nat) {
    predicate Has(n: int) {
      lo <= n < hi
    }
  }

  /** Overlapping or adjacent: nothing lies strictly between the two. */
  predicate Touches(x: Interval, y: Interval) {
    x.lo <= y.hi && y.lo <= x.hi
  }

  predicate Within(x: Interval, y: Interval) {
    y.lo <= x.lo && x.hi <= y.hi
  }

  function Range(lo: nat, hi: nat): (r: set<nat>)
    ensures forall n: nat :: n in r <==> lo <= n < hi
    decreases hi
  {
    if lo < hi then Range(lo, hi - 1) + {hi - 1} else {}
  }

  /** The indices that some interval contains. */
  ghost function Covered(s: seq<Interval>): set<nat> {
    if s == [] then {} else Range(s[0].lo, s[0].hi) + Covered(s[1..])
  }

  lemma {:induction false} InCovered(s: seq<Interval>, n: nat)
    ensures n in Covered(s) <==> exists x :: x in s && x.Has(n)
  {
    if s != [] {
      InCovered(s[1..], n);
      assert s == [s[0]] + s[1..];
      assert s[0].Has(n) <==> n in Range(s[0].lo, s[0].hi);
      assert forall x :: x in s <==> x == s[0] || x in s[1..];
    }
  }

  /** Canonical form: no empty interval, ascending, and a gap between neighbours. */
  ghost predicate Canonical(s: seq<Interval>) {
    && (forall i :: 0 <= i < |s| ==> s[i].lo < s[i].hi)
    && (forall i, j :: 0 <= i < j < |s| ==> s[i].hi < s[j].lo)
  }

  /** `r` is what inserting `x` into `s` must give. */
  ghost predicate IsMerge(s: seq<Interval>, x: Interval, r: seq<Interval>) {
    Canonical(r) && Covered(r) == Covered(s) + Range(x.lo, x.hi)
  }

  lemma CanonicalCons(x: Interval, t: seq<Interval>)
    requires Canonical(t) && x.lo < x.hi
    requires forall y :: y in t ==> x.hi < y.lo
    ensures Canonical([x] + t)
  {
    var s := [x] + t;
    forall i, j | 0 <= i < j < |s|
      ensures s[i].hi < s[j].lo
    {
      assert s[j] == t[j - 1] && t[j - 1] in t;
    }
  }

  lemma CanonicalUncons(s: seq<Interval>)
    requires Canonical(s) && s != []
    ensures Canonical(s[1..]) && s == [s[0]] + s[1..] && s[0].lo < s[0].hi
    ensures forall y :: y in s[1..] ==> s[0].hi < y.lo < y.hi
    ensures forall y :: y in s <==> y == s[0] || y in s[1..]
  {
    assert s == [s[0]] + s[1..];
  }

  // ---- canonical sets are determined by what they cover ----

  lemma EmptyCoversNothing(s: seq<Interval>)
    requires Canonical(s)
    ensures s == [] <==> Covered(s) == {}
  {
    if s != [] { assert s[0].lo in Range(s[0].lo, s[0].hi); }
  }

  /** Where a canonical set's first interval starts and ends can be read off the covered set. */
  lemma FirstInterval(s: seq<Interval>)
    requires Canonical(s) && s != []
    ensures forall n :: n in Covered(s) ==> s[0].lo <= n
    ensures forall n: nat :: s[0].Has(n) ==> n in Covered(s)
    ensures s[0].hi !in Covered(s)
    ensures forall n :: n in Covered(s[1..]) ==> n > s[0].hi
    ensures Covered(s[1..]) == Covered(s) - Range(s[0].lo, s[0].hi)
  {
    CanonicalUncons(s);
    forall n: nat
      ensures n in Covered(s[1..]) ==> n > s[0].hi
      ensures n in Covered(s) <==> s[0].Has(n) || n in Covered(s[1..])
    {
      InCovered(s[1..], n);
    }
  }

  lemma SameFirst(a: seq<Interval>, b: seq<Interval>)
    requires Canonical(a) && Canonical(b) && a != [] && b != []
    requires Covered(a) == Covered(b)
    ensures a[0] == b[0]
  {
    FirstInterval(a);
    FirstInterval(b);
    CanonicalUncons(a);
    CanonicalUncons(b);
    assert a[0].Has(a[0].lo) && b[0].Has(b[0].lo);
    assert a[0].lo == b[0].lo;
    assert !a[0].Has(b[0].hi) && !b[0].Has(a[0].hi);
  }

  lemma {:induction false} CanonicalUnique(a: seq<Interval>, b: seq<Interval>)
    requires Canonical(a) && Canonical(b)
    requires Covered(a) == Covered(b)
    ensures a == b
  {
    EmptyCoversNothing(a);
    EmptyCoversNothing(b);
    hide Covered, Canonical, Range;
    if a != [] {
      SameFirst(a, b);
      FirstInterval(a);
      FirstInterval(b);
      CanonicalUncons(a);
      CanonicalUncons(b);
      CanonicalUnique(a[1..], b[1..]);
    }
  }

  lemma MergeCommutes(s: seq<Interval>, x: Interval, y: Interval,
                      sx: seq<Interval>, sxy: seq<Interval>, sy: seq<Interval>, syx: seq<Interval>)
    requires IsMerge(s, x, sx) && IsMerge(sx, y, sxy)
    requires IsMerge(s, y, sy) && IsMerge(sy, x, syx)
    ensures sxy == syx
  {
    CanonicalUnique(sxy, syx);
  }

  lemma MergeIdempotent(s: seq<Interval>, x: Interval, sx: seq<Interval>, sxx: seq<Interval>)
    requires IsMerge(s, x, sx) && IsMerge(sx, x, sxx)
    ensures sx == sxx
  {
    CanonicalUnique(sx, sxx);
  }

  /** Inserting two touching intervals is inserting the one that spans them. */
  lemma MergeAssociates(s: seq<Interval>, x: Interval, y: Interval,
                        sx: seq<Interval>, sxy: seq<Interval>, spanned: seq<Interval>)
    requires Touches(x, y) && x.lo <= x.hi && y.lo <= y.hi
    requires IsMerge(s, x, sx) && IsMerge(sx, y, sxy)
    requires IsMerge(s, Interval(Min(x.lo, y.lo), Max(x.hi, y.hi)), spanned)
    ensures sxy == spanned
  {
    assert Range(x.lo, x.hi) + Range(y.lo, y.hi) == Range(Min(x.lo, y.lo), Max(x.hi, y.hi));
    CanonicalUnique(sxy, spanned);
  }

  // ---- how many indices are covered ----

  function TotalLength(s: seq<Interval>): int {
    if s == [] then 0 else s[0].hi - s[0].lo + TotalLength(s[1..])
  }

  lemma {:induction false} RangeSize(lo: nat, hi: nat)
    requires lo <= hi
    ensures |Range(lo, hi)| == hi - lo
    decreases hi
  {
    if lo < hi {
      RangeSize(lo, hi - 1);
      assert Range(lo, hi) == Range(lo, hi - 1) + {hi - 1};
    } else {
      assert Range(lo, hi) == {};
    }
  }

  lemma {:induction false} TotalLengthCounts(s: seq<Interval>)
    requires Canonical(s)
    ensures TotalLength(s) == |Covered(s)|
  {
    if s == [] {
      assert Covered(s) == {};
    } else {
      FirstInterval(s);
      CanonicalUncons(s);
      TotalLengthCounts(s[1..]);
      RangeSize(s[0].lo, s[0].hi);
      assert Covered(s[1..]) !! Range(s[0].lo, s[0].hi);
    }
  }

  lemma {:induction false} TotalLengthSnoc(s: seq<Interval>, x: Interval)
    ensures TotalLength(s + [x]) == TotalLength(s) + x.hi - x.lo
  {
    if s != [] {
      TotalLengthSnoc(s[1..], x);
      assert (s + [x])[1..] == s[1..] + [x];
    }
  }

  // ---- the ordered set's own erase and insert ----

  function Erase(s: seq<Interval>, x: Interval): seq<Interval> {
    if s == [] then []
    else if s[0] == x then s[1..]
    else [s[0]] + Erase(s[1..], x)
  }

  predicate Before(x: Interval, y: Interval) {
    x.lo < y.lo || (x.lo == y.lo && x.hi < y.hi)
  }

  function InsertOrdered(s: seq<Interval>, x: Interval): seq<Interval> {
    if s == [] || Before(x, s[0]) then [x] + s
    else if s[0] == x then s
    else [s[0]] + InsertOrdered(s[1..], x)
  }

  lemma {:induction false} EraseIsRemoval(s: seq<Interval>, x: Interval)
    requires Canonical(s)
    ensures Canonical(Erase(s, x))
    ensures forall y :: y in Erase(s, x) <==> y in s && y != x
  {
    if s != [] {
      CanonicalUncons(s);
      EraseIsRemoval(s[1..], x);
      if s[0] != x { CanonicalCons(s[0], Erase(s[1..], x)); }
    }
  }

  lemma {:induction false} InsertIsAddition(s: seq<Interval>, x: Interval)
    requires Canonical(s) && x.lo < x.hi
    requires forall y :: y in s ==> !Touches(x, y)
    ensures Canonical(InsertOrdered(s, x))
    ensures forall y :: y in InsertOrdered(s, x) <==> y in s || y == x
  {
    if s == [] {
    } else if Before(x, s[0]) {
      CanonicalUncons(s);
      CanonicalCons(x, s);
    } else {
      CanonicalUncons(s);
      InsertIsAddition(s[1..], x);
      CanonicalCons(s[0], InsertOrdered(s[1..], x));
    }
  }

  // ---- the merging loop, one erased interval at a time ----

  function Span(x: Interval, y: Interval): Interval {
    Interval(Min(x.lo, y.lo), Max(x.hi, y.hi))
  }

  /** Absorbing `m`, which touches the span, loses no index and gains none. */
  lemma AbsorbCovers(s: seq<Interval>, span: Interval, m: Interval, r: seq<Interval>)
    requires m in s && m.lo < m.hi && span.lo <= span.hi && Touches(m, span)
    requires forall y :: y in r <==> y in s && y != m
    ensures Covered(r) + Range(Span(span, m).lo, Span(span, m).hi) == Covered(s) + Range(span.lo, span.hi)
  {
    forall n: nat
      ensures n in Covered(r) || Span(span, m).Has(n) <==> n in Covered(s) || span.Has(n)
    {
      InCovered(r, n);
      InCovered(s, n);
      assert Span(span, m).Has(n) <==> span.Has(n) || m.Has(n);
    }
  }

  lemma WithinCovers(s: seq<Interval>, x: Interval)
    requires exists y :: y in s && Within(x, y)
    ensures Covered(s) == Covered(s) + Range(x.lo, x.hi)
  {
    var y :| y in s && Within(x, y);
    forall n: nat | n in Range(x.lo, x.hi)
      ensures n in Covered(s)
    {
      InCovered(s, n);
      assert y.Has(n);
    }
  }

  lemma AdditionCovers(s: seq<Interval>, x: Interval, r: seq<Interval>)
    requires forall y :: y in r <==> y in s || y == x
    ensures Covered(r) == Covered(s) + Range(x.lo, x.hi)
  {
    forall n: nat
      ensures n in Covered(r) <==> n in Covered(s) || x.Has(n)
    {
      InCovered(s, n);
      InCovered(r, n);
    }
  }

  /** An interval apart from both the span and `m` is apart from the two together. */
  lemma AbsorbApart(y: Interval, span: Interval, m: Interval)
    requires Touches(m, span) && !Touches(y, span) && !Touches(y, m)
    requires y.lo < y.hi && m.lo < m.hi && span.lo <= span.hi
    ensures !Touches(y, Span(span, m))
  {
  }

  lemma ElementsApart(s: seq<Interval>, x: Interval, y: Interval)
    requires Canonical(s) && x in s && y in s && x != y
    ensures !Touches(x, y)
  {
    var i :| 0 <= i < |s| && s[i] == x;
    var j :| 0 <= j < |s| && s[j] == y;
  }

  class IntervalSet {
    var intervals: seq<Interval>

    constructor ()
      ensures intervals == []
    {
      intervals := [];
    }

    predicate IsEmpty()
      reads this
    {
      intervals == []
    }

    static predicate Contains(value: nat, start: nat, end: nat) {
      start <= value <= end
    }

    /** Whether one stored interval already contains `i`; if none does, which ones touch it. */
    method GetMergeable(i: Interval) returns (contained: bool, mergeable: seq<Interval>)
      requires Canonical(intervals) && i.lo <= i.hi
      ensures contained <==> exists x :: x in intervals && Within(i, x)
      ensures !contained ==> forall x :: x in mergeable <==> x in intervals && Touches(x, i)
      ensures forall j, k :: 0 <= j < k < |mergeable| ==> mergeable[j] != mergeable[k]
    {
      mergeable := [];
      var it := 0;
      while it < |intervals|
        invariant 0 <= it <= |intervals|
        invariant forall x :: x in intervals[..it] ==> !Within(i, x)
        invariant forall j :: 0 <= j < |mergeable| ==> mergeable[j] in intervals[..it]
        invariant forall x :: x in mergeable <==> x in intervals[..it] && Touches(x, i)
        invariant forall j, k :: 0 <= j < k < |mergeable| ==> mergeable[j] != mergeable[k]
      {
        var x := intervals[it];
        assert intervals[..it + 1] == intervals[..it] + [x];
        assert x in intervals && x !in intervals[..it];
        if Contains(i.lo, x.lo, x.hi) && Contains(i.hi, x.lo, x.hi) {
          return true, mergeable;
        }
        if Contains(x.lo, i.lo, i.hi) || Contains(x.hi, i.lo, i.hi) {
          mergeable := mergeable + [x];
        }
        it := it + 1;
      }
      assert intervals[..it] == intervals;
      contained := false;
    }

    method MergeAndInsert(i: Interval)
      requires Canonical(intervals) && i.lo <= i.hi
      modifies this
      ensures IsMerge(old(intervals), i, intervals)
    {
      hide Covered, Erase, InsertOrdered;
      var contained, mergeable := GetMergeable(i);
      if i.lo == i.hi {
        return;
      }
      if contained {
        WithinCovers(intervals, i);
        return;
      }
      var start: nat, end: nat := i.lo, i.hi;
      var k := 0;
      while k < |mergeable|
        invariant 0 <= k <= |mergeable|
        invariant Canonical(intervals)
        invariant forall x :: x in intervals <==> x in old(intervals) && x !in mergeable[..k]
        invariant start <= i.lo && i.hi <= end
        invariant Covered(intervals) + Range(start, end) == Covered(old(intervals)) + Range(i.lo, i.hi)
        invariant forall y :: y in old(intervals) && !Touches(y, i) ==> !Touches(y, Interval(start, end))
      {
        var m := mergeable[k];
        assert mergeable[..k + 1] == mergeable[..k] + [m];
        assert m in intervals;
        ghost var span, before := Interval(start, end), intervals;
        forall y | y in old(intervals) && !Touches(y, i)
          ensures !Touches(y, Span(span, m))
        {
          ElementsApart(old(intervals), y, m);
          AbsorbApart(y, span, m);
        }
        start := Min(start, m.lo);
        end := Max(end, m.hi);
        EraseIsRemoval(intervals, m);
        AbsorbCovers(intervals, span, m, Erase(intervals, m));
        intervals := Erase(intervals, m);
        k := k + 1;
      }
      assert mergeable[..k] == mergeable;
      ghost var merged := Interval(start, end);
      assert forall y :: y in intervals ==> !Touches(merged, y);
      InsertIsAddition(intervals, merged);
      AdditionCovers(intervals, merged, InsertOrdered(intervals, merged));
      intervals := InsertOrdered(intervals, Interval(start, end));
    }

    /** The interval that starts lowest, and the set without it. */
    method PopSmallest() returns (smallest: Interval)
      requires Canonical(intervals) && intervals != []
      modifies this
      ensures smallest == old(intervals)[0] && intervals == old(intervals)[1..]
    {
      smallest := intervals[0];
      intervals := intervals[1..];
    }
  }
}
