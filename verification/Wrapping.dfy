/** 32-bit sequence numbers that start at an arbitrary zero point and wrap
    (section 3.4 of RFC 9293), and their conversion from and to absolute 64-bit
    sequence numbers. */
module Wrapping {
  import opened Words

  datatype Wrap32 = Wrap32(raw: u32) {
    function Plus(n: u32): Wrap32 {
      Wrap32((raw + n) % TWO32)
    }

    /** How far `this` is past the zero point, on the circle of 2^32 values. */
    function Offset(zero: Wrap32): u32 {
      (raw - zero.raw) % TWO32
    }
  }

  function Wrap(n: nat, zero: Wrap32): Wrap32 {
    zero.Plus(n % TWO32)
  }

  function Distance(a: int, b: int): nat {
    if a < b then b - a else a - b
  }

  predicate Congruent(n: int, offset: u32) {
    n % TWO32 == offset
  }

  /** `a` is a better answer than `b` for `checkpoint`: nearer, or as near and not higher. */
  predicate AtLeastAsGood(a: int, b: int, checkpoint: int) {
    Distance(a, checkpoint) < Distance(b, checkpoint)
    || (Distance(a, checkpoint) == Distance(b, checkpoint) && a <= b)
  }

  /** The reference meaning of unwrapping: the best among ALL 64-bit values with this offset. */
  ghost predicate IsNearest(v: u64, offset: u32, checkpoint: u64) {
    Congruent(v, offset)
    && forall n: u64 :: Congruent(n, offset) ==> AtLeastAsGood(v, n, checkpoint)
  }

  /** The value in the checkpoint's own block of 2^32, or its neighbour below or above. */
  function Nearest(offset: u32, checkpoint: u64): (v: u64) {
    var here := checkpoint - checkpoint % TWO32 + offset;
    if here >= checkpoint + TWO31 && here >= TWO32 then here - TWO32
    else if here + TWO31 < checkpoint && here + TWO32 < TWO64 then here + TWO32
    else here
  }

  function Unwrapped(w: Wrap32, zero: Wrap32, checkpoint: u64): u64 {
    Nearest(w.Offset(zero), checkpoint)
  }

  lemma CongruentApart(a: int, b: int, offset: u32)
    requires Congruent(a, offset) && Congruent(b, offset)
    ensures a == b || a >= b + TWO32 || b >= a + TWO32
  {
  }

  lemma NearestIsNearest(offset: u32, checkpoint: u64)
    ensures IsNearest(Nearest(offset, checkpoint), offset, checkpoint)
  {
    var v := Nearest(offset, checkpoint);
    assert Congruent(v, offset);
    forall n: u64 | Congruent(n, offset)
      ensures AtLeastAsGood(v, n, checkpoint)
    {
      CongruentApart(v, n, offset);
    }
  }

  /** Only one value is nearest, so the reference meaning leaves no freedom. */
  lemma NearestIsUnique(v: u64, offset: u32, checkpoint: u64)
    ensures IsNearest(v, offset, checkpoint) <==> v == Nearest(offset, checkpoint)
  {
    NearestIsNearest(offset, checkpoint);
    var w := Nearest(offset, checkpoint);
    if IsNearest(v, offset, checkpoint) {
      assert AtLeastAsGood(v, w, checkpoint) && AtLeastAsGood(w, v, checkpoint);
    }
  }

  lemma OffsetOfWrap(n: nat, zero: Wrap32)
    ensures Wrap(n, zero).Offset(zero) == n % TWO32
  {
  }

  /** When unwrapping gives back the absolute number that was wrapped: exactly when it is
      within half the circle of the checkpoint (a tie goes to the lower value), or when the
      competing value on that side does not exist among the 64-bit values. */
  predicate Recoverable(n: u64, checkpoint: u64) {
    if n <= checkpoint
    then checkpoint - n <= TWO31 || n + TWO32 >= TWO64
    else n - checkpoint < TWO31 || n < TWO32
  }

  lemma RoundTripExactly(n: u64, zero: Wrap32, checkpoint: u64)
    ensures Unwrapped(Wrap(n, zero), zero, checkpoint) == n <==> Recoverable(n, checkpoint)
  {
    OffsetOfWrap(n, zero);
    var here := checkpoint - checkpoint % TWO32 + n % TWO32;
    assert Congruent(here, n % TWO32) && Congruent(n, n % TWO32);
    CongruentApart(here, n, n % TWO32);
  }

  lemma RoundTrip(n: u64, zero: Wrap32, checkpoint: u64)
    requires Distance(n, checkpoint) < TWO31
    ensures Unwrapped(Wrap(n, zero), zero, checkpoint) == n
  {
    RoundTripExactly(n, zero, checkpoint);
  }

  /** The other direction: wrapping an unwrapped number gives back the 32-bit number. */
  lemma WrapOfUnwrapped(w: Wrap32, zero: Wrap32, checkpoint: u64)
    ensures Wrap(Unwrapped(w, zero, checkpoint), zero) == w
  {
    var v := Unwrapped(w, zero, checkpoint);
    assert v % TWO32 == w.Offset(zero);
  }

  /** As numbers: wrapping counts upwards from the zero point, and so do adding and the offset. */
  lemma WrapValue(n: nat, zero: Wrap32, w: Wrap32, k: u32)
    ensures Wrap(n, zero).raw == (zero.raw + n) % 0x1_0000_0000
    ensures w.Plus(k).raw == (w.raw + k) % 0x1_0000_0000
    ensures (zero.raw + w.Offset(zero)) % 0x1_0000_0000 == w.raw
  {
    SameResidue(zero.raw + n % TWO32, zero.raw + n, -(n / TWO32));
    SameResidue(zero.raw + w.Offset(zero), w.raw, -((w.raw - zero.raw) / TWO32));
  }

  lemma WrapPlus(n: nat, k: u32, zero: Wrap32)
    ensures Wrap(n, zero).Plus(k) == Wrap(n + k, zero)
  {
    var q := n / TWO32;
    var carry := (zero.raw + n % TWO32) / TWO32;
    SameResidue(zero.raw + (n + k) % TWO32, zero.raw + n + k, -((n + k) / TWO32));
    SameResidue((zero.raw + n % TWO32) % TWO32 + k, zero.raw + n + k, -q - carry);
  }

  lemma SameResidue(a: int, b: int, turns: int)
    requires a == b + turns * TWO32
    ensures a % TWO32 == b % TWO32
  {
  }

  /** The candidates are formed in 64-bit arithmetic, where the lowest one wraps when the
      checkpoint is in the first block and the highest one when it is in the last. */
  function Candidate(k: int, offset: u32): u64 {
    (k * TWO32 + offset) % TWO64
  }

  function ThreeCandidates(offset: u32, checkpoint: u64): seq<u64> {
    var k := checkpoint / TWO32;
    [Candidate(k - 1, offset), Candidate(k, offset), Candidate(k + 1, offset)]
  }

  lemma Candidates(offset: u32, checkpoint: u64)
    ensures var k := checkpoint / TWO32; var here := k * TWO32 + offset;
            && Candidate(k, offset) == here
            && Candidate(k - 1, offset) == here - TWO32 + (if k == 0 then TWO64 else 0)
            && Candidate(k + 1, offset) == here + TWO32 - (if k == TWO32 - 1 then TWO64 else 0)
  {
  }

  /** Taking the first of the three that is strictly nearer than those before it finds the
      nearest 64-bit value: a candidate that wrapped around is too far away to win. */
  lemma FirstBestCandidate(offset: u32, checkpoint: u64, nums: seq<u64>, best: int)
    requires nums == ThreeCandidates(offset, checkpoint)
    requires 0 <= best < 3
    requires forall j :: 0 <= j < best ==> Distance(nums[best], checkpoint) < Distance(nums[j], checkpoint)
    requires forall j :: best < j < 3 ==> Distance(nums[best], checkpoint) <= Distance(nums[j], checkpoint)
    ensures nums[best] == Nearest(offset, checkpoint)
  {
    Candidates(offset, checkpoint);
    assert checkpoint == checkpoint / TWO32 * TWO32 + checkpoint % TWO32;
    assert Distance(nums[0], checkpoint) >= 0 && Distance(nums[1], checkpoint) >= 0;
    assert Distance(nums[2], checkpoint) >= 0;
  }

  method Unwrap(w: Wrap32, zero: Wrap32, checkpoint: u64) returns (result: u64)
    ensures result == Unwrapped(w, zero, checkpoint)
    ensures IsNearest(result, w.Offset(zero), checkpoint)
  {
    var offset := w.Offset(zero);
    var nums := ThreeCandidates(offset, checkpoint);
    assert Distance(nums[1], checkpoint) < TWO32 by {
      Candidates(offset, checkpoint);
    }
    result := 0;
    var distance := TWO64 - 1;
    ghost var best := 0;
    var i := 0;
    while i < 3
      invariant 0 <= i <= 3 && 0 <= best < 3
      invariant i == 0 ==> distance == TWO64 - 1
      invariant i > 0 ==> best < i && distance == Distance(nums[best], checkpoint)
      invariant distance < TWO64 - 1 ==> result == nums[best]
      invariant forall j :: 0 <= j < best ==> distance < Distance(nums[j], checkpoint)
      invariant forall j :: best < j < i ==> distance <= Distance(nums[j], checkpoint)
    {
      var current := if checkpoint > nums[i] then checkpoint - nums[i] else nums[i] - checkpoint;
      if current < distance {
        distance := current;
        result := nums[i];
        best := i;
      }
      i := i + 1;
    }
    FirstBestCandidate(offset, checkpoint, nums, best);
    NearestIsNearest(offset, checkpoint);
  }
}
