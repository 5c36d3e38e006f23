/** The ring of bytes in which the reassembler keeps what it cannot deliver yet: stream index
    `i` lives in slot `i % size`. */
module CircBuffers {
  import opened Words

  const SPACE: byte := 32
  const UNSET_SIZE := 65000

  // ---- arithmetic of slots ----

  lemma ModOfMultiple(x: int, n: int, q: int)
    requires 0 <= x < n
    ensures (x + n * q) % n == x
  {
    var d, r := (x + n * q) / n, (x + n * q) % n;
    assert n * (d - q) == x - r;
    assert d - q >= 1 ==> n * (d - q) >= n;
    assert d - q <= -1 ==> n * (d - q) <= -n;
  }

  /** How far ahead of `first`'s slot a slot lies on the ring. */
  lemma SlotAhead(slot: int, first: nat, size: int)
    requires 0 <= slot < size
    ensures (slot - first) % size
            == if slot >= first % size then slot - first % size else slot - first % size + size
  {
    var q := first / size;
    var ahead := if slot >= first % size then slot - first % size else slot - first % size + size;
    var turns := if slot >= first % size then -q else -q - 1;
    assert slot - first == ahead + size * turns;
    ModOfMultiple(ahead, size, turns);
  }

  /** Within one window of the ring's size, distance on the ring is distance in the stream. */
  lemma IndexAhead(i: nat, first: nat, size: int)
    requires -size < i - first < size
    ensures (i % size - first) % size == if i >= first then i - first else i - first + size
  {
    var q := i / size;
    var ahead := if i >= first then i - first else i - first + size;
    var turns := if i >= first then -q else -q - 1;
    assert i % size - first == ahead + size * turns;
    ModOfMultiple(ahead, size, turns);
  }

  /** Two indices of one window never share a slot. */
  lemma SlotsDistinct(i: nat, j: nat, size: int)
    requires i != j && -size < i - j < size
    ensures i % size != j % size
  {
    IndexAhead(i, j, size);
    IndexAhead(j, j, size);
  }

  // ---- what an overwrite of part of the ring does ----

  /** `ring` with `data` laid over it from `first`'s slot onwards, around the end if need be. */
  function Overlay(ring: Bytes, first: nat, data: Bytes): (r: Bytes)
    requires |data| <= |ring|
    ensures |r| == |ring|
  {
    seq(|ring|, slot requires 0 <= slot < |ring| =>
      var ahead := (slot - first) % |ring|;
      if ahead < |data| then data[ahead] else ring[slot])
  }

  /** Read through stream indices, an overlay is an update of exactly the indices it spans,
      as long as everything stays within one window. */
  lemma OverlayAt(ring: Bytes, first: nat, data: Bytes, i: nat, window: nat)
    requires 0 < |ring|
    requires window <= first && first + |data| <= window + |ring|
    requires window <= i < window + |ring|
    ensures Overlay(ring, first, data)[i % |ring|]
            == if first <= i < first + |data| then data[i - first] else ring[i % |ring|]
  {
    if first < window + |ring| {
      IndexAhead(i, first, |ring|);
    } else {
      assert data == [];
    }
  }

  function Slice(ring: Bytes, first: nat, amount: nat): (r: Bytes)
    requires 0 < |ring| || amount == 0
    ensures |r| == amount
  {
    seq(amount, k requires 0 <= k < amount => ring[(first + k) % |ring|])
  }

  function Blanks(n: nat): (r: Bytes)
    ensures |r| == n
  {
    seq(n, _ => SPACE)
  }

  /** One contiguous copy into the buffer. */
  function CopiedAt(ring: Bytes, at: nat, data: Bytes): (r: Bytes)
    requires at + |data| <= |ring|
    ensures |r| == |ring|
  {
    ring[..at] + data + ring[at + |data|..]
  }

  lemma CopiedElement(ring: Bytes, at: nat, data: Bytes, slot: nat)
    requires at + |data| <= |ring| && slot < |ring|
    ensures CopiedAt(ring, at, data)[slot] == if at <= slot < at + |data| then data[slot - at] else ring[slot]
  {
  }

  lemma OverlayElement(ring: Bytes, first: nat, data: Bytes, slot: nat)
    requires 0 < |ring| && |data| <= |ring| && slot < |ring|
    ensures var at := first % |ring|;
            var ahead := if slot >= at then slot - at else slot - at + |ring|;
            Overlay(ring, first, data)[slot] == if ahead < |data| then data[ahead] else ring[slot]
  {
    SlotAhead(slot, first, |ring|);
  }

  /** The two ways an overlay lies on the buffer: in one piece, or split at its end. */
  lemma OverlayIsCopies(ring: Bytes, first: nat, data: Bytes)
    requires 0 < |ring| && |data| <= |ring|
    ensures var at := first % |ring|; var room := |ring| - at;
            Overlay(ring, first, data)
            == if room < |data| then CopiedAt(CopiedAt(ring, at, data[..room]), 0, data[room..])
               else CopiedAt(ring, at, data)
  {
    hide Overlay, CopiedAt;
    var at := first % |ring|;
    var room := |ring| - at;
    var copied := if room < |data| then CopiedAt(CopiedAt(ring, at, data[..room]), 0, data[room..])
                  else CopiedAt(ring, at, data);
    forall slot: nat | slot < |ring|
      ensures Overlay(ring, first, data)[slot] == copied[slot]
    {
      OverlayElement(ring, first, data, slot);
      if room < |data| {
        CopiedElement(ring, at, data[..room], slot);
        CopiedElement(CopiedAt(ring, at, data[..room]), 0, data[room..], slot);
      } else {
        CopiedElement(ring, at, data, slot);
      }
    }
  }

  /** The two ways a slice is read, where the second part is read after the first is blanked. */
  lemma SliceIsReads(ring: Bytes, first: nat, amount: nat)
    requires 0 < |ring| && amount <= |ring|
    ensures var at := first % |ring|; var room := |ring| - at;
            Slice(ring, first, amount)
            == if room < amount then ring[at..at + room] + CopiedAt(ring, at, Blanks(room))[..amount - room]
               else ring[at..at + amount]
  {
    var n, at := |ring|, first % |ring|;
    forall k | 0 <= k < amount
      ensures Slice(ring, first, amount)[k] == ring[if at + k < n then at + k else at + k - n]
    {
      var slot := if at + k < n then at + k else at + k - n;
      var turns := if at + k < n then first / n else first / n + 1;
      assert first + k == slot + n * turns;
      ModOfMultiple(slot, n, turns);
    }
  }

  lemma NoRing(first: nat)
    ensures Overlay([], first, []) == []
  {
  }

  lemma BlanksSplit(n: nat, k: nat)
    requires k <= n
    ensures Blanks(n)[..k] == Blanks(k) && Blanks(n)[k..] == Blanks(n - k)
  {
  }

  // ---- memcpy and memset ----

  /** Copying nothing is harmless anywhere. */
  method Copy(target: array<byte>, at: nat, data: Bytes)
    requires data != [] ==> at + |data| <= target.Length
    modifies target
    ensures at + |data| <= target.Length ==> target[..] == CopiedAt(old(target[..]), at, data)
    ensures data == [] ==> target[..] == old(target[..])
  {
    forall k | 0 <= k < |data| {
      target[at + k] := data[k];
    }
  }

  class CircBuffer {
    var buffer: array<byte>
    var size: nat
    var sizeSet: bool

    ghost predicate Valid()
      reads this, buffer
    {
      && (sizeSet ==> 0 < size == buffer.Length)
      && (!sizeSet ==> size == UNSET_SIZE && buffer.Length == 0)
    }

    constructor ()
      ensures Valid() && !sizeSet && fresh(buffer)
    {
      buffer := new byte[0];
      size := UNSET_SIZE;
      sizeSet := false;
    }

    /** Only the first call has an effect. */
    method SetSize(newSize: nat)
      requires Valid() && newSize > 0
      modifies this
      ensures Valid() && sizeSet
      ensures old(sizeSet) ==> buffer == old(buffer) && size == old(size)
      ensures !old(sizeSet) ==> fresh(buffer) && size == newSize && buffer[..] == Blanks(newSize)
    {
      if sizeSet {
        return;
      }
      buffer := new byte[newSize](_ => SPACE);
      size := newSize;
      sizeSet := true;
    }

    /** A ring whose size was never set takes nothing, and nothing is what it is given. */
    method Insert(firstIndex: nat, data: Bytes)
      requires Valid() && |data| <= buffer.Length
      modifies buffer
      ensures buffer[..] == Overlay(old(buffer[..]), firstIndex, data)
    {
      hide Overlay, CopiedAt;
      if sizeSet { OverlayIsCopies(buffer[..], firstIndex, data); }
      var index := firstIndex % size;
      var firstSize := size - index;
      if firstSize < |data| {
        Copy(buffer, index, data[..firstSize]);
        Copy(buffer, 0, data[firstSize..]);
      } else {
        Copy(buffer, index, data);
      }
      assert !sizeSet ==> buffer[..] == [] && data == [];
      NoRing(firstIndex);
    }

    /** The bytes from `index` on, around the end if need be; their slots are blanked. */
    method Pop(index: nat, amount: nat) returns (data: Bytes)
      requires Valid() && sizeSet && amount <= size
      modifies buffer
      ensures data == Slice(old(buffer[..]), index, amount)
      ensures buffer[..] == Overlay(old(buffer[..]), index, Blanks(amount))
    {
      hide Overlay, Slice, CopiedAt, Blanks;
      SliceIsReads(buffer[..], index, amount);
      OverlayIsCopies(buffer[..], index, Blanks(amount));
      var at := index % size;
      var distanceToEnd := size - at;
      if distanceToEnd < amount {
        BlanksSplit(amount, distanceToEnd);
        data := buffer[at..at + distanceToEnd];
        Copy(buffer, at, Blanks(distanceToEnd));
        data := data + buffer[..amount - distanceToEnd];
        Copy(buffer, 0, Blanks(amount - distanceToEnd));
      } else {
        data := buffer[at..at + amount];
        Copy(buffer, at, Blanks(amount));
      }
    }
  }
}
