/** Reading and writing big-endian integers over data that comes in chunks. */
module Parsers {
  import opened Words
  import opened Chunks

  // ---- big-endian numbers ----

  function ToBytes(val: nat, n: nat): (r: Bytes)
    ensures |r| == n
    decreases n
  {
    if n == 0 then [] else ToBytes(val / 256, n - 1) + [val % 256]
  }

  function BigEndian(data: Bytes): nat
    decreases data
  {
    if data == [] then 0 else BigEndian(data[..|data| - 1]) * 256 + data[|data| - 1]
  }

  function Pow256(n: nat): nat
    decreases n
  {
    if n == 0 then 1 else 256 * Pow256(n - 1)
  }

  lemma {:induction false} BigEndianOfBytes(val: nat, n: nat)
    requires val < Pow256(n)
    ensures BigEndian(ToBytes(val, n)) == val
    decreases n
  {
    if n > 0 {
      BigEndianOfBytes(val / 256, n - 1);
      assert ToBytes(val, n)[..n - 1] == ToBytes(val / 256, n - 1);
    }
  }

  lemma {:induction false} BytesOfBigEndian(data: Bytes)
    ensures BigEndian(data) < Pow256(|data|)
    ensures ToBytes(BigEndian(data), |data|) == data
    decreases data
  {
    if data != [] {
      var init, last := data[..|data| - 1], data[|data| - 1];
      BytesOfBigEndian(init);
      assert BigEndian(data) / 256 == BigEndian(init) && BigEndian(data) % 256 == last;
      assert init + [last] == data;
    }
  }

  lemma BigEndianSnoc(data: Bytes, b: byte)
    ensures BigEndian(data + [b]) == BigEndian(data) * 256 + b
  {
    assert (data + [b])[..|data|] == data;
  }

  /** Most significant byte first, for the sizes that headers use. */
  lemma BigEndianValues(data: Bytes)
    ensures |data| == 1 ==> BigEndian(data) == data[0]
    ensures |data| == 2 ==> BigEndian(data) == data[0] as int * 256 + data[1]
    ensures |data| == 4 ==>
              BigEndian(data) == data[0] as int * 16777216 + data[1] as int * 65536 + data[2] as int * 256 + data[3]
  {
    if |data| == 4 {
      var three := data[..3];
      assert three[..2] == data[..2];
      assert BigEndian(three) == BigEndian(data[..2]) * 256 + data[2];
      BigEndianValues(data[..2]);
    } else if |data| == 2 {
      assert BigEndian(data[..1]) == data[0] by { BigEndianValues(data[..1]); }
    }
  }

  lemma Pow256Values()
    ensures Pow256(1) == 256 && Pow256(2) == TWO16 && Pow256(4) == TWO32
  {
    assert Pow256(2) == 256 * Pow256(1);
    assert Pow256(3) == 256 * Pow256(2);
  }

  lemma NumberReads(val: nat, n: nat)
    requires (n == 1 && val < 256) || (n == 2 && val < TWO16) || (n == 4 && val < TWO32)
    ensures BigEndian(ToBytes(val, n)) == val
    ensures n == 1 ==> ToBytes(val, n) == [val]
  {
    Pow256Values();
    BigEndianOfBytes(val, n);
    assert ToBytes(val / 256, 0) == [];
  }

  /** A flag at its place in an octet or word. */
  function Flag(b: bool, weight: nat): nat {
    if b then weight else 0
  }

  // ---- the chunked input ----

  /** The next `n` bytes come before any empty chunk: then the front chunk has a byte to show as
      long as any of them is left. Peeking at an empty chunk is what the program must not do. */
  ghost predicate Readable(chunks: seq<Bytes>, skip: nat, n: nat)
    decreases chunks
  {
    n == 0 ||
    (chunks != [] && skip < |chunks[0]| &&
     (n <= |chunks[0]| - skip || Readable(chunks[1..], 0, n - (|chunks[0]| - skip))))
  }

  /** `n` bytes further on, everything that was readable still is. */
  ghost predicate Ahead(chunks: seq<Bytes>, skip: nat, chunks': seq<Bytes>, skip': nat, n: nat) {
    forall m: nat :: m >= n && Readable(chunks, skip, m) ==> Readable(chunks', skip', m - n)
  }

  lemma AheadTwice(a: seq<Bytes>, i: nat, b: seq<Bytes>, j: nat, c: seq<Bytes>, k: nat, n: nat, m: nat)
    requires Ahead(a, i, b, j, n) && Ahead(b, j, c, k, m)
    ensures Ahead(a, i, c, k, n + m)
  {
    hide Readable;
  }

  /** Moving `n` bytes on within the front chunk, and off it at its end. */
  lemma MoveOn(chunks: seq<Bytes>, skip: nat, n: nat, chunks': seq<Bytes>, skip': nat)
    requires chunks != [] && skip + n <= |chunks[0]|
    requires if skip + n == |chunks[0]| then chunks' == chunks[1..] && skip' == 0
             else chunks' == chunks && skip' == skip + n
    ensures Ahead(chunks, skip, chunks', skip', n)
    ensures skip + n <= |Flatten(chunks)| && |Flatten(chunks')| - skip' == |Flatten(chunks)| - skip - n
    ensures skip' <= |Flatten(chunks')| && Flatten(chunks')[skip'..] == Flatten(chunks)[skip..][n..]
  {
    assert Flatten(chunks) == chunks[0] + Flatten(chunks[1..]);
  }

  lemma NothingToMove(chunks: seq<Bytes>, skip: nat, n: nat)
    requires n == 0 || chunks == []
    ensures Ahead(chunks, skip, chunks, skip, n)
    ensures chunks == [] ==> Flatten(chunks) == []
  {
  }

  lemma AheadReads(a: seq<Bytes>, i: nat, b: seq<Bytes>, j: nat, n: nat, m: nat)
    requires Ahead(a, i, b, j, n) && n <= m && Readable(a, i, m)
    ensures Readable(b, j, m - n)
  {
    hide Readable;
  }

  /** Any split into non-empty chunks is readable to its end. */
  lemma {:induction false} NonEmptyReadable(chunks: seq<Bytes>, n: nat)
    requires NoEmptyChunk(chunks) && n <= |Flatten(chunks)|
    ensures Readable(chunks, 0, n)
    decreases chunks
  {
    if n > 0 && n > |chunks[0]| {
      NonEmptyReadable(chunks[1..], n - |chunks[0]|);
    }
  }

  lemma {:induction false} ReadableLess(chunks: seq<Bytes>, skip: nat, n: nat, m: nat)
    requires Readable(chunks, skip, n) && m <= n
    ensures Readable(chunks, skip, m)
    decreases chunks
  {
    if m > 0 && m > |chunks[0]| - skip {
      ReadableLess(chunks[1..], 0, n - (|chunks[0]| - skip), m - (|chunks[0]| - skip));
    }
  }

  function Field(data: Bytes, at: nat, n: nat): nat
    requires at + n <= |data|
  {
    BigEndian(data[at..at + n])
  }

  lemma OneByteField(data: Bytes, at: nat)
    requires at < |data|
    ensures Field(data, at, 1) == data[at]
  {
    var none: Bytes := [];
    assert data[at..at + 1] == none + [data[at]];
    BigEndianSnoc(none, data[at]);
  }

  class BufferList {
    var size: nat
    var buffer: seq<Bytes>
    var skip: nat

    ghost predicate Valid()
      reads this
    {
      && (buffer == [] ==> skip == 0)
      && (buffer != [] ==> skip < |buffer[0]| || (skip == 0 && buffer[0] == []))
      && size == |Flatten(buffer)| - skip
    }

    /** The bytes still to be read. */
    ghost function Rest(): (r: Bytes)
      requires Valid()
      reads this
      ensures |r| == size
    {
      Flatten(buffer)[skip..]
    }

    ghost predicate CanRead(n: nat)
      requires Valid()
      reads this
    {
      Readable(buffer, skip, n)
    }

    constructor (buffers: seq<Bytes>)
      ensures Valid() && Rest() == Flatten(buffers)
      ensures buffer == buffers && skip == 0
    {
      size, buffer, skip := 0, [], 0;
      new;
      var i := 0;
      while i < |buffers|
        invariant 0 <= i <= |buffers|
        invariant Valid() && buffer == buffers[..i] && skip == 0
      {
        Append(buffers[i]);
        i := i + 1;
      }
      assert buffers[..i] == buffers;
    }

    constructor CopyOf(other: BufferList)
      requires other.Valid()
      ensures Valid() && Rest() == other.Rest() && buffer == other.buffer && skip == other.skip
    {
      size, buffer, skip := other.size, other.buffer, other.skip;
    }

    method Append(str: Bytes)
      requires Valid()
      modifies this
      ensures Valid() && Rest() == old(Rest()) + str
      ensures buffer == old(buffer) + [str] && skip == old(skip)
    {
      FlattenAppend(buffer, str);
      size := size + |str|;
      buffer := buffer + [str];
    }

    /** The unread part of the front chunk; none when there is no chunk (the program throws). */
    function Peek(): (view: Option<Bytes>)
      requires Valid()
      reads this
      ensures size > 0 ==> view.Some?
      ensures view.Some? ==> view.value <= Rest()
      ensures forall n: nat :: n > 0 && CanRead(n) ==> view.Some? && view.value != []
    {
      if buffer == [] then None else
        assert Flatten(buffer) == buffer[0] + Flatten(buffer[1..]);
        Some(buffer[0][skip..])
    }

    /** Drops whole chunks and moves `skip` in the last one. */
    method RemovePrefix(len: nat)
      requires Valid()
      modifies this
      ensures Valid() && Rest() == old(Rest())[Min(len, old(size))..]
      ensures Ahead(old(buffer), old(skip), buffer, skip, len)
    {
      hide Flatten, Readable, Ahead;
      var left: nat := len;
      NothingToMove(buffer, skip, 0);
      while left > 0 && buffer != []
        invariant Valid() && left <= len
        invariant size + (len - left) == old(size)
        invariant Rest() == old(Rest())[len - left..]
        invariant Ahead(old(buffer), old(skip), buffer, skip, len - left)
        decreases |buffer|, left
      {
        ghost var buffer', skip', done := buffer, skip, len - left;
        var popped := RemoveFront(left);
        left := left - popped;
        AheadTwice(old(buffer), old(skip), buffer', skip', buffer, skip, done, popped);
      }
      NothingToMove(buffer, skip, left);
      AheadTwice(old(buffer), old(skip), buffer, skip, buffer, skip, len - left, left);
    }

    /** One round of it, within the front chunk or to its end. */
    method RemoveFront(left: nat) returns (popped: nat)
      requires Valid() && buffer != [] && left > 0
      modifies this
      ensures Valid() && popped <= left && size + popped == old(size)
      ensures |buffer| < |old(buffer)| || (|buffer| == |old(buffer)| && popped > 0)
      ensures Rest() == old(Rest())[popped..]
      ensures Ahead(old(buffer), old(skip), buffer, skip, popped)
    {
      popped := Min(left, |buffer[0]| - skip);
      ghost var all := skip + popped == |buffer[0]|;
      MoveOn(buffer, skip, popped, if all then buffer[1..] else buffer, if all then 0 else skip + popped);
      hide Flatten, Readable, Ahead;
      skip := skip + popped;
      size := size - popped;
      if skip == |buffer[0]| {
        buffer := buffer[1..];
        skip := 0;
      }
    }

    /** All that is left, as chunks: the front one without what was skipped. The program moves the
        chunks out, so the list is not used again. */
    method DumpChunks() returns (out: seq<Bytes>)
      requires Valid()
      modifies this
      ensures Flatten(out) == old(Rest())
    {
      out := [];
      if size == 0 {
        return;
      }
      assert Flatten(buffer) == buffer[0] + Flatten(buffer[1..]);
      out := [buffer[0][skip..]];
      ghost var rest := buffer[1..];
      buffer := buffer[1..];
      var i := 0;
      while i < |buffer|
        invariant 0 <= i <= |buffer| && buffer == rest
        invariant Flatten(out) == old(buffer)[0][old(skip)..] + Flatten(rest[..i])
      {
        FlattenAppend(out, buffer[i]);
        FlattenAppend(rest[..i], rest[i]);
        assert rest[..i + 1] == rest[..i] + [rest[i]];
        out := out + [buffer[i]];
        i := i + 1;
      }
      assert rest[..i] == rest;
    }

    method DumpBytes() returns (out: Bytes)
      requires Valid()
      modifies this
      ensures out == old(Rest())
    {
      var concat := DumpChunks();
      if |concat| == 1 {
        assert concat == [concat[0]] + [];
        return concat[0];
      }
      out := [];
      var i := 0;
      while i < |concat|
        invariant 0 <= i <= |concat|
        invariant out == Flatten(concat[..i])
      {
        FlattenAppend(concat[..i], concat[i]);
        assert concat[..i + 1] == concat[..i] + [concat[i]];
        out := out + concat[i];
        i := i + 1;
      }
      assert concat[..i] == concat;
    }
  }

  class Parser {
    const input: BufferList
    var error: bool

    ghost predicate Valid()
      reads this, input
    {
      input.Valid()
    }

    constructor (buffers: seq<Bytes>)
      ensures Valid() && !error && fresh(input)
      ensures input.Rest() == Flatten(buffers) && input.buffer == buffers && input.skip == 0
    {
      input := new BufferList(buffers);
      error := false;
    }

    /** The copy that looks ahead without moving the original. */
    constructor Copy(p: Parser)
      requires p.Valid()
      ensures Valid() && error == p.error && fresh(input) && input.Rest() == p.input.Rest()
    {
      input := new BufferList.CopyOf(p.input);
      error := p.error;
    }

    method SetError()
      modifies this
      ensures error
    {
      error := true;
    }

    method RemovePrefix(len: nat)
      requires Valid()
      modifies input
      ensures Valid() && input.Rest() == old(input.Rest())[Min(len, |old(input.Rest())|)..]
    {
      input.RemovePrefix(len);
    }

    method AllRemaining() returns (out: Bytes)
      requires Valid()
      modifies input
      ensures out == old(input.Rest())
    {
      out := input.DumpBytes();
    }

    /** An `n`-byte big-endian integer. If too few bytes are left, or there was an error before,
        the error is (or stays) set and neither `previous` nor the input changes. */
    method Integer(n: nat, previous: nat) returns (out: nat)
      requires Valid() && n > 0
      requires !error && n <= input.size ==> input.CanRead(n)
      modifies this, input
      ensures Valid() && error == (old(error) || n > old(input.size))
      ensures error ==> out == previous && input.Rest() == old(input.Rest())
      ensures error ==> input.buffer == old(input.buffer) && input.skip == old(input.skip)
      ensures !error ==> out == BigEndian(old(input.Rest())[..n]) && input.Rest() == old(input.Rest())[n..]
      ensures !error ==> Ahead(old(input.buffer), old(input.skip), input.buffer, input.skip, n)
    {
      if n > input.size {
        error := true;
      }
      out := previous;
      if error {
        return;
      }
      out := ReadBytes(n);
    }

    /** Reading `data` field by field within a header of `header` bytes: `k` bytes have been read,
        or the data turned out too short for the header. */
    ghost predicate At(data: Bytes, k: nat, header: nat)
      reads this, input
    {
      && Valid()
      && (error ==> |data| < header)
      && (!error ==> && k <= |data| && k <= header && input.Rest() == data[k..]
                     && input.CanRead(Min(header, |data|) - k))
    }

    method NextField(n: nat, previous: nat, ghost data: Bytes, ghost k: nat, ghost header: nat) returns (out: nat)
      requires At(data, k, header) && 0 < n && k + n <= header
      modifies this, input
      ensures At(data, k + n, header)
      ensures !error ==> k + n <= |data| && out == Field(data, k, n) && out < Pow256(n)
      ensures error ==> out == previous
      ensures old(error) ==> error
    {
      hide Readable, Ahead, BigEndian;
      ghost var chunks, skip := input.buffer, input.skip;
      if !error && n <= input.size {
        ReadableLess(chunks, skip, Min(header, |data|) - k, n);
      }
      out := Integer(n, previous);
      if !error {
        AheadReads(chunks, skip, input.buffer, input.skip, n, Min(header, |data|) - k);
        assert data[k..][..n] == data[k..k + n] && data[k..][n..] == data[k + n..];
        BytesOfBigEndian(data[k..k + n]);
      }
    }

    method ReadBytes(n: nat) returns (out: nat)
      requires Valid() && n <= input.size && input.CanRead(n)
      modifies input
      ensures Valid() && out == BigEndian(old(input.Rest())[..n]) && input.Rest() == old(input.Rest())[n..]
      ensures Ahead(old(input.buffer), old(input.skip), input.buffer, input.skip, n)
    {
      out := 0;
      ghost var before, chunks, skip := input.Rest(), input.buffer, input.skip;
      assert Ahead(chunks, skip, chunks, skip, 0) && BigEndian(before[..0]) == 0;
      hide Readable, Ahead, BigEndian, Flatten;
      var i: nat := 0;
      while i < n
        invariant 0 <= i <= n && Valid()
        invariant input.Rest() == before[i..] && out == BigEndian(before[..i])
        invariant Ahead(chunks, skip, input.buffer, input.skip, i)
      {
        ghost var chunks', skip' := input.buffer, input.skip;
        AheadReads(chunks, skip, chunks', skip', i, n);
        var b := NextByte(n - i);
        AheadTwice(chunks, skip, chunks', skip', input.buffer, input.skip, i, 1);
        assert before[..i + 1] == before[..i] + [b];
        BigEndianSnoc(before[..i], b);
        out := out * 256 + b;
        i := i + 1;
      }
    }

    /** The front byte of the input, and past it. */
    method NextByte(ghost n: nat) returns (b: byte)
      requires Valid() && n > 0 && input.CanRead(n)
      modifies input
      ensures Valid() && 0 < |old(input.Rest())| && b == old(input.Rest())[0]
      ensures input.Rest() == old(input.Rest())[1..]
      ensures Ahead(old(input.buffer), old(input.skip), input.buffer, input.skip, 1)
    {
      hide Readable, Ahead, Flatten;
      var view := input.Peek();
      b := view.value[0];
      input.RemovePrefix(1);
    }
  }

  // ---- writing ----

  lemma QuotientIs(a: nat, d: nat, q: nat, r: nat)
    requires d > 0 && r < d && a == d * q + r
    ensures a / d == q
  {
    var p, m := a / d, a % d;
    assert d * (p - q) == r - m;
    assert p - q >= 1 ==> d * (p - q) >= d;
    assert p - q <= -1 ==> d * (p - q) + d <= 0;
  }

  lemma DivideTwice(a: nat, c: nat)
    requires c > 0
    ensures a / 256 / c == a / (256 * c)
  {
    var q := a / 256;
    var p, t := q / c, q % c;
    assert q == c * p + t;
    assert 256 * (c * p) == (256 * c) * p;
    QuotientIs(a, 256 * c, p, 256 * t + a % 256);
  }

  lemma {:induction false} Pow256Positive(n: nat)
    ensures Pow256(n) > 0
    decreases n
  {
    if n > 0 { Pow256Positive(n - 1); }
  }

  lemma {:induction false} ByteOf(val: nat, n: nat, i: nat)
    requires i < n
    ensures Pow256(n - 1 - i) > 0
    ensures ToBytes(val, n)[i] == val / Pow256(n - 1 - i) % 256
    decreases n
  {
    Pow256Positive(n - 1 - i);
    if i < n - 1 {
      ByteOf(val / 256, n - 1, i);
      DivideTwice(val, Pow256(n - 2 - i));
    }
  }

  class Serializer {
    var output: seq<Bytes>
    var buffer: Bytes

    constructor ()
      ensures output == [] && buffer == []
    {
      output, buffer := [], [];
    }

    ghost function Written(): Bytes
      reads this
    {
      Flatten(output) + buffer
    }

    method Integer(val: nat, len: nat)
      modifies this`buffer
      ensures buffer == old(buffer) + ToBytes(val, len)
    {
      var i := 0;
      while i < len
        invariant 0 <= i <= len
        invariant buffer == old(buffer) + ToBytes(val, len)[..i]
      {
        ByteOf(val, len, i);
        var byteVal: byte := val / Pow256(len - i - 1) % 256;
        buffer := buffer + [byteVal];
        i := i + 1;
      }
      assert ToBytes(val, len)[..i] == ToBytes(val, len);
    }

    method Flush()
      modifies this
      ensures output == old(output) + [old(buffer)] && buffer == []
      ensures Written() == old(Written())
    {
      FlattenAppend(output, buffer);
      output := output + [buffer];
      buffer := [];
    }

    method Buffer(buf: Bytes)
      modifies this
      ensures output == old(output) + [old(buffer), buf] && buffer == []
      ensures Written() == old(Written()) + buf
    {
      Flush();
      FlattenAppend(output, buf);
      output := output + [buf];
    }

    method Output() returns (out: seq<Bytes>)
      modifies this
      ensures out == old(output) + [old(buffer)]
      ensures Flatten(out) == old(Written())
    {
      Flush();
      out := output;
    }
  }
}
