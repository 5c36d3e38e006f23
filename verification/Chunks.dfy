/** Byte strings kept as a list of chunks, as the stream's queue and the parser's input are. */
module Chunks {
  import opened Words

  function Flatten(chunks: seq<Bytes>): Bytes {
    if chunks == [] then [] else chunks[0] + Flatten(chunks[1..])
  }

  ghost predicate NoEmptyChunk(chunks: seq<Bytes>) {
    forall i :: 0 <= i < |chunks| ==> chunks[i] != []
  }

  lemma {:induction false} FlattenConcat(a: seq<Bytes>, b: seq<Bytes>)
    ensures Flatten(a + b) == Flatten(a) + Flatten(b)
  {
    if a == [] {
      assert a + b == b;
    } else {
      assert (a + b)[1..] == a[1..] + b;
      FlattenConcat(a[1..], b);
    }
  }

  lemma FlattenAppend(chunks: seq<Bytes>, last: Bytes)
    ensures Flatten(chunks + [last]) == Flatten(chunks) + last
  {
    FlattenConcat(chunks, [last]);
  }

  lemma FlattenEmpty()
    ensures Flatten([]) == []
  {
  }

  /** Taking from the front chunk, either part of it or all of it. */
  lemma DropFromFront(chunks: seq<Bytes>, n: nat)
    requires chunks != [] && n <= |chunks[0]|
    ensures n <= |Flatten(chunks)|
    ensures Flatten([chunks[0][n..]] + chunks[1..]) == Flatten(chunks)[n..]
    ensures n == |chunks[0]| ==> Flatten(chunks[1..]) == Flatten(chunks)[n..]
  {
    assert ([chunks[0][n..]] + chunks[1..])[1..] == chunks[1..];
  }

  lemma FourParts(a: Bytes, b: Bytes, c: Bytes, d: Bytes)
    ensures a + b + c + d == a + (b + (c + d))
    ensures a + b + c + d == a + b + (c + d) == a + (b + c + d)
  {
  }

  lemma ThreeParts(a: Bytes, b: Bytes, c: Bytes)
    ensures (a + b) + c == a + (b + c)
  {
  }
}
