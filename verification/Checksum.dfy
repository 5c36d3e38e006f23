/** The Internet checksum (RFC 1071). The program adds byte by byte, remembering across buffers
    whether it stands in the middle of a 16-bit word, and folds the sum at the end. */
module Checksums {
  import opened Words
  import opened Chunks

  const ONES: int := 65535

  // ---- the reference: 16-bit big-endian words, the last one padded with zero ----

  function WordSum(data: Bytes): nat {
    if data == [] then 0
    else if |data| == 1 then data[0] * 256
    else data[0] * 256 + data[1] + WordSum(data[2..])
  }

  /** The ones'-complement sum as a 16-bit number: zero only for a sum of nothing but zeros. */
  function OnesSum(sum: nat): u16 {
    if sum > 0 && sum % ONES == 0 then ONES else sum % ONES
  }

  function Checksum(sum: nat): u16 {
    ONES - OnesSum(sum)
  }

  /** Where the program stands after some bytes: the 32-bit sum, and whether it is mid-word. */
  datatype Tally = Tally(sum: u32, parity: bool)

  function AddByte(t: Tally, b: byte): Tally {
    Tally((t.sum + (if t.parity then b else b * 256)) % TWO32, !t.parity)
  }

  function AddBytes(t: Tally, data: Bytes): Tally
    decreases data
  {
    if data == [] then t else AddBytes(AddByte(t, data[0]), data[1..])
  }

  /** Cutting the data into buffers, at odd places or not, makes no difference. */
  lemma {:induction false} AddBytesConcat(t: Tally, a: Bytes, b: Bytes)
    ensures AddBytes(t, a + b) == AddBytes(AddBytes(t, a), b)
    decreases a
  {
    if a == [] {
      assert a + b == b;
    } else {
      assert (a + b)[1..] == a[1..] + b;
      AddBytesConcat(AddByte(t, a[0]), a[1..], b);
    }
  }

  lemma AddBytesSnoc(t: Tally, a: Bytes, b: byte)
    ensures AddBytes(t, a + [b]) == AddByte(AddBytes(t, a), b)
  {
    AddBytesConcat(t, a, [b]);
    assert [b][1..] == [];
  }

  /** Within 32 bits, the sum is the word sum of everything that was added. */
  lemma {:induction false} AddBytesIsWordSum(t: Tally, data: Bytes)
    requires !t.parity && t.sum + WordSum(data) < TWO32
    ensures AddBytes(t, data) == Tally(t.sum + WordSum(data), |data| % 2 == 1)
    decreases data
  {
    if |data| == 1 {
      assert data[1..] == [];
    } else if |data| >= 2 {
      var u := AddByte(AddByte(t, data[0]), data[1]);
      assert data[1..][1..] == data[2..];
      assert AddBytes(t, data) == AddBytes(u, data[2..]);
      AddBytesIsWordSum(u, data[2..]);
    }
  }

  // ---- folding and verifying ----

  /** Carrying the upper half around keeps the ones'-complement sum. */
  lemma FoldKeeps(x: nat)
    ensures OnesSum(x / TWO16 + x % TWO16) == OnesSum(x)
  {
    assert x == (x / TWO16 + x % TWO16) + x / TWO16 * ONES;
    SameRemainder(x / TWO16 + x % TWO16, x, x / TWO16);
  }

  lemma SameRemainder(a: int, b: int, turns: int)
    requires b == a + turns * ONES
    ensures a % ONES == b % ONES
  {
  }

  /** What the checksum is as a number: the one that makes the sum a multiple of 65535, all ones only
      for a sum of nothing but zeros. */
  lemma ChecksumCompletes(sum: nat)
    ensures (sum + Checksum(sum)) % 65535 == 0
    ensures Checksum(sum) == 65535 <==> sum == 0
  {
    SameRemainder(sum % ONES + Checksum(sum), sum + Checksum(sum), sum / ONES);
  }

  /** And it is the only field value that does, all ones apart. */
  lemma FieldCompletes(sum: nat, field: u16)
    requires sum > 0
    ensures field == Checksum(sum) <==> (sum + field) % 65535 == 0 && field != 65535
  {
    ChecksumCompletes(sum);
    var q, q' := (sum + field) / 65535, (sum + Checksum(sum)) / 65535;
    assert (sum + field) % 65535 == 0 ==> field - Checksum(sum) == 65535 * (q - q');
  }

  /** So it is zero exactly for the positive multiples of 65535. */
  lemma ZeroChecksum(sum: nat)
    ensures Checksum(sum) == 0 <==> sum > 0 && sum % 65535 == 0
  {
    ChecksumCompletes(sum);
    SameRemainder(sum % ONES, sum, sum / ONES);
  }

  /** Data whose checksum field holds the checksum of the rest sums to all ones: it verifies to
      zero, whatever the rest is. */
  lemma ChecksumVerifies(sum: nat)
    ensures Checksum(sum + Checksum(sum)) == 0
  {
    var q := sum / ONES;
    SameRemainder(0, sum + Checksum(sum), if sum % ONES == 0 && sum > 0 then q else q + 1);
  }

  /** And no other field value verifies, except that all ones and all zeros are the same number. */
  lemma OnlyChecksumVerifies(sum: nat, field: u16)
    requires sum > 0
    ensures Checksum(sum + field) == 0 <==>
              field == Checksum(sum) || (field == ONES && Checksum(sum) == 0)
  {
    var q, r := sum / ONES, sum % ONES;
    SameRemainder(r + field, sum + field, q);
  }

  lemma {:induction false} WordSumConcat(a: Bytes, b: Bytes)
    requires |a| % 2 == 0
    ensures WordSum(a + b) == WordSum(a) + WordSum(b)
  {
    if a == [] {
      assert a + b == b;
    } else {
      assert (a + b)[2..] == a[2..] + b;
      WordSumConcat(a[2..], b);
    }
  }

  /** Changing one byte changes the sum by 256 times or once the difference. */
  lemma {:induction false} WordSumUpdate(data: Bytes, i: nat, b: byte)
    requires i < |data|
    ensures WordSum(data[i := b]) == WordSum(data) + (b - data[i]) * (if i % 2 == 0 then 256 else 1)
    decreases i
  {
    if i >= 2 {
      assert data[i := b][2..] == data[2..][i - 2 := b];
      WordSumUpdate(data[2..], i - 2, b);
    } else if |data| >= 2 {
      assert data[i := b][2..] == data[2..];
    }
  }

  /** And never by a multiple of 65535. */
  lemma OneByteShows(sum: int, sum': int, a: byte, b: byte, weight: int)
    requires a != b && (weight == 256 || weight == 1) && sum' == sum + (b - a) * weight
    ensures !(sum % 65535 == 0 && sum' % 65535 == 0)
  {
    assert (b - a) * weight == if weight == 256 then 256 * (b - a) else b - a;
  }

  lemma {:induction false} WordSumBound(data: Bytes)
    ensures WordSum(data) <= (|data| + 1) / 2 * ONES
  {
    if |data| >= 2 { WordSumBound(data[2..]); }
  }

  class InternetChecksum {
    var sum: u32
    var parity: bool

    function View(): Tally
      reads this
    {
      Tally(sum, parity)
    }

    constructor (sum: u32)
      ensures View() == Tally(sum, false)
    {
      this.sum := sum;
      parity := false;
    }

    method Add(data: Bytes)
      modifies this
      ensures View() == AddBytes(old(View()), data)
    {
      var i := 0;
      while i < |data|
        invariant 0 <= i <= |data|
        invariant View() == AddBytes(old(View()), data[..i])
      {
        AddBytesSnoc(old(View()), data[..i], data[i]);
        assert data[..i + 1] == data[..i] + [data[i]];
        var val: nat := data[i];
        if !parity {
          val := val * 256;
        }
        sum := (sum + val) % TWO32;
        parity := !parity;
        i := i + 1;
      }
      assert data[..i] == data;
    }

    method AddAll(buffers: seq<Bytes>)
      modifies this
      ensures View() == AddBytes(old(View()), Flatten(buffers))
    {
      var i := 0;
      while i < |buffers|
        invariant 0 <= i <= |buffers|
        invariant View() == AddBytes(old(View()), Flatten(buffers[..i]))
      {
        Add(buffers[i]);
        FlattenAppend(buffers[..i], buffers[i]);
        assert buffers[..i + 1] == buffers[..i] + [buffers[i]];
        AddBytesConcat(old(View()), Flatten(buffers[..i]), buffers[i]);
        i := i + 1;
      }
      assert buffers[..i] == buffers;
    }

    /** Folds until 16 bits are left, and complements. */
    method Value() returns (value: u16)
      ensures value == Checksum(sum)
    {
      var ret: nat := sum;
      while ret > 0xffff
        invariant OnesSum(ret) == OnesSum(sum)
        decreases ret
      {
        FoldKeeps(ret);
        ret := ret / TWO16 + ret % TWO16;
      }
      value := ONES - ret;
    }
  }
}
