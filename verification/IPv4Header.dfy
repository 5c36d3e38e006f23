/** The IPv4 header on the wire (section 3.1 of RFC 791), its checksum, and its share of the TCP
    checksum. */
module IPv4Headers {
  import opened Words
  import opened Chunks
  import opened Checksums
  import opened Parsers

  const LENGTH := 20

  type u8 = byte

  datatype Header = Header(ver: u8, hlen: u8, tos: u8, len: u16, id: u16, df: bool, mf: bool, offset: u16,
                           ttl: u8, proto: u8, cksum: u16, src: u32, dst: u32)

  /** Flags and fragment offset share 16 bits; only 13 bits of the offset fit. */
  function Fragment(h: Header): u16 {
    Flag(h.df, 0x4000) + Flag(h.mf, 0x2000) + h.offset % 0x2000
  }

  /** Everything before the checksum field, for version 4. */
  function Start(h: Header): (r: Bytes)
    ensures |r| == 10
  {
    Identity(h) + Lifetime(h)
  }

  function Identity(h: Header): (r: Bytes)
    ensures |r| == 6
  {
    ToBytes(64 + h.hlen % 16, 1) + ToBytes(h.tos, 1) + ToBytes(h.len, 2) + ToBytes(h.id, 2)
  }

  function Lifetime(h: Header): (r: Bytes)
    ensures |r| == 4
  {
    ToBytes(Fragment(h), 2) + ToBytes(h.ttl, 1) + ToBytes(h.proto, 1)
  }

  function Addresses(h: Header): (r: Bytes)
    ensures |r| == 8
  {
    ToBytes(h.src, 4) + ToBytes(h.dst, 4)
  }

  function HeaderBytes(h: Header): (r: Bytes)
    ensures |r| == LENGTH
  {
    Start(h) + ToBytes(h.cksum, 2) + Addresses(h)
  }

  function WithChecksum(h: Header): Header {
    h.(cksum := Checksum(AddBytes(Tally(0, false), HeaderBytes(h.(cksum := 0))).sum))
  }

  lemma FieldBounds(data: Bytes)
    requires |data| >= LENGTH
    ensures Field(data, 2, 2) < TWO16 && Field(data, 4, 2) < TWO16 && Field(data, 6, 2) < TWO16
    ensures Field(data, 10, 2) < TWO16 && Field(data, 12, 4) < TWO32 && Field(data, 16, 4) < TWO32
  {
    Pow256Values();
    BytesOfBigEndian(data[2..4]);
    BytesOfBigEndian(data[4..6]);
    BytesOfBigEndian(data[6..8]);
    BytesOfBigEndian(data[10..12]);
    BytesOfBigEndian(data[12..16]);
    BytesOfBigEndian(data[16..20]);
  }

  function Fields(data: Bytes): Header
    requires |data| >= LENGTH
  {
    FieldBounds(data);
    var fragment := Field(data, 6, 2);
    Header(data[0] / 16, data[0] % 16, data[1], Field(data, 2, 2), Field(data, 4, 2),
           fragment / 0x4000 % 2 == 1, fragment / 0x2000 % 2 == 1, fragment % 0x2000,
           data[8], data[9], Field(data, 10, 2), Field(data, 12, 4), Field(data, 16, 4))
  }

  /** A header is accepted exactly when it is whole, of version 4, claims at least its own length,
      and its checksum is the one computed over the same fields. */
  function Parsed(data: Bytes): Option<Header> {
    if |data| >= LENGTH && Fields(data).ver == 4 && Fields(data).hlen >= 5
       && WithChecksum(Fields(data)).cksum == Fields(data).cksum
    then Some(Fields(data)) else None
  }

  // ---- round trip ----

  lemma StartFields(h: Header)
    ensures var d := Start(h);
            && d[0..1] == ToBytes(64 + h.hlen % 16, 1) && d[1..2] == ToBytes(h.tos, 1)
            && d[2..4] == ToBytes(h.len, 2) && d[4..6] == ToBytes(h.id, 2) && d[6..8] == ToBytes(Fragment(h), 2)
            && d[8..9] == ToBytes(h.ttl, 1) && d[9..10] == ToBytes(h.proto, 1)
  {
    hide ToBytes, Fragment;
    IdentityFields(h);
    LifetimeFields(h);
    hide Identity, Lifetime;
    assert Start(h)[..6] == Identity(h) && Start(h)[6..] == Lifetime(h);
    SliceOfPrefix(Start(h), 6, 0, 1);
    SliceOfPrefix(Start(h), 6, 1, 2);
    SliceOfPrefix(Start(h), 6, 2, 4);
    SliceOfPrefix(Start(h), 6, 4, 6);
    assert Start(h)[6..8] == Lifetime(h)[0..2];
    assert Start(h)[8..9] == Lifetime(h)[2..3];
    assert Start(h)[9..10] == Lifetime(h)[3..4];
  }

  lemma IdentityFields(h: Header)
    ensures var d := Identity(h);
            && d[0..1] == ToBytes(64 + h.hlen % 16, 1) && d[1..2] == ToBytes(h.tos, 1)
            && d[2..4] == ToBytes(h.len, 2) && d[4..6] == ToBytes(h.id, 2)
  {
    hide ToBytes;
    var a, b, c, d := ToBytes(64 + h.hlen % 16, 1), ToBytes(h.tos, 1), ToBytes(h.len, 2), ToBytes(h.id, 2);
    assert Identity(h) == a + (b + c + d) == a + b + (c + d);
  }

  lemma LifetimeFields(h: Header)
    ensures var d := Lifetime(h);
            d[0..2] == ToBytes(Fragment(h), 2) && d[2..3] == ToBytes(h.ttl, 1) && d[3..4] == ToBytes(h.proto, 1)
  {
    hide ToBytes, Fragment;
    var a, b, c := ToBytes(Fragment(h), 2), ToBytes(h.ttl, 1), ToBytes(h.proto, 1);
    assert Lifetime(h) == a + (b + c);
  }

  lemma WrittenFields(h: Header, rest: Bytes)
    ensures var d := HeaderBytes(h) + rest;
            && d[..10] == Start(h) && d[10..12] == ToBytes(h.cksum, 2)
            && d[12..16] == ToBytes(h.src, 4) && d[16..20] == ToBytes(h.dst, 4)
  {
    hide ToBytes, Start;
  }

  lemma SliceOfPrefix(d: Bytes, n: nat, i: nat, j: nat)
    requires i <= j <= n <= |d|
    ensures d[i..j] == d[..n][i..j]
  {
  }

  lemma FragmentReads(h: Header)
    requires h.offset < 0x2000
    ensures var f := Fragment(h);
            (f / 0x4000 % 2 == 1) == h.df && (f / 0x2000 % 2 == 1) == h.mf && f % 0x2000 == h.offset
  {
  }

  lemma FieldsOfWritten(h: Header, rest: Bytes)
    requires h.ver == 4 && h.hlen < 16 && h.offset < 0x2000
    ensures Fields(HeaderBytes(h) + rest) == h
  {
    var d := HeaderBytes(h) + rest;
    WrittenFields(h, rest);
    StartFields(h);
    hide HeaderBytes, ToBytes, BigEndian, Fragment, Start;
    SliceOfPrefix(d, 10, 2, 4);
    SliceOfPrefix(d, 10, 4, 6);
    SliceOfPrefix(d, 10, 6, 8);
    NumberReads(h.len, 2);
    NumberReads(h.id, 2);
    NumberReads(Fragment(h), 2);
    NumberReads(h.cksum, 2);
    NumberReads(h.src, 4);
    NumberReads(h.dst, 4);
    OctetsOfWritten(h, d);
    FragmentReads(h);
  }

  lemma OctetsOfWritten(h: Header, d: Bytes)
    requires |d| >= 10 && d[..10] == Start(h)
    ensures d[0] == 64 + h.hlen % 16 && d[1] == h.tos && d[8] == h.ttl && d[9] == h.proto
  {
    StartFields(h);
    hide Start, ToBytes;
    NumberReads(64 + h.hlen % 16, 1);
    NumberReads(h.tos, 1);
    NumberReads(h.ttl, 1);
    NumberReads(h.proto, 1);
    var s := Start(h);
    assert s[0] == s[0..1][0] && s[1] == s[1..2][0] && s[8] == s[8..9][0] && s[9] == s[9..10][0];
    assert forall i :: 0 <= i < 10 ==> d[i] == d[..10][i];
  }

  /** A version-4 header with a computed checksum is accepted and read back as it was, whatever
      options and payload follow it. */
  lemma RoundTripHeader(h: Header, rest: Bytes)
    requires h.ver == 4 && 5 <= h.hlen < 16 && h.offset < 0x2000
    ensures Parsed(HeaderBytes(WithChecksum(h)) + rest) == Some(WithChecksum(h))
  {
    var t := WithChecksum(h);
    FieldsOfWritten(t, rest);
    assert t.(cksum := 0) == h.(cksum := 0);
    hide HeaderBytes, Fields, AddBytes, Checksum;
  }

  lemma SameWritten(h: Header, cut: Header)
    requires cut == h.(offset := h.offset % 0x2000)
    ensures HeaderBytes(h) == HeaderBytes(cut)
  {
    hide ToBytes;
    assert Fragment(h) == Fragment(cut);
  }

  /** A larger offset does not survive the trip: the header reads back as it was if and only if the
      offset fits its 13 bits. */
  lemma RoundTripNeedsOffset(h: Header, rest: Bytes)
    requires h.ver == 4 && h.hlen < 16
    ensures Fields(HeaderBytes(h) + rest) == h <==> h.offset < 0x2000
  {
    if h.offset < 0x2000 {
      FieldsOfWritten(h, rest);
    } else {
      var cut := h.(offset := h.offset % 0x2000);
      SameWritten(h, cut);
      FieldsOfWritten(cut, rest);
      hide HeaderBytes, Fields;
    }
  }

  // ---- checksums ----

  lemma HeaderSum(h: Header)
    ensures WordSum(HeaderBytes(h)) <= 10 * ONES
    ensures AddBytes(Tally(0, false), HeaderBytes(h)) == Tally(WordSum(HeaderBytes(h)), false)
  {
    hide HeaderBytes, WordSum, AddBytes;
    WordSumBound(HeaderBytes(h));
    AddBytesIsWordSum(Tally(0, false), HeaderBytes(h));
  }

  lemma FieldAdds(h: Header)
    ensures WordSum(HeaderBytes(h)) == WordSum(HeaderBytes(h.(cksum := 0))) + h.cksum
  {
    SplitSum(h);
    SplitSum(h.(cksum := 0));
    SameAround(h);
    hide HeaderBytes, WordSum, ToBytes, Start, Addresses;
  }

  lemma SameAround(h: Header)
    ensures Start(h) == Start(h.(cksum := 0)) && Addresses(h) == Addresses(h.(cksum := 0))
  {
    hide ToBytes;
  }

  lemma SplitSum(h: Header)
    ensures WordSum(HeaderBytes(h)) == WordSum(Start(h)) + h.cksum + WordSum(Addresses(h))
  {
    hide Start, Addresses, ToBytes, WordSum;
    var start, field, tail := Start(h), ToBytes(h.cksum, 2), Addresses(h);
    assert start + field + tail == start + (field + tail);
    WordSumConcat(start, field + tail);
    WordSumConcat(field, tail);
    NumberWord(h.cksum);
  }

  lemma NumberWord(c: u16)
    ensures WordSum(ToBytes(c, 2)) == c
  {
    assert ToBytes(c / 256 / 256, 0) == [];
    assert ToBytes(c / 256, 1) == [c / 256];
    assert ToBytes(c, 2) == [c / 256, c % 256];
  }

  /** The words of a header with a computed checksum sum to all ones. */
  lemma HeaderVerifies(h: Header)
    ensures Checksum(WordSum(HeaderBytes(WithChecksum(h)))) == 0
    ensures WordSum(HeaderBytes(WithChecksum(h))) % 65535 == 0
  {
    hide HeaderBytes, AddBytes, WordSum, Checksum;
    var t := WithChecksum(h);
    HeaderSum(h.(cksum := 0));
    assert t.(cksum := 0) == h.(cksum := 0);
    FieldAdds(t);
    ChecksumVerifies(WordSum(HeaderBytes(h.(cksum := 0))));
    ChecksumCompletes(WordSum(HeaderBytes(h.(cksum := 0))));
  }

  // ---- what is accepted, in numbers ----

  lemma RewrittenNumbers(data: Bytes)
    requires |data| >= LENGTH
    ensures var h := Fields(data);
            && ToBytes(h.len, 2) == data[2..4] && ToBytes(h.id, 2) == data[4..6] && ToBytes(h.cksum, 2) == data[10..12]
            && ToBytes(h.src, 4) == data[12..16] && ToBytes(h.dst, 4) == data[16..20]
  {
    BytesOfBigEndian(data[2..4]);
    BytesOfBigEndian(data[4..6]);
    BytesOfBigEndian(data[10..12]);
    BytesOfBigEndian(data[12..16]);
    BytesOfBigEndian(data[16..20]);
    hide ToBytes, BigEndian;
  }

  lemma FragmentBytes(data: Bytes)
    requires |data| >= LENGTH
    ensures ToBytes(Fragment(Fields(data)), 2) == [data[6] % 128, data[7]]
  {
    hide Fields, ToBytes, BigEndian, Fragment;
    FieldBounds(data);
    FragmentFields(data);
    var f := Field(data, 6, 2);
    BigEndianValues(data[6..8]);
    FragmentIs(Fields(data), f);
    TwoBytes(f % 0x8000);
    WithoutReserved(data[6] / 128, data[6] % 128, data[7]);
  }

  lemma WithoutReserved(high: nat, low: nat, b: nat)
    requires high <= 1 && low < 128 && b < 256
    ensures var f := 32768 * high + 256 * low + b; f % 0x8000 / 256 == low && f % 0x8000 % 256 == b
  {
    assert (32768 * high + 256 * low + b) % 0x8000 == 256 * low + b;
  }

  lemma FragmentFields(data: Bytes)
    requires |data| >= LENGTH
    ensures var h, f := Fields(data), Field(data, 6, 2);
            h.df == (f / 0x4000 % 2 == 1) && h.mf == (f / 0x2000 % 2 == 1) && h.offset == f % 0x2000
  {
    hide Field;
  }

  lemma FragmentIs(h: Header, f: u16)
    requires h.df == (f / 0x4000 % 2 == 1) && h.mf == (f / 0x2000 % 2 == 1) && h.offset == f % 0x2000
    ensures Fragment(h) == f % 0x8000
  {
  }

  lemma TwoBytes(v: u16)
    ensures ToBytes(v, 2) == [v / 256, v % 256]
  {
    assert ToBytes(v / 256 / 256, 0) == [];
    assert ToBytes(v / 256, 1) == [v / 256];
  }

  lemma OctetFields(data: Bytes)
    requires |data| >= LENGTH
    ensures var h := Fields(data);
            && h.ver == data[0] / 16 && h.hlen == data[0] % 16 && h.tos == data[1]
            && h.ttl == data[8] && h.proto == data[9]
  {
    hide Field;
  }

  lemma WrittenParts(h: Header)
    ensures var w := HeaderBytes(h);
            && w[0] == 64 + h.hlen % 16 && w[1] == h.tos && w[8] == h.ttl && w[9] == h.proto
            && w[2..4] == ToBytes(h.len, 2) && w[4..6] == ToBytes(h.id, 2) && w[6..8] == ToBytes(Fragment(h), 2)
            && w[10..12] == ToBytes(h.cksum, 2) && w[12..16] == ToBytes(h.src, 4) && w[16..20] == ToBytes(h.dst, 4)
  {
    hide HeaderBytes, ToBytes, Fragment, Start;
    var w, none: Bytes := HeaderBytes(h), [];
    WrittenFields(h, none);
    assert w + none == w;
    StartFields(h);
    OctetsOfWritten(h, w);
    SliceOfPrefix(w, 10, 2, 4);
    SliceOfPrefix(w, 10, 4, 6);
    SliceOfPrefix(w, 10, 6, 8);
  }

  /** Writing the fields that were read gives back the header's bytes, except for the reserved bit
      in front of the two flags, which is not kept. */
  lemma RewrittenBytes(data: Bytes)
    requires |data| >= LENGTH && data[0] / 16 == 4
    ensures HeaderBytes(Fields(data)) == data[..20][6 := data[6] % 128]
  {
    hide HeaderBytes, ToBytes, BigEndian, Fragment, Fields;
    OctetFields(data);
    WrittenParts(Fields(data));
    RewrittenNumbers(data);
    FragmentBytes(data);
    var e := data[..20][6 := data[6] % 128];
    assert e[2..4] == data[2..4] && e[4..6] == data[4..6] && e[6..8] == [data[6] % 128, data[7]];
    assert e[10..12] == data[10..12] && e[12..16] == data[12..16] && e[16..20] == data[16..20];
    SameParts(HeaderBytes(Fields(data)), e);
  }

  lemma SameParts(a: Bytes, b: Bytes)
    requires |a| == |b| == 20
    requires a[0] == b[0] && a[1] == b[1] && a[2..4] == b[2..4] && a[4..6] == b[4..6] && a[6..8] == b[6..8]
    requires a[8] == b[8] && a[9] == b[9] && a[10..12] == b[10..12] && a[12..16] == b[12..16] && a[16..20] == b[16..20]
    ensures a == b
  {
    forall i | 0 <= i < 20
      ensures a[i] == b[i]
    {
      if 2 <= i < 4 { assert a[2..4][i - 2] == b[2..4][i - 2]; }
      else if 4 <= i < 6 { assert a[4..6][i - 4] == b[4..6][i - 4]; }
      else if 6 <= i < 8 { assert a[6..8][i - 6] == b[6..8][i - 6]; }
      else if 10 <= i < 12 { assert a[10..12][i - 10] == b[10..12][i - 10]; }
      else if 12 <= i < 16 { assert a[12..16][i - 12] == b[12..16][i - 12]; }
      else if 16 <= i { assert a[16..20][i - 16] == b[16..20][i - 16]; }
    }
  }

  /** The weight of the bit in front of the two flags. */
  function Reserved(data: Bytes): nat
    requires |data| >= 20
  {
    Flag(data[6] >= 128, 32768)
  }

  lemma RewrittenSum(data: Bytes)
    requires |data| >= 20 && data[0] / 16 == 4
    ensures WordSum(HeaderBytes(Fields(data))) == WordSum(data[..20]) - Reserved(data)
  {
    hide WordSum, HeaderBytes, Fields;
    RewrittenBytes(data);
    WordSumUpdate(data[..20], 6, data[6] % 128);
  }

  lemma StartsNonZero(h: Header)
    ensures WordSum(HeaderBytes(h)) > 0
  {
    OctetsOfWritten(h, HeaderBytes(h));
    hide HeaderBytes;
  }

  /** Which data are accepted, in numbers: version 4, a length of at least five words, and a word sum
      over the first 20 bytes, the reserved bit left out, that is a multiple of 65535; all ones in
      the checksum field are not taken for zero. */
  lemma AcceptedIff(data: Bytes)
    ensures Parsed(data).Some? <==>
              && |data| >= 20 && data[0] / 16 == 4 && data[0] % 16 >= 5
              && (WordSum(data[..20]) - Reserved(data)) % 65535 == 0
              && !(data[10] == 255 && data[11] == 255)
  {
    hide WordSum, AddBytes, HeaderBytes, Checksum, BigEndian, Field, Reserved;
    if |data| >= 20 && data[0] / 16 == 4 {
      var h := Fields(data);
      OctetFields(data);
      FieldValue(data);
      RewrittenSum(data);
      FieldAdds(h);
      HeaderSum(h.(cksum := 0));
      StartsNonZero(h.(cksum := 0));
      FieldCompletes(WordSum(HeaderBytes(h.(cksum := 0))), h.cksum);
    }
  }

  lemma FieldValue(data: Bytes)
    requires |data| >= 20
    ensures Fields(data).cksum == 65535 <==> data[10] == 255 && data[11] == 255
  {
    BigEndianValues(data[10..12]);
    hide BigEndian;
  }

  lemma KeptSumChanges(data: Bytes, i: nat, b: byte)
    requires i < 20 <= |data|
    ensures WordSum(data[i := b][..20]) - Reserved(data[i := b])
            == WordSum(data[..20]) - Reserved(data)
               + (if i == 6 then b % 128 - data[i] % 128 else b - data[i]) * (if i % 2 == 0 then 256 else 1)
  {
    assert data[i := b][..20] == data[..20][i := b];
    WordSumUpdate(data[..20], i, b);
    hide WordSum;
  }

  /** A header with any one byte changed is rejected, unless only its reserved bit was. */
  lemma CorruptedIsRejected(data: Bytes, i: nat, b: byte)
    requires Parsed(data).Some? && i < 20 && i < |data| && b != data[i]
    ensures Parsed(data[i := b]).Some? ==> i == 6 && b % 128 == data[6] % 128
  {
    hide Parsed, WordSum, Reserved;
    AcceptedIff(data);
    AcceptedIff(data[i := b]);
    KeptSumChanges(data, i, b);
    var before, after := if i == 6 then data[i] % 128 else data[i], if i == 6 then b % 128 else b;
    if before != after {
      OneByteShows(WordSum(data[..20]) - Reserved(data), WordSum(data[i := b][..20]) - Reserved(data[i := b]),
                   before, after, if i % 2 == 0 then 256 else 1);
    }
  }

  /** A header that verifies as a whole, options included (section 3.1 of RFC 791), is accepted if
      and only if its options add nothing: the program sums the first 20 bytes only. */
  lemma OptionsMustAddNothing(data: Bytes)
    requires |data| >= 20 && data[0] / 16 == 4 && data[0] % 16 >= 5 && |data| >= data[0] % 16 * 4
    requires data[6] < 128 && !(data[10] == 255 && data[11] == 255)
    requires WordSum(data[..data[0] % 16 * 4]) % 65535 == 0
    ensures Parsed(data).Some? <==> WordSum(data[20..data[0] % 16 * 4]) % 65535 == 0
  {
    hide Parsed, WordSum;
    AcceptedIff(data);
    var whole, options := data[..data[0] % 16 * 4], data[20..data[0] % 16 * 4];
    assert whole == data[..20] + options;
    WordSumConcat(data[..20], options);
  }

  /** So a header with options, and a checksum over all of it, is rejected if its options add something. */
  lemma OptionsAreRejected(blank: Header, options: Bytes)
    requires 5 < blank.hlen < 16 && blank.offset < 0x2000 && blank.cksum == 0
    requires |options| == 4 * blank.hlen - 20 && WordSum(options) % 65535 != 0
    ensures var h := blank.(cksum := Checksum(WordSum(HeaderBytes(blank)) + WordSum(options)));
            WordSum(HeaderBytes(h) + options) % 65535 == 0 && Parsed(HeaderBytes(h) + options).None?
  {
    hide WordSum, HeaderBytes, Checksum, Parsed;
    StartsNonZero(blank);
    var sum := WordSum(HeaderBytes(blank)) + WordSum(options);
    ChecksumCompletes(sum);
    var h := blank.(cksum := Checksum(sum));
    var data := HeaderBytes(h) + options;
    assert blank == h.(cksum := 0);
    FieldAdds(h);
    WordSumConcat(HeaderBytes(h), options);
    HeaderShape(h, data);
    assert data[..data[0] % 16 * 4] == data && data[20..data[0] % 16 * 4] == options;
    OptionsMustAddNothing(data);
  }

  lemma HeaderShape(h: Header, data: Bytes)
    requires h.hlen < 16 && h.offset < 0x2000 && h.cksum != 65535 && HeaderBytes(h) <= data
    ensures data[0] == 64 + h.hlen && data[6] < 128 && !(data[10] == 255 && data[11] == 255)
  {
    var d := HeaderBytes(h);
    hide HeaderBytes;
    Layout(h);
    Unreserved(h);
    BigEndianValues(d[10..12]);
    assert d[0] == data[0] && d[6] == data[6] && d[10] == data[10] && d[11] == data[11];
  }

  /** An input: three paddings and an end of options. */
  lemma PaddedHeaderIsRejected(src: u32, dst: u32)
    ensures var options: Bytes := [1, 1, 1, 0];
            var blank := Header(4, 6, 0, 24, 0, false, false, 0, 64, 6, 0, src, dst);
            var h := blank.(cksum := Checksum(WordSum(HeaderBytes(blank)) + WordSum(options)));
            WordSum(HeaderBytes(h) + options) % 65535 == 0 && Parsed(HeaderBytes(h) + options).None?
  {
    var options: Bytes := [1, 1, 1, 0];
    assert options[2..] == [1, 0] && options[2..][2..] == [];
    assert WordSum(options) == 513;
    hide WordSum, HeaderBytes, Checksum, Parsed;
    OptionsAreRejected(Header(4, 6, 0, 24, 0, false, false, 0, 64, 6, 0, src, dst), options);
  }

  lemma Unreserved(h: Header)
    requires h.offset < 0x2000
    ensures HeaderBytes(h)[6] < 128
  {
    WrittenParts(h);
    FragmentNumber(h);
    TwoBytes(Fragment(h));
    assert HeaderBytes(h)[6] == HeaderBytes(h)[6..8][0];
    hide HeaderBytes, ToBytes, Fragment;
  }

  /** Where everything stands on the wire, for version 4. */
  lemma Layout(h: Header)
    requires h.hlen < 16 && h.offset < 0x2000
    ensures var d := HeaderBytes(h);
            && |d| == 20 && d[0] == 64 + h.hlen && d[1] == h.tos && Field(d, 2, 2) == h.len && Field(d, 4, 2) == h.id
            && Field(d, 6, 2) == Flag(h.df, 16384) + Flag(h.mf, 8192) + h.offset && d[8] == h.ttl && d[9] == h.proto
            && Field(d, 10, 2) == h.cksum && Field(d, 12, 4) == h.src && Field(d, 16, 4) == h.dst
  {
    hide HeaderBytes, ToBytes, BigEndian, Fragment;
    WrittenParts(h);
    NumberReads(h.len, 2);
    NumberReads(h.id, 2);
    NumberReads(Fragment(h), 2);
    NumberReads(h.cksum, 2);
    NumberReads(h.src, 4);
    NumberReads(h.dst, 4);
    FragmentNumber(h);
  }

  lemma FragmentNumber(h: Header)
    requires h.offset < 0x2000
    ensures Fragment(h) == Flag(h.df, 16384) + Flag(h.mf, 8192) + h.offset
  {
  }

  /** In 16-bit arithmetic: a total length below the header length wraps around. */
  function PayloadLength(h: Header): u16 {
    (h.len - 4 * h.hlen) % TWO16
  }

  /** What follows the header, as long as the total length covers the header; otherwise 2^16 more. */
  lemma PayloadLengthIs(h: Header)
    requires h.hlen < 16
    ensures 4 * h.hlen + PayloadLength(h) == if 4 * h.hlen <= h.len then h.len else h.len + 65536
  {
  }

  function PseudoSum(h: Header): u32 {
    h.src / TWO16 + h.src % TWO16 + h.dst / TWO16 + h.dst % TWO16 + h.proto + PayloadLength(h)
  }

  /** The pseudo-header's sum is the word sum of its five fields' bytes, and small enough for any
      segment that IP can carry. */
  lemma PseudoSumMeaning(h: Header)
    ensures PseudoSum(h) <= 0x10_0000
    ensures PseudoSum(h)
            == WordSum(ToBytes(h.src, 4) + ToBytes(h.dst, 4) + ToBytes(h.proto, 2) + ToBytes(PayloadLength(h), 2))
  {
    var src, dst, proto, len := ToBytes(h.src, 4), ToBytes(h.dst, 4), ToBytes(h.proto, 2), ToBytes(PayloadLength(h), 2);
    assert src + dst + proto + len == src + (dst + (proto + len));
    WordSumConcat(src, dst + (proto + len));
    WordSumConcat(dst, proto + len);
    WordSumConcat(proto, len);
    LongSum(h.src);
    LongSum(h.dst);
    NumberWord(h.proto);
    NumberWord(PayloadLength(h));
    hide ToBytes, WordSum;
  }

  lemma LongSum(v: u32)
    ensures WordSum(ToBytes(v, 4)) == v / TWO16 + v % TWO16
  {
    var hi, lo := ToBytes(v / 256 / 256, 2), [v / 256 % 256, v % 256];
    assert ToBytes(v / 256, 3) == hi + [v / 256 % 256];
    assert ToBytes(v, 4) == hi + lo;
    WordSumConcat(hi, lo);
    NumberWord(v / 256 / 256);
    assert lo[2..] == [];
  }

  // ---- the program's header ----

  class IPv4Header {
    var ver: u8
    var hlen: u8
    var tos: u8
    var len: u16
    var id: u16
    var df: bool
    var mf: bool
    var offset: u16
    var ttl: u8
    var proto: u8
    var cksum: u16
    var src: u32
    var dst: u32

    function View(): Header
      reads this
    {
      Header(ver, hlen, tos, len, id, df, mf, offset, ttl, proto, cksum, src, dst)
    }

    constructor (h: Header)
      ensures View() == h
    {
      ver, hlen, tos, len, id := h.ver, h.hlen, h.tos, h.len, h.id;
      df, mf, offset, ttl, proto := h.df, h.mf, h.offset, h.ttl, h.proto;
      cksum, src, dst := h.cksum, h.src, h.dst;
    }

    method SerializeStart(serializer: Serializer)
      requires ver == 4
      modifies serializer`buffer
      ensures serializer.buffer == old(serializer.buffer) + Start(View())
    {
      hide ToBytes;
      serializer.Integer(ver * 16 + hlen % 16, 1);
      serializer.Integer(tos, 1);
      serializer.Integer(len, 2);
      serializer.Integer(id, 2);
      var fragment := Flag(df, 0x4000) + Flag(mf, 0x2000) + offset % 0x2000;
      serializer.Integer(fragment, 2);
      serializer.Integer(ttl, 1);
      serializer.Integer(proto, 1);
    }

    /** Any other version is an exception, before anything is written. */
    method Serialize(serializer: Serializer) returns (thrown: bool)
      modifies serializer`buffer
      ensures thrown == (ver != 4)
      ensures serializer.buffer == old(serializer.buffer) + (if thrown then [] else HeaderBytes(View()))
    {
      thrown := ver != 4;
      if thrown {
        return;
      }
      hide ToBytes, Start;
      SerializeStart(serializer);
      FourParts(serializer.buffer, ToBytes(cksum, 2), ToBytes(src, 4), ToBytes(dst, 4));
      FourParts(old(serializer.buffer), Start(View()), ToBytes(cksum, 2), Addresses(View()));
      serializer.Integer(cksum, 2);
      serializer.Integer(src, 4);
      serializer.Integer(dst, 4);
    }

    method ComputeChecksum() returns (thrown: bool)
      modifies this`cksum
      ensures thrown == (ver != 4)
      ensures View() == if thrown then old(View()).(cksum := 0) else WithChecksum(old(View()))
    {
      cksum := 0;
      assert View() == old(View()).(cksum := 0);
      var s := new Serializer();
      thrown := Serialize(s);
      if thrown {
        return;
      }
      hide HeaderBytes, AddBytes, Checksum;
      ghost var bytes := s.Written();
      assert bytes == HeaderBytes(View());
      var check := new InternetChecksum(0);
      var chunks := s.Output();
      check.AddAll(chunks);
      cksum := check.Value();
    }

    /** The fields before the checksum. */
    method ParseStart(parser: Parser, ghost data: Bytes)
      requires parser.At(data, 0, LENGTH) && !parser.error
      modifies this, parser, parser.input
      ensures parser.At(data, 10, LENGTH)
      ensures !parser.error && |data| >= LENGTH ==> View() == Fields(data).(cksum := cksum, src := src, dst := dst)
    {
      hide BigEndian, Parser.At, Field, Pow256;
      Pow256Values();
      if |data| >= LENGTH {
        OneByteField(data, 0);
        OneByteField(data, 1);
      }
      var first: u8 := parser.NextField(1, 0, data, 0, LENGTH);
      ver := first / 16;
      hlen := first % 16;
      tos := parser.NextField(1, tos, data, 1, LENGTH);
      len := parser.NextField(2, len, data, 2, LENGTH);
      id := parser.NextField(2, id, data, 4, LENGTH);
      ParseLifetime(parser, data);
    }

    /** Fragmentation, time to live and protocol. */
    method ParseLifetime(parser: Parser, ghost data: Bytes)
      requires parser.At(data, 6, LENGTH)
      modifies this`df, this`mf, this`offset, this`ttl, this`proto, parser, parser.input
      ensures parser.At(data, 10, LENGTH) && (old(parser.error) ==> parser.error)
      ensures !parser.error && |data| >= LENGTH ==>
                && df == Fields(data).df && mf == Fields(data).mf && offset == Fields(data).offset
                && ttl == data[8] && proto == data[9]
    {
      hide BigEndian, Parser.At, Field, Pow256;
      Pow256Values();
      if |data| >= LENGTH {
        OneByteField(data, 8);
        OneByteField(data, 9);
      }
      var fragment: u16 := parser.NextField(2, 0, data, 6, LENGTH);
      df := fragment / 0x4000 % 2 == 1;
      mf := fragment / 0x2000 % 2 == 1;
      offset := fragment % 0x2000;
      ttl := parser.NextField(1, ttl, data, 8, LENGTH);
      proto := parser.NextField(1, proto, data, 9, LENGTH);
    }

    method ParseFields(parser: Parser, ghost data: Bytes)
      requires parser.At(data, 0, LENGTH) && !parser.error
      modifies this, parser, parser.input
      ensures parser.At(data, LENGTH, LENGTH) && parser.error == (|data| < LENGTH)
      ensures !parser.error ==> View() == Fields(data)
    {
      hide BigEndian, Parser.At, Field;
      Pow256Values();
      ParseStart(parser, data);
      cksum := parser.NextField(2, cksum, data, 10, LENGTH);
      src := parser.NextField(4, src, data, 12, LENGTH);
      dst := parser.NextField(4, dst, data, 16, LENGTH);
      EndOfFields(parser, data);
    }

    method Parse(parser: Parser)
      requires parser.Valid() && !parser.error
      requires parser.input.CanRead(Min(LENGTH, parser.input.size))
      modifies this, parser, parser.input
      ensures parser.error <==> Parsed(old(parser.input.Rest())).None?
      ensures !parser.error ==> Parsed(old(parser.input.Rest())) == Some(View())
      ensures !parser.error ==> parser.Valid()
      ensures !parser.error ==>
                parser.input.Rest() == old(parser.input.Rest())[Min(4 * hlen, |old(parser.input.Rest())|)..]
    {
      ghost var data := parser.input.Rest();
      assert data[0..] == data;
      assert parser.At(data, 0, LENGTH);
      hide Readable, Flatten, Fields, WithChecksum;
      ParseFields(parser, data);
      EndOfFields(parser, data);
      hide Parser.At;
      CheckHeader(parser);
    }

    /** The checks on the fields, the skip over options, and the checksum computed anew. */
    method CheckHeader(parser: Parser)
      requires parser.Valid()
      modifies this`cksum, parser, parser.input
      ensures parser.error == (old(parser.error) || ver != 4 || hlen < 5
                               || WithChecksum(old(View())).cksum != old(cksum))
      ensures !parser.error ==> View() == old(View()) && parser.Valid()
      ensures !parser.error ==>
                parser.input.Rest() == old(parser.input.Rest())[Min(4 * hlen - LENGTH, |old(parser.input.Rest())|)..]
    {
      hide Readable, Flatten, Fields, AddBytes, HeaderBytes, Checksum, Ahead;
      if ver != 4 {
        parser.SetError();
      }
      if hlen < 5 {
        parser.SetError();
      }
      if parser.error {
        return;
      }
      parser.RemovePrefix(hlen * 4 - LENGTH);
      var given := cksum;
      var thrown := ComputeChecksum();
      if cksum != given {
        parser.SetError();
      }
    }
  }

  lemma EndOfFields(parser: Parser, data: Bytes)
    requires parser.At(data, LENGTH, LENGTH)
    ensures parser.error == (|data| < LENGTH) && parser.Valid()
    ensures !parser.error ==> parser.input.Rest() == data[LENGTH..]
  {
  }
}
