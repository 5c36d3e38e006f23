/** The TCP header on the wire (section 3.1 of RFC 9293) and its checksum. */
module TCPSegments {
  import opened Words
  import opened Wrapping
  import opened Messages
  import opened Chunks
  import opened Checksums
  import opened Parsers
  import IP = IPv4Headers

  const HEADER_WORDS := 5
  const HEADER_LENGTH := 20

  datatype Segment = Segment(srcPort: u16, dstPort: u16, cksum: u16,
                             sender: SenderMessage, receiver: ReceiverMessage, reset: bool)

  // ---- what is written ----

  function Flags(s: Segment): byte {
    Flag(s.receiver.ackno.Some?, 16) + Flag(s.reset, 4) + Flag(s.sender.syn, 2) + Flag(s.sender.fin, 1)
  }

  function AckRaw(s: Segment): u32 {
    if s.receiver.ackno.Some? then s.receiver.ackno.value.raw else 0
  }

  /** The ports and sequence numbers; offset, flags and window; checksum and urgent pointer. */
  function HeaderStart(s: Segment): (r: Bytes)
    ensures |r| == 16
  {
    ToBytes(s.srcPort, 2) + ToBytes(s.dstPort, 2) + ToBytes(s.sender.seqno.raw, 4) + ToBytes(AckRaw(s), 4)
    + ToBytes(HEADER_WORDS * 16, 1) + ToBytes(Flags(s), 1) + ToBytes(s.receiver.window, 2)
  }

  function Serialized(s: Segment): Bytes {
    HeaderStart(s) + ToBytes(s.cksum, 2) + ToBytes(0, 2) + s.sender.payload
  }

  /** What the checksum field is computed over: the same bytes with a zero field. */
  function SumOf(s: Segment): nat {
    WordSum(Serialized(s.(cksum := 0)))
  }

  function WithChecksum(s: Segment, pseudo: u32): Segment {
    s.(cksum := Checksum(AddBytes(Tally(pseudo, false), Serialized(s.(cksum := 0))).sum))
  }

  // ---- what is read ----

  predicate Bit(octet: nat, weight: nat)
    requires weight > 0
  {
    octet / weight % 2 == 1
  }

  predicate Verifies(data: Bytes, pseudo: u32) {
    Checksum(AddBytes(Tally(pseudo, false), data).sum) == 0
  }

  /** The fields of at least a header's worth of bytes; the payload starts where the offset says,
      or is empty if that is beyond the end. */
  function Fields(data: Bytes): Segment
    requires |data| >= HEADER_LENGTH
  {
    var octet := data[13];
    FieldBounds(data);
    Segment(Field(data, 0, 2), Field(data, 2, 2), Field(data, 16, 2),
            SenderMessage(Wrap32(Field(data, 4, 4)), Bit(octet, 2),
                          data[Min(data[12] / 16 * 4, |data|)..], Bit(octet, 1)),
            ReceiverMessage(if Bit(octet, 16) then Some(Wrap32(Field(data, 8, 4))) else None,
                            Field(data, 14, 2)),
            Bit(octet, 4))
  }

  /** A segment is accepted exactly when it verifies, has a whole header, and claims at least one. */
  function Parsed(data: Bytes, pseudo: u32): Option<Segment> {
    if Verifies(data, pseudo) && |data| >= HEADER_LENGTH && data[12] / 16 >= HEADER_WORDS
    then Some(Fields(data)) else None
  }

  lemma FieldBounds(data: Bytes)
    requires |data| >= HEADER_LENGTH
    ensures Field(data, 0, 2) < TWO16 && Field(data, 2, 2) < TWO16
    ensures Field(data, 14, 2) < TWO16 && Field(data, 16, 2) < TWO16
    ensures Field(data, 4, 4) < TWO32 && Field(data, 8, 4) < TWO32
  {
    Pow256Values();
    BytesOfBigEndian(data[0..2]);
    BytesOfBigEndian(data[2..4]);
    BytesOfBigEndian(data[14..16]);
    BytesOfBigEndian(data[16..18]);
    BytesOfBigEndian(data[4..8]);
    BytesOfBigEndian(data[8..12]);
  }

  // ---- round trip ----

  lemma FlagsRead(s: Segment)
    ensures Bit(Flags(s), 16) == s.receiver.ackno.Some? && Bit(Flags(s), 4) == s.reset
    ensures Bit(Flags(s), 2) == s.sender.syn && Bit(Flags(s), 1) == s.sender.fin
  {
  }

  lemma SerializedFields(s: Segment)
    ensures var d := Serialized(s);
            && |d| == HEADER_LENGTH + |s.sender.payload|
            && d[0..2] == ToBytes(s.srcPort, 2) && d[2..4] == ToBytes(s.dstPort, 2)
            && d[4..8] == ToBytes(s.sender.seqno.raw, 4) && d[8..12] == ToBytes(AckRaw(s), 4)
            && d[12..13] == ToBytes(HEADER_WORDS * 16, 1) && d[13..14] == ToBytes(Flags(s), 1)
            && d[14..16] == ToBytes(s.receiver.window, 2) && d[16..18] == ToBytes(s.cksum, 2)
            && d[20..] == s.sender.payload
  {
    hide ToBytes;
  }

  /** Reading what was written gives back every field. */
  lemma FieldsOfSerialized(s: Segment)
    ensures |Serialized(s)| >= HEADER_LENGTH && Serialized(s)[12] / 16 == HEADER_WORDS
    ensures Fields(Serialized(s)) == s
  {
    var d := Serialized(s);
    SerializedFields(s);
    NumberReads(s.srcPort, 2);
    NumberReads(s.dstPort, 2);
    NumberReads(s.sender.seqno.raw, 4);
    NumberReads(AckRaw(s), 4);
    NumberReads(s.receiver.window, 2);
    NumberReads(s.cksum, 2);
    NumberReads(HEADER_WORDS * 16, 1);
    NumberReads(Flags(s), 1);
    assert d[12] == d[12..13][0] && d[13] == d[13..14][0];
    FlagsRead(s);
    hide Serialized, ToBytes, BigEndian, Flags;
  }

  /** Where everything stands on the wire. */
  lemma Layout(s: Segment)
    ensures var d := Serialized(s);
            && |d| == 20 + |s.sender.payload| && d[20..] == s.sender.payload
            && Field(d, 0, 2) == s.srcPort && Field(d, 2, 2) == s.dstPort && Field(d, 4, 4) == s.sender.seqno.raw
            && Field(d, 8, 4) == (if s.receiver.ackno.Some? then s.receiver.ackno.value.raw else 0)
            && d[12] == 80
            && d[13] == Flag(s.receiver.ackno.Some?, 16) + Flag(s.reset, 4)
                        + Flag(s.sender.syn, 2) + Flag(s.sender.fin, 1)
            && Field(d, 14, 2) == s.receiver.window && Field(d, 16, 2) == s.cksum && Field(d, 18, 2) == 0
  {
    var d := Serialized(s);
    SerializedFields(s);
    NumberReads(s.srcPort, 2);
    NumberReads(s.dstPort, 2);
    NumberReads(s.sender.seqno.raw, 4);
    NumberReads(AckRaw(s), 4);
    NumberReads(s.receiver.window, 2);
    NumberReads(s.cksum, 2);
    NumberReads(0, 2);
    NumberReads(HEADER_WORDS * 16, 1);
    NumberReads(Flags(s), 1);
    assert d[12] == d[12..13][0] && d[13] == d[13..14][0];
    UrgentIsZero(s);
    hide Serialized, ToBytes, BigEndian;
  }

  lemma UrgentIsZero(s: Segment)
    ensures Serialized(s)[18..20] == ToBytes(0, 2)
  {
    hide ToBytes;
  }

  /** The flags octet is read bit by bit, whatever the other bits are. */
  lemma FlagsOfOctet(data: Bytes, cwr: bool, ece: bool, urg: bool, ack: bool,
                     psh: bool, rst: bool, syn: bool, fin: bool)
    requires |data| >= 20
    requires data[13] == Flag(cwr, 128) + Flag(ece, 64) + Flag(urg, 32) + Flag(ack, 16)
                         + Flag(psh, 8) + Flag(rst, 4) + Flag(syn, 2) + Flag(fin, 1)
    ensures var s := Fields(data);
            s.receiver.ackno.Some? == ack && s.reset == rst && s.sender.syn == syn && s.sender.fin == fin
  {
    var octet := data[13];
    hide Field, Bit, Flag;
    FlagWeights(cwr, 128); FlagWeights(ece, 64); FlagWeights(urg, 32); FlagWeights(ack, 16);
    FlagWeights(psh, 8); FlagWeights(rst, 4); FlagWeights(syn, 2); FlagWeights(fin, 1);
    EightBits(octet, Flag(cwr, 1), Flag(ece, 1), Flag(urg, 1), Flag(ack, 1),
              Flag(psh, 1), Flag(rst, 1), Flag(syn, 1), Flag(fin, 1));
  }

  lemma FlagWeights(b: bool, weight: nat)
    ensures Flag(b, weight) == weight * Flag(b, 1) && Flag(b, 1) == if b then 1 else 0
  {
  }

  lemma EightBits(octet: nat, b7: nat, b6: nat, b5: nat, b4: nat, b3: nat, b2: nat, b1: nat, b0: nat)
    requires b7 <= 1 && b6 <= 1 && b5 <= 1 && b4 <= 1 && b3 <= 1 && b2 <= 1 && b1 <= 1 && b0 <= 1
    requires octet == 128 * b7 + 64 * b6 + 32 * b5 + 16 * b4 + 8 * b3 + 4 * b2 + 2 * b1 + b0
    ensures Bit(octet, 16) == (b4 == 1) && Bit(octet, 4) == (b2 == 1)
    ensures Bit(octet, 2) == (b1 == 1) && Bit(octet, 1) == (b0 == 1)
  {
    assert octet / 16 == 8 * b7 + 4 * b6 + 2 * b5 + b4;
    assert octet / 4 == 4 * (octet / 16) + 2 * b3 + b2;
    assert octet / 2 == 2 * (octet / 4) + b1;
  }

  /** Options between header and payload are skipped, and nothing else changes. */
  lemma OptionsAreSkipped(s: Segment, options: Bytes)
    requires |options| % 4 == 0 && |options| <= 40
    ensures var header := Serialized(s)[..20][12 := 80 + 4 * |options|];
            Fields(header + options + s.sender.payload) == s
  {
    var d := Serialized(s);
    SerializedFields(s);
    var data := d[..20][12 := 80 + 4 * |options|] + options + s.sender.payload;
    assert data[0..2] == d[0..2] && data[2..4] == d[2..4] && data[4..8] == d[4..8] && data[8..12] == d[8..12];
    assert data[13] == d[13] && data[14..16] == d[14..16] && data[16..18] == d[16..18];
    assert data[20 + |options|..] == s.sender.payload;
    assert data[12] / 16 * 4 == 20 + |options|;
    FieldsOfSerialized(s);
    hide Serialized, BigEndian, ToBytes;
  }

  /** An offset beyond the end leaves no payload. */
  lemma OffsetBeyondEnd(data: Bytes)
    requires |data| >= 20 && data[12] / 16 * 4 >= |data|
    ensures Fields(data).sender.payload == []
  {
    hide Field;
  }

  /** The field adds its value to the sum of the rest: it stands at an even place. */
  lemma ChecksumFieldAdds(s: Segment)
    ensures WordSum(Serialized(s)) == SumOf(s) + s.cksum
  {
    FieldAdds(s);
    FieldAdds(s.(cksum := 0));
  }

  lemma FieldAdds(s: Segment)
    ensures WordSum(Serialized(s))
            == WordSum(HeaderStart(s.(cksum := 0))) + s.cksum + WordSum(ToBytes(0, 2) + s.sender.payload)
  {
    var start, field, tail := HeaderStart(s), ToBytes(s.cksum, 2), ToBytes(0, 2) + s.sender.payload;
    assert start == HeaderStart(s.(cksum := 0));
    hide HeaderStart, ToBytes, WordSum;
    FourParts(start, field, ToBytes(0, 2), s.sender.payload);
    hide Serialized;
    WordSumConcat(start, field + tail);
    WordSumConcat(field, tail);
    IP.NumberWord(s.cksum);
  }

  /** A segment whose checksum was computed always verifies with the same pseudo-header sum, as
      long as the whole sum fits the program's 32 bits. */
  lemma ComputedChecksumVerifies(s: Segment, pseudo: u32)
    requires pseudo + SumOf(s) + ONES < TWO32
    ensures Verifies(Serialized(WithChecksum(s, pseudo)), pseudo)
    ensures (pseudo + WordSum(Serialized(WithChecksum(s, pseudo)))) % 65535 == 0
  {
    hide Serialized, AddBytes, Checksum, WordSum;
    var t := WithChecksum(s, pseudo);
    AddBytesIsWordSum(Tally(pseudo, false), Serialized(s.(cksum := 0)));
    assert t.cksum == Checksum(pseudo + SumOf(s));
    assert t.(cksum := 0) == s.(cksum := 0);
    ChecksumFieldAdds(t);
    AddBytesIsWordSum(Tally(pseudo, false), Serialized(t));
    ChecksumVerifies(pseudo + SumOf(s));
    ChecksumCompletes(pseudo + SumOf(s));
  }

  /** What is accepted, in numbers: a whole header that claims at least five words, and a word sum
      that is, with the pseudo-header's, a positive multiple of 65535. */
  lemma AcceptedIff(data: Bytes, pseudo: u32)
    requires pseudo + WordSum(data) < TWO32
    ensures Parsed(data, pseudo).Some? <==>
              && |data| >= 20 && data[12] / 16 >= 5
              && pseudo + WordSum(data) > 0 && (pseudo + WordSum(data)) % 65535 == 0
  {
    hide AddBytes, WordSum, Checksum, Fields;
    AddBytesIsWordSum(Tally(pseudo, false), data);
    ZeroChecksum(pseudo + WordSum(data));
  }

  /** A segment with any one byte changed is rejected. */
  lemma CorruptedIsRejected(data: Bytes, pseudo: u32, i: nat, b: byte)
    requires pseudo + WordSum(data) + 65535 < TWO32 && Parsed(data, pseudo).Some?
    requires i < |data| && b != data[i]
    ensures Parsed(data[i := b], pseudo).None?
  {
    hide Parsed, WordSum;
    var sum := pseudo + WordSum(data);
    var changed := data[i := b];
    WordSumUpdate(data, i, b);
    AcceptedIff(data, pseudo);
    AcceptedIff(changed, pseudo);
    OneByteShows(sum, pseudo + WordSum(changed), data[i], b, if i % 2 == 0 then 256 else 1);
  }

  /** Every segment that fits an IP datagram is within that bound. */
  lemma DatagramsFit(s: Segment, pseudo: u32)
    requires |s.sender.payload| <= 65535 && pseudo <= 0x10_0000
    ensures pseudo + SumOf(s) + ONES < TWO32
  {
    WordSumBound(Serialized(s.(cksum := 0)));
  }

  /** Serialize with a computed checksum, parse: accepted, and the very same segment. */
  lemma RoundTripSegment(s: Segment, pseudo: u32)
    requires pseudo + SumOf(s) + ONES < TWO32
    ensures Parsed(Serialized(WithChecksum(s, pseudo)), pseudo) == Some(WithChecksum(s, pseudo))
  {
    ComputedChecksumVerifies(s, pseudo);
    FieldsOfSerialized(WithChecksum(s, pseudo));
  }

  /** Over IP, with the pseudo-header's sum, that covers every segment a datagram can carry. */
  lemma RoundTripOverIP(s: Segment, ip: IP.Header)
    requires |s.sender.payload| <= 65535
    ensures var pseudo := IP.PseudoSum(ip);
            Parsed(Serialized(WithChecksum(s, pseudo)), pseudo) == Some(WithChecksum(s, pseudo))
  {
    IP.PseudoSumMeaning(ip);
    DatagramsFit(s, IP.PseudoSum(ip));
    RoundTripSegment(s, IP.PseudoSum(ip));
  }

  // ---- the program's segment ----

  class TCPSegment {
    var srcPort: u16
    var dstPort: u16
    var cksum: u16
    var sender: SenderMessage
    var receiver: ReceiverMessage
    var reset: bool

    function View(): Segment
      reads this
    {
      Segment(srcPort, dstPort, cksum, sender, receiver, reset)
    }

    constructor (s: Segment)
      ensures View() == s
    {
      srcPort, dstPort, cksum, sender, receiver, reset := s.srcPort, s.dstPort, s.cksum, s.sender, s.receiver, s.reset;
    }

    method SerializeStart(serializer: Serializer)
      modifies serializer`buffer
      ensures serializer.buffer == old(serializer.buffer) + HeaderStart(View())
    {
      hide ToBytes;
      serializer.Integer(srcPort, 2);
      serializer.Integer(dstPort, 2);
      serializer.Integer(sender.seqno.raw, 4);
      serializer.Integer(if receiver.ackno.Some? then receiver.ackno.value.raw else 0, 4);
      serializer.Integer(HEADER_WORDS * 16, 1);
      var flags := Flag(receiver.ackno.Some?, 16) + Flag(reset, 4) + Flag(sender.syn, 2) + Flag(sender.fin, 1);
      serializer.Integer(flags, 1);
      serializer.Integer(receiver.window, 2);
    }

    method Serialize(serializer: Serializer)
      modifies serializer
      ensures serializer.output == old(serializer.output)
                + [old(serializer.buffer) + Serialized(View())[..HEADER_LENGTH], sender.payload]
      ensures serializer.buffer == []
      ensures serializer.Written() == old(serializer.Written()) + Serialized(View())
    {
      hide ToBytes, HeaderStart, Flatten;
      SerializeStart(serializer);
      serializer.Integer(cksum, 2);
      serializer.Integer(0, 2);
      assert serializer.buffer == old(serializer.buffer) + Serialized(View())[..HEADER_LENGTH];
      assert serializer.buffer + sender.payload == old(serializer.buffer) + Serialized(View());
      serializer.Buffer(sender.payload);
    }

    method ComputeChecksum(pseudo: u32)
      modifies this`cksum
      ensures View() == WithChecksum(old(View()), pseudo)
    {
      cksum := 0;
      ghost var bytes := Serialized(View());
      assert View() == old(View()).(cksum := 0);
      hide Serialized, AddBytes, Checksum;
      var s := new Serializer();
      assert s.Written() + bytes == bytes;
      Serialize(s);
      var check := new InternetChecksum(pseudo);
      var chunks := s.Output();
      check.AddAll(chunks);
      cksum := check.Value();
    }

    /** Reads the header's fields in order, straight into this segment. */
    method ParseHeader(parser: Parser, ghost data: Bytes) returns (dataOffset: nat)
      requires parser.At(data, 0, HEADER_LENGTH) && !parser.error
      modifies this, parser, parser.input
      ensures parser.At(data, HEADER_LENGTH, HEADER_LENGTH) && parser.error == (|data| < HEADER_LENGTH)
      ensures !parser.error ==> dataOffset == data[12] / 16
      ensures !parser.error ==> View() == Fields(data).(sender := Fields(data).sender.(payload := sender.payload))
    {
      hide BigEndian, Parser.At, Field;
      Pow256Values();
      if |data| >= HEADER_LENGTH {
        OneByteField(data, 12);
        OneByteField(data, 13);
      }
      srcPort := parser.NextField(2, srcPort, data, 0, HEADER_LENGTH);
      dstPort := parser.NextField(2, dstPort, data, 2, HEADER_LENGTH);
      var raw32: u32 := parser.NextField(4, 0, data, 4, HEADER_LENGTH);
      var seqno := Wrap32(raw32);
      raw32 := parser.NextField(4, raw32, data, 8, HEADER_LENGTH);
      var ackno := Some(Wrap32(raw32));
      var octet := parser.NextField(1, 0, data, 12, HEADER_LENGTH);
      dataOffset := octet / 16;
      octet := parser.NextField(1, octet, data, 13, HEADER_LENGTH);
      if !Bit(octet, 16) {
        ackno := None;
      }
      reset := Bit(octet, 4);
      sender := SenderMessage(seqno, Bit(octet, 2), sender.payload, Bit(octet, 1));
      var window: u16 := parser.NextField(2, receiver.window, data, 14, HEADER_LENGTH);
      receiver := ReceiverMessage(ackno, window);
      cksum := parser.NextField(2, cksum, data, 16, HEADER_LENGTH);
      var urgent := parser.NextField(2, 0, data, 18, HEADER_LENGTH);
      EndOfHeader(parser, data);
    }

    /** Verifies the checksum over everything, reads the header, skips options, and takes the rest
        as payload. The offset is in 32-bit words; one that is too small makes the skip wrap around
        to almost 2^32 bytes, after the error has been set. */
    method Parse(parser: Parser, pseudo: u32)
      requires parser.Valid() && !parser.error
      requires parser.input.CanRead(Min(HEADER_LENGTH, parser.input.size))
      modifies this, parser, parser.input
      ensures parser.error <==> Parsed(old(parser.input.Rest()), pseudo).None?
      ensures !parser.error ==> Parsed(old(parser.input.Rest()), pseudo) == Some(View())
    {
      hide Verifies, Readable, Flatten;
      ghost var data := parser.input.Rest();
      assert data[0..] == data;
      assert parser.At(data, 0, HEADER_LENGTH);
      var ok := ChecksumHolds(parser, pseudo);
      if !ok {
        parser.SetError();
        return;
      }
      AcceptHeader(parser, data);
    }

    method ChecksumHolds(parser: Parser, pseudo: u32) returns (ok: bool)
      requires parser.Valid()
      ensures ok == Verifies(parser.input.Rest(), pseudo)
    {
      hide AddBytes, Checksum, Readable, Flatten;
      var parser2 := new Parser.Copy(parser);
      var everything := parser2.AllRemaining();
      var check := new InternetChecksum(pseudo);
      check.Add(everything);
      var value := check.Value();
      ok := value == 0;
    }

    method AcceptHeader(parser: Parser, ghost data: Bytes)
      requires parser.At(data, 0, HEADER_LENGTH) && !parser.error
      modifies this, parser, parser.input
      ensures !parser.error <==> |data| >= HEADER_LENGTH && data[12] / 16 >= HEADER_WORDS
      ensures !parser.error ==> View() == Fields(data)
    {
      var dataOffset := ParseHeader(parser, data);
      EndOfHeader(parser, data);
      if |data| >= HEADER_LENGTH { PayloadStarts(data, dataOffset); }
      hide BigEndian, Field, Fields, Readable, Flatten, Parser.At, Bit;
      if dataOffset < HEADER_WORDS {
        parser.SetError();
      }
      parser.RemovePrefix((dataOffset * 4 - HEADER_WORDS * 4) % TWO32);
      var payload := parser.AllRemaining();
      sender := sender.(payload := payload);
    }
  }

  lemma PayloadStarts(data: Bytes, dataOffset: nat)
    requires |data| >= HEADER_LENGTH
    ensures dataOffset == data[12] / 16 && dataOffset >= HEADER_WORDS ==>
              var rest, skip := data[HEADER_LENGTH..], (dataOffset * 4 - HEADER_WORDS * 4) % TWO32;
              Fields(data).sender.payload == rest[Min(skip, |rest|)..]
  {
  }

  lemma EndOfHeader(parser: Parser, data: Bytes)
    requires parser.At(data, HEADER_LENGTH, HEADER_LENGTH)
    ensures parser.error == (|data| < HEADER_LENGTH) && parser.Valid()
    ensures !parser.error ==> parser.input.Rest() == data[HEADER_LENGTH..]
  {
  }

  // ---- whole segments to chunks and back ----

  /** The chunks that the serializer makes of a segment: the header, the payload (perhaps empty)
      and an empty rest. The header can be read without meeting an empty chunk. */
  lemma SerializedReadable(s: Segment, chunks: seq<Bytes>)
    requires |chunks| > 0 && chunks[0] == Serialized(s)[..HEADER_LENGTH]
    ensures Readable(chunks, 0, HEADER_LENGTH)
  {
  }

  method SerializeSegment(obj: TCPSegment) returns (chunks: seq<Bytes>)
    ensures Flatten(chunks) == Serialized(obj.View()) && Readable(chunks, 0, HEADER_LENGTH)
  {
    var s := new Serializer();
    assert s.Written() + Serialized(obj.View()) == Serialized(obj.View());
    obj.Serialize(s);
    chunks := s.Output();
    SerializedReadable(obj.View(), chunks);
  }

  method ParseSegment(obj: TCPSegment, chunks: seq<Bytes>, pseudo: u32) returns (ok: bool)
    requires Readable(chunks, 0, Min(HEADER_LENGTH, |Flatten(chunks)|))
    modifies obj
    ensures ok <==> Parsed(Flatten(chunks), pseudo).Some?
    ensures ok ==> Parsed(Flatten(chunks), pseudo) == Some(obj.View())
  {
    var p := new Parser(chunks);
    obj.Parse(p, pseudo);
    ok := !p.error;
  }
}
