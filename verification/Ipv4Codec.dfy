/** IPv4 datagrams as bytes, with their header checksum (ipv4_header.cc, ipv4_datagram.cc). */
module Ipv4Codec {
  import opened Types
  import opened ParsingModel
  import opened Checksum

  const HEADER_LENGTH: nat := 20

  // ---------------------------------------------------------------- the header

  function FirstByte(h: Ipv4Header): byte { h.ver * 16 % 256 + h.hlen % 16 }

  function FragmentWord(h: Ipv4Header): u16 { Weight(h.df, 0x4000) + Weight(h.mf, 0x2000) + h.offset % 0x2000 }

  /** The fields before the checksum, then `tail`. */
  function Front(h: Ipv4Header, tail: seq<byte>): seq<byte> {
    Unparse(FirstByte(h), 1) + (Unparse(h.tos, 1) + (Unparse(h.len, 2) + (Unparse(h.id, 2) +
    (Unparse(FragmentWord(h), 2) + (Unparse(h.ttl, 1) + (Unparse(h.proto, 1) + tail))))))
  }

  /** The addresses and the padding up to the advertised size. */
  function Back(h: Ipv4Header): seq<byte>
    requires h.hlen >= 5
  {
    Unparse(h.src, 4) + (Unparse(h.dst, 4) + Zeros(4 * h.hlen - HEADER_LENGTH))
  }

  /** `None` where the C++ throws: wrong version, or a header shorter than an IPv4 header. */
  function SerializeHeader(h: Ipv4Header): Option<seq<byte>> {
    if h.ver != 4 || h.hlen < 5 then None else Some(Front(h, Unparse(h.cksum, 2) + Back(h)))
  }

  function ReadFields(p0: Parser): (Ipv4Header, Parser) {
    var (first, p1) := U8(p0);
    var (tos, p2) := U8(p1);
    var (len, p3) := U16(p2);
    var (id, p4) := U16(p3);
    var (fo, p5) := U16(p4);
    var (ttl, p6) := U8(p5);
    var (proto, p7) := U8(p6);
    var (cksum, p8) := U16(p7);
    var (src, p9) := U32(p8);
    var (dst, p10) := U32(p9);
    (Ipv4Header(first / 16, first % 16, tos, len, id, Bit(fo, 0x4000), Bit(fo, 0x2000), fo % 0x2000,
                ttl, proto, cksum, src, dst), p10)
  }

  /** A buffer too short for any header leaves the fields and the parser alone. */
  function ParseHeader(old_: Ipv4Header, p: Parser): (Ipv4Header, ParseResult, Parser) {
    var size := |p.buffer|;
    if size < HEADER_LENGTH then (old_, PacketTooShort, p)
    else
      var (h, p') := ReadFields(p);
      if size < 4 * h.hlen then (h, PacketTooShort, p')
      else if h.ver != 4 then (h, WrongIPVersion, p')
      else if h.hlen < 5 then (h, HeaderTooShort, p')
      else if size != h.len then (h, TruncatedPacket, p')
      else
        var p'' := RemovePrefix(p', h.hlen * 4 - HEADER_LENGTH);
        if p''.error != NoError then (h, p''.error, p'')
        else (h, if Value(WordSum(p.buffer[..4 * h.hlen], false) % TWO_32) != 0 then BadChecksum else NoError, p'')
  }

  // ---------------------------------------------------------------- the datagram

  /** `len - 4 * hlen` in 16 bits. */
  function PayloadLength(h: Ipv4Header): u16 { (h.len - 4 * h.hlen) % TWO_16 }

  function WithChecksum(h: Ipv4Header): Option<Ipv4Header> {
    match SerializeHeader(h.(cksum := 0))
    case None => None
    case Some(bytes) => Some(h.(cksum := Value(WordSum(bytes, false) % TWO_32)))
  }

  function Serialize(d: Ipv4Datagram): Option<seq<byte>> {
    if |d.payload| != PayloadLength(d.header) then None
    else
      match WithChecksum(d.header)
      case None => None
      case Some(h) => Some(SerializeHeader(h).value + d.payload)
  }

  /** What the header parser reported is not looked at. */
  function Parse(old_: Ipv4Datagram, buffer: seq<byte>): (Ipv4Datagram, ParseResult) {
    var (h, _, p) := ParseHeader(old_.header, Parser(buffer, NoError));
    (Ipv4Datagram(h, p.buffer), if |p.buffer| != PayloadLength(h) then PacketTooShort else p.error)
  }

  // ---------------------------------------------------------------- round trip

  lemma FirstByteBits(h: Ipv4Header)
    requires h.ver < 16 && h.hlen < 16
    ensures FirstByte(h) / 16 == h.ver && FirstByte(h) % 16 == h.hlen
  {
    assert FirstByte(h) == 16 * h.ver + h.hlen;
  }

  lemma FragmentBits(h: Ipv4Header)
    requires h.offset < 0x2000
    ensures var fo := FragmentWord(h);
            Bit(fo, 0x4000) == h.df && Bit(fo, 0x2000) == h.mf && fo % 0x2000 == h.offset
  {
  }

  lemma FrontTail(h: Ipv4Header, a: seq<byte>, b: seq<byte>)
    ensures Front(h, a) + b == Front(h, a + b) && |Front(h, a)| == 10 + |a|
  {
    hide Unparse, FirstByte, FragmentWord;
    var t6 := Unparse(h.proto, 1) + a;
    var t5 := Unparse(h.ttl, 1) + t6;
    var t4 := Unparse(FragmentWord(h), 2) + t5;
    var t3 := Unparse(h.id, 2) + t4;
    var t2 := Unparse(h.len, 2) + t3;
    var t1 := Unparse(h.tos, 1) + t2;
    Assoc(Unparse(h.proto, 1), a, b);
    Assoc(Unparse(h.ttl, 1), t6, b);
    Assoc(Unparse(FragmentWord(h), 2), t5, b);
    Assoc(Unparse(h.id, 2), t4, b);
    Assoc(Unparse(h.len, 2), t3, b);
    Assoc(Unparse(h.tos, 1), t2, b);
    Assoc(Unparse(FirstByte(h), 1), t1, b);
  }

  lemma FrontRoundTrip(h: Ipv4Header, tail: seq<byte>)
    ensures var (first, p1) := U8(Parser(Front(h, tail), NoError));
            var (tos, p2) := U8(p1);
            var (len, p3) := U16(p2);
            var (id, p4) := U16(p3);
            var (fo, p5) := U16(p4);
            var (ttl, p6) := U8(p5);
            var (proto, p7) := U8(p6);
            && first == FirstByte(h) && tos == h.tos && len == h.len && id == h.id && fo == FragmentWord(h)
            && ttl == h.ttl && proto == h.proto && p7 == Parser(tail, NoError)
  {
    hide U8, U16, Unparse, FirstByte, FragmentWord;
    var t6 := Unparse(h.proto, 1) + tail;
    var t5 := Unparse(h.ttl, 1) + t6;
    var t4 := Unparse(FragmentWord(h), 2) + t5;
    var t3 := Unparse(h.id, 2) + t4;
    var t2 := Unparse(h.len, 2) + t3;
    var t1 := Unparse(h.tos, 1) + t2;
    U8Unparse(FirstByte(h), t1);
    U8Unparse(h.tos, t2);
    U16Unparse(h.len, t3);
    U16Unparse(h.id, t4);
    U16Unparse(FragmentWord(h), t5);
    U8Unparse(h.ttl, t6);
    U8Unparse(h.proto, tail);
  }

  /** The header the parser reads is the header that was written. */
  lemma FieldsRoundTrip(h: Ipv4Header, payload: seq<byte>)
    requires h.ver == 4 && 5 <= h.hlen <= 15 && h.offset < 0x2000
    ensures ReadFields(Parser(SerializeHeader(h).value + payload, NoError)) ==
            (h, Parser(Zeros(4 * h.hlen - HEADER_LENGTH) + payload, NoError))
    ensures |SerializeHeader(h).value| == 4 * h.hlen
  {
    hide Front, U8, U16, U32, Unparse, Zeros, FirstByte, FragmentWord, Bit;
    var pad := Zeros(4 * h.hlen - HEADER_LENGTH);
    var tail := Unparse(h.dst, 4) + (pad + payload);
    FrontTail(h, Unparse(h.cksum, 2) + Back(h), payload);
    Assoc(Unparse(h.cksum, 2), Back(h), payload);
    Assoc(Unparse(h.src, 4), Unparse(h.dst, 4) + pad, payload);
    Assoc(Unparse(h.dst, 4), pad, payload);
    FrontRoundTrip(h, Unparse(h.cksum, 2) + (Unparse(h.src, 4) + tail));
    U16Unparse(h.cksum, Unparse(h.src, 4) + tail);
    U32Unparse(h.src, tail);
    U32Unparse(h.dst, pad + payload);
    FirstByteBits(h);
    FragmentBits(h);
  }

  lemma SumSplit(h: Ipv4Header)
    requires h.ver == 4 && h.hlen >= 5
    ensures WordSum(SerializeHeader(h).value, false) ==
            WordSum(Front(h, []), false) + h.cksum + WordSum(Back(h), false)
  {
    hide Front, Back, Unparse, WordSum;
    var word := Unparse(h.cksum, 2);
    FrontTail(h, [], word + Back(h));
    assert [] + (word + Back(h)) == word + Back(h);
    WordSumConcat(Front(h, []), word + Back(h), false);
    WordSumConcat(word, Back(h), false);
    WordValue(h.cksum);
  }

  lemma ChecksumWord(h: Ipv4Header)
    requires h.ver == 4 && h.hlen >= 5
    ensures WordSum(SerializeHeader(h).value, false) == WordSum(SerializeHeader(h.(cksum := 0)).value, false) + h.cksum
  {
    SumSplit(h);
    SumSplit(h.(cksum := 0));
    assert Front(h, []) == Front(h.(cksum := 0), []) && Back(h) == Back(h.(cksum := 0));
  }

  /** The header with its checksum filled in verifies. */
  lemma HeaderVerifies(h: Ipv4Header)
    requires h.ver == 4 && h.hlen >= 5
    ensures Value(WordSum(SerializeHeader(WithChecksum(h).value).value, false) % TWO_32) == 0
  {
    hide Front, Back, WordSum, Value;
    var h' := WithChecksum(h).value;
    assert h'.(cksum := 0) == h.(cksum := 0);
    ChecksumWord(h');
    var sum := WordSum(SerializeHeader(h.(cksum := 0)).value, false);
    WrapOnce(sum, h'.cksum);
    SumVerifies(sum % TWO_32);
  }

  /** A verified header in front of a payload of the announced length parses without error. */
  lemma HeaderRoundTrip(h: Ipv4Header, payload: seq<byte>, old_: Ipv4Header)
    requires h.ver == 4 && 5 <= h.hlen <= 15 && h.offset < 0x2000 && h.len == 4 * h.hlen + |payload|
    requires Value(WordSum(SerializeHeader(h).value, false) % TWO_32) == 0
    ensures ParseHeader(old_, Parser(SerializeHeader(h).value + payload, NoError)) ==
            (h, NoError, Parser(payload, NoError))
  {
    hide WordSum, Value, ReadFields, RemovePrefix, Front, Back, Zeros;
    FieldsRoundTrip(h, payload);
    RemoveZeros(4 * h.hlen - HEADER_LENGTH, payload);
    assert (SerializeHeader(h).value + payload)[..4 * h.hlen] == SerializeHeader(h).value;
  }

  /** The datagram can be written without losing anything. */
  predicate Encodable(d: Ipv4Datagram) {
    d.header.ver == 4 && 5 <= d.header.hlen <= 15 && d.header.offset < 0x2000 &&
    d.header.len == 4 * d.header.hlen + |d.payload|
  }

  /** No error at any level, not even in the header's own checks, and the same datagram but for the checksum. */
  lemma DatagramRoundTrip(d: Ipv4Datagram, old_: Ipv4Datagram)
    requires Encodable(d)
    ensures Serialize(d).Some? && WithChecksum(d.header).Some?
    ensures ParseHeader(old_.header, Parser(Serialize(d).value, NoError)).1 == NoError
    ensures Parse(old_, Serialize(d).value) == (d.(header := WithChecksum(d.header).value), NoError)
  {
    hide ParseHeader, WordSum, Value, Front, Back;
    HeaderVerifies(d.header);
    HeaderRoundTrip(WithChecksum(d.header).value, d.payload, old_.header);
  }

  /** What the parser reads fits the widths on the wire. */
  lemma FieldsAreSmall(p: Parser)
    ensures ReadFields(p).0.hlen < 16 && ReadFields(p).0.offset < 0x2000
  {
    hide U8, U16, U32;
  }

  /** An accepted header is the one read, of the version and the length it claims. */
  lemma AcceptedHeader(old_: Ipv4Header, p: Parser)
    requires ParseHeader(old_, p).1 == NoError
    ensures var h := ParseHeader(old_, p).0;
            h == ReadFields(p).0 && h.ver == 4 && h.hlen >= 5 && h.len == |p.buffer|
  {
    hide ReadFields, RemovePrefix, WordSum, Value;
  }

  /** Of the datagrams that can be serialized, exactly the encodable ones come back whole with an accepted header. */
  lemma DatagramExact(d: Ipv4Datagram, old_: Ipv4Datagram)
    requires Serialize(d).Some?
    ensures (ParseHeader(old_.header, Parser(Serialize(d).value, NoError)).1 == NoError &&
             Parse(old_, Serialize(d).value) == (d.(header := WithChecksum(d.header).value), NoError)) <==> Encodable(d)
  {
    hide ParseHeader, WordSum, Value, Front, Back, ReadFields;
    if Encodable(d) {
      DatagramRoundTrip(d, old_);
    } else if ParseHeader(old_.header, Parser(Serialize(d).value, NoError)).1 == NoError {
      var h := WithChecksum(d.header).value;
      AcceptedHeader(old_.header, Parser(Serialize(d).value, NoError));
      FieldsAreSmall(Parser(Serialize(d).value, NoError));
      HeaderLength(h);
    }
  }

  lemma HeaderLength(h: Ipv4Header)
    requires h.ver == 4 && h.hlen >= 5
    ensures |SerializeHeader(h).value| == 4 * h.hlen
  {
    FrontTail(h, Unparse(h.cksum, 2) + Back(h), []);
  }
}
