/** TCP segments as bytes, with their checksum (tcp_header.cc, tcp_segment.cc). */
module TcpCodec {
  import opened Types
  import opened ParsingModel
  import opened Checksum

  const HEADER_LENGTH: nat := 20

  // ---------------------------------------------------------------- the header

  function FlagByte(h: TcpHeader): byte {
    Weight(h.urg, 32) + Weight(h.ack, 16) + Weight(h.psh, 8) + Weight(h.rst, 4) + Weight(h.syn, 2) + Weight(h.fin, 1)
  }

  /** The fields up to the window, then `tail`. */
  function Front(h: TcpHeader, tail: seq<byte>): seq<byte> {
    Unparse(h.sport, 2) + (Unparse(h.dport, 2) + (Unparse(h.seqno, 4) + (Unparse(h.ackno, 4) +
    (Unparse(h.doff * 16 % 256, 1) + (Unparse(FlagByte(h), 1) + (Unparse(h.win, 2) + tail))))))
  }

  /** The urgent pointer and the padding up to the advertised size. */
  function Back(h: TcpHeader): seq<byte>
    requires h.doff >= 5
  {
    Unparse(h.uptr, 2) + Zeros(4 * h.doff - HEADER_LENGTH)
  }

  /** `None` where the C++ throws: the header is shorter than a TCP header. */
  function SerializeHeader(h: TcpHeader): Option<seq<byte>> {
    if h.doff < 5 then None else Some(Front(h, Unparse(h.cksum, 2) + Back(h)))
  }

  function ParseHeader(p0: Parser): (TcpHeader, ParseResult, Parser) {
    var (sport, p1) := U16(p0);
    var (dport, p2) := U16(p1);
    var (seqno, p3) := U32(p2);
    var (ackno, p4) := U32(p3);
    var (offset, p5) := U8(p4);
    var (fl, p6) := U8(p5);
    var (win, p7) := U16(p6);
    var (cksum, p8) := U16(p7);
    var (uptr, p9) := U16(p8);
    var h := TcpHeader(sport, dport, seqno, ackno, offset / 16,
                       Bit(fl, 32), Bit(fl, 16), Bit(fl, 8), Bit(fl, 4), Bit(fl, 2), Bit(fl, 1), win, cksum, uptr);
    if h.doff < 5 then (h, HeaderTooShort, p9)
    else
      var p := RemovePrefix(p9, h.doff * 4 - HEADER_LENGTH);
      (h, p.error, p)
  }

  // ---------------------------------------------------------------- the segment

  function Sum32(base: u32, data: seq<byte>): u32 { (base + WordSum(data, false)) % TWO_32 }

  function WithChecksum(seg: TcpSegment, base: u32): Option<TcpSegment> {
    match SerializeHeader(seg.header.(cksum := 0))
    case None => None
    case Some(bytes) => Some(seg.(header := seg.header.(cksum := Value(Sum32(base, bytes + seg.payload)))))
  }

  function Serialize(seg: TcpSegment, base: u32): Option<seq<byte>> {
    match WithChecksum(seg, base)
    case None => None
    case Some(seg') => Some(SerializeHeader(seg'.header).value + seg.payload)
  }

  /** A bad checksum leaves the segment alone; the result of parsing the header is not looked at. */
  function Parse(old_: TcpSegment, buffer: seq<byte>, base: u32): (TcpSegment, ParseResult) {
    if Value(Sum32(base, buffer)) != 0 then (old_, BadChecksum)
    else
      var (h, _, p) := ParseHeader(Parser(buffer, NoError));
      (TcpSegment(h, p.buffer), p.error)
  }

  // ---------------------------------------------------------------- round trip

  lemma FlagBits(h: TcpHeader)
    ensures var fl := FlagByte(h);
            && Bit(fl, 32) == h.urg && Bit(fl, 16) == h.ack && Bit(fl, 8) == h.psh
            && Bit(fl, 4) == h.rst && Bit(fl, 2) == h.syn && Bit(fl, 1) == h.fin
  {
  }

  lemma FrontTail(h: TcpHeader, a: seq<byte>, b: seq<byte>)
    ensures Front(h, a) + b == Front(h, a + b) && |Front(h, a)| == 16 + |a|
  {
    hide Unparse, FlagByte;
    var t6 := Unparse(h.win, 2) + a;
    var t5 := Unparse(FlagByte(h), 1) + t6;
    var t4 := Unparse(h.doff * 16 % 256, 1) + t5;
    var t3 := Unparse(h.ackno, 4) + t4;
    var t2 := Unparse(h.seqno, 4) + t3;
    var t1 := Unparse(h.dport, 2) + t2;
    Assoc(Unparse(h.win, 2), a, b);
    Assoc(Unparse(FlagByte(h), 1), t6, b);
    Assoc(Unparse(h.doff * 16 % 256, 1), t5, b);
    Assoc(Unparse(h.ackno, 4), t4, b);
    Assoc(Unparse(h.seqno, 4), t3, b);
    Assoc(Unparse(h.dport, 2), t2, b);
    Assoc(Unparse(h.sport, 2), t1, b);
  }

  /** The fields up to the window are read back. */
  lemma FrontRoundTrip(h: TcpHeader, tail: seq<byte>)
    requires h.doff <= 15
    ensures var (sport, p1) := U16(Parser(Front(h, tail), NoError));
            var (dport, p2) := U16(p1);
            var (seqno, p3) := U32(p2);
            var (ackno, p4) := U32(p3);
            var (offset, p5) := U8(p4);
            var (fl, p6) := U8(p5);
            var (win, p7) := U16(p6);
            && sport == h.sport && dport == h.dport && seqno == h.seqno && ackno == h.ackno
            && offset == 16 * h.doff && fl == FlagByte(h) && win == h.win && p7 == Parser(tail, NoError)
  {
    hide U8, U16, U32, Unparse, FlagByte;
    var t6 := Unparse(h.win, 2) + tail;
    var t5 := Unparse(FlagByte(h), 1) + t6;
    var t4 := Unparse(h.doff * 16 % 256, 1) + t5;
    var t3 := Unparse(h.ackno, 4) + t4;
    var t2 := Unparse(h.seqno, 4) + t3;
    var t1 := Unparse(h.dport, 2) + t2;
    U16Unparse(h.sport, t1);
    U16Unparse(h.dport, t2);
    U32Unparse(h.seqno, t3);
    U32Unparse(h.ackno, t4);
    U8Unparse(h.doff * 16 % 256, t5);
    U8Unparse(FlagByte(h), t6);
    U16Unparse(h.win, tail);
  }

  /** Every header that fits in its offset field is read back field by field. */
  lemma HeaderRoundTrip(h: TcpHeader, payload: seq<byte>)
    requires 5 <= h.doff <= 15
    ensures ParseHeader(Parser(SerializeHeader(h).value + payload, NoError)) == (h, NoError, Parser(payload, NoError))
  {
    hide Front, U8, U16, U32, Unparse, Zeros, RemovePrefix, FlagByte, Bit;
    var pad := Zeros(4 * h.doff - HEADER_LENGTH);
    var tail := Unparse(h.cksum, 2) + (Unparse(h.uptr, 2) + (pad + payload));
    FrontTail(h, Unparse(h.cksum, 2) + Back(h), payload);
    Assoc(Unparse(h.cksum, 2), Back(h), payload);
    Assoc(Unparse(h.uptr, 2), pad, payload);
    FrontRoundTrip(h, tail);
    U16Unparse(h.cksum, Unparse(h.uptr, 2) + (pad + payload));
    U16Unparse(h.uptr, pad + payload);
    RemoveZeros(4 * h.doff - HEADER_LENGTH, payload);
    FlagBits(h);
  }

  /** The checksum field is a whole word of the sum. */
  lemma ChecksumWord(h: TcpHeader, payload: seq<byte>)
    requires h.doff >= 5
    ensures WordSum(SerializeHeader(h).value + payload, false) ==
            WordSum(SerializeHeader(h.(cksum := 0)).value + payload, false) + h.cksum
  {
    var h0 := h.(cksum := 0);
    SumSplit(h, payload);
    SumSplit(h0, payload);
    assert Front(h, []) == Front(h0, []) && Back(h) == Back(h0);
  }

  lemma SumSplit(h: TcpHeader, payload: seq<byte>)
    requires h.doff >= 5
    ensures WordSum(SerializeHeader(h).value + payload, false) ==
            WordSum(Front(h, []), false) + h.cksum + WordSum(Back(h) + payload, false)
  {
    hide Front, Back, Unparse, WordSum;
    var word, tail := Unparse(h.cksum, 2), Back(h) + payload;
    FrontTail(h, word + Back(h), payload);
    Assoc(word, Back(h), payload);
    FrontTail(h, [], word + tail);
    assert [] + (word + tail) == word + tail;
    WordSumConcat(Front(h, []), word + tail, false);
    WordSumConcat(word, tail, false);
    WordValue(h.cksum);
  }

  /** The sum of the segment with a zero checksum field, and the checksum that goes there. */
  function ZeroSum(seg: TcpSegment, base: u32): u32
    requires seg.header.doff >= 5
  {
    Sum32(base, SerializeHeader(seg.header.(cksum := 0)).value + seg.payload)
  }

  /** Filling in the checksum adds it to the 32-bit sum. */
  lemma SentSum(seg: TcpSegment, base: u32)
    requires seg.header.doff >= 5
    ensures Sum32(base, Serialize(seg, base).value) == (ZeroSum(seg, base) + Value(ZeroSum(seg, base))) % TWO_32
  {
    hide Front, Back, WordSum, Value;
    var h' := WithChecksum(seg, base).value.header;
    assert h'.(cksum := 0) == seg.header.(cksum := 0);
    ChecksumWord(h', seg.payload);
    WrapOnce(base + WordSum(SerializeHeader(seg.header.(cksum := 0)).value + seg.payload, false), h'.cksum);
  }

  /** Serializing and parsing gives back the segment with its checksum filled in, and no error. */
  lemma SegmentRoundTrip(seg: TcpSegment, old_: TcpSegment, base: u32)
    requires 5 <= seg.header.doff <= 15
    ensures WithChecksum(seg, base).Some?
    ensures Parse(old_, Serialize(seg, base).value, base) == (WithChecksum(seg, base).value, NoError)
  {
    hide ParseHeader, WordSum, Value, Sum32, ZeroSum, Front, Back;
    SentSum(seg, base);
    SumVerifies(ZeroSum(seg, base));
    HeaderRoundTrip(WithChecksum(seg, base).value.header, seg.payload);
  }

  /** What the parser reads as a data offset has four bits. */
  lemma OffsetIsSmall(p: Parser)
    ensures ParseHeader(p).0.doff < 16
  {
    hide U8, U16, U32, RemovePrefix;
    var offset: byte := U8(U32(U32(U16(U16(p).1).1).1).1).0;
    assert ParseHeader(p).0.doff == offset / 16;
  }

  /** Of the segments that can be serialized, exactly these survive the round trip. */
  lemma SegmentExact(seg: TcpSegment, old_: TcpSegment, base: u32)
    requires seg.header.doff >= 5
    ensures WithChecksum(seg, base).Some?
    ensures Parse(old_, Serialize(seg, base).value, base) == (WithChecksum(seg, base).value, NoError) <==>
            seg.header.doff <= 15
  {
    hide ParseHeader, WordSum, Value, Sum32, ZeroSum, Front, Back;
    if seg.header.doff <= 15 {
      SegmentRoundTrip(seg, old_, base);
    } else {
      OffsetIsSmall(Parser(Serialize(seg, base).value, NoError));
    }
  }
}
