/**
 Where each header field stands, byte by byte, as section 3.1 of RFC 9293 and section 3.1 of RFC 791 lay them out: in
 every buffer that is parsed and in every header that is written (tcp_header.cc, ipv4_header.cc).
 */
module WireFormat {
  import opened Types
  import opened ParsingModel
  import opened Checksum
  import opened ReceivedBuffers
  import T = TcpCodec
  import I = Ipv4Codec
  import E = Encapsulation

  function Long(a: nat, b: nat, c: nat, d: nat): nat { Word(Word(Word(a, b), c), d) }

  lemma FourBytes(b: seq<byte>, at: nat)
    requires at + 4 <= |b|
    ensures BigEndian(b[at..at + 4]) == Long(b[at], b[at + 1], b[at + 2], b[at + 3])
  {
    assert b[at..at + 4][..3] == b[at..at + 3] && b[at..at + 3][..2] == b[at..at + 2];
    TwoBytes(b, at);
    assert BigEndian(b[at..at + 3]) == Word(BigEndian(b[at..at + 2]), b[at + 2]);
  }

  // ---------------------------------------------------------------- the TCP header, field by field

  /** The six flags are the low bits of the byte, from URG down to FIN. */
  ghost predicate FlagsAre(h: TcpHeader, f: byte) {
    && (h.urg <==> f / 32 % 2 == 1) && (h.ack <==> f / 16 % 2 == 1) && (h.psh <==> f / 8 % 2 == 1)
    && (h.rst <==> f / 4 % 2 == 1) && (h.syn <==> f / 2 % 2 == 1) && (h.fin <==> f % 2 == 1)
  }

  /** The sixteen-bit and thirty-two-bit fields, the data offset and the six flags, at their places. */
  ghost predicate TcpFieldsAt(h: TcpHeader, b: seq<byte>)
    requires |b| >= 20
  {
    && h.sport == Word(b[0], b[1]) && h.dport == Word(b[2], b[3])
    && h.seqno == Long(b[4], b[5], b[6], b[7]) && h.ackno == Long(b[8], b[9], b[10], b[11])
    && h.doff == b[12] / 16
    && FlagsAre(h, b[13])
    && h.win == Word(b[14], b[15]) && h.cksum == Word(b[16], b[17]) && h.uptr == Word(b[18], b[19])
  }

  lemma TcpReadPorts(b: seq<byte>)
    requires |b| >= 20
    ensures var (sport, p1) := U16(Parser(b, NoError));
            var (dport, p2) := U16(p1);
            sport == Word(b[0], b[1]) && dport == Word(b[2], b[3]) && Reached(p2, b, 4)
  {
    TwoBytes(b, 0);
    TwoBytes(b, 2);
    hide ParseInt, BigEndian, Reached, Word;
    StartsAt(b);
    ReadOn(Parser(b, NoError), b, 0, 2);
    ReadOn(U16(Parser(b, NoError)).1, b, 2, 2);
  }

  lemma TcpReadNumbers(b: seq<byte>, p2: Parser)
    requires |b| >= 20 && Reached(p2, b, 4)
    ensures var (seqno, p3) := U32(p2);
            var (ackno, p4) := U32(p3);
            && seqno == Long(b[4], b[5], b[6], b[7]) && ackno == Long(b[8], b[9], b[10], b[11]) && Reached(p4, b, 12)
  {
    FourBytes(b, 4);
    FourBytes(b, 8);
    hide ParseInt, BigEndian, Reached, Long;
    ReadOn(p2, b, 4, 4);
    ReadOn(U32(p2).1, b, 8, 4);
  }

  lemma TcpReadBack(b: seq<byte>, p4: Parser)
    requires |b| >= 20 && Reached(p4, b, 12)
    ensures var (offset, p5) := U8(p4);
            var (fl, p6) := U8(p5);
            var (win, p7) := U16(p6);
            var (cksum, p8) := U16(p7);
            var (uptr, p9) := U16(p8);
            && offset == b[12] && fl == b[13] && win == Word(b[14], b[15]) && cksum == Word(b[16], b[17])
            && uptr == Word(b[18], b[19])
  {
    OneByte(b, 12);
    OneByte(b, 13);
    TwoBytes(b, 14);
    TwoBytes(b, 16);
    TwoBytes(b, 18);
    hide ParseInt, BigEndian, Reached, Word, Long;
    ReadOn(p4, b, 12, 1);
    var p5 := U8(p4).1;
    ReadOn(p5, b, 13, 1);
    var p6 := U8(p5).1;
    ReadOn(p6, b, 14, 2);
    var p7 := U16(p6).1;
    ReadOn(p7, b, 16, 2);
    var p8 := U16(p7).1;
    ReadOn(p8, b, 18, 2);
  }

  /** Every buffer of at least twenty bytes is read at these places. */
  lemma TcpReadsAt(b: seq<byte>)
    requires |b| >= 20
    ensures TcpFieldsAt(T.ParseHeader(Parser(b, NoError)).0, b)
  {
    hide U8, U16, U32, Word, Long, RemovePrefix, Reached;
    TcpReadPorts(b);
    TcpReadNumbers(b, U16(U16(Parser(b, NoError)).1).1);
    TcpReadBack(b, U32(U32(U16(U16(Parser(b, NoError)).1).1).1).1);
  }

  // ---------------------------------------------------------------- written at the same places

  /** A field written at `at`, and what follows it. */
  lemma FieldAt(b: seq<byte>, at: nat, val: nat, len: nat, rest: seq<byte>)
    requires at <= |b| && b[at..] == Unparse(val, len) + rest && val < Pow256(len)
    ensures at + len <= |b| && BigEndian(b[at..at + len]) == val && b[at + len..] == rest
  {
    UnparseValue(val, len);
    assert |b| - at == len + |rest|;
    assert b[at..at + len] == b[at..][..len] == Unparse(val, len);
    assert b[at + len..] == b[at..][len..] == rest;
  }

  lemma ByteField(b: seq<byte>, at: nat, val: byte, rest: seq<byte>)
    requires at <= |b| && b[at..] == Unparse(val, 1) + rest
    ensures at < |b| && b[at] == val && b[at + 1..] == rest
  {
    Widths();
    FieldAt(b, at, val, 1, rest);
    OneByte(b, at);
  }

  lemma WordField(b: seq<byte>, at: nat, val: u16, rest: seq<byte>)
    requires at <= |b| && b[at..] == Unparse(val, 2) + rest
    ensures at + 2 <= |b| && Word(b[at], b[at + 1]) == val && b[at + 2..] == rest
  {
    Widths();
    FieldAt(b, at, val, 2, rest);
    TwoBytes(b, at);
  }

  lemma LongField(b: seq<byte>, at: nat, val: u32, rest: seq<byte>)
    requires at <= |b| && b[at..] == Unparse(val, 4) + rest
    ensures at + 4 <= |b| && Long(b[at], b[at + 1], b[at + 2], b[at + 3]) == val && b[at + 4..] == rest
  {
    Widths();
    FieldAt(b, at, val, 4, rest);
    FourBytes(b, at);
  }

  lemma TcpWriteFront(h: TcpHeader, tail: seq<byte>)
    ensures var b := T.Front(h, tail);
            && |b| == 16 + |tail| && b[16..] == tail
            && Word(b[0], b[1]) == h.sport && Word(b[2], b[3]) == h.dport
            && Long(b[4], b[5], b[6], b[7]) == h.seqno && Long(b[8], b[9], b[10], b[11]) == h.ackno
            && b[12] == h.doff * 16 % 256 && b[13] == T.FlagByte(h) && Word(b[14], b[15]) == h.win
  {
    hide Unparse, T.FlagByte, Word, Long;
    var b := T.Front(h, tail);
    var t6 := Unparse(h.win, 2) + tail;
    var t5 := Unparse(T.FlagByte(h), 1) + t6;
    var t4 := Unparse(h.doff * 16 % 256, 1) + t5;
    var t3 := Unparse(h.ackno, 4) + t4;
    var t2 := Unparse(h.seqno, 4) + t3;
    var t1 := Unparse(h.dport, 2) + t2;
    assert b[0..] == b;
    WordField(b, 0, h.sport, t1);
    WordField(b, 2, h.dport, t2);
    LongField(b, 4, h.seqno, t3);
    LongField(b, 8, h.ackno, t4);
    ByteField(b, 12, h.doff * 16 % 256, t5);
    ByteField(b, 13, T.FlagByte(h), t6);
    WordField(b, 14, h.win, tail);
  }

  lemma FlagValue(h: TcpHeader)
    ensures T.FlagByte(h) < 64 && FlagsAre(h, T.FlagByte(h))
  {
    T.FlagBits(h);
  }

  lemma OffsetByte(doff: byte)
    requires doff <= 15
    ensures doff * 16 % 256 == 16 * doff && 16 * doff / 16 == doff && 16 * doff % 16 == 0
  {
  }

  lemma ZerosFrom(b: seq<byte>, at: nat, n: nat, k: nat)
    requires at <= |b| && b[at..] == Zeros(n) && at <= k < |b|
    ensures b[k] == 0
  {
    assert b[k] == b[at..][k - at];
  }

  lemma TcpWriteBack(h: TcpHeader, b: seq<byte>)
    requires h.doff >= 5 && |b| >= 16 && b[16..] == Unparse(h.cksum, 2) + T.Back(h)
    ensures |b| == 4 * h.doff && b[20..] == Zeros(4 * h.doff - 20)
    ensures h.cksum == Word(b[16], b[17]) && h.uptr == Word(b[18], b[19])
  {
    hide Unparse, Zeros, Word;
    WordField(b, 16, h.cksum, T.Back(h));
    WordField(b, 18, h.uptr, Zeros(4 * h.doff - 20));
  }

  /** Every header that is written has its fields at these places, no reserved bit set, and zeros up to its length. */
  lemma TcpWritesAt(h: TcpHeader)
    requires 5 <= h.doff <= 15
    ensures var b := T.SerializeHeader(h).value;
            && |b| == 4 * h.doff && TcpFieldsAt(h, b) && b[12] % 16 == 0 && b[13] < 64
            && forall k | 20 <= k < |b| :: b[k] == 0
  {
    var b := T.SerializeHeader(h).value;
    var pad := Zeros(4 * h.doff - 20);
    hide T.Front, T.FlagByte, T.Back, Unparse, Zeros, Word, Long;
    TcpWriteFront(h, Unparse(h.cksum, 2) + T.Back(h));
    FlagValue(h);
    hide FlagsAre;
    OffsetByte(h.doff);
    TcpWriteBack(h, b);
    forall k | 20 <= k < |b| ensures b[k] == 0 { ZerosFrom(b, 20, |pad|, k); }
  }

  // ---------------------------------------------------------------- the IPv4 header, field by field

  ghost predicate IpFieldsAt(h: Ipv4Header, b: seq<byte>)
    requires |b| >= 20
  {
    && h.ver == b[0] / 16 && h.hlen == b[0] % 16 && h.tos == b[1] && h.len == Word(b[2], b[3]) && h.id == Word(b[4], b[5])
    && (h.df <==> b[6] / 64 % 2 == 1) && (h.mf <==> b[6] / 32 % 2 == 1) && h.offset == Word(b[6] % 32, b[7])
    && h.ttl == b[8] && h.proto == b[9] && h.cksum == Word(b[10], b[11])
    && h.src == Long(b[12], b[13], b[14], b[15]) && h.dst == Long(b[16], b[17], b[18], b[19])
  }

  /** The fragment word splits at the byte boundary. */
  lemma FragmentSplit(hi: byte, lo: byte)
    ensures var fo := Word(hi, lo);
            (Bit(fo, 0x4000) <==> hi / 64 % 2 == 1) && (Bit(fo, 0x2000) <==> hi / 32 % 2 == 1)
            && fo % 0x2000 == Word(hi % 32, lo)
  {
    var fo := Word(hi, lo);
    assert fo / 0x4000 == hi / 64 && fo / 0x2000 == hi / 32;
  }

  lemma IpReadFront(b: seq<byte>)
    requires |b| >= 20
    ensures var (first, p1) := U8(Parser(b, NoError));
            var (tos, p2) := U8(p1);
            var (len, p3) := U16(p2);
            var (id, p4) := U16(p3);
            var (fo, p5) := U16(p4);
            && first == b[0] && tos == b[1] && len == Word(b[2], b[3]) && id == Word(b[4], b[5])
            && fo == Word(b[6], b[7]) && Reached(p5, b, 8)
  {
    OneByte(b, 0);
    OneByte(b, 1);
    TwoBytes(b, 2);
    TwoBytes(b, 4);
    TwoBytes(b, 6);
    hide ParseInt, BigEndian, Reached, Word, Long;
    var p0 := Parser(b, NoError);
    StartsAt(b);
    ReadOn(p0, b, 0, 1);
    var p1 := U8(p0).1;
    ReadOn(p1, b, 1, 1);
    var p2 := U8(p1).1;
    ReadOn(p2, b, 2, 2);
    var p3 := U16(p2).1;
    ReadOn(p3, b, 4, 2);
    var p4 := U16(p3).1;
    ReadOn(p4, b, 6, 2);
  }

  lemma IpReadBack(b: seq<byte>, p5: Parser)
    requires |b| >= 20 && Reached(p5, b, 8)
    ensures var (ttl, p6) := U8(p5);
            var (proto, p7) := U8(p6);
            var (cksum, p8) := U16(p7);
            var (src, p9) := U32(p8);
            var (dst, p10) := U32(p9);
            && ttl == b[8] && proto == b[9] && cksum == Word(b[10], b[11])
            && src == Long(b[12], b[13], b[14], b[15]) && dst == Long(b[16], b[17], b[18], b[19])
  {
    OneByte(b, 8);
    OneByte(b, 9);
    TwoBytes(b, 10);
    FourBytes(b, 12);
    FourBytes(b, 16);
    hide ParseInt, BigEndian, Reached, Word, Long;
    ReadOn(p5, b, 8, 1);
    var p6 := U8(p5).1;
    ReadOn(p6, b, 9, 1);
    var p7 := U8(p6).1;
    ReadOn(p7, b, 10, 2);
    var p8 := U16(p7).1;
    ReadOn(p8, b, 12, 4);
    var p9 := U32(p8).1;
    ReadOn(p9, b, 16, 4);
  }

  /** Every buffer of at least twenty bytes is read at these places. */
  lemma IpReadsAt(b: seq<byte>)
    requires |b| >= 20
    ensures IpFieldsAt(I.ReadFields(Parser(b, NoError)).0, b)
  {
    FragmentSplit(b[6], b[7]);
    hide U8, U16, U32, Word, Long, Bit, Reached;
    IpReadFront(b);
    IpReadBack(b, U16(U16(U16(U8(U8(Parser(b, NoError)).1).1).1).1).1);
  }

  lemma IpWriteFront(h: Ipv4Header, tail: seq<byte>)
    ensures var b := I.Front(h, tail);
            && |b| == 10 + |tail| && b[10..] == tail
            && b[0] == I.FirstByte(h) && b[1] == h.tos && Word(b[2], b[3]) == h.len && Word(b[4], b[5]) == h.id
            && Word(b[6], b[7]) == I.FragmentWord(h) && b[8] == h.ttl && b[9] == h.proto
  {
    hide Unparse, I.FirstByte, I.FragmentWord, Word;
    var b := I.Front(h, tail);
    var t6 := Unparse(h.proto, 1) + tail;
    var t5 := Unparse(h.ttl, 1) + t6;
    var t4 := Unparse(I.FragmentWord(h), 2) + t5;
    var t3 := Unparse(h.id, 2) + t4;
    var t2 := Unparse(h.len, 2) + t3;
    var t1 := Unparse(h.tos, 1) + t2;
    assert b[0..] == b;
    ByteField(b, 0, I.FirstByte(h), t1);
    ByteField(b, 1, h.tos, t2);
    WordField(b, 2, h.len, t3);
    WordField(b, 4, h.id, t4);
    WordField(b, 6, I.FragmentWord(h), t5);
    ByteField(b, 8, h.ttl, t6);
    ByteField(b, 9, h.proto, tail);
  }

  lemma IpWriteBack(h: Ipv4Header, b: seq<byte>)
    requires h.hlen >= 5 && |b| >= 10 && b[10..] == Unparse(h.cksum, 2) + I.Back(h)
    ensures |b| == 4 * h.hlen && b[20..] == Zeros(4 * h.hlen - 20)
    ensures h.cksum == Word(b[10], b[11])
    ensures h.src == Long(b[12], b[13], b[14], b[15]) && h.dst == Long(b[16], b[17], b[18], b[19])
  {
    hide Unparse, Zeros, Word, Long;
    var pad := Zeros(4 * h.hlen - 20);
    WordField(b, 10, h.cksum, I.Back(h));
    LongField(b, 12, h.src, Unparse(h.dst, 4) + pad);
    LongField(b, 16, h.dst, pad);
  }

  /** The two flags and the offset, split at the byte boundary. */
  lemma FragmentPlaces(h: Ipv4Header, hi: byte, lo: byte)
    requires h.offset < 0x2000 && Word(hi, lo) == I.FragmentWord(h)
    ensures (h.df <==> hi / 64 % 2 == 1) && (h.mf <==> hi / 32 % 2 == 1) && h.offset == Word(hi % 32, lo) && hi < 128
  {
    I.FragmentBits(h);
    FragmentSplit(hi, lo);
    hide Bit;
  }

  /** Every header that is written has its fields at these places, the reserved bit clear, and zeros up to its length. */
  lemma IpWritesAt(h: Ipv4Header)
    requires h.ver == 4 && 5 <= h.hlen <= 15 && h.offset < 0x2000
    ensures var b := I.SerializeHeader(h).value;
            && |b| == 4 * h.hlen && IpFieldsAt(h, b) && b[6] < 128
            && forall k | 20 <= k < |b| :: b[k] == 0
  {
    var b := I.SerializeHeader(h).value;
    var pad := Zeros(4 * h.hlen - 20);
    IpWriteFront(h, Unparse(h.cksum, 2) + I.Back(h));
    I.FirstByteBits(h);
    FragmentPlaces(h, b[6], b[7]);
    hide I.Front, I.FirstByte, I.FragmentWord, Unparse, Zeros, Word, Long;
    IpWriteBack(h, b);
    forall k | 20 <= k < |b| ensures b[k] == 0 { ZerosFrom(b, 20, |pad|, k); }
  }

  // ---------------------------------------------------------------- the pseudo-header

  /** The twelve bytes of section 3.1 of RFC 9293: both addresses, zero, the protocol and the length of the payload. */
  function PseudoHeader(h: Ipv4Header): seq<byte> {
    Unparse(h.src, 4) + (Unparse(h.dst, 4) + ([0, h.proto] + Unparse((h.len - 4 * h.hlen) % TWO_16, 2)))
  }

  lemma LongSum(v: u32)
    ensures WordSum(Unparse(v, 4), false) == v / TWO_16 + v % TWO_16
  {
    var hi, lo := v / TWO_16, v % TWO_16;
    assert Unparse(v, 4) == Unparse(hi, 2) + Unparse(lo, 2) by { HalvesOf(v); }
    hide Unparse;
    WordValue(hi);
    WordValue(lo);
    WordSumConcat(Unparse(hi, 2), Unparse(lo, 2), false);
  }

  lemma HalvesOf(v: u32)
    ensures Unparse(v, 4) == Unparse(v / TWO_16, 2) + Unparse(v % TWO_16, 2)
  {
    var hi, lo := v / TWO_16, v % TWO_16;
    assert v / 256 / 256 == hi && v % 256 == lo % 256 && v / 256 % 256 == lo / 256 % 256;
    assert Unparse(v, 4) == (Unparse(v / 256 / 256, 2) + [v / 256 % 256]) + [v % 256];
    assert Unparse(lo, 2) == (Unparse(lo / 256 / 256, 0) + [lo / 256 % 256]) + [lo % 256];
  }

  /** What goes into the TCP checksum from below is the sum of the pseudo-header's words. */
  lemma PseudoHeaderSum(h: Ipv4Header)
    ensures E.PseudoChecksum(h) == WordSum(PseudoHeader(h), false)
  {
    var length := (h.len - 4 * h.hlen) % TWO_16;
    var last := [0, h.proto] + Unparse(length, 2);
    LongSum(h.src);
    LongSum(h.dst);
    PairSum(0, h.proto);
    WordValue(length);
    hide Unparse, WordSum;
    WordSumConcat(Unparse(h.src, 4), Unparse(h.dst, 4) + last, false);
    WordSumConcat(Unparse(h.dst, 4), last, false);
    WordSumConcat([0, h.proto], Unparse(length, 2), false);
  }

  /** Pseudo-header, header and payload together sum to zero in one's complement, as RFC 1071 asks. */
  lemma SentVerifies(seg: TcpSegment, ip: Ipv4Header)
    requires seg.header.doff >= 5
    ensures T.Serialize(seg, E.PseudoChecksum(ip)).Some?
    ensures var bytes := T.Serialize(seg, E.PseudoChecksum(ip)).value;
            Value((WordSum(PseudoHeader(ip), false) + WordSum(bytes, false)) % TWO_32) == 0
  {
    var base := E.PseudoChecksum(ip);
    var bytes := T.Serialize(seg, base).value;
    hide T.ZeroSum, Value, WordSum, T.Serialize, PseudoHeader, E.PseudoChecksum;
    PseudoHeaderSum(ip);
    assert T.Sum32(base, bytes) == (WordSum(PseudoHeader(ip), false) + WordSum(bytes, false)) % TWO_32;
    hide T.Sum32;
    T.SentSum(seg, base);
    SumVerifies(T.ZeroSum(seg, base));
  }

  // ---------------------------------------------------------------- when serializing throws

  /** A segment can be serialized exactly when its data offset covers the fixed header. */
  lemma SegmentThrows(seg: TcpSegment, base: u32)
    ensures T.Serialize(seg, base).None? <==> seg.header.doff < 5
  {
  }

  /** A datagram exactly when it is version 4, its header is long enough, and its payload is as long as it says. */
  lemma DatagramThrows(d: Ipv4Datagram)
    ensures I.Serialize(d).None? <==>
            d.header.ver != 4 || d.header.hlen < 5 || |d.payload| != (d.header.len - 4 * d.header.hlen) % 65536
  {
  }
}
