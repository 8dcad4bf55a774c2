/** Which byte strings off the wire the two parsers accept, over every buffer (tcp_segment.cc, ipv4_datagram.cc). */
module ReceivedBuffers {
  import opened Types
  import opened ParsingModel
  import opened Checksum
  import T = TcpCodec
  import I = Ipv4Codec

  /** A parser of `b` that has asked for the first `at` bytes: it is there without error, or it ran past the end. */
  ghost predicate Reached(p: Parser, b: seq<byte>, at: nat) {
    if at <= |b| then p == Parser(b[at..], NoError) else p.error == PacketTooShort
  }

  lemma ReadOn(p: Parser, b: seq<byte>, at: nat, len: nat)
    requires Reached(p, b, at)
    ensures Reached(ParseInt(p, len).1, b, at + len)
    ensures at + len <= |b| ==> ParseInt(p, len).0 == BigEndian(b[at..at + len])
  {
    if at + len <= |b| {
      assert b[at..][..len] == b[at..at + len] && b[at..][len..] == b[at + len..];
    }
  }

  lemma OneByte(b: seq<byte>, at: nat)
    requires at < |b|
    ensures BigEndian(b[at..at + 1]) == b[at]
  {
    assert b[at..at + 1][..0] == [] && b[at..at + 1][0] == b[at];
  }

  function Word(hi: nat, lo: nat): nat { 256 * hi + lo }

  lemma TwoBytes(b: seq<byte>, at: nat)
    requires at + 2 <= |b|
    ensures BigEndian(b[at..at + 2]) == Word(b[at], b[at + 1])
  {
    assert b[at..at + 2][..1] == b[at..at + 1] && b[at..at + 2][1] == b[at + 1];
    OneByte(b, at);
  }

  lemma SkipOn(p: Parser, b: seq<byte>, at: nat, n: nat)
    requires Reached(p, b, at)
    ensures Reached(RemovePrefix(p, n), b, at + n)
  {
    if at + n <= |b| { assert b[at..][n..] == b[at + n..]; }
  }

  // ---------------------------------------------------------------- TCP

  function DataOffset(b: seq<byte>): nat
    requires |b| >= T.HEADER_LENGTH
  {
    b[12] / 16
  }

  /** The reader stands behind the fixed fields, and the data offset is the upper half of byte 12. */
  lemma FixedFields(b: seq<byte>)
    ensures var p4 := U32(U32(U16(U16(Parser(b, NoError)).1).1).1).1;
            var (offset, p5) := U8(p4);
            && (|b| >= T.HEADER_LENGTH ==> offset == b[12])
            && Reached(U16(U16(U16(U8(p5).1).1).1).1, b, T.HEADER_LENGTH)
  {
    var p0 := Parser(b, NoError);
    assert b[0..] == b;
    hide ParseInt, BigEndian, Reached;
    assert Reached(p0, b, 0) by { StartsAt(b); }
    ReadOn(p0, b, 0, 2);
    var p1 := U16(p0).1;
    ReadOn(p1, b, 2, 2);
    var p2 := U16(p1).1;
    ReadOn(p2, b, 4, 4);
    var p3 := U32(p2).1;
    ReadOn(p3, b, 8, 4);
    var p4 := U32(p3).1;
    ReadOn(p4, b, 12, 1);
    if |b| >= T.HEADER_LENGTH { OneByte(b, 12); }
    var p5 := U8(p4).1;
    ReadOn(p5, b, 13, 1);
    var p6 := U8(p5).1;
    ReadOn(p6, b, 14, 2);
    var p7 := U16(p6).1;
    ReadOn(p7, b, 16, 2);
    var p8 := U16(p7).1;
    ReadOn(p8, b, 18, 2);
  }

  lemma StartsAt(b: seq<byte>)
    ensures Reached(Parser(b, NoError), b, 0)
  {
    assert b[0..] == b;
  }

  /** The header parser's own verdict, and where it leaves the reader: a short data offset stops it early. */
  lemma TcpHeaderVerdict(b: seq<byte>)
    ensures var (h, verdict, p) := T.ParseHeader(Parser(b, NoError));
            if |b| < T.HEADER_LENGTH then verdict != NoError && p.error == PacketTooShort
            else if DataOffset(b) < 5 then verdict == HeaderTooShort && p == Parser(b[T.HEADER_LENGTH..], NoError)
            else if 4 * DataOffset(b) > |b| then verdict == p.error == PacketTooShort
            else verdict == NoError && p == Parser(b[4 * DataOffset(b)..], NoError)
  {
    FixedFields(b);
    hide U8, U16, U32, RemovePrefix;
    var p4 := U32(U32(U16(U16(Parser(b, NoError)).1).1).1).1;
    var (offset, p5) := U8(p4);
    var p9 := U16(U16(U16(U8(p5).1).1).1).1;
    if offset / 16 >= 5 { SkipOn(p9, b, T.HEADER_LENGTH, offset / 16 * 4 - T.HEADER_LENGTH); }
  }

  /** The header fits in the buffer, or claims to be too short to exist. */
  predicate HeaderFits(b: seq<byte>) {
    |b| >= T.HEADER_LENGTH && (DataOffset(b) < 5 || 4 * DataOffset(b) <= |b|)
  }

  /**
   A segment is accepted exactly when its sum, with what comes from below, verifies and its header fits. A bad sum
   leaves the old segment; the payload is what follows the header.
   */
  lemma SegmentAccepted(old_: TcpSegment, b: seq<byte>, base: u32)
    ensures T.Parse(old_, b, base).1 ==
            if Value((base + WordSum(b, false)) % TWO_32) != 0 then BadChecksum
            else if HeaderFits(b) then NoError else PacketTooShort
    ensures T.Parse(old_, b, base).1 == BadChecksum ==> T.Parse(old_, b, base).0 == old_
    ensures T.Parse(old_, b, base).1 == NoError ==>
            T.Parse(old_, b, base).0 ==
            TcpSegment(T.ParseHeader(Parser(b, NoError)).0,
                       b[(if DataOffset(b) < 5 then T.HEADER_LENGTH else 4 * DataOffset(b))..])
  {
    TcpHeaderVerdict(b);
    hide T.ParseHeader, WordSum, Value;
  }

  /** Twenty bytes, zero but for the checksum field: data offset 0, and the sum verifies. */
  function OffsetZero(): seq<byte> { Zeros(16) + ([0xff, 0xff] + Zeros(2)) }

  lemma {:induction false} ZeroSum(n: nat, odd: bool)
    ensures WordSum(Zeros(n), odd) == 0
  {
    if n > 0 {
      assert Zeros(n)[1..] == Zeros(n - 1);
      ZeroSum(n - 1, !odd);
    }
  }

  lemma OffsetZeroSum()
    ensures WordSum(OffsetZero(), false) == 0xffff
  {
    var word: seq<byte> := [0xff, 0xff];
    WordSumConcat(Zeros(16), word + Zeros(2), false);
    WordSumConcat(word, Zeros(2), false);
    ZeroSum(16, false);
    ZeroSum(2, false);
    assert word[1..] == [0xff] && WordSum([0xff], true) == 0xff;
  }

  /** A header of no length is refused by the header parser and accepted in a segment. */
  lemma OffsetZeroAccepted(old_: TcpSegment)
    ensures T.ParseHeader(Parser(OffsetZero(), NoError)).1 == HeaderTooShort
    ensures T.Parse(old_, OffsetZero(), 0).1 == NoError
  {
    var b := OffsetZero();
    OffsetZeroSum();
    assert |b| == 20 && b[12] == 0;
    assert Fold(0xffff) == 0xffff;
    hide OffsetZero, WordSum, Fold, T.ParseHeader, T.Parse;
    SegmentAccepted(old_, b, 0);
    TcpHeaderVerdict(b);
  }

  // ---------------------------------------------------------------- IPv4

  function Version(b: seq<byte>): nat
    requires |b| >= I.HEADER_LENGTH
  {
    b[0] / 16
  }

  function HeaderLength(b: seq<byte>): nat
    requires |b| >= I.HEADER_LENGTH
  {
    b[0] % 16
  }

  function TotalLength(b: seq<byte>): nat
    requires |b| >= I.HEADER_LENGTH
  {
    Word(b[2], b[3])
  }

  lemma IpFront(b: seq<byte>)
    requires |b| >= I.HEADER_LENGTH
    ensures var (first, p1) := U8(Parser(b, NoError));
            var (len, p3) := U16(U8(p1).1);
            first == b[0] && len == TotalLength(b) && Reached(p3, b, 4)
  {
    var p0 := Parser(b, NoError);
    OneByte(b, 0);
    TwoBytes(b, 2);
    hide ParseInt, BigEndian, Reached;
    StartsAt(b);
    ReadOn(p0, b, 0, 1);
    ReadOn(U8(p0).1, b, 1, 1);
    ReadOn(U8(U8(p0).1).1, b, 2, 2);
  }

  lemma IpBack(p3: Parser, b: seq<byte>)
    requires Reached(p3, b, 4)
    ensures Reached(U32(U32(U16(U8(U8(U16(U16(p3).1).1).1).1).1).1).1, b, I.HEADER_LENGTH)
  {
    hide ParseInt, Reached;
    ReadOn(p3, b, 4, 2);
    var p4 := U16(p3).1;
    ReadOn(p4, b, 6, 2);
    var p5 := U16(p4).1;
    ReadOn(p5, b, 8, 1);
    var p6 := U8(p5).1;
    ReadOn(p6, b, 9, 1);
    var p7 := U8(p6).1;
    ReadOn(p7, b, 10, 2);
    var p8 := U16(p7).1;
    ReadOn(p8, b, 12, 4);
    var p9 := U32(p8).1;
    ReadOn(p9, b, 16, 4);
  }

  lemma IpFields(b: seq<byte>)
    requires |b| >= I.HEADER_LENGTH
    ensures var (h, p) := I.ReadFields(Parser(b, NoError));
            && h.ver == Version(b) && h.hlen == HeaderLength(b) && h.len == TotalLength(b)
            && Reached(p, b, I.HEADER_LENGTH)
  {
    hide U8, U16, U32, Bit, Reached, TotalLength;
    IpFront(b);
    IpBack(U16(U8(U8(Parser(b, NoError)).1).1).1, b);
  }

  /** Version, header length and total length are those of an IPv4 datagram of exactly this size. */
  predicate WellFormed(b: seq<byte>) {
    |b| >= I.HEADER_LENGTH && Version(b) == 4 && HeaderLength(b) >= 5 && 4 * HeaderLength(b) <= |b| == TotalLength(b)
  }

  /** The header parser's verdict on every buffer; it accepts exactly the well-formed ones whose sum verifies. */
  lemma IpHeaderVerdict(old_: Ipv4Header, b: seq<byte>)
    ensures I.ParseHeader(old_, Parser(b, NoError)).1 ==
            if |b| < I.HEADER_LENGTH || |b| < 4 * HeaderLength(b) then PacketTooShort
            else if Version(b) != 4 then WrongIPVersion
            else if HeaderLength(b) < 5 then HeaderTooShort
            else if |b| != TotalLength(b) then TruncatedPacket
            else if Value(WordSum(b[..4 * HeaderLength(b)], false) % TWO_32) != 0 then BadChecksum
            else NoError
  {
    if |b| >= I.HEADER_LENGTH {
      IpFields(b);
      hide I.ReadFields, RemovePrefix, Value, WordSum;
      var (h, p) := I.ReadFields(Parser(b, NoError));
      if h.hlen >= 5 { SkipOn(p, b, I.HEADER_LENGTH, 4 * h.hlen - I.HEADER_LENGTH); }
    }
  }

  /** Where the header parser leaves the reader: at the payload of a well-formed buffer, else where it gave up. */
  lemma IpHeaderRest(old_: Ipv4Header, b: seq<byte>)
    ensures var (h, _, p) := I.ParseHeader(old_, Parser(b, NoError));
            if |b| < I.HEADER_LENGTH then h == old_ && p == Parser(b, NoError)
            else
              && h.hlen == HeaderLength(b) && h.len == TotalLength(b)
              && p == Parser(b[(if WellFormed(b) then 4 * HeaderLength(b) else I.HEADER_LENGTH)..], NoError)
  {
    if |b| >= I.HEADER_LENGTH {
      IpFields(b);
      hide I.ReadFields, RemovePrefix, Value, WordSum;
      var (h, p) := I.ReadFields(Parser(b, NoError));
      if h.hlen >= 5 { SkipOn(p, b, I.HEADER_LENGTH, 4 * h.hlen - I.HEADER_LENGTH); }
    }
  }

  /**
   A datagram is accepted exactly when it is well formed, whatever its checksum, or when the header parser gave up
   at a point where the bytes left happen to be as many as the 16-bit payload length says.
   */
  lemma DatagramAccepted(old_: Ipv4Datagram, b: seq<byte>)
    ensures I.Parse(old_, b).1 ==
            if (if |b| < I.HEADER_LENGTH then |b| == (old_.header.len - 4 * old_.header.hlen) % 65536
                else WellFormed(b) || |b| - I.HEADER_LENGTH == (TotalLength(b) - 4 * HeaderLength(b)) % 65536)
            then NoError else PacketTooShort
    ensures WellFormed(b) ==> I.Parse(old_, b).0.payload == b[4 * HeaderLength(b)..]
  {
    IpHeaderRest(old_.header, b);
    hide I.ParseHeader;
  }

  /** A bare header of the given first byte, twenty bytes long and saying so, with a zero checksum field. */
  function Bare(first: byte): seq<byte> { [first, 0, 0, 20] + Zeros(16) }

  lemma BareFields(first: byte)
    ensures var b := Bare(first);
            |b| == 20 && Version(b) == first / 16 && HeaderLength(b) == first % 16 && TotalLength(b) == 20
  {
  }

  lemma BareSum(first: byte)
    ensures WordSum(Bare(first), false) == Word(first, 20)
  {
    var front, back: seq<byte> := [first, 0], [0, 20];
    assert Bare(first) == front + (back + Zeros(16));
    WordSumConcat(front, back + Zeros(16), false);
    WordSumConcat(back, Zeros(16), false);
    ZeroSum(16, false);
    PairSum(first, 0);
    PairSum(0, 20);
  }

  lemma PairSum(hi: byte, lo: byte)
    ensures WordSum([hi, lo], false) == Word(hi, lo)
  {
    assert [hi, lo][1..] == [lo] && WordSum([lo], true) == lo;
  }

  lemma SmallValue(sum: nat)
    requires sum < 0xffff
    ensures Value(sum % TWO_32) != 0
  {
  }

  /**
   Its header is refused for the checksum or, with another version than 4, for that; the datagram is accepted all the
   same.
   */
  lemma BadHeaderAccepted(first: byte, old_: Ipv4Datagram)
    requires first % 16 == 5
    ensures I.ParseHeader(old_.header, Parser(Bare(first), NoError)).1 != NoError
    ensures I.Parse(old_, Bare(first)).1 == NoError
  {
    hide Bare, WordSum, Value, Version, HeaderLength, TotalLength, I.ParseHeader, I.Parse;
    var b := Bare(first);
    BareFields(first);
    BareSum(first);
    assert b[..20] == b;
    SmallValue(Word(first, 20));
    IpHeaderVerdict(old_.header, b);
    DatagramAccepted(old_, b);
  }
}
