/** A TCP segment inside an IPv4 datagram, checked against the pseudo-header (ipv4_header.cc, tcp_segment.cc). */
module Encapsulation {
  import opened Types
  import opened ParsingModel
  import opened Checksum
  import T = TcpCodec
  import I = Ipv4Codec

  /** The pseudo-header's contribution to the TCP checksum. */
  function PseudoChecksum(h: Ipv4Header): (sum: u32)
    ensures sum < 0x4000_0000
  {
    (h.src / TWO_16 + h.src % TWO_16) + (h.dst / TWO_16 + h.dst % TWO_16) + h.proto + I.PayloadLength(h)
  }

  lemma {:induction false} SerializedLength(seg: TcpSegment, base: u32)
    requires 5 <= seg.header.doff <= 15
    ensures T.Serialize(seg, base).Some? && |T.Serialize(seg, base).value| == 4 * seg.header.doff + |seg.payload|
  {
    var h := T.WithChecksum(seg, base).value.header;
    T.FrontTail(h, Unparse(h.cksum, 2) + T.Back(h), []);
    hide T.Front, Unparse;
  }

  /**
   Through both layers and back: the datagram parses without error, and its payload, checked against the
   pseudo-header the receiver reads, parses without error to the segment that was sent.
   */
  lemma LayersRoundTrip(seg: TcpSegment, ip: Ipv4Header, oldSeg: TcpSegment, oldDgram: Ipv4Datagram)
    requires 5 <= seg.header.doff <= 15
    requires ip.ver == 4 && 5 <= ip.hlen <= 15 && ip.offset < 0x2000
    requires ip.len == 4 * ip.hlen + 4 * seg.header.doff + |seg.payload|
    ensures var d := Ipv4Datagram(ip, T.Serialize(seg, PseudoChecksum(ip)).value);
            && I.Serialize(d).Some?
            && var (d', result) := I.Parse(oldDgram, I.Serialize(d).value);
               && result == NoError && d' == d.(header := I.WithChecksum(ip).value)
               && T.Parse(oldSeg, d'.payload, PseudoChecksum(d'.header)) ==
                  (T.WithChecksum(seg, PseudoChecksum(ip)).value, NoError)
  {
    hide T.Serialize, T.Parse, T.WithChecksum, I.Serialize, I.Parse, I.ParseHeader, Value;
    var base := PseudoChecksum(ip);
    SerializedLength(seg, base);
    T.SegmentRoundTrip(seg, oldSeg, base);
    I.DatagramRoundTrip(Ipv4Datagram(ip, T.Serialize(seg, base).value), oldDgram);
    SamePseudo(ip);
  }

  lemma SamePseudo(ip: Ipv4Header)
    requires I.WithChecksum(ip).Some?
    ensures PseudoChecksum(I.WithChecksum(ip).value) == PseudoChecksum(ip)
  {
    hide Value, I.SerializeHeader;
  }
}
