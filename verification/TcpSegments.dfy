/** Writing and reading TCP segments step by step (tcp_header.cc, tcp_segment.cc). */
module TcpSegments {
  import opened Types
  import opened ParsingModel
  import opened NetParsers
  import opened Checksum
  import M = TcpCodec

  method ParseHeader(p: NetParser) returns (h: TcpHeader, result: ParseResult)
    modifies p
    ensures (h, result, p.State()) == M.ParseHeader(old(p.State()))
  {
    hide U8, U16, U32, ParsingModel.RemovePrefix, Bit;
    var sport := p.U16();
    var dport := p.U16();
    var seqno := p.U32();
    var ackno := p.U32();
    var offset := p.U8();
    var flags := p.U8();
    var win := p.U16();
    var cksum := p.U16();
    var uptr := p.U16();
    h := TcpHeader(sport, dport, seqno, ackno, offset / 16,
                   Bit(flags, 32), Bit(flags, 16), Bit(flags, 8), Bit(flags, 4), Bit(flags, 2), Bit(flags, 1),
                   win, cksum, uptr);
    if h.doff < 5 {
      return h, HeaderTooShort;
    }
    p.RemovePrefix(h.doff * 4 - M.HEADER_LENGTH);
    result := p.error;
  }

  /** `None` where the C++ throws. */
  method SerializeHeader(h: TcpHeader) returns (bytes: Option<seq<byte>>)
    ensures bytes == M.SerializeHeader(h)
  {
    if h.doff < 5 {
      return None;
    }
    var ret := UnparseInt([], h.sport, 2);
    ret := UnparseInt(ret, h.dport, 2);
    ret := UnparseInt(ret, h.seqno, 4);
    ret := UnparseInt(ret, h.ackno, 4);
    ret := UnparseInt(ret, h.doff * 16 % 256, 1);
    ret := UnparseInt(ret, M.FlagByte(h), 1);
    ret := UnparseInt(ret, h.win, 2);
    ghost var front := ret;
    ret := UnparseInt(ret, h.cksum, 2);
    ret := UnparseInt(ret, h.uptr, 2);
    ret := ret + Zeros(4 * h.doff - M.HEADER_LENGTH);
    hide Unparse, Zeros, M.FlagByte;
    assert front == M.Front(h, []);
    assert ret == front + (Unparse(h.cksum, 2) + M.Back(h));
    M.FrontTail(h, [], Unparse(h.cksum, 2) + M.Back(h));
    assert [] + (Unparse(h.cksum, 2) + M.Back(h)) == Unparse(h.cksum, 2) + M.Back(h);
    bytes := Some(ret);
  }

  method Serialize(seg: TcpSegment, datagramLayerChecksum: u32) returns (bytes: Option<seq<byte>>)
    ensures bytes == M.Serialize(seg, datagramLayerChecksum)
  {
    hide M.SerializeHeader, WordSum;
    var header := SerializeHeader(seg.header.(cksum := 0));
    if header.None? {
      return None;
    }
    var check := new InternetChecksum(datagramLayerChecksum);
    check.Add(header.value);
    check.Add(seg.payload);
    HeaderIsEven(seg.header.(cksum := 0));
    WordSumConcat(header.value, seg.payload, false);
    WrapOnce(datagramLayerChecksum + WordSum(header.value, false), WordSum(seg.payload, false));
    var cksum := check.GetValue();
    var out := SerializeHeader(seg.header.(cksum := cksum));
    HeaderIsEven(seg.header.(cksum := cksum));
    bytes := Some(out.value + seg.payload);
  }

  lemma HeaderIsEven(h: TcpHeader)
    ensures M.SerializeHeader(h).Some? <==> h.doff >= 5
    ensures h.doff >= 5 ==> |M.SerializeHeader(h).value| == 4 * h.doff
  {
    if h.doff >= 5 { M.FrontTail(h, Unparse(h.cksum, 2) + M.Back(h), []); }
  }

  method Parse(old_: TcpSegment, buffer: seq<byte>, datagramLayerChecksum: u32)
    returns (seg: TcpSegment, result: ParseResult)
    ensures (seg, result) == M.Parse(old_, buffer, datagramLayerChecksum)
  {
    hide M.ParseHeader, WordSum;
    var check := new InternetChecksum(datagramLayerChecksum);
    check.Add(buffer);
    var value := check.GetValue();
    if value != 0 {
      return old_, BadChecksum;
    }
    var p := new NetParser(buffer);
    var h, _ := ParseHeader(p);
    seg := TcpSegment(h, p.buffer);
    result := p.error;
  }
}
