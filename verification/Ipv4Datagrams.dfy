/** Writing and reading IPv4 datagrams step by step (ipv4_header.cc, ipv4_datagram.cc). */
module Ipv4Datagrams {
  import opened Types
  import opened ParsingModel
  import opened NetParsers
  import opened Checksum
  import M = Ipv4Codec

  method ReadFields(p: NetParser) returns (h: Ipv4Header)
    modifies p
    ensures (h, p.State()) == M.ReadFields(old(p.State()))
  {
    hide U8, U16, U32, Bit;
    var firstByte := p.U8();
    var tos := p.U8();
    var len := p.U16();
    var id := p.U16();
    var foVal := p.U16();
    var ttl := p.U8();
    var proto := p.U8();
    var cksum := p.U16();
    var src := p.U32();
    var dst := p.U32();
    h := Ipv4Header(firstByte / 16, firstByte % 16, tos, len, id,
                    Bit(foVal, 0x4000), Bit(foVal, 0x2000), foVal % 0x2000, ttl, proto, cksum, src, dst);
  }

  method ParseHeader(old_: Ipv4Header, p: NetParser) returns (h: Ipv4Header, result: ParseResult)
    modifies p
    ensures (h, result, p.State()) == M.ParseHeader(old_, old(p.State()))
  {
    hide M.ReadFields, ParsingModel.RemovePrefix, WordSum, Value;
    var original := p.buffer;
    var dataSize := |original|;
    h := old_;
    if dataSize < M.HEADER_LENGTH {
      return h, PacketTooShort;
    }
    h := ReadFields(p);
    if dataSize < 4 * h.hlen {
      return h, PacketTooShort;
    }
    if h.ver != 4 {
      return h, WrongIPVersion;
    }
    if h.hlen < 5 {
      return h, HeaderTooShort;
    }
    if dataSize != h.len {
      return h, TruncatedPacket;
    }
    p.RemovePrefix(h.hlen * 4 - M.HEADER_LENGTH);
    if p.error != NoError {
      return h, p.error;
    }
    var check := new InternetChecksum(0);
    check.Add(original[..4 * h.hlen]);
    var value := check.GetValue();
    result := if value != 0 then BadChecksum else NoError;
  }

  /** `None` where the C++ throws. */
  method SerializeHeader(h: Ipv4Header) returns (bytes: Option<seq<byte>>)
    ensures bytes == M.SerializeHeader(h)
  {
    if h.ver != 4 || 4 * h.hlen < M.HEADER_LENGTH {
      return None;
    }
    var ret := UnparseInt([], M.FirstByte(h), 1);
    ret := UnparseInt(ret, h.tos, 1);
    ret := UnparseInt(ret, h.len, 2);
    ret := UnparseInt(ret, h.id, 2);
    ret := UnparseInt(ret, M.FragmentWord(h), 2);
    ret := UnparseInt(ret, h.ttl, 1);
    ret := UnparseInt(ret, h.proto, 1);
    ghost var front := ret;
    ret := UnparseInt(ret, h.cksum, 2);
    ret := UnparseInt(ret, h.src, 4);
    ret := UnparseInt(ret, h.dst, 4);
    ret := ret + Zeros(4 * h.hlen - M.HEADER_LENGTH);
    hide Unparse, Zeros, M.FirstByte, M.FragmentWord;
    assert front == M.Front(h, []);
    assert ret == front + (Unparse(h.cksum, 2) + M.Back(h));
    M.FrontTail(h, [], Unparse(h.cksum, 2) + M.Back(h));
    assert [] + (Unparse(h.cksum, 2) + M.Back(h)) == Unparse(h.cksum, 2) + M.Back(h);
    bytes := Some(ret);
  }

  /** `None` where the C++ throws: the payload is not as long as the header says, or the header cannot be written. */
  method Serialize(d: Ipv4Datagram) returns (bytes: Option<seq<byte>>)
    ensures bytes == M.Serialize(d)
  {
    hide M.Front, M.Back, WordSum, Value;
    if |d.payload| != M.PayloadLength(d.header) {
      return None;
    }
    var zeroed := SerializeHeader(d.header.(cksum := 0));
    if zeroed.None? {
      return None;
    }
    var check := new InternetChecksum(0);
    check.Add(zeroed.value);
    var cksum := check.GetValue();
    var header := SerializeHeader(d.header.(cksum := cksum));
    bytes := Some(header.value + d.payload);
  }

  method Parse(old_: Ipv4Datagram, buffer: seq<byte>) returns (d: Ipv4Datagram, result: ParseResult)
    ensures (d, result) == M.Parse(old_, buffer)
  {
    hide M.ParseHeader;
    var p := new NetParser(buffer);
    var h, _ := ParseHeader(old_.header, p);
    d := Ipv4Datagram(h, p.buffer);
    result := if |d.payload| != M.PayloadLength(h) then PacketTooShort else p.error;
  }
}
