/** Machine integers, bytes, results and the TCP segment shared by every part of the endpoint. */
module Types {

  const TWO_16: nat := 0x1_0000
  const TWO_31: nat := 0x8000_0000
  const TWO_32: nat := 0x1_0000_0000
  const TWO_64: nat := 0x1_0000_0000_0000_0000

  type byte = b: nat | b < 256
  type u16 = n: nat | n < 0x1_0000
  type u32 = n: nat | n < 0x1_0000_0000

  datatype Option<+T> = None | Some(value: T)

  /** How a C++ call ended: it returned, or it threw and left this state behind. */
  datatype Outcome<+T> = Returned(value: T) | Thrown(value: T)

  function Min(a: nat, b: nat): nat { if a <= b then a else b }

  /** `TCPHeader`, with the field widths of the C++ struct. */
  datatype TcpHeader = TcpHeader(
    sport: u16, dport: u16,
    seqno: u32, ackno: u32,
    doff: byte,
    urg: bool, ack: bool, psh: bool, rst: bool, syn: bool, fin: bool,
    win: u16, cksum: u16, uptr: u16)

  datatype TcpSegment = TcpSegment(header: TcpHeader, payload: seq<byte>) {
    /** Sequence numbers the segment occupies: its bytes, plus one each for SYN and FIN. */
    function Length(): nat {
      |payload| + (if header.syn then 1 else 0) + (if header.fin then 1 else 0)
    }
  }

  /** A default-constructed `TCPSegment` whose sequence number has been filled in. */
  function BlankSegment(seqno: u32): TcpSegment {
    TcpSegment(
      TcpHeader(0, 0, seqno, 0, 5, false, false, false, false, false, false, 0, 0, 0),
      [])
  }

  /** `IPv4Header`, with the field widths of the C++ struct. */
  datatype Ipv4Header = Ipv4Header(
    ver: byte, hlen: byte, tos: byte, len: u16, id: u16,
    df: bool, mf: bool, offset: u16,
    ttl: byte, proto: byte, cksum: u16, src: u32, dst: u32)

  datatype Ipv4Datagram = Ipv4Datagram(header: Ipv4Header, payload: seq<byte>)
}
