/** What the network interface does: ARP cache, waiting datagrams, request blocking (network_interface.{hh,cc}). */
module ArpModel {
  import opened Types

  type Mac = m: nat | m < 0x1_0000_0000_0000

  const BROADCAST: Mac := 0xffff_ffff_ffff
  const TYPE_IPV4: u16 := 0x800
  const TYPE_ARP: u16 := 0x806
  const OPCODE_REQUEST: u16 := 1
  const OPCODE_REPLY: u16 := 2
  const ARP_VALID_TIME: nat := 30 * 1000
  const ARP_REQ_BLOCKING_TIME: nat := 5 * 1000

  datatype ArpMessage = ArpMessage(opcode: u16, senderMac: Mac, senderIp: u32, targetMac: Mac, targetIp: u32)

  /** What the frame's bytes parse to under its type: an ARP message, a datagram, or nothing. */
  datatype Payload = ArpPayload(msg: ArpMessage) | IpPayload(dgram: Ipv4Datagram) | Unparsable

  datatype Frame = Frame(dst: Mac, src: Mac, ethertype: u16, payload: Payload)

  /** A datagram waiting for the hardware address of its next hop. */
  datatype Waiting = Waiting(dgram: Ipv4Datagram, hop: u32)

  datatype Learned = Learned(mac: Mac, at: nat)

  datatype Interface = Interface(
    mac: Mac, ip: u32, out: seq<Frame>,
    mapping: map<u32, Learned>, pending: seq<Waiting>,
    now: nat, blocking: map<u32, nat>)

  function NewInterface(mac: Mac, ip: u32): Interface { Interface(mac, ip, [], map[], [], 0, map[]) }

  function Request(i: Interface, hop: u32): Frame {
    Frame(BROADCAST, i.mac, TYPE_ARP, ArpPayload(ArpMessage(OPCODE_REQUEST, i.mac, i.ip, 0, hop)))
  }

  function IpFrame(i: Interface, dst: Mac, dgram: Ipv4Datagram): Frame {
    Frame(dst, i.mac, TYPE_IPV4, IpPayload(dgram))
  }

  function SendDatagram(i: Interface, dgram: Ipv4Datagram, hop: u32): Interface {
    if hop in i.mapping then
      i.(out := i.out + [IpFrame(i, i.mapping[hop].mac, dgram)])
    else
      var i1 := i.(pending := i.pending + [Waiting(dgram, hop)]);
      if hop in i.blocking then i1
      else i1.(blocking := i.blocking[hop := i.now], out := i.out + [Request(i, hop)])
  }

  /** The waiting datagrams for a next hop, or for all others, in their order. */
  function Select(ws: seq<Waiting>, hop: u32, matching: bool): seq<Waiting> {
    if ws == [] then []
    else
      var rest := Select(ws[..|ws| - 1], hop, matching);
      var last := ws[|ws| - 1];
      if (last.hop == hop) == matching then rest + [last] else rest
  }

  function SendEach(i: Interface, ws: seq<Waiting>): Interface {
    if ws == [] then i
    else
      var last := ws[|ws| - 1];
      SendDatagram(SendEach(i, ws[..|ws| - 1]), last.dgram, last.hop)
  }

  /** `insert` leaves an existing entry alone, and its time with it. */
  function Learn(i: Interface, ip: u32, mac: Mac): Interface {
    if ip in i.mapping then i else i.(mapping := i.mapping[ip := Learned(mac, i.now)])
  }

  function RecvArp(i0: Interface, msg: ArpMessage): Interface {
    var i := Learn(i0, msg.senderIp, msg.senderMac);
    if msg.opcode == OPCODE_REPLY then
      SendEach(i.(pending := Select(i.pending, msg.senderIp, false)), Select(i.pending, msg.senderIp, true))
    else if msg.opcode == OPCODE_REQUEST && msg.targetIp == i.ip then
      var reply := ArpMessage(OPCODE_REPLY, i.mac, i.ip, msg.senderMac, msg.senderIp);
      i.(out := i.out + [Frame(msg.senderMac, i.mac, TYPE_ARP, ArpPayload(reply))])
    else i
  }

  predicate ForMe(i: Interface, f: Frame) { f.dst == i.mac || f.dst == BROADCAST }

  /** The frame is an ARP message this interface reads. */
  predicate Accepts(i: Interface, f: Frame) { ForMe(i, f) && f.ethertype == TYPE_ARP && f.payload.ArpPayload? }

  function RecvFrame(i: Interface, f: Frame): (Interface, Option<Ipv4Datagram>) {
    if Accepts(i, f) then (RecvArp(i, f.payload.msg), None)
    else if ForMe(i, f) && f.ethertype == TYPE_IPV4 && f.payload.IpPayload? then (i, Some(f.payload.dgram))
    else (i, None)
  }

  /** Entries younger than their time limit stay. */
  function Tick(i: Interface, ms: nat): Interface {
    var now := i.now + ms;
    i.(now := now,
       mapping := map ip | ip in i.mapping && now < i.mapping[ip].at + ARP_VALID_TIME :: i.mapping[ip],
       blocking := map ip | ip in i.blocking && now < i.blocking[ip] + ARP_REQ_BLOCKING_TIME :: i.blocking[ip])
  }
}
