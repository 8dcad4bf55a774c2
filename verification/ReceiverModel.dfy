/** What the receiving half of a connection does (tcp_receiver.{hh,cc}). */
module ReceiverModel {
  import opened Types
  import opened WrappingIntegers
  import opened StreamModel
  import opened ReassemblyModel

  datatype Receiver = Receiver(reassembly: Reassembly, isn: Option<u32>)

  function NewReceiver(capacity: nat): Receiver { Receiver(NewReassembly(capacity), None) }

  /** A number other than the initial one never unwraps to 0, so its stream index exists. */
  function StreamIndex(start: u32, isn: u32, checkpoint: nat): (index: nat)
    requires start != isn
    ensures (index + 1) % TWO_32 == Offset(start, isn)
  {
    UnwrapCongruent(start, isn, checkpoint);
    Unwrap(start, isn, checkpoint) - 1
  }

  function SegmentReceived(r: Receiver, seg: TcpSegment): Outcome<Receiver> {
    var start := if seg.header.syn then Advance(seg.header.seqno, 1) else seg.header.seqno;
    var isn := if seg.header.syn then Some(seg.header.seqno) else r.isn;
    if isn.None? || isn.value == start then
      Returned(r.(isn := isn))
    else
      var index := StreamIndex(start, isn.value, r.reassembly.cur);
      match Push(r.reassembly, seg.payload, index, seg.header.fin)
      case Returned(x) => Returned(Receiver(x, isn))
      case Thrown(x) => Thrown(Receiver(x, isn))
  }

  /** The absolute number of the first byte not received: SYN takes one, and FIN once the stream has ended. */
  function AckNumber(r: Receiver): nat {
    r.reassembly.cur + 1 + (if r.reassembly.out.ended then 1 else 0)
  }

  function Ackno(r: Receiver): Option<u32> {
    if r.isn.Some? then Some(Wrap(AckNumber(r), r.isn.value)) else None
  }

  function WindowSize(r: Receiver): nat { Room(r.reassembly.out) }
}
