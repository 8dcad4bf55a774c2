/** The receiver, around its reassembler (tcp_receiver.{hh,cc}). */
module TcpReceivers {
  import opened Types
  import opened WrappingIntegers
  import M = ReceiverModel
  import R = ReassemblyModel
  import opened StreamReassemblers

  class TcpReceiver {
    const reassembler: StreamReassembler
    const capacity: nat
    var isn: Option<u32>

    ghost predicate Valid()
      reads this, reassembler, reassembler.output
    {
      reassembler.Valid() && capacity == reassembler.output.capacity
    }

    ghost function State(): M.Receiver
      requires Valid()
      reads this, reassembler, reassembler.output
    {
      M.Receiver(reassembler.State(), isn)
    }

    constructor (capacity: nat)
      ensures Valid() && fresh(reassembler) && fresh(reassembler.output)
      ensures State() == M.NewReceiver(capacity)
    {
      reassembler := new StreamReassembler(capacity);
      this.capacity := capacity;
      isn := None;
    }

    /** Returns false where the reassembler throws. */
    method SegmentReceived(seg: TcpSegment) returns (ok: bool)
      requires Valid()
      modifies this, reassembler, reassembler.output
      ensures Valid()
      ensures (if ok then Returned(State()) else Thrown(State())) == M.SegmentReceived(old(State()), seg)
    {
      hide R.Push, StreamReassembler.Valid;
      var dataStart := seg.header.seqno;
      if seg.header.syn {
        isn := Some(seg.header.seqno);
        dataStart := Advance(dataStart, 1);
      }
      ok := true;
      if isn.Some? {
        if isn.value == dataStart {
          return;
        }
        ok := reassembler.PushSubstring(
          seg.payload, M.StreamIndex(dataStart, isn.value, reassembler.curIndex), seg.header.fin);
      }
    }

    function Ackno(): (r: Option<u32>)
      requires Valid()
      reads this, reassembler, reassembler.output
      ensures r == M.Ackno(State())
    {
      if isn.Some? then
        var asn := reassembler.curIndex + 1;
        Some(Wrap(if reassembler.output.inputIsEnd then asn + 1 else asn, isn.value))
      else None
    }

    function WindowSize(): (n: nat)
      requires Valid()
      reads this, reassembler, reassembler.output
      ensures n == M.WindowSize(State())
    {
      capacity - reassembler.output.BufferSize()
    }
  }
}
