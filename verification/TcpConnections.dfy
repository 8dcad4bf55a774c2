/** The endpoint itself, driving its sender and receiver (tcp_connection.{hh,cc}). */
module TcpConnections {
  import opened Types
  import opened WrappingIntegers
  import M = ConnectionModel
  import RM = ReceiverModel
  import SM = SenderModel
  import T = TcpStateModel
  import Streams = StreamModel
  import opened StreamReassemblers
  import opened ByteStreams
  import opened TcpSenders
  import opened TcpReceivers

  class TcpConnection {
    const rtTimeout: u16
    const receiver: TcpReceiver
    const sender: TcpSender
    var segmentsOut: seq<TcpSegment>
    var lingerAfterStreamsFinish: bool
    var timeSinceLastSegReceived: nat

    /** The members are embedded by value in the C++ object, so the two byte streams are distinct. */
    ghost predicate Valid()
      reads this, sender, sender.stream, receiver, receiver.reassembler, receiver.reassembler.output
    {
      sender.Valid() && receiver.Valid() && sender.stream != receiver.reassembler.output
    }

    ghost function State(): M.Connection
      requires Valid()
      reads this, sender, sender.stream, sender.timer, receiver, receiver.reassembler, receiver.reassembler.output
    {
      M.Connection(rtTimeout, receiver.State(), sender.State(),
                   segmentsOut, lingerAfterStreamsFinish, timeSinceLastSegReceived)
    }

    constructor (rtTimeout: u16, recvCapacity: nat, sendCapacity: nat, isn: u32)
      ensures Valid() && State() == M.NewConnection(rtTimeout, recvCapacity, sendCapacity, isn)
    {
      this.rtTimeout := rtTimeout;
      receiver := new TcpReceiver(recvCapacity);
      sender := new TcpSender(sendCapacity, rtTimeout, isn);
      segmentsOut, lingerAfterStreamsFinish, timeSinceLastSegReceived := [], true, 0;
    }

    predicate Active()
      requires Valid()
      reads this, sender, sender.stream, receiver, receiver.reassembler, receiver.reassembler.output
      ensures Active() <==> M.Active(State())
    {
      if sender.stream.hasError || receiver.reassembler.output.hasError then false
      else if lingerAfterStreamsFinish && timeSinceLastSegReceived < 10 * rtTimeout then true
      else if sender.bytesInFlight != 0 then true
      else !(sender.stream.inputIsEnd && receiver.reassembler.output.inputIsEnd)
    }

    method SendAllOutboundingSegments()
      requires Valid()
      modifies this`segmentsOut, sender`segmentsOut
      ensures Valid() && State() == M.SendAll(old(State()))
    {
      ghost var queue, sent, r := sender.segmentsOut, segmentsOut, receiver.State();
      ghost var done := 0;
      while sender.segmentsOut != []
        invariant 0 <= done <= |queue| && sender.segmentsOut == queue[done..]
        invariant segmentsOut == sent + M.StampAll(queue[..done], r)
        decreases |sender.segmentsOut|
      {
        var segOut := sender.segmentsOut[0];
        sender.segmentsOut := sender.segmentsOut[1..];
        if receiver.Ackno().Some? {
          segOut := segOut.(header := segOut.header.(ack := true, ackno := receiver.Ackno().value));
        }
        segOut := segOut.(header := segOut.header.(win := Min(receiver.WindowSize(), TWO_16 - 1)));
        assert segOut == M.Stamp(queue[done], r);
        assert M.StampAll(queue[..done + 1], r) == M.StampAll(queue[..done], r) + [segOut];
        segmentsOut := segmentsOut + [segOut];
        done := done + 1;
      }
      assert queue[..done] == queue;
    }

    method SendRstSegment()
      requires Valid()
      modifies this`segmentsOut, sender`segmentsOut
      ensures Valid() && State() == M.SendRst(old(State()))
    {
      sender.SendEmptySegment();
      var segOut := sender.segmentsOut[0];
      sender.segmentsOut := sender.segmentsOut[1..];
      segmentsOut := segmentsOut + [segOut.(header := segOut.header.(rst := true))];
    }

    method SetErrors()
      requires Valid()
      modifies sender.stream`hasError, receiver.reassembler.output`hasError
      ensures Valid() && State() == M.SetErrors(old(State()))
    {
      sender.stream.SetError();
      receiver.reassembler.output.SetError();
    }

    /** Returns false where the reassembler throws. */
    method SegmentReceived(seg: TcpSegment) returns (ok: bool)
      requires Valid()
      modifies this, sender, sender.stream, sender.timer, receiver, receiver.reassembler, receiver.reassembler.output
      ensures Valid()
      ensures (if ok then Returned(State()) else Thrown(State())) == M.SegmentReceived(old(State()), seg)
    {
      hide RM.SegmentReceived, M.TakeAck, M.Reply, StreamReassembler.Valid;
      timeSinceLastSegReceived := 0;
      ok := true;
      if seg.header.rst {
        SetErrors();
        return;
      }
      if receiver.Ackno().Some? && seg.Length() == 0 && seg.header.seqno == Advance(receiver.Ackno().value, -1) {
        sender.SendEmptySegment();
        SendAllOutboundingSegments();
        return;
      }
      if InListen() && !seg.header.syn {
        return;
      }
      ok := receiver.SegmentReceived(seg);
      if ok {
        TakeAck(seg);
        Reply(seg);
      }
    }

    method TakeAck(seg: TcpSegment)
      requires Valid()
      modifies this`lingerAfterStreamsFinish, sender, sender.timer
      ensures Valid() && State() == M.TakeAck(old(State()), seg)
    {
      hide SM.AckReceived, StreamReassembler.Valid;
      if seg.header.ack {
        sender.AckReceived(seg.header.ackno, seg.header.win);
      }
      if receiver.reassembler.output.inputIsEnd && !sender.stream.AtEof() {
        lingerAfterStreamsFinish := false;
      }
    }

    method Reply(seg: TcpSegment)
      requires Valid()
      modifies this`segmentsOut, sender, sender.stream, sender.timer
      ensures Valid() && State() == M.Reply(old(State()), seg)
    {
      hide SM.FillWindow, M.SendAll, StreamReassembler.Valid;
      sender.FillWindow();
      if sender.segmentsOut == [] {
        if seg.Length() == 0 {
          return;
        }
        sender.SendEmptySegment();
      }
      SendAllOutboundingSegments();
    }

    predicate InListen()
      requires Valid()
      reads this, sender, sender.stream, sender.timer, receiver, receiver.reassembler, receiver.reassembler.output
      ensures InListen() <==> M.State(State()) == T.LISTEN
    {
      && !sender.stream.hasError && sender.nextSeqno == 0
      && !receiver.reassembler.output.hasError && receiver.Ackno().None?
      && Active() && lingerAfterStreamsFinish
    }

    method Write(data: seq<byte>) returns (written: nat)
      requires Valid()
      modifies this, sender, sender.stream, sender.timer
      ensures Valid() && State() == M.WriteData(old(State()), data)
      ensures written == Min(|data|, old(Streams.Room(sender.stream.State())))
    {
      written := sender.stream.Write(data);
      sender.FillWindow();
      SendAllOutboundingSegments();
    }

    method Tick(msSinceLastTick: nat)
      requires Valid()
      modifies this, sender, sender.stream`hasError, sender.timer, receiver.reassembler.output`hasError
      ensures Valid() && State() == M.Tick(old(State()), msSinceLastTick)
    {
      hide SM.Tick, ByteStream.Valid, ByteStream.State, StreamReassembler.Valid;
      timeSinceLastSegReceived := timeSinceLastSegReceived + msSinceLastTick;
      sender.Tick(msSinceLastTick);
      if sender.consecutiveRetransTimes > M.MAX_RETX_ATTEMPTS {
        SendRstSegment();
        SetErrors();
        return;
      }
      SendAllOutboundingSegments();
    }

    method EndInputStream()
      requires Valid()
      modifies this, sender, sender.stream, sender.timer
      ensures Valid() && State() == M.EndInputStream(old(State()))
    {
      sender.stream.EndInput();
      sender.FillWindow();
      if sender.segmentsOut == [] || !sender.segmentsOut[0].header.fin {
        return;
      }
      SendAllOutboundingSegments();
    }

    method Connect()
      requires Valid()
      modifies this, sender, sender.stream, sender.timer
      ensures Valid() && State() == M.Connect(old(State()))
    {
      sender.FillWindow();
      SendAllOutboundingSegments();
    }
  }
}
