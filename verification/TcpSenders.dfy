/** The sender and its retransmission timer, updated in place (tcp_sender.{hh,cc}). */
module TcpSenders {
  import opened Types
  import opened WrappingIntegers
  import M = SenderModel
  import opened ByteStreams

  class RetransmissionTimer {
    var ddl: nat
    var cur: nat
    var isStart: bool

    ghost function State(): M.Timer
      reads this
    {
      M.Timer(ddl, cur, isStart)
    }

    constructor ()
      ensures State() == M.Timer(0, 0, false)
    {
      ddl, cur, isStart := 0, 0, false;
    }

    predicate Expired()
      reads this
      ensures Expired() <==> M.Expired(State())
    {
      if isStart then cur >= ddl else false
    }

    method Start(deadline: nat)
      modifies this
      ensures State() == M.Start(old(State()), deadline)
    {
      if isStart {
        return;
      }
      ddl, cur, isStart := deadline, 0, true;
    }

    method Stop()
      modifies this
      ensures State() == M.Stop(old(State()))
    {
      isStart := false;
      cur, ddl := 0, 0;
    }

    method Tick(time: nat)
      modifies this
      ensures State() == M.Advanced(old(State()), time)
    {
      if !isStart {
        return;
      }
      cur := cur + time;
    }
  }

  class TcpSender {
    const isn: u32
    const initialRetransmissionTimeout: u16
    const stream: ByteStream
    const timer: RetransmissionTimer
    var segmentsOut: seq<TcpSegment>
    var nextSeqno: nat
    var windowSize: u16
    var bytesInFlight: nat
    var unaSeqno: nat
    var outstandingSegments: seq<TcpSegment>
    var curRto: nat
    var consecutiveRetransTimes: nat
    var isTransmissionEnded: bool

    ghost predicate Valid()
      reads this, stream
    {
      stream.Valid()
    }

    ghost function State(): M.Sender
      requires Valid()
      reads this, stream, timer
    {
      M.Sender(isn, initialRetransmissionTimeout, stream.State(), nextSeqno, windowSize, bytesInFlight, unaSeqno,
               outstandingSegments, segmentsOut, timer.State(), curRto, consecutiveRetransTimes, isTransmissionEnded)
    }

    constructor (capacity: nat, retxTimeout: u16, isn: u32)
      ensures Valid() && fresh(stream) && fresh(timer)
      ensures State() == M.NewSender(capacity, retxTimeout, isn)
    {
      this.isn := isn;
      initialRetransmissionTimeout := retxTimeout;
      stream := new ByteStream(capacity);
      timer := new RetransmissionTimer();
      segmentsOut, outstandingSegments := [], [];
      nextSeqno, windowSize, bytesInFlight, unaSeqno := 0, 1, 0, 0;
      curRto, consecutiveRetransTimes, isTransmissionEnded := retxTimeout, 0, false;
    }

    method FillWindow()
      requires Valid()
      modifies this, stream, timer
      ensures Valid() && State() == M.FillWindow(old(State()))
    {
      hide M.FillRound;
      var seg := BlankSegment(0);
      var actualWindowSize := windowSize;
      if actualWindowSize == 0 {
        actualWindowSize := 1;
      }
      if actualWindowSize <= bytesInFlight {
        return;
      }
      ghost var target := M.FillLoop(State(), actualWindowSize, false);
      var again := true;
      while again
        invariant Valid()
        invariant again ==> seg.header == BlankSegment(seg.header.seqno).header.(syn := seg.header.syn)
        invariant again ==> bytesInFlight < actualWindowSize
        invariant again ==> M.FillLoop(State(), actualWindowSize, seg.header.syn) == target
        invariant !again ==> State() == target
        decreases if again then actualWindowSize - bytesInFlight + 1 else 0
      {
        if isTransmissionEnded {
          return;
        }
        ghost var round := M.FillRound(State(), actualWindowSize, seg.header.syn);
        seg := FillOnce(seg, actualWindowSize);
        assert State() == round;
        again := !stream.BufferEmpty() && actualWindowSize - bytesInFlight != 0;
      }
    }

    /** The body of the loop of `fill_window`; the segment object is handed on to the next turn. */
    method FillOnce(reused: TcpSegment, actualWindowSize: nat) returns (seg: TcpSegment)
      requires Valid() && bytesInFlight < actualWindowSize && !isTransmissionEnded
      requires reused.header == BlankSegment(reused.header.seqno).header.(syn := reused.header.syn)
      modifies this, stream, timer
      ensures Valid() && State() == M.FillRound(old(State()), actualWindowSize, reused.header.syn)
      ensures seg.header.syn == (reused.header.syn || old(nextSeqno) == 0)
      ensures bytesInFlight <= actualWindowSize
      ensures !stream.BufferEmpty() ==> bytesInFlight > old(bytesInFlight) && !isTransmissionEnded
      ensures !isTransmissionEnded ==> seg.header == BlankSegment(seg.header.seqno).header.(syn := seg.header.syn)
    {
      hide Wrap, M.Emit, M.Load, ByteStream.Valid, ByteStream.State;
      seg := reused.(header := reused.header.(seqno := Wrap(nextSeqno, isn)));
      if nextSeqno == 0 {
        seg := seg.(header := seg.header.(syn := true));
        Occupy(1);
      }
      var payload := LoadPayload(actualWindowSize);
      seg := seg.(payload := payload);
      if stream.inputIsEnd && stream.AtEof() && actualWindowSize - bytesInFlight != 0 {
        seg := seg.(header := seg.header.(fin := true));
        Occupy(1);
        isTransmissionEnded := true;
      }
      if |payload| != 0 || seg.header.syn || seg.header.fin {
        Emit(seg);
      }
    }

    method Occupy(n: nat)
      requires Valid()
      modifies this`bytesInFlight, this`nextSeqno
      ensures Valid() && State() == M.Occupy(old(State()), n)
    {
      bytesInFlight := bytesInFlight + n;
      nextSeqno := nextSeqno + n;
    }

    method LoadPayload(actualWindowSize: nat) returns (payload: seq<byte>)
      requires Valid() && bytesInFlight <= actualWindowSize
      modifies this`bytesInFlight, this`nextSeqno, stream
      ensures Valid() && (payload, State()) == M.Load(old(State()), actualWindowSize)
      ensures bytesInFlight <= actualWindowSize
      ensures !stream.BufferEmpty() ==> old(bytesInFlight) < bytesInFlight || bytesInFlight == actualWindowSize
    {
      var readSize := Min(actualWindowSize - bytesInFlight, M.MAX_PAYLOAD_SIZE);
      payload := stream.Read(readSize);
      readSize := |payload|;
      Occupy(readSize);
    }

    method Emit(seg: TcpSegment)
      requires Valid()
      modifies this`segmentsOut, this`outstandingSegments, timer
      ensures Valid() && State() == M.Emit(old(State()), seg)
    {
      segmentsOut := segmentsOut + [seg];
      outstandingSegments := outstandingSegments + [seg];
      timer.Start(curRto);
    }

    method AckReceived(ackno: u32, window: u16)
      requires Valid()
      modifies this, timer
      ensures Valid() && State() == M.AckReceived(old(State()), ackno, window)
    {
      hide Unwrap, M.PopAcked, ByteStream.State, ByteStream.Valid;
      var acknoAbs := Unwrap(ackno, isn, nextSeqno);
      windowSize := window;
      if acknoAbs <= unaSeqno || acknoAbs > nextSeqno {
        return;
      }
      unaSeqno := acknoAbs;
      PopAcknowledged(acknoAbs);
      curRto := initialRetransmissionTimeout;
      consecutiveRetransTimes := 0;
      timer.Stop();
      if outstandingSegments != [] {
        timer.Start(curRto);
      }
    }

    method PopAcknowledged(acknoAbs: nat)
      requires Valid()
      modifies this`bytesInFlight, this`outstandingSegments
      ensures Valid() && State() == M.PopAcked(old(State()), acknoAbs)
    {
      hide Unwrap, M.Less, ByteStream.State, ByteStream.Valid;
      while outstandingSegments != []
        invariant M.PopAcked(State(), acknoAbs) == M.PopAcked(old(State()), acknoAbs)
        decreases |outstandingSegments|
      {
        var seg := outstandingSegments[0];
        if acknoAbs >= Unwrap(seg.header.seqno, isn, nextSeqno) + seg.Length() {
          bytesInFlight := M.Less(bytesInFlight, seg.Length());
          outstandingSegments := outstandingSegments[1..];
        } else {
          break;
        }
      }
    }

    method Tick(msSinceLastTick: nat)
      requires Valid()
      modifies this, timer
      ensures Valid() && State() == M.Tick(old(State()), msSinceLastTick)
    {
      timer.Tick(msSinceLastTick);
      if timer.Expired() && outstandingSegments != [] {
        segmentsOut := segmentsOut + [outstandingSegments[0]];
        if windowSize != 0 {
          consecutiveRetransTimes := consecutiveRetransTimes + 1;
          curRto := curRto * 2 % TWO_64;
        }
        timer.Stop();
        timer.Start(curRto);
      }
    }

    method SendEmptySegment()
      requires Valid()
      modifies this`segmentsOut
      ensures Valid() && State() == M.SendEmpty(old(State()))
    {
      segmentsOut := segmentsOut + [BlankSegment(Wrap(nextSeqno, isn))];
    }
  }
}
