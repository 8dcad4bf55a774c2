/** Safety of one endpoint over every run, whatever the peer and the network do. */
module ConnectionTheorems {
  import opened Types
  import opened WrappingIntegers
  import opened StreamModel
  import opened SenderModel
  import opened SenderInvariants
  import opened ConnectionInvariants
  import opened ConnectionRuns
  import RA = ReassemblyModel
  import RM = ReceiverModel
  import CM = ConnectionModel
  import opened TcpStateModel

  // ---------------------------------------------------------------- the invariant holds throughout

  lemma StepInv(c: CM.Connection, e: Event)
    requires ConnInv(c) && Fits(c.sender) && Step(c, e).Returned?
    ensures ConnInv(Step(c, e).value) && Continues(c.sender, Step(c, e).value.sender)
  {
    match e
    case Connect => FillAndSendInv(c, c.sender);
    case WriteData(data) => WriteInv(c, data);
    case EndInput => EndInputInv(c);
    case Tick(ms) => TickInv(c, ms);
    case Receive(seg) => SegmentReceivedInv(c, seg);
    case ReadInbound(len) => ReadInboundInv(c, len);
    case Dequeue =>
  }

  /**
   In every run the outstanding segments tile the flight, every segment sent sits at its number with the
   stream's own bytes, the timer runs exactly while something is outstanding, and the window is filled.
   */
  lemma {:induction false} RunInv(c: CM.Connection, es: seq<Event>)
    requires ConnInv(c) && Run(c, es).Returned? && Fits(Run(c, es).value.sender)
    ensures ConnInv(Run(c, es).value) && Continues(c.sender, Run(c, es).value.sender)
  {
    hide SenderReady, ConnInv, Step;
    if es != [] {
      var init, last := es[..|es| - 1], es[|es| - 1];
      var c1 := Run(c, init).value;
      StepFrame(c1, last);
      RunInv(c, init);
      StepInv(c1, last);
    }
  }

  /** The peer's window; a closed one lets one byte through. */
  function Usable(s: Sender): nat { if s.window == 0 then 1 else s.window }

  /** The sender's redundant counters agree with one another, the timer with the queue, and the window is used. */
  ghost predicate Balanced(s: Sender) {
    && s.flight == TotalLength(s.outstanding) < TWO_16
    && s.next == (if s.next == 0 then 0 else 1) + s.stream.read + (if s.finSent then 1 else 0)
    && (if s.outstanding == [] then s.una == s.next
        else s.next - s.flight <= s.una < s.next - s.flight + s.outstanding[0].Length())
    && (s.timer.running <==> s.outstanding != []) && (s.timer.running ==> s.timer.deadline == s.rto)
    && (s.flight >= Usable(s) || s.finSent || (Buffer(s.stream) == [] && !s.stream.ended))
  }

  lemma ReadyIsBalanced(s: Sender)
    requires SenderReady(s)
    ensures Balanced(s)
  {
    hide Tiles, Authentic;
    TilesTotal(s.outstanding, s.next - s.flight, s.next, s);
  }

  lemma RunBalanced(rt: u16, recvCapacity: nat, sendCapacity: nat, isn: u32, es: seq<Event>)
    requires var c0 := CM.NewConnection(rt, recvCapacity, sendCapacity, isn);
             Run(c0, es).Returned? && Fits(Run(c0, es).value.sender)
    ensures Balanced(Run(CM.NewConnection(rt, recvCapacity, sendCapacity, isn), es).value.sender)
  {
    hide SenderReady, Balanced, Run;
    var c0 := CM.NewConnection(rt, recvCapacity, sendCapacity, isn);
    NewConnectionInv(rt, recvCapacity, sendCapacity, isn);
    RunInv(c0, es);
    ReadyIsBalanced(Run(c0, es).value.sender);
  }

  // ---------------------------------------------------------------- never past the window

  lemma RespondWithinWindow(c: CM.Connection, seg: TcpSegment)
    requires ConnInv(c) && Fits(c.sender)
    ensures var s' := CM.Reply(CM.TakeAck(c, seg), seg).sender; s'.flight <= Usable(s') || s'.flight <= c.sender.flight
  {
    hide AckReceived, FillWindow, Inv, Filled, Continues, RA.Valid, Authentic;
    if seg.header.ack { AckReceivedKeeps(c.sender, seg.header.ackno, seg.header.win); }
    FillWindowBound(CM.TakeAck(c, seg).sender);
  }

  lemma ReceiveWithinWindow(c: CM.Connection, seg: TcpSegment)
    requires ConnInv(c) && Fits(c.sender) && CM.SegmentReceived(c, seg).Returned?
    ensures var s' := CM.SegmentReceived(c, seg).value.sender; s'.flight <= Usable(s') || s'.flight <= c.sender.flight
  {
    hide RM.SegmentReceived, CM.Reply, CM.TakeAck, SenderReady;
    if RM.SegmentReceived(c.receiver, seg).Returned? {
      ReceiverValid(c.receiver, seg);
      RespondWithinWindow(c.(sinceLast := 0, receiver := RM.SegmentReceived(c.receiver, seg).value), seg);
    }
  }

  /** No call takes the bytes in flight above the peer's window, a closed one counted as one byte. */
  lemma StepWithinWindow(c: CM.Connection, e: Event)
    requires ConnInv(c) && Fits(c.sender) && Step(c, e).Returned?
    ensures var s' := Step(c, e).value.sender; s'.flight <= Usable(s') || s'.flight <= c.sender.flight
  {
    hide FillWindow, CM.SegmentReceived, SenderReady;
    match e
    case Connect => FillWindowBound(c.sender);
    case WriteData(data) => FillWindowBound(c.sender.(stream := Write(c.sender.stream, data)));
    case EndInput => FillWindowBound(c.sender.(stream := StreamModel.EndInput(c.sender.stream)));
    case Tick(ms) =>
    case Receive(seg) => ReceiveWithinWindow(c, seg);
    case ReadInbound(len) =>
    case Dequeue =>
  }

  // ---------------------------------------------------------------- orderly use of the outbound stream

  /** The application does not write after it closed the stream. */
  predicate NoWriteAfterEnd(es: seq<Event>) {
    forall i, j | 0 <= i < j < |es| :: es[i].EndInput? ==> !es[j].WriteData?
  }

  /** The outbound stream is ended by `end_input_stream` and by nothing else. */
  lemma {:induction false} RunEnded(c: CM.Connection, es: seq<Event>)
    requires Run(c, es).Returned? && !c.sender.stream.ended
    ensures Run(c, es).value.sender.stream.ended <==> exists i :: 0 <= i < |es| && es[i].EndInput?
  {
    hide Step;
    if es != [] {
      var init, last := es[..|es| - 1], es[|es| - 1];
      StepFrame(Run(c, init).value, last);
      RunEnded(c, init);
      assert es == init + [last];
      assert forall i | 0 <= i < |init| :: es[i] == init[i];
    }
  }

  ghost predicate FinIsLast(s: Sender) { s.finSent ==> s.stream.read == |s.stream.all| }

  lemma FinStep(c: CM.Connection, e: Event)
    requires ConnInv(c) && Fits(c.sender) && Step(c, e).Returned? && FinIsLast(c.sender)
    requires e.WriteData? ==> !c.sender.stream.ended
    ensures FinIsLast(Step(c, e).value.sender)
  {
    hide Step, FlightInv, TimerInv, Authentic;
    StepFrame(c, e);
    StepInv(c, e);
  }

  /** FIN takes the number right after the last byte ever written. */
  lemma {:induction false} RunFin(c: CM.Connection, es: seq<Event>)
    requires ConnInv(c) && !c.sender.stream.ended && !c.sender.finSent
    requires Run(c, es).Returned? && Fits(Run(c, es).value.sender) && NoWriteAfterEnd(es)
    ensures FinIsLast(Run(c, es).value.sender)
  {
    hide Step, ConnInv;
    if es != [] {
      var init, last := es[..|es| - 1], es[|es| - 1];
      var c1 := Run(c, init).value;
      assert forall i | 0 <= i < |init| :: es[i] == init[i];
      StepFrame(c1, last);
      RunInv(c, init);
      RunFin(c, init);
      RunEnded(c, init);
      FinStep(c1, last);
    }
  }

  // ---------------------------------------------------------------- clean close

  /** Milliseconds ticked since the last segment was received, or since the start. */
  function Elapsed(es: seq<Event>): nat {
    if es == [] then 0
    else
      match es[|es| - 1]
      case Tick(ms) => Elapsed(es[..|es| - 1]) + ms
      case Receive(_) => 0
      case _ => Elapsed(es[..|es| - 1])
  }

  lemma {:induction false} RunElapsed(c: CM.Connection, es: seq<Event>)
    requires Run(c, es).Returned? && c.sinceLast == 0
    ensures Run(c, es).value.sinceLast == Elapsed(es) && Run(c, es).value.rtTimeout == c.rtTimeout
  {
    hide Step;
    if es != [] {
      StepFrame(Run(c, es[..|es| - 1]).value, es[|es| - 1]);
      RunElapsed(c, es[..|es| - 1]);
    }
  }

  /**
   An endpoint that is no longer active, without an error, has sent FIN after all it was given, has all of it
   acknowledged, has seen the peer's stream end, and has waited out the linger time unless it need not.
   */
  lemma CleanClose(rt: u16, recvCapacity: nat, sendCapacity: nat, isn: u32, es: seq<Event>)
    requires var c0 := CM.NewConnection(rt, recvCapacity, sendCapacity, isn);
             Run(c0, es).Returned? && Fits(Run(c0, es).value.sender) && NoWriteAfterEnd(es)
    requires var c := Run(CM.NewConnection(rt, recvCapacity, sendCapacity, isn), es).value;
             !CM.Active(c) && !CM.HasError(c)
    ensures var c := Run(CM.NewConnection(rt, recvCapacity, sendCapacity, isn), es).value;
            && c.sender.finSent && c.sender.una == c.sender.next == |c.sender.stream.all| + 2
            && c.sender.outstanding == [] && c.receiver.reassembly.out.ended
            && (!c.linger || Elapsed(es) >= 10 * rt)
  {
    var c0 := CM.NewConnection(rt, recvCapacity, sendCapacity, isn);
    NewConnectionInv(rt, recvCapacity, sendCapacity, isn);
    RunInv(c0, es);
    RunFin(c0, es);
    RunElapsed(c0, es);
    hide Run;
    var s := Run(c0, es).value.sender;
    TilesTotal(s.outstanding, s.next - s.flight, s.next, s);
  }

  // ---------------------------------------------------------------- states only move forward

  lemma ForwardSender(s: Sender, s': Sender)
    requires SenderReady(s) && SenderReady(s') && Continues(s, s') && FinIsLast(s) && FinIsLast(s')
    requires s.stream.ended ==> s'.stream.ended && s'.stream.all == s.stream.all
    requires s.stream.error ==> s'.stream.error
    ensures Rank(SummarizeSender(s)) <= Rank(SummarizeSender(s'))
  {
    hide Tiles, Authentic;
  }

  /** What every call keeps or moves one way in the receiver. */
  ghost predicate ReceiverMoves(r: RM.Receiver, r': RM.Receiver) {
    && (r.isn.Some? ==> r'.isn.Some?)
    && r.reassembly.cur <= r'.reassembly.cur && r.reassembly.out.read <= r'.reassembly.out.read
    && r'.reassembly.out.capacity == r.reassembly.out.capacity
    && (r.reassembly.out.ended ==> r'.reassembly.out.ended) && (r.reassembly.out.error ==> r'.reassembly.out.error)
  }

  lemma SegmentMoves(r: RM.Receiver, seg: TcpSegment)
    requires RM.SegmentReceived(r, seg).Returned?
    ensures ReceiverMoves(r, RM.SegmentReceived(r, seg).value)
  {
  }

  lemma StepMoves(c: CM.Connection, e: Event)
    requires Step(c, e).Returned?
    ensures ReceiverMoves(c.receiver, Step(c, e).value.receiver)
  {
    hide FillWindow, RM.SegmentReceived;
    if e.Receive? {
      var c0 := c.(sinceLast := 0);
      if !e.seg.header.rst && !CM.IsKeepAlive(c0, e.seg) && RM.SegmentReceived(c.receiver, e.seg).Returned? {
        SegmentMoves(c.receiver, e.seg);
        var c1 := c0.(receiver := RM.SegmentReceived(c.receiver, e.seg).value);
        TakeAckFrame(c1, e.seg);
        ReplyFrame(CM.TakeAck(c1, e.seg), e.seg);
        hide CM.Reply, CM.TakeAck;
      }
    }
  }

  lemma StepForward(c: CM.Connection, e: Event)
    requires ConnInv(c) && Fits(c.sender) && Step(c, e).Returned? && FinIsLast(c.sender)
    requires e.WriteData? ==> !c.sender.stream.ended
    ensures var c' := Step(c, e).value;
            && Rank(SummarizeSender(c.sender)) <= Rank(SummarizeSender(c'.sender))
            && ReceiverRank(SummarizeReceiver(c.receiver)) <= ReceiverRank(SummarizeReceiver(c'.receiver))
  {
    hide Step, SenderReady;
    StepFrame(c, e);
    StepInv(c, e);
    FinStep(c, e);
    StepMoves(c, e);
    ForwardSender(c.sender, Step(c, e).value.sender);
  }

  /**
   Along every run without a write after close, the sender's and the receiver's summaries never step back,
   an error stays, and a cancelled linger stays cancelled.
   */
  lemma {:induction false} RunForward(c: CM.Connection, es: seq<Event>, k: nat)
    requires ConnInv(c) && !c.sender.stream.ended && !c.sender.finSent
    requires Run(c, es).Returned? && Fits(Run(c, es).value.sender) && NoWriteAfterEnd(es) && k <= |es|
    ensures Run(c, es[..k]).Returned?
    ensures var (early, late) := (Run(c, es[..k]).value, Run(c, es).value);
            && Rank(SummarizeSender(early.sender)) <= Rank(SummarizeSender(late.sender))
            && ReceiverRank(SummarizeReceiver(early.receiver)) <= ReceiverRank(SummarizeReceiver(late.receiver))
            && (CM.HasError(early) ==> CM.HasError(late)) && (late.linger ==> early.linger)
    decreases |es|
  {
    hide Step, ConnInv, SummarizeReceiver, SummarizeSender;
    if k == |es| {
      assert es[..k] == es;
    } else {
      var init, last := es[..|es| - 1], es[|es| - 1];
      var c1 := Run(c, init).value;
      assert init[..k] == es[..k];
      assert forall i | 0 <= i < |init| :: es[i] == init[i];
      StepFrame(c1, last);
      RunForward(c, init, k);
      RunInv(c, init);
      RunFin(c, init);
      RunEnded(c, init);
      StepForward(c1, last);
    }
  }

  // ---------------------------------------------------------------- the advertised window

  /** The first number beyond what a segment sent now would offer: its ackno plus its 16-bit window. */
  function RightEdge(r: RM.Receiver): nat {
    RM.AckNumber(r) + Min(RM.WindowSize(r), TWO_16 - 1)
  }

  lemma MovesRight(r: RM.Receiver, r': RM.Receiver)
    requires ReceiverMoves(r, r') && RA.Valid(r.reassembly) && RA.Valid(r'.reassembly)
    ensures RightEdge(r) <= RightEdge(r') && RM.AckNumber(r) <= RM.AckNumber(r')
    ensures RA.Edge(r.reassembly) == r.reassembly.out.read + r.reassembly.out.capacity
  {
  }

  /** The right edge offered to the peer never moves left. */
  lemma {:induction false} RunWindow(c: CM.Connection, es: seq<Event>, k: nat)
    requires ConnInv(c) && Run(c, es).Returned? && Fits(Run(c, es).value.sender) && k <= |es|
    ensures Run(c, es[..k]).Returned?
    ensures RightEdge(Run(c, es[..k]).value.receiver) <= RightEdge(Run(c, es).value.receiver)
    decreases |es|
  {
    hide Step, SenderReady, RightEdge;
    if k == |es| {
      assert es[..k] == es;
    } else {
      var init, last := es[..|es| - 1], es[|es| - 1];
      var c1 := Run(c, init).value;
      assert init[..k] == es[..k];
      StepFrame(c1, last);
      RunWindow(c, init, k);
      RunInv(c, init);
      RunInv(c, es);
      StepMoves(c1, last);
      MovesRight(c1.receiver, Run(c, es).value.receiver);
    }
  }
}
