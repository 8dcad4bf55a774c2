/** When an endpoint lingers, when it is done, and what its derived TCP state means, over every run. */
module StateTheorems {
  import opened Types
  import opened WrappingIntegers
  import opened StreamModel
  import opened SenderModel
  import opened SenderInvariants
  import opened ConnectionInvariants
  import opened ConnectionRuns
  import opened Segmentation
  import opened Replies
  import RA = ReassemblyModel
  import RM = ReceiverModel
  import CM = ConnectionModel
  import T = ConnectionTheorems
  import opened TcpStateModel

  // ---------------------------------------------------------------- lingering

  /** A segment is received that leaves the inbound stream ended while the outbound one is not all sent. */
  predicate Cancels(c: CM.Connection, e: Event) {
    && e.Receive? && !e.seg.header.rst && !KeepAlive(c, e.seg) && !Ignored(c, e.seg)
    && RM.SegmentReceived(c.receiver, e.seg).value.reassembly.out.ended
    && !(c.sender.stream.ended && c.sender.stream.read == |c.sender.stream.all|)
  }

  lemma ReceiveLinger(c: CM.Connection, seg: TcpSegment)
    requires ConnInv(c) && Fits(c.sender) && CM.SegmentReceived(c, seg).Returned?
    ensures CM.SegmentReceived(c, seg).value.linger <==> c.linger && !Cancels(c, Receive(seg))
  {
    if seg.header.rst {
    } else if KeepAlive(c, seg) {
      KeepAliveAnswered(c, seg);
    } else if Ignored(c, seg) {
      IgnoredUnchanged(c, seg);
    } else {
      SegmentAnswered(c, seg);
      hide ConnInv, CM.SegmentReceived, RM.SegmentReceived, KeepAlive, Ignored, SendsAll, Acked;
    }
  }

  lemma StepLinger(c: CM.Connection, e: Event)
    requires ConnInv(c) && Fits(c.sender) && Step(c, e).Returned?
    ensures Step(c, e).value.linger <==> c.linger && !Cancels(c, e)
  {
    hide ConnInv, FillWindow, CM.SegmentReceived, SenderModel.Tick, RM.SegmentReceived;
    if e.Receive? { ReceiveLinger(c, e.seg); }
  }

  ghost predicate CancelledBy(c: CM.Connection, es: seq<Event>) {
    exists k :: 0 <= k < |es| && Cancels(Run(c, es[..k]).value, es[k])
  }

  lemma CancelledByLast(c: CM.Connection, es: seq<Event>)
    requires es != []
    ensures var init := es[..|es| - 1];
            CancelledBy(c, es) <==> CancelledBy(c, init) || Cancels(Run(c, init).value, es[|es| - 1])
  {
    hide Cancels, Run;
    var init := es[..|es| - 1];
    assert forall k | 0 <= k < |init| :: init[..k] == es[..k] && init[k] == es[k];
    assert es[..|es| - 1] == init;
  }

  /** In every run lingering is off if and only if some segment cancelled it. */
  lemma {:induction false} RunLinger(c: CM.Connection, es: seq<Event>)
    requires ConnInv(c) && c.linger && Run(c, es).Returned? && Fits(Run(c, es).value.sender)
    ensures Run(c, es).value.linger <==> !CancelledBy(c, es)
    decreases |es|
  {
    if es != [] {
      var init, last := es[..|es| - 1], es[|es| - 1];
      StepFrame(Run(c, init).value, last);
      CancelledByLast(c, es);
      hide Step, ConnInv, CancelledBy, Cancels;
      RunLinger(c, init);
      T.RunInv(c, init);
      StepLinger(Run(c, init).value, last);
    }
  }

  // ---------------------------------------------------------------- done

  /** Everything has been sent, FIN included, and acknowledged. */
  ghost predicate AllAcknowledged(s: Sender) { s.finSent && s.una == s.next }

  lemma NothingInFlight(s: Sender)
    requires SenderReady(s)
    ensures s.flight == 0 <==> s.una == s.next
    ensures s.flight == 0 && s.stream.ended <==> AllAcknowledged(s)
  {
    hide Tiles, Authentic;
    TilesTotal(s.outstanding, s.next - s.flight, s.next, s);
    if s.outstanding != [] { TilesFront(s.outstanding, s.next - s.flight, s.next, s); }
  }

  lemma InactiveIs(c: CM.Connection)
    requires ConnInv(c)
    ensures !CM.Active(c) <==>
            || CM.HasError(c)
            || ((!c.linger || c.sinceLast >= 10 * c.rtTimeout) &&
                AllAcknowledged(c.sender) && c.receiver.reassembly.out.ended)
  {
    NothingInFlight(c.sender);
    hide SenderReady, AllAcknowledged;
  }

  /**
   In every run from a new connection: it is inactive if and only if a reset was received or a tick gave up, or all
   that was sent is acknowledged, FIN included, the inbound stream has ended, and either some segment cancelled
   lingering or ten timeouts have passed since the last segment.
   */
  lemma ActiveExactly(rt: u16, recvCapacity: nat, sendCapacity: nat, isn: u32, es: seq<Event>)
    requires var c0 := CM.NewConnection(rt, recvCapacity, sendCapacity, isn);
             Run(c0, es).Returned? && Fits(Run(c0, es).value.sender)
    ensures var c0 := CM.NewConnection(rt, recvCapacity, sendCapacity, isn);
            var c := Run(c0, es).value;
            !CM.Active(c) <==>
            || FailedBy(c0, es)
            || ((CancelledBy(c0, es) || T.Elapsed(es) >= 10 * rt) &&
                AllAcknowledged(c.sender) && c.receiver.reassembly.out.ended)
  {
    var c0 := CM.NewConnection(rt, recvCapacity, sendCapacity, isn);
    NewConnectionInv(rt, recvCapacity, sendCapacity, isn);
    hide ConnInv, Run, FailedBy, CancelledBy, AllAcknowledged, CM.Active;
    T.RunInv(c0, es);
    T.RunElapsed(c0, es);
    RunFails(c0, es);
    RunLinger(c0, es);
    InactiveIs(Run(c0, es).value);
  }

  // ---------------------------------------------------------------- the derived state

  /** While SYN is the start of the flight it is alone in its segment. */
  ghost predicate SynAlone(s: Sender) {
    s.outstanding != [] && s.next == s.flight ==> s.outstanding[0].Length() == 1
  }

  lemma FillSynAlone(s: Sender)
    requires SynAlone(s) && Inv(s)
    requires s.next == 0 ==> OpenWindow(s) == 1 || (s.stream.all == [] && !s.stream.ended)
    ensures SynAlone(FillWindow(s))
  {
    var s' := FillWindow(s);
    FillWindowCuts(s);
    if s.next == 0 && OpenWindow(s) > s.flight {
      FirstRound(s, OpenWindow(s));
    } else if s.next > 0 {
      FillReady(s);
      hide FillWindow, Tiles, Authentic, Pieces, Joined, Filled;
      TilesTotal(s.outstanding, s.next - s.flight, s.next, s);
    }
  }

  lemma FirstRound(s: Sender, w: nat)
    requires Inv(s) && s.next == 0 && s.flight < w && (w == 1 || (s.stream.all == [] && !s.stream.ended))
    ensures FillLoop(s, w, false).outstanding != [] && FillLoop(s, w, false).outstanding[0].Length() == 1
  {
    hide Wrap, Authentic;
    TilesTotal(s.outstanding, 0, 0, s);
    var s1 := FillRound(s, w, false);
    assert s1.outstanding == [s1.outstanding[0]] && s1.outstanding[0].Length() == 1;
  }

  lemma AckSynAlone(s: Sender, ackno: u32, window: u16)
    requires SynAlone(s) && Inv(s) && s.next < TWO_64
    ensures SynAlone(AckReceived(s, ackno, window))
  {
    hide Unwrap, Tiles, Authentic;
    var ack := Unwrap(ackno, s.isn, s.next);
    var s1 := s.(window := window, una := ack);
    PopAckedFrame(s1, ack);
    if s.una < ack <= s.next {
      TilesContinues(s.outstanding, s.next - s.flight, s.next, s, s1);
      PopAckedKeeps(s1, ack);
      PopAckedFront(s1, ack);
    }
    hide PopAcked;
  }

  lemma PopAckedFront(s: Sender, ack: nat)
    requires s.flight <= s.next < TWO_64 && s.flight < TWO_16 && s.next - s.flight <= ack <= s.next
    requires Tiles(s.outstanding, s.next - s.flight, s.next, s)
    ensures PopAcked(s, ack).flight == s.flight ==> PopAcked(s, ack).outstanding == s.outstanding
  {
    hide Tiles, Unwrap, Wrap;
    if s.outstanding != [] {
      var seg := s.outstanding[0];
      TilesFront(s.outstanding, s.next - s.flight, s.next, s);
      UnwrapWrap(s.next - s.flight, s.isn, s.next);
      if ack >= s.next - s.flight + seg.Length() {
        var s1 := s.(flight := Less(s.flight, seg.Length()), outstanding := s.outstanding[1..]);
        TilesContinues(s1.outstanding, s.next - s1.flight, s.next, s, s1);
        PopAckedKeeps(s1, ack);
      }
    }
  }

  lemma ReplySynAlone(c: CM.Connection, seg: TcpSegment)
    requires SynAlone(FillWindow(c.sender))
    ensures SynAlone(CM.Reply(c, seg).sender)
  {
    hide FillWindow;
  }

  lemma RespondSynAlone(c: CM.Connection, seg: TcpSegment)
    requires ConnInv(c) && Fits(c.sender) && SynAlone(c.sender)
    ensures SynAlone(CM.Reply(CM.TakeAck(c, seg), seg).sender)
  {
    AckedReady(c.sender, seg);
    if seg.header.ack { AckSynAlone(c.sender, seg.header.ackno, seg.header.win); }
    var c1 := CM.TakeAck(c, seg);
    assert c1.sender == Acked(c.sender, seg);
    assert c.sender.next == 0 ==> !c.sender.stream.ended;
    hide Acked, AckReceived, Inv, Filled, FillWindow, SynAlone, CM.Reply, CM.TakeAck;
    FillSynAlone(c1.sender);
    ReplySynAlone(c1, seg);
  }

  lemma StepSynAlone(c: CM.Connection, e: Event)
    requires ConnInv(c) && Fits(c.sender) && Step(c, e).Returned? && SynAlone(c.sender)
    ensures SynAlone(Step(c, e).value.sender)
  {
    hide FillWindow, Tiles, Authentic, RM.SegmentReceived, CM.Reply, CM.TakeAck;
    match e
    case Connect => FillSynAlone(c.sender);
    case WriteData(data) =>
      var s := c.sender.(stream := Write(c.sender.stream, data));
      StreamKeeps(c.sender, s.stream);
      FillSynAlone(s);
    case EndInput =>
      var s := c.sender.(stream := StreamModel.EndInput(c.sender.stream));
      StreamKeeps(c.sender, s.stream);
      FillSynAlone(s);
    case Tick(ms) => TimeoutExact(c.sender, ms);
    case Receive(seg) =>
      if RM.SegmentReceived(c.receiver, seg).Returned? {
        ReceiverValid(c.receiver, seg);
        RespondSynAlone(c.(sinceLast := 0, receiver := RM.SegmentReceived(c.receiver, seg).value), seg);
      }
    case ReadInbound(len) =>
    case Dequeue =>
  }

  lemma {:induction false} RunSynAlone(c: CM.Connection, es: seq<Event>)
    requires ConnInv(c) && SynAlone(c.sender) && Run(c, es).Returned? && Fits(Run(c, es).value.sender)
    ensures SynAlone(Run(c, es).value.sender)
  {
    if es != [] {
      var init, last := es[..|es| - 1], es[|es| - 1];
      StepFrame(Run(c, init).value, last);
      hide Step, ConnInv, SynAlone;
      RunSynAlone(c, init);
      T.RunInv(c, init);
      StepSynAlone(Run(c, init).value, last);
    }
  }

  /** What the sender has done, in terms of SYN and FIN sent and acknowledged. */
  function Meaning(s: Sender): SenderSummary {
    if s.stream.error then SenderError
    else if s.next == 0 then Closed          // SYN not sent
    else if s.una == 0 then SynSent          // SYN sent, not acknowledged
    else if !s.finSent then SynAcked         // SYN acknowledged, FIN not sent
    else if s.una < s.next then FinSent      // FIN sent, not acknowledged
    else FinAcked                            // FIN acknowledged
  }

  lemma SummaryMeans(s: Sender)
    requires SenderReady(s) && SynAlone(s) && T.FinIsLast(s)
    ensures SummarizeSender(s) == Meaning(s)
  {
    NothingInFlight(s);
    hide Tiles, Authentic, AllAcknowledged;
    TilesTotal(s.outstanding, s.next - s.flight, s.next, s);
  }

  // ---------------------------------------------------------------- what was received

  /** A segment with SYN is received that is not a reset. */
  predicate Opens(e: Event) { e.Receive? && e.seg.header.syn && !e.seg.header.rst }

  lemma StepHears(c: CM.Connection, e: Event)
    requires ConnInv(c) && Step(c, e).Returned?
    ensures Step(c, e).value.receiver.isn.Some? <==> c.receiver.isn.Some? || Opens(e)
  {
    hide FillWindow, SenderModel.Tick, RA.Push, CM.TakeAck, CM.Reply, ConnInv;
    if e.Receive? && RM.SegmentReceived(c.receiver, e.seg).Returned? {
      var c1 := c.(sinceLast := 0, receiver := RM.SegmentReceived(c.receiver, e.seg).value);
      TakeAckFrame(c1, e.seg);
      ReplyFrame(CM.TakeAck(c1, e.seg), e.seg);
    }
  }

  ghost predicate OpenedBy(es: seq<Event>) { exists k :: 0 <= k < |es| && Opens(es[k]) }

  lemma OpenedByLast(es: seq<Event>)
    requires es != []
    ensures OpenedBy(es) <==> OpenedBy(es[..|es| - 1]) || Opens(es[|es| - 1])
  {
    hide Opens;
    var init := es[..|es| - 1];
    assert forall k | 0 <= k < |init| :: es[k] == init[k];
  }

  /** In every run an initial number is known if and only if a SYN was received. */
  lemma {:induction false} RunHears(c: CM.Connection, es: seq<Event>)
    requires ConnInv(c) && c.receiver.isn.None? && Run(c, es).Returned? && Fits(Run(c, es).value.sender)
    ensures Run(c, es).value.receiver.isn.Some? <==> OpenedBy(es)
  {
    if es != [] {
      var init, last := es[..|es| - 1], es[|es| - 1];
      StepFrame(Run(c, init).value, last);
      hide Step, ConnInv, Opens, OpenedBy;
      RunHears(c, init);
      T.RunInv(c, init);
      StepHears(Run(c, init).value, last);
      OpenedByLast(es);
    }
  }

  /**
   In every run with no write after close, the sender's summary says exactly how far SYN and FIN have got, and the
   receiver's says LISTEN until a SYN was received and FIN_RECV once the inbound stream has ended.
   */
  lemma RunSummaries(rt: u16, recvCapacity: nat, sendCapacity: nat, isn: u32, es: seq<Event>)
    requires var c0 := CM.NewConnection(rt, recvCapacity, sendCapacity, isn);
             Run(c0, es).Returned? && Fits(Run(c0, es).value.sender) && T.NoWriteAfterEnd(es)
    ensures var c0 := CM.NewConnection(rt, recvCapacity, sendCapacity, isn);
            var c := Run(c0, es).value;
            && SummarizeSender(c.sender) == Meaning(c.sender)
            && SummarizeReceiver(c.receiver) ==
               (if FailedBy(c0, es) then ReceiverError
                else if !OpenedBy(es) then Listen
                else if c.receiver.reassembly.out.ended then FinRecv else SynRecv)
  {
    var c0 := CM.NewConnection(rt, recvCapacity, sendCapacity, isn);
    NewConnectionInv(rt, recvCapacity, sendCapacity, isn);
    hide Run, FailedBy, OpenedBy, SenderReady, SummarizeSender, Meaning, T.FinIsLast;
    T.RunInv(c0, es);
    T.RunFin(c0, es);
    RunSynAlone(c0, es);
    RunFails(c0, es);
    RunHears(c0, es);
    SummaryMeans(Run(c0, es).value.sender);
  }
}
