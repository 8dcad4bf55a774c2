/** The window an endpoint offers: what it says on the wire, and what a peer that keeps to it is promised. */
module WindowTheorems {
  import opened Types
  import opened WrappingIntegers
  import opened StreamModel
  import opened SenderModel
  import opened SenderInvariants
  import opened ConnectionInvariants
  import opened ConnectionRuns
  import opened Network
  import RA = ReassemblyModel
  import RP = ReassemblyProperties
  import RM = ReceiverModel
  import CM = ConnectionModel
  import T = ConnectionTheorems
  import NS = NetworkSafety
  import opened TcpStateModel

  // ---------------------------------------------------------------- on the wire

  /** The right edge as the peer reads it off a segment: ackno plus window. */
  function WireEdge(seg: TcpSegment): u32 { Advance(seg.header.ackno, seg.header.win) }

  lemma StepAcksNow(c: CM.Connection, e: Event)
    requires ConnInv(c) && Fits(c.sender) && Step(c, e).Returned?
    ensures NewAcksNow(c, Step(c, e).value)
  {
    if e.Receive? {
      NS.DeliverAcks(c, e.seg);
    } else if !e.Dequeue? {
      NS.CallQuiet(c, e);
    }
  }

  lemma AcksNowEdge(seg: TcpSegment, r: RM.Receiver)
    requires AcksNow(seg, r) && seg.header.ack
    ensures r.isn.Some? && WireEdge(seg) == Wrap(T.RightEdge(r), r.isn.value)
  {
    AdvanceWrap(RM.AckNumber(r), seg.header.win, r.isn.value);
    hide Advance, Wrap;
  }

  /** The segment carries an acknowledgment and was queued by event `j` of the run. */
  ghost predicate QueuedBy(c: CM.Connection, es: seq<Event>, j: nat, seg: TcpSegment)
    requires j < |es|
  {
    seg.header.ack && seg in Run(c, es[..j + 1]).value.out && seg !in Run(c, es[..j]).value.out
  }

  lemma {:induction false} PrefixReturned(c: CM.Connection, es: seq<Event>, k: nat)
    requires k <= |es| && Run(c, es).Returned? && Fits(Run(c, es).value.sender)
    ensures Run(c, es[..k]).Returned? && Fits(Run(c, es[..k]).value.sender)
    decreases |es|
  {
    if k == |es| {
      assert es[..k] == es;
    } else {
      var init := es[..|es| - 1];
      assert init[..k] == es[..k];
      StepFrame(Run(c, init).value, es[|es| - 1]);
      hide Step;
      PrefixReturned(c, init, k);
    }
  }

  /** What it says is the receiver's right edge as of that event. */
  lemma QueuedSays(c: CM.Connection, es: seq<Event>, j: nat, seg: TcpSegment)
    requires ConnInv(c) && Run(c, es).Returned? && Fits(Run(c, es).value.sender)
    requires j < |es| && QueuedBy(c, es, j, seg)
    ensures var r := Run(c, es[..j + 1]).value.receiver;
            r.isn.Some? && WireEdge(seg) == Wrap(T.RightEdge(r), r.isn.value)
  {
    PrefixReturned(c, es, j);
    PrefixReturned(c, es, j + 1);
    assert es[..j + 1][..j] == es[..j];
    hide Step, ConnInv, Fits, AcksNow, WireEdge, T.RightEdge;
    T.RunInv(c, es[..j]);
    StepAcksNow(Run(c, es[..j]).value, es[j]);
    AcksNowEdge(seg, Run(c, es[..j + 1]).value.receiver);
  }

  lemma WrapDifference(a: nat, b: nat, isn: u32)
    requires a <= b < a + TWO_31
    ensures SignedDifference(Wrap(b, isn), Wrap(a, isn)) == b - a
  {
    hide Wrap;
    AdvanceWrap(a, b - a, isn);
    StepsBetween(Wrap(a, isn), b - a);
  }

  /**
   In every run, of two segments queued under the same initial number, the later one's right edge is the earlier
   one's plus what the receiver gained, which is never negative; on 32 bits the peer sees it move right as long as
   the gain is less than half the space.
   */
  lemma WireWindow(c: CM.Connection, es: seq<Event>, j: nat, k: nat, early: TcpSegment, late: TcpSegment)
    requires ConnInv(c) && Run(c, es).Returned? && Fits(Run(c, es).value.sender)
    requires j <= k < |es| && QueuedBy(c, es, j, early) && QueuedBy(c, es, k, late)
    requires Run(c, es[..j + 1]).value.receiver.isn == Run(c, es[..k + 1]).value.receiver.isn
    ensures var (r, r') := (Run(c, es[..j + 1]).value.receiver, Run(c, es[..k + 1]).value.receiver);
            && r.isn.Some? && T.RightEdge(r) <= T.RightEdge(r')
            && WireEdge(early) == Wrap(T.RightEdge(r), r.isn.value)
            && WireEdge(late) == Wrap(T.RightEdge(r'), r.isn.value)
            && (T.RightEdge(r') - T.RightEdge(r) < TWO_31 ==>
                  SignedDifference(WireEdge(late), WireEdge(early)) == T.RightEdge(r') - T.RightEdge(r) >= 0)
  {
    hide Run, QueuedBy, WireEdge, Wrap, SignedDifference, T.RightEdge;
    QueuedSays(c, es, j, early);
    QueuedSays(c, es, k, late);
    PrefixReturned(c, es, k + 1);
    assert es[..k + 1][..j + 1] == es[..j + 1];
    T.RunWindow(c, es[..k + 1], j + 1);
    var (r, r') := (Run(c, es[..j + 1]).value.receiver, Run(c, es[..k + 1]).value.receiver);
    if T.RightEdge(r') - T.RightEdge(r) < TWO_31 { WrapDifference(T.RightEdge(r), T.RightEdge(r'), r.isn.value); }
  }

  // ---------------------------------------------------------------- a peer that keeps to the window

  /** Where the segment's payload would go starts at or below the window edge. */
  predicate InWindow(r: RM.Receiver, seg: TcpSegment) {
    var start := if seg.header.syn then Advance(seg.header.seqno, 1) else seg.header.seqno;
    var isn := if seg.header.syn then Some(seg.header.seqno) else r.isn;
    isn.Some? && isn.value != start ==>
      RM.StreamIndex(start, isn.value, r.reassembly.cur) <= RA.Edge(r.reassembly)
  }

  lemma ReceiveBounded(r: RM.Receiver, seg: TcpSegment)
    requires RA.Valid(r.reassembly) && RA.Bounded(r.reassembly) && InWindow(r, seg)
    ensures RM.SegmentReceived(r, seg).Returned? && RA.Bounded(RM.SegmentReceived(r, seg).value.reassembly)
  {
    var start := if seg.header.syn then Advance(seg.header.seqno, 1) else seg.header.seqno;
    var isn := if seg.header.syn then Some(seg.header.seqno) else r.isn;
    if isn.Some? && isn.value != start {
      RA.PushWithinWindow(r.reassembly, seg.payload, RM.StreamIndex(start, isn.value, r.reassembly.cur), seg.header.fin);
    }
  }

  lemma SameInboundBounded(r: RM.Receiver, r': RM.Receiver)
    requires RA.Bounded(r.reassembly) && NS.SameInbound(r, r') && T.ReceiverMoves(r, r')
    ensures RA.Bounded(r'.reassembly)
  {
  }

  lemma DeliverReturns(c: CM.Connection, seg: TcpSegment)
    requires RM.SegmentReceived(c.receiver, seg).Returned?
    ensures CM.SegmentReceived(c, seg).Returned?
  {
  }

  lemma StepBounded(c: CM.Connection, e: Event)
    requires ConnInv(c) && RA.Bounded(c.receiver.reassembly)
    requires e.Receive? ==> InWindow(c.receiver, e.seg)
    ensures Step(c, e).Returned? && RA.Bounded(Step(c, e).value.receiver.reassembly)
  {
    if e.Receive? {
      ReceiveBounded(c.receiver, e.seg);
      DeliverReturns(c, e.seg);
      NS.DeliverInbound(c, e.seg);
    } else if !e.Dequeue? {
      NS.CallQuiet(c, e);
    }
    assert Step(c, e).Returned?;
    T.StepMoves(c, e);
    hide Step, RM.SegmentReceived, CM.SegmentReceived, SenderReady;
    var r, r' := c.receiver, Step(c, e).value.receiver;
    if NS.SameInbound(r, r') { SameInboundBounded(r, r'); }
  }

  /** Every segment received in the run starts at or below the edge of its time. */
  predicate KeepsToWindow(c: CM.Connection, es: seq<Event>) {
    es == [] ||
    var (before, last) := (Run(c, es[..|es| - 1]), es[|es| - 1]);
    KeepsToWindow(c, es[..|es| - 1]) && (last.Receive? ==> InWindow(before.value.receiver, last.seg))
  }

  /**
   Whatever is read, written and ticked in between, a run whose segments start at or below the edge never throws, and
   buffered plus unassembled bytes never exceed the capacity.
   */
  lemma {:induction false} WindowedRun(c: CM.Connection, es: seq<Event>)
    requires ConnInv(c) && RA.Bounded(c.receiver.reassembly) && KeepsToWindow(c, es)
    requires Fits(Run(c, es).value.sender)
    ensures Run(c, es).Returned?
    ensures var r := Run(c, es).value.receiver.reassembly;
            RA.Bounded(r) && RA.Valid(r) && |Buffer(r.out)| + |r.pending| <= r.out.capacity
  {
    hide Step, SenderReady, InWindow, RA.Bounded;
    if es != [] {
      var init := es[..|es| - 1];
      StepFrame(Run(c, init).value, es[|es| - 1]);
      WindowedRun(c, init);
      T.RunInv(c, init);
      StepBounded(Run(c, init).value, es[|es| - 1]);
    }
    T.RunInv(c, es);
    RP.BoundedFits(Run(c, es).value.receiver.reassembly);
  }
}
