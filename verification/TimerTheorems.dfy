/** Retransmission timing over whole runs: exponential back-off, and how long an endpoint waits before it gives up. */
module TimerTheorems {
  import opened Types
  import opened WrappingIntegers
  import opened StreamModel
  import opened SenderModel
  import opened SenderInvariants
  import opened ConnectionInvariants
  import opened ConnectionRuns
  import RM = ReceiverModel
  import CM = ConnectionModel
  import T = ConnectionTheorems

  /** A 16-bit timeout can be doubled this often before 64 bits overflow. */
  const MAX_DOUBLINGS: nat := 48

  function Pow2(n: nat): nat { if n == 0 then 1 else 2 * Pow2(n - 1) }

  lemma {:induction false} Pow2Sum(a: nat, b: nat)
    ensures Pow2(a + b) == Pow2(a) * Pow2(b)
  {
    if a > 0 {
      Pow2Sum(a - 1, b);
      assert a + b - 1 == (a - 1) + b;
    }
  }

  lemma {:induction false} Pow2Grows(a: nat, b: nat)
    requires a <= b
    ensures 0 < Pow2(a) <= Pow2(b)
    decreases b
  {
    if a < b { Pow2Grows(a, b - 1); } else if a > 0 { Pow2Grows(a - 1, b - 1); }
  }

  lemma Pow2Values()
    ensures Pow2(9) == 512 && Pow2(MAX_DOUBLINGS) == 0x1_0000_0000_0000
  {
    assert Pow2(1) == 2;
    hide Pow2;
    Pow2Sum(1, 1);
    Pow2Sum(2, 2);
    Pow2Sum(4, 4);
    Pow2Sum(8, 1);
    Pow2Sum(8, 8);
    Pow2Sum(16, 16);
    Pow2Sum(32, 16);
  }

  lemma ProductBound(a: nat, b: nat, a': nat, b': nat)
    requires a <= a' && b <= b'
    ensures a * b <= a' * b'
  {
    assert a * b <= a * b' <= a' * b';
  }

  lemma RtoFits(initialRto: u16, retx: nat)
    requires retx <= MAX_DOUBLINGS
    ensures initialRto * Pow2(retx) < TWO_64
  {
    hide Pow2;
    Pow2Grows(retx, MAX_DOUBLINGS);
    Pow2Values();
    ProductBound(initialRto, Pow2(retx), TWO_16 - 1, 0x1_0000_0000_0000);
  }

  lemma DoubleProduct(a: nat, b: nat)
    ensures a * (2 * b) == 2 * (a * b)
  {
  }

  lemma Unwrapped(x: nat)
    requires 2 * x < TWO_64
    ensures x * 2 % TWO_64 == 2 * x
  {
  }

  lemma Doubling(initialRto: u16, retx: nat)
    requires retx < MAX_DOUBLINGS
    ensures initialRto * Pow2(retx) * 2 % TWO_64 == initialRto * Pow2(retx + 1) == 2 * (initialRto * Pow2(retx))
  {
    assert Pow2(retx + 1) == 2 * Pow2(retx);
    hide Pow2;
    RtoFits(initialRto, retx + 1);
    DoubleProduct(initialRto, Pow2(retx));
    Unwrapped(initialRto * Pow2(retx));
  }

  /** The timeout in force is the initial one doubled once per consecutive retransmission. */
  ghost predicate Backoff(s: Sender) {
    s.retx <= MAX_DOUBLINGS ==> s.rto == s.initialRto * Pow2(s.retx)
  }

  /** `waited` ms of ticks pay for every doubling so far, and for the time on the running timer. */
  ghost predicate PaidFor(s: Sender, waited: nat) {
    s.retx <= MAX_DOUBLINGS ==>
      s.initialRto * Pow2(s.retx) - s.initialRto + (if s.timer.running then s.timer.elapsed else 0) <= waited
  }

  // ---------------------------------------------------------------- one call

  /** No doubling: either nothing about the timeout changed, or new data was acknowledged and all starts over. */
  ghost predicate Undisturbed(s: Sender, s': Sender) {
    && s'.initialRto == s.initialRto
    && if s'.una == s.una then s'.retx == s.retx && s'.rto == s.rto && (s'.timer == s.timer || s'.timer.elapsed == 0)
       else s'.retx == 0 && s'.rto == s.initialRto && s'.timer.elapsed == 0
  }

  lemma RespondUndisturbed(c: CM.Connection, seg: TcpSegment)
    ensures Undisturbed(c.sender, CM.Reply(CM.TakeAck(c, seg), seg).sender)
  {
    if seg.header.ack { AckFrame(c.sender, seg.header.ackno, seg.header.win); }
    hide AckReceived;
    FillWindowFrame(CM.TakeAck(c, seg).sender);
    hide FillWindow;
  }

  lemma ReceiveUndisturbed(c: CM.Connection, seg: TcpSegment)
    ensures Undisturbed(c.sender, CM.SegmentReceived(c, seg).value.sender)
  {
    hide RM.SegmentReceived, CM.Reply, CM.TakeAck;
    RespondUndisturbed(c.(sinceLast := 0, receiver := RM.SegmentReceived(c.receiver, seg).value), seg);
  }

  lemma StepUndisturbed(c: CM.Connection, e: Event)
    requires !e.Tick?
    ensures Undisturbed(c.sender, Step(c, e).value.sender)
  {
    hide FillWindow, CM.SegmentReceived;
    match e
    case Connect => FillWindowFrame(c.sender);
    case WriteData(data) => FillWindowFrame(c.sender.(stream := Write(c.sender.stream, data)));
    case EndInput => FillWindowFrame(c.sender.(stream := StreamModel.EndInput(c.sender.stream)));
    case Tick(ms) =>
    case Receive(seg) => ReceiveUndisturbed(c, seg);
    case ReadInbound(len) =>
    case Dequeue =>
  }

  lemma UndisturbedKeeps(s: Sender, s': Sender, waited: nat)
    requires Undisturbed(s, s') && Backoff(s) && PaidFor(s, waited)
    ensures Backoff(s') && PaidFor(s', if s'.una == s.una then waited else 0)
  {
  }

  lemma TickKeepsTime(s: Sender, ms: nat, waited: nat)
    requires Backoff(s) && PaidFor(s, waited) && TimerInv(s)
    ensures Backoff(SenderModel.Tick(s, ms)) && PaidFor(SenderModel.Tick(s, ms), waited + ms)
    ensures SenderModel.Tick(s, ms).una == s.una && SenderModel.Tick(s, ms).initialRto == s.initialRto
  {
    hide Pow2;
    if s.retx < MAX_DOUBLINGS { Doubling(s.initialRto, s.retx); }
  }

  // ---------------------------------------------------------------- whole runs

  /** Milliseconds ticked since new data was last acknowledged, or since the start. */
  function Waited(c: CM.Connection, es: seq<Event>): nat {
    if es == [] then 0
    else
      var init, last := es[..|es| - 1], es[|es| - 1];
      if last.Tick? then Waited(c, init) + last.ms
      else if Run(c, es).value.sender.una != Run(c, init).value.sender.una then 0
      else Waited(c, init)
  }

  lemma StepTime(c: CM.Connection, e: Event, waited: nat)
    requires Backoff(c.sender) && PaidFor(c.sender, waited) && TimerInv(c.sender)
    ensures var s' := Step(c, e).value.sender;
            Backoff(s') && PaidFor(s', if e.Tick? then waited + e.ms else if s'.una != c.sender.una then 0 else waited)
  {
    if e.Tick? {
      TickKeepsTime(c.sender, e.ms, waited);
      hide SenderModel.Tick, Pow2;
    } else {
      StepUndisturbed(c, e);
      hide Step, Pow2;
      UndisturbedKeeps(c.sender, Step(c, e).value.sender, waited);
    }
  }

  /** Back-off over every run: the timeout is exact, and the ticks since the last progress paid for it. */
  lemma {:induction false} RunTime(c: CM.Connection, es: seq<Event>)
    requires ConnInv(c) && Run(c, es).Returned? && Fits(Run(c, es).value.sender)
    requires c.sender.retx == 0 && c.sender.rto == c.sender.initialRto && !c.sender.timer.running
    ensures var s := Run(c, es).value.sender;
            Backoff(s) && PaidFor(s, Waited(c, es)) && s.initialRto == c.sender.initialRto
    decreases |es|
  {
    if es != [] {
      var init, last := es[..|es| - 1], es[|es| - 1];
      var c1 := Run(c, init).value;
      hide Step, Pow2, Tiles, Authentic;
      StepFrame(c1, last);
      RunTime(c, init);
      T.RunInv(c, init);
      StepTime(c1, last, Waited(c, init));
    }
  }

  /** Only `tick` counts retransmissions, and one too many is an error at once. */
  lemma StepCalm(c: CM.Connection, e: Event)
    requires c.sender.retx <= 8 || CM.HasError(c)
    ensures var c' := Step(c, e).value;
            && (c'.sender.retx <= 8 || CM.HasError(c'))
            && (CM.HasError(c') && !CM.HasError(c) ==>
                  (e.Tick? && c'.sender.retx == 9) || (e.Receive? && e.seg.header.rst))
  {
    StepFrame(c, e);
    if e.Tick? {
    } else {
      StepUndisturbed(c, e);
      if !(e.Receive? && e.seg.header.rst) { StepNoError(c, e); }
      hide Step;
    }
  }

  lemma StepNoError(c: CM.Connection, e: Event)
    requires !e.Tick? && !(e.Receive? && e.seg.header.rst)
    ensures CM.HasError(Step(c, e).value) ==> CM.HasError(c)
  {
    hide FillWindow, CM.SegmentReceived;
    match e
    case Connect => FillWindowFrame(c.sender);
    case WriteData(data) => FillWindowFrame(c.sender.(stream := Write(c.sender.stream, data)));
    case EndInput => FillWindowFrame(c.sender.(stream := StreamModel.EndInput(c.sender.stream)));
    case Tick(ms) =>
    case Receive(seg) => ReceiveNoError(c, seg);
    case ReadInbound(len) =>
    case Dequeue =>
  }

  lemma ReceiveNoError(c: CM.Connection, seg: TcpSegment)
    requires !seg.header.rst
    ensures CM.HasError(CM.SegmentReceived(c, seg).value) ==> CM.HasError(c)
  {
    hide RM.SegmentReceived, CM.Reply, CM.TakeAck;
    ReceiverErrorKept(c.receiver, seg);
    var c1 := c.(sinceLast := 0, receiver := RM.SegmentReceived(c.receiver, seg).value);
    TakeAckFrame(c1, seg);
    ReplyFrame(CM.TakeAck(c1, seg), seg);
  }

  lemma {:induction false} RunCalm(c: CM.Connection, es: seq<Event>)
    requires Run(c, es).Returned? && c.sender.retx <= 8
    ensures Run(c, es).value.sender.retx <= 8 || CM.HasError(Run(c, es).value)
  {
    hide Step;
    if es != [] {
      RunCalm(c, es[..|es| - 1]);
      StepCalm(Run(c, es[..|es| - 1]).value, es[|es| - 1]);
    }
  }

  /** Nine retransmissions cost 1 + 2 + 4 + ... + 256 initial timeouts. */
  lemma PaidNine(s: Sender, waited: nat)
    requires PaidFor(s, waited) && s.retx == 9
    ensures waited >= 511 * s.initialRto
  {
    hide Pow2;
    Pow2Values();
  }

  /**
   An endpoint that fails without being reset by the peer does so in a tick, after at least 511 initial timeouts
   of ticks since new data was last acknowledged.
   */
  lemma SelfReset(rt: u16, recvCapacity: nat, sendCapacity: nat, isn: u32, es: seq<Event>, last: Event)
    requires var c0 := CM.NewConnection(rt, recvCapacity, sendCapacity, isn);
             && Run(c0, es + [last]).Returned? && Fits(Run(c0, es + [last]).value.sender)
             && CM.HasError(Run(c0, es + [last]).value) && !CM.HasError(Run(c0, es).value)
    requires !(last.Receive? && last.seg.header.rst)
    ensures last.Tick?
    ensures Waited(CM.NewConnection(rt, recvCapacity, sendCapacity, isn), es + [last]) >= 511 * rt
  {
    var c0 := CM.NewConnection(rt, recvCapacity, sendCapacity, isn);
    NewConnectionInv(rt, recvCapacity, sendCapacity, isn);
    assert (es + [last])[..|es|] == es;
    assert Run(c0, es + [last]) == Step(Run(c0, es).value, last);
    hide Step, Pow2, ConnInv, Run, Waited, PaidFor;
    RunTime(c0, es + [last]);
    RunCalm(c0, es);
    StepCalm(Run(c0, es).value, last);
    PaidNine(Run(c0, es + [last]).value.sender, Waited(c0, es + [last]));
  }
}
