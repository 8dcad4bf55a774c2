/** What an endpoint sends and when it fails: the answer to each segment, each timeout and each reset. */
module Replies {
  import opened Types
  import opened WrappingIntegers
  import opened StreamModel
  import opened SenderModel
  import opened SenderInvariants
  import opened ConnectionInvariants
  import opened ConnectionRuns
  import opened Segmentation
  import RA = ReassemblyModel
  import RM = ReceiverModel
  import CM = ConnectionModel
  import T = ConnectionTheorems
  import TT = TimerTheorems
  import NS = NetworkSafety
  import opened CornerCases
  import opened TcpStateModel

  // ---------------------------------------------------------------- what a segment says when it goes out

  /**
   The segment on the wire is the sender's, with the number of the first byte not received as acknowledgment once SYN
   was received, and as window the room of the inbound stream, at most 65535.
   */
  ghost predicate Says(wire: TcpSegment, seg: TcpSegment, r: RM.Receiver) {
    var inbound := r.reassembly.out;
    && wire.payload == seg.payload
    && wire.header == seg.header.(
         ack := r.isn.Some?,
         ackno := if r.isn.Some? then Wrap(|inbound.all| + (if inbound.ended then 2 else 1), r.isn.value)
                  else seg.header.ackno,
         win := Min(inbound.capacity - |Buffer(inbound)|, 65535))
  }

  ghost predicate AllSay(wire: seq<TcpSegment>, q: seq<TcpSegment>, r: RM.Receiver) {
    |wire| == |q| && forall k | 0 <= k < |q| :: Says(wire[k], q[k], r)
  }

  lemma StampSays(seg: TcpSegment, r: RM.Receiver)
    requires !seg.header.ack && RA.Valid(r.reassembly)
    ensures Says(CM.Stamp(seg, r), seg, r)
  {
    hide Wrap;
  }

  ghost function Sent(c: CM.Connection, c': CM.Connection): seq<TcpSegment>
    requires |c.out| <= |c'.out|
  {
    c'.out[|c.out|..]
  }

  /** Between `c` and `c'` exactly the segments of `q` went out, in order, and none was kept back. */
  ghost predicate SendsAll(c: CM.Connection, c': CM.Connection, q: seq<TcpSegment>) {
    && c.out <= c'.out && AllSay(Sent(c, c'), q, c'.receiver)
    && c'.sender.out == []
  }

  lemma SendAllSays(c: CM.Connection)
    requires RA.Valid(c.receiver.reassembly) && forall seg <- c.sender.out :: !seg.header.ack
    ensures SendsAll(c, CM.SendAll(c), c.sender.out)
  {
    hide Says, CM.Stamp;
    forall k | 0 <= k < |c.sender.out| ensures Says(CM.StampAll(c.sender.out, c.receiver)[k], c.sender.out[k], c.receiver) {
      StampSays(c.sender.out[k], c.receiver);
    }
  }

  /** `connect` and `write` send what was waiting and every segment they add to the outstanding ones. */
  lemma CallSends(c: CM.Connection, e: Event)
    requires ConnInv(c) && (e.Connect? || e.WriteData?)
    ensures var c' := Step(c, e).value;
            && c'.receiver == c.receiver && c.sender.outstanding <= c'.sender.outstanding
            && SendsAll(c, c', c.sender.out + Added(c.sender, c'.sender))
  {
    var s := if e.WriteData? then c.sender.(stream := Write(c.sender.stream, e.data)) else c.sender;
    StreamKeeps(c.sender, s.stream);
    FillReady(s);
    FillWindowCuts(s);
    hide FillWindow, Inv, Filled, AllSay, Pieces, Joined;
    var s' := FillWindow(s);
    Unstamped(s');
    SendAllSays(c.(sender := s'));
    hide CM.SendAll;
    assert Added(s, s') == Added(c.sender, s');
    SendAllSender(c.(sender := s'));
  }

  lemma Unstamped(s: Sender)
    requires SenderReady(s)
    ensures forall seg <- s.out :: !seg.header.ack
  {
  }

  lemma SendAllSender(c: CM.Connection)
    ensures CM.SendAll(c).sender == c.sender.(out := []) && CM.SendAll(c).receiver == c.receiver
    ensures CM.SendAll(c).linger == c.linger && CM.SendAll(c).sinceLast == c.sinceLast
  {
  }

  /** The sender after the stream was ended and the window filled, with what that queued. */
  lemma Ended(c: CM.Connection) returns (s': Sender)
    requires ConnInv(c) && c.sender.out == []
    ensures s' == FillWindow(c.sender.(stream := StreamModel.EndInput(c.sender.stream))) && SenderReady(s')
    ensures c.sender.outstanding <= s'.outstanding && s'.out == Added(c.sender, s')
  {
    var s := c.sender.(stream := StreamModel.EndInput(c.sender.stream));
    StreamKeeps(c.sender, s.stream);
    FillReady(s);
    FillWindowCuts(s);
    hide SenderReady, FillWindow, Pieces, Joined;
    s' := FillWindow(s);
    assert Added(s, s') == Added(c.sender, s');
  }

  /** Ending the stream sends every segment it adds once SYN is out, and before that keeps it back. */
  lemma EndSends(c: CM.Connection)
    requires ConnInv(c) && c.sender.out == []
    ensures var c' := CM.EndInputStream(c);
            && c'.receiver == c.receiver && c.sender.outstanding <= c'.sender.outstanding
            && (if c.sender.next > 0 then SendsAll(c, c', Added(c.sender, c'.sender))
                else c'.out == c.out && c'.sender.out == Added(c.sender, c'.sender) != [])
  {
    HeldBack(c);
    var s' := Ended(c);
    Unstamped(s');
    hide SenderReady, FillWindow, AllSay, Authentic;
    var c1 := c.(sender := s');
    SendAllSays(c1);
    SendAllSender(c1);
    NothingSaid([], c.receiver);
    hide CM.SendAll, RA.Valid;
  }

  // ---------------------------------------------------------------- timeouts

  /** The running timer reaches the current timeout. */
  predicate Due(s: Sender, ms: nat) { s.timer.running && s.timer.elapsed + ms >= s.rto }

  /**
   Exactly when the timer runs out, the oldest outstanding segment, the one at the start of the flight, is queued
   again, for an open and a closed window alike; it counts and doubles only for an open one.
   */
  lemma TimeoutExact(s: Sender, ms: nat)
    requires Inv(s)
    ensures var s' := SenderModel.Tick(s, ms);
            && (Due(s, ms) ==> s.outstanding != [] && s.outstanding[0].header.seqno == Wrap(s.next - s.flight, s.isn))
            && s'.out == s.out + (if Due(s, ms) then [s.outstanding[0]] else [])
            && s'.retx == s.retx + (if Due(s, ms) && s.window > 0 then 1 else 0)
            && s'.rto == (if Due(s, ms) && s.window > 0 then s.rto * 2 % TWO_64 else s.rto)
            && s'.timer.running == s.timer.running
            && (s.timer.running ==> s'.timer.elapsed == if Due(s, ms) then 0 else s.timer.elapsed + ms)
            && s' == s.(out := s'.out, retx := s'.retx, rto := s'.rto, timer := s'.timer)
  {
    hide Wrap, Authentic;
  }

  /** A tick of the connection sends what was waiting and, on a timeout, the oldest outstanding segment. */
  lemma TickSends(c: CM.Connection, ms: nat)
    requires ConnInv(c) && c.sender.retx <= 8 && !GivesUp(c.sender, ms)
    ensures Due(c.sender, ms) ==> c.sender.outstanding != []
    ensures var (s, c') := (c.sender, CM.Tick(c, ms));
            && c'.receiver == c.receiver && c'.sender.outstanding == s.outstanding
            && SendsAll(c, c', s.out + (if Due(s, ms) then [s.outstanding[0]] else []))
  {
    TimeoutExact(c.sender, ms);
    TickReady(c.sender, ms);
    hide SenderModel.Tick, Inv, Filled, AllSay;
    var c1 := c.(sinceLast := c.sinceLast + ms, sender := SenderModel.Tick(c.sender, ms));
    Unstamped(c1.sender);
    SendAllSays(c1);
    SendAllSender(c1);
    hide CM.SendAll;
  }

  // ---------------------------------------------------------------- a received reset

  /** A reset fails both streams, ends the connection and sends nothing. */
  lemma ResetEnds(c: CM.Connection, seg: TcpSegment)
    requires seg.header.rst
    ensures var x := Step(c, Receive(seg));
            && x.Returned? && x.value.sender.stream.error && x.value.receiver.reassembly.out.error
            && !CM.Active(x.value) && x.value.out == c.out && x.value.sender.out == c.sender.out
            && x.value.sender == c.sender.(stream := x.value.sender.stream)
            && x.value.sender.stream == c.sender.stream.(error := true)
            && x.value.receiver.reassembly == c.receiver.reassembly.(out := x.value.receiver.reassembly.out)
            && x.value.receiver.reassembly.out == c.receiver.reassembly.out.(error := true)
  {
  }

  /** The event fails the connection: a reset is received, or a tick gives up. */
  predicate Fails(c: CM.Connection, e: Event) {
    (e.Receive? && e.seg.header.rst) || (e.Tick? && GivesUp(c.sender, e.ms))
  }

  ghost predicate BothFail(c: CM.Connection, failed: bool) {
    c.sender.stream.error == failed && c.receiver.reassembly.out.error == failed
  }

  lemma TickFails(c: CM.Connection, ms: nat)
    requires Inv(c.sender) && c.sender.retx <= 8
    ensures var (c', failed) := (CM.Tick(c, ms), GivesUp(c.sender, ms));
            c'.sender.stream.error == (c.sender.stream.error || failed) &&
            c'.receiver.reassembly.out.error == (c.receiver.reassembly.out.error || failed)
  {
    TimeoutExact(c.sender, ms);
    hide SenderModel.Tick, Inv;
  }

  lemma ErrorsStay(c: CM.Connection, e: Event)
    requires BothFail(c, true)
    ensures BothFail(Step(c, e).value, true)
  {
    hide FillWindow, CM.SegmentReceived, SenderModel.Tick;
    match e
    case Connect => FillWindowFrame(c.sender);
    case WriteData(data) => FillWindowFrame(c.sender.(stream := Write(c.sender.stream, data)));
    case EndInput => FillWindowFrame(c.sender.(stream := StreamModel.EndInput(c.sender.stream)));
    case Tick(ms) => SenderTickFrame(c.sender, ms);
    case Receive(seg) => ReceiveErrors(c, seg);
    case ReadInbound(len) =>
    case Dequeue =>
  }

  lemma ReceiveErrors(c: CM.Connection, seg: TcpSegment)
    ensures var c' := CM.SegmentReceived(c, seg).value;
            && c'.sender.stream.error == (c.sender.stream.error || seg.header.rst)
            && c'.receiver.reassembly.out.error == (c.receiver.reassembly.out.error || seg.header.rst)
  {
    hide RM.SegmentReceived, CM.TakeAck, CM.Reply;
    ReceiverErrorKept(c.receiver, seg);
    var c1 := c.(sinceLast := 0, receiver := RM.SegmentReceived(c.receiver, seg).value);
    TakeAckFrame(c1, seg);
    ReplyFrame(CM.TakeAck(c1, seg), seg);
  }

  lemma StepFails(c: CM.Connection, e: Event)
    requires ConnInv(c) && c.sender.retx <= 8 && BothFail(c, false)
    ensures BothFail(Step(c, e).value, Fails(c, e))
  {
    hide FillWindow, CM.SegmentReceived, CM.Tick;
    match e
    case Connect => FillWindowFrame(c.sender);
    case WriteData(data) => FillWindowFrame(c.sender.(stream := Write(c.sender.stream, data)));
    case EndInput => FillWindowFrame(c.sender.(stream := StreamModel.EndInput(c.sender.stream)));
    case Tick(ms) => TickFails(c, ms);
    case Receive(seg) => ReceiveErrors(c, seg);
    case ReadInbound(len) =>
    case Dequeue =>
  }

  ghost predicate FailedBy(c: CM.Connection, es: seq<Event>) {
    exists k :: 0 <= k < |es| && Fails(Run(c, es[..k]).value, es[k])
  }

  lemma FailedByLast(c: CM.Connection, es: seq<Event>)
    requires es != []
    ensures var init := es[..|es| - 1];
            FailedBy(c, es) <==> FailedBy(c, init) || Fails(Run(c, init).value, es[|es| - 1])
  {
    hide Fails, Run;
    var init := es[..|es| - 1];
    assert forall k | 0 <= k < |init| :: init[..k] == es[..k] && init[k] == es[k];
    assert es[..|es| - 1] == init;
  }

  /** In every run both streams have failed if and only if a reset was received or a tick gave up. */
  lemma {:induction false} RunFails(c: CM.Connection, es: seq<Event>)
    requires ConnInv(c) && BothFail(c, false) && c.sender.retx == 0
    requires Run(c, es).Returned? && Fits(Run(c, es).value.sender)
    ensures BothFail(Run(c, es).value, FailedBy(c, es))
    decreases |es|
  {
    if es != [] {
      var init, last := es[..|es| - 1], es[|es| - 1];
      var c1 := Run(c, init).value;
      StepFrame(c1, last);
      FailedByLast(c, es);
      hide Step, ConnInv, FailedBy, Fails;
      RunFails(c, init);
      T.RunInv(c, init);
      TT.RunCalm(c, init);
      if FailedBy(c, init) { ErrorsStay(c1, last); } else { StepFails(c1, last); }
    }
  }

  // ---------------------------------------------------------------- the answer to a segment

  /** An empty segment one number before the first byte not received. */
  predicate KeepAlive(c: CM.Connection, seg: TcpSegment) {
    var inbound := c.receiver.reassembly.out;
    && c.receiver.isn.Some? && seg.Length() == 0
    && seg.header.seqno == Wrap(|inbound.all| + (if inbound.ended then 1 else 0), c.receiver.isn.value)
  }

  /** Nothing was sent or received yet, and the segment does not open the connection. */
  predicate Ignored(c: CM.Connection, seg: TcpSegment) {
    !CM.HasError(c) && c.sender.next == 0 && c.receiver.isn.None? && c.linger && !seg.header.syn
  }

  lemma KeepAliveIs(c: CM.Connection, seg: TcpSegment)
    requires RA.Valid(c.receiver.reassembly)
    ensures CM.IsKeepAlive(c, seg) <==> KeepAlive(c, seg)
  {
    if c.receiver.isn.Some? {
      var n := RM.AckNumber(c.receiver) - 1;
      AdvanceWrap(n, 1, c.receiver.isn.value);
      StepBack(Wrap(n, c.receiver.isn.value));
      hide Wrap, Advance;
    }
  }

  lemma StepBack(x: u32)
    ensures Advance(Advance(x, 1), -1) == x
  {
  }

  lemma IgnoredIs(c: CM.Connection, seg: TcpSegment)
    requires ConnInv(c)
    ensures CM.State(c.(sinceLast := 0)) == LISTEN && !seg.header.syn <==> Ignored(c, seg)
  {
    hide Tiles, Authentic;
  }

  function Bare(s: Sender): TcpSegment { BlankSegment(Wrap(s.next, s.isn)) }

  lemma KeepAliveAnswered(c: CM.Connection, seg: TcpSegment)
    requires ConnInv(c) && !seg.header.rst && KeepAlive(c, seg)
    ensures var x := CM.SegmentReceived(c, seg);
            && x.Returned? && x.value.receiver == c.receiver && x.value.sender == c.sender.(out := [])
            && x.value.linger == c.linger && SendsAll(c, x.value, c.sender.out + [Bare(c.sender)])
  {
    KeepAliveIs(c, seg);
    Unstamped(c.sender);
    hide SenderReady, Says, Wrap, KeepAlive;
    var c1 := c.(sinceLast := 0, sender := SendEmpty(c.sender));
    SendAllSays(c1);
    SendAllSender(c1);
    hide CM.SendAll;
  }

  lemma IgnoredUnchanged(c: CM.Connection, seg: TcpSegment)
    requires ConnInv(c) && !seg.header.rst && Ignored(c, seg)
    ensures CM.SegmentReceived(c, seg) == Returned(c.(sinceLast := 0))
  {
    IgnoredIs(c, seg);
    hide CM.State, ConnInv;
  }

  /** The sender once the segment's acknowledgment has been taken. */
  function Acked(s: Sender, seg: TcpSegment): Sender {
    if seg.header.ack then AckReceived(s, seg.header.ackno, seg.header.win) else s
  }

  /** What was waiting and what the answer adds; a bare acknowledgment if that is nothing and one is owed. */
  function Owed(s: Sender, s': Sender, seg: TcpSegment): seq<TcpSegment>
    requires |s.outstanding| <= |s'.outstanding|
  {
    var made := s.out + Added(s, s');
    if made == [] && seg.Length() > 0 then [Bare(s)] else made
  }

  /** The three ways a reply goes: what is there, a bare acknowledgment, or nothing. */
  lemma ReplyCases(c: CM.Connection, seg: TcpSegment)
    ensures var (c1, c') := (c.(sender := FillWindow(c.sender)), CM.Reply(c, seg));
            c' == if c1.sender.out != [] then CM.SendAll(c1)
                  else if seg.Length() > 0 then CM.SendAll(c1.(sender := SendEmpty(c1.sender)))
                  else c1
  {
    hide FillWindow, CM.SendAll;
  }

  lemma SendAllFrom(c: CM.Connection, s: Sender)
    requires RA.Valid(c.receiver.reassembly) && forall seg <- s.out :: !seg.header.ack
    ensures var c' := CM.SendAll(c.(sender := s));
            c'.receiver == c.receiver && c'.linger == c.linger && c'.sender == s.(out := []) && SendsAll(c, c', s.out)
  {
    hide AllSay;
    SendAllSays(c.(sender := s));
    SendAllSender(c.(sender := s));
    hide CM.SendAll;
  }

  lemma ReplySends(c: CM.Connection, seg: TcpSegment)
    requires Inv(c.sender) && RA.Valid(c.receiver.reassembly)
    requires c.sender.next == 0 ==> OpenWindow(c.sender) == 1 || c.sender.stream.all == []
    ensures var c' := CM.Reply(c, seg);
            && c'.receiver == c.receiver && c'.linger == c.linger
            && c.sender.outstanding <= c'.sender.outstanding && SendsAll(c, c', Owed(c.sender, c'.sender, seg))
  {
    var s := c.sender;
    FillReady(s);
    FillWindowCuts(s);
    var s' := FillWindow(s);
    Unstamped(s');
    ReplyCases(c, seg);
    hide CM.Reply, CM.SendAll, FillWindow, Inv, SenderReady, Pieces, Joined, AllSay, Wrap, RA.Valid;
    if s'.out != [] {
      SendAllFrom(c, s');
    } else if seg.Length() > 0 {
      FillNothingMoves(s);
      SendAllFrom(c, SendEmpty(s'));
    } else {
      NothingSaid([], c.receiver);
      assert Sent(c, c.(sender := s')) == [];
    }
  }

  lemma AckedReady(s: Sender, seg: TcpSegment)
    requires SenderReady(s) && Fits(s)
    ensures var s' := Acked(s, seg);
            && Inv(s') && (s'.next == 0 ==> OpenWindow(s') == 1 || s'.stream.all == [])
            && s'.out == s.out && s'.next == s.next && s'.isn == s.isn && s'.stream == s.stream
  {
    if seg.header.ack {
      AckInv(s, seg.header.ackno, seg.header.win);
      AckReceivedKeeps(s, seg.header.ackno, seg.header.win);
    }
    hide AckReceived, Inv, Filled;
  }

  /** The answer to a segment that is neither a reset, a keep-alive nor ignored. */
  lemma RespondSends(c: CM.Connection, seg: TcpSegment)
    requires ConnInv(c) && Fits(c.sender)
    ensures var c' := CM.Reply(CM.TakeAck(c, seg), seg);
            && c'.receiver == c.receiver && Acked(c.sender, seg).outstanding <= c'.sender.outstanding
            && SendsAll(c, c', Owed(Acked(c.sender, seg), c'.sender, seg))
            && c'.linger == (c.linger && !(c.receiver.reassembly.out.ended && !Eof(c.sender.stream)))
  {
    AckedReady(c.sender, seg);
    var c1 := CM.TakeAck(c, seg);
    assert c1.sender == Acked(c.sender, seg);
    hide Acked, AckReceived, SenderReady, CM.Reply, Inv, AllSay;
    ReplySends(c1, seg);
  }

  lemma NothingSaid(wire: seq<TcpSegment>, r: RM.Receiver)
    requires wire == []
    ensures AllSay(wire, [], r)
  {
  }

  lemma FillNothingMoves(s: Sender)
    requires Inv(s) && (s.next == 0 ==> OpenWindow(s) == 1 || s.stream.all == [])
    requires FillWindow(s).outstanding == s.outstanding
    ensures FillWindow(s).next == s.next && FillWindow(s).isn == s.isn
  {
    if OpenWindow(s) > s.flight { FillLoopStill(s, OpenWindow(s)); }
  }

  lemma FillLoopStill(s: Sender, w: nat)
    requires s.flight < w && FillLoop(s, w, false).outstanding == s.outstanding
    ensures FillLoop(s, w, false).next == s.next && FillLoop(s, w, false).isn == s.isn
  {
    hide Wrap;
    if !s.finSent {
      var s1 := FillRound(s, w, false);
      if Buffer(s1.stream) != [] && s1.flight < w {
        RoundCuts(s, w, false);
        FillLoopCuts(s1, w, s.next == 0);
        OutgrowsBoth(s, s1, FillLoop(s1, w, s.next == 0), w);
      }
    }
  }

  /**
   Every segment that is not a reset: a keep-alive is answered with one bare acknowledgment, a segment that cannot open
   the connection is ignored, and any other is received, acknowledged and answered, with everything the sender has.
   */
  lemma SegmentAnswered(c: CM.Connection, seg: TcpSegment)
    requires ConnInv(c) && Fits(c.sender) && !seg.header.rst && !KeepAlive(c, seg) && !Ignored(c, seg)
    ensures var (x, r) := (CM.SegmentReceived(c, seg), RM.SegmentReceived(c.receiver, seg));
            && (x.Returned? <==> r.Returned?)
            && (x.Returned? ==>
                  var c' := x.value;
                  && c'.receiver == r.value && Acked(c.sender, seg).outstanding <= c'.sender.outstanding
                  && SendsAll(c, c', Owed(Acked(c.sender, seg), c'.sender, seg))
                  && c'.linger == (c.linger && !(c'.receiver.reassembly.out.ended && !Eof(c.sender.stream))))
  {
    KeepAliveIs(c, seg);
    IgnoredIs(c, seg);
    hide CM.State, CM.IsKeepAlive, KeepAlive, Ignored, CM.Reply, CM.TakeAck, SenderReady, RM.SegmentReceived, Acked, AllSay;
    if RM.SegmentReceived(c.receiver, seg).Returned? {
      ReceiverValid(c.receiver, seg);
      var c1 := c.(sinceLast := 0, receiver := RM.SegmentReceived(c.receiver, seg).value);
      RespondSends(c1, seg);
    }
  }
}
