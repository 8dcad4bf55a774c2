/** Where an endpoint departs from what one would expect of it: exactly when, and at which input. */
module CornerCases {
  import opened Types
  import opened WrappingIntegers
  import opened StreamModel
  import opened SenderModel
  import opened SenderInvariants
  import opened ConnectionInvariants
  import opened ConnectionRuns
  import opened Network
  import RM = ReceiverModel
  import CM = ConnectionModel

  function Bytes(n: nat): (s: seq<byte>)
    ensures |s| == n
  {
    seq(n, _ => 0)
  }

  // ---------------------------------------------------------------- unacceptable acknowledgments

  /** The acknowledgment names nothing new, or something never sent. */
  predicate Unacceptable(s: Sender, ackno: u32) {
    var ack := Unwrap(ackno, s.isn, s.next);
    ack <= s.una || ack > s.next
  }

  /** Exactly the unacceptable acknowledgments leave everything but the window alone; the window they always set. */
  lemma UnacceptableAck(s: Sender, ackno: u32, window: u16)
    ensures AckReceived(s, ackno, window) == s.(window := window) <==> Unacceptable(s, ackno)
    ensures AckReceived(s, ackno, window) == s <==> Unacceptable(s, ackno) && window == s.window
  {
    hide Unwrap;
    var ack := Unwrap(ackno, s.isn, s.next);
    PopAckedFrame(s.(window := window, una := ack), ack);
  }

  /** An acknowledgment of nothing opens the window of a new sender. */
  lemma UnacceptableAckExample(isn: u32)
    ensures var s := NewSender(8, 1000, isn);
            Unacceptable(s, isn) && AckReceived(s, isn, 5000) == s.(window := 5000) != s
  {
    var s := NewSender(8, 1000, isn);
    assert Wrap(0, isn) == isn;
    UnwrapWrap(0, isn, 0);
    UnacceptableAck(s, isn, 5000);
  }

  // ---------------------------------------------------------------- SYN sticks to the reused segment

  function Opened(isn: u32): Sender {
    AckReceived(NewSender(4000, 1000, isn).(stream := Write(NewStream(4000), Bytes(1500))), isn, 5000)
  }

  /** A sender given 1500 bytes and a wide window before it has sent anything breaks its invariant in one call. */
  lemma SynSticksExample(isn: u32)
    ensures Inv(Opened(isn)) && SynSticks(Opened(isn), 5000) && !Inv(FillWindow(Opened(isn)))
  {
    var s := NewSender(4000, 1000, isn).(stream := Write(NewStream(4000), Bytes(1500)));
    assert Wrap(0, isn) == isn;
    UnwrapWrap(0, isn, 0);
    UnacceptableAck(s, isn, 5000);
    assert Opened(isn) == s.(window := 5000);
    hide AckReceived;
    FillLoopExact(Opened(isn), 5000);
    hide Inv, FillLoop;
  }

  // ---------------------------------------------------------------- segments held back by end_input_stream

  /** With nothing waiting before, `end_input_stream` leaves segments with the sender exactly when SYN was not sent. */
  lemma HeldBack(c: CM.Connection)
    requires ConnInv(c) && c.sender.out == []
    ensures CM.EndInputStream(c).sender.out != [] <==> c.sender.next == 0
  {
    var s := c.sender.(stream := StreamModel.EndInput(c.sender.stream));
    hide Tiles, Authentic;
    if OpenWindow(s) > s.flight && !s.finSent { ClosingRound(s, OpenWindow(s)); }
  }

  /** The one segment a filled sender adds when its stream ends: SYN, or FIN, or none for want of room. */
  lemma ClosingRound(s: Sender, w: nat)
    requires s.stream.ended && s.flight < w && !s.finSent && CountInv(s) && s.out == []
    requires if s.next == 0 then w == 1 && s.stream.all == [] else Buffer(s.stream) == []
    ensures var s' := FillLoop(s, w, false);
            |s'.out| == 1 && s'.out[0].header.fin == (s.next > 0)
  {
    hide Wrap;
    var s1 := FillRound(s, w, false);
    assert Buffer(s1.stream) == [];
  }

  /** Ending the stream of a new connection makes SYN and keeps it; the next `connect` sends it. */
  lemma HeldBackExample(rt: u16, recvCapacity: nat, sendCapacity: nat, isn: u32)
    ensures var c := CM.EndInputStream(CM.NewConnection(rt, recvCapacity, sendCapacity, isn));
            c.out == [] && c.sender.out != [] && |CM.Connect(c).out| == 1 && CM.Connect(c).out[0].header.syn
  {
    var s := NewSender(sendCapacity, rt, isn).(stream := StreamModel.EndInput(NewStream(sendCapacity)));
    hide Wrap;
    var s1 := FillRound(s, 1, false);
    assert Buffer(s1.stream) == [] && s1.out == s.out + [s1.out[0]] && s1.out[0].header.syn && !s1.out[0].header.fin;
    assert FillLoop(s, 1, false) == s1;
    assert FillWindow(s1) == s1;
  }

  // ---------------------------------------------------------------- the reset is a retransmission

  /** The timer runs out on an open window once more than allowed. */
  predicate GivesUp(s: Sender, ms: nat) {
    s.retx == 8 && s.window != 0 && s.timer.running && s.timer.elapsed + ms >= s.rto
  }

  /** The tick that gives up sends, as the reset, the segment it was about to send once more, and keeps the bare one. */
  lemma ResetIsRetransmission(c: CM.Connection, ms: nat)
    requires ConnInv(c) && c.sender.out == [] && c.sender.retx <= 8
    ensures CM.Tick(c, ms).sender.retx > 8 <==> GivesUp(c.sender, ms)
    ensures GivesUp(c.sender, ms) ==>
            && c.sender.outstanding != []
            && var (c', seg) := (CM.Tick(c, ms), c.sender.outstanding[0]);
               && c'.out == c.out + [seg.(header := seg.header.(rst := true))]
               && c'.sender.out == [BlankSegment(Wrap(c.sender.next, c.sender.isn))]
  {
    hide Wrap, Tiles, Authentic;
  }

  /** The endpoint after `n` timeouts in a row, each ticked to its very end. */
  function TimedOut(c: CM.Connection, n: nat): CM.Connection {
    if n == 0 then c
    else
      var c1 := TimedOut(c, n - 1);
      CM.Tick(c1, c1.sender.rto)
  }

  /** SYN is outstanding and has just been sent for the `n`th time after the first. */
  ghost predicate Unanswered(c: CM.Connection, n: nat) {
    && ConnInv(c) && c.sender.out == [] && |c.sender.outstanding| == 1 && c.sender.outstanding[0].header.syn
    && c.sender.timer == Timer(c.sender.rto, 0, true) && c.sender.window == 1 && c.sender.retx == n
  }

  lemma OneMoreTimeout(c: CM.Connection, n: nat)
    requires Unanswered(c, n) && n < 8
    ensures Unanswered(CM.Tick(c, c.sender.rto), n + 1)
  {
    TickInv(c, c.sender.rto);
    hide ConnInv, CM.Stamp;
    var (s, s') := (c.sender, SenderModel.Tick(c.sender, c.sender.rto));
    assert s'.retx == n + 1 && s'.outstanding == s.outstanding && s'.timer == Timer(s'.rto, 0, true);
    hide SenderModel.Tick;
  }

  lemma {:induction false} StaysUnanswered(c: CM.Connection, n: nat)
    requires Unanswered(c, 0) && n <= 8
    ensures Unanswered(TimedOut(c, n), n)
  {
    hide Unanswered, CM.Tick;
    if n > 0 {
      StaysUnanswered(c, n - 1);
      OneMoreTimeout(TimedOut(c, n - 1), n - 1);
    }
  }

  lemma ConnectUnanswered(rt: u16, recvCapacity: nat, sendCapacity: nat, isn: u32)
    ensures Unanswered(CM.Connect(CM.NewConnection(rt, recvCapacity, sendCapacity, isn)), 0)
  {
    var c := CM.NewConnection(rt, recvCapacity, sendCapacity, isn);
    NewConnectionInv(rt, recvCapacity, sendCapacity, isn);
    FillAndSendInv(c, c.sender);
    hide ConnInv, Wrap;
    var s1 := FillRound(c.sender, 1, false);
    assert FillWindow(c.sender) == s1 && |s1.outstanding| == 1;
  }

  /** A SYN never answered goes out a last time as the reset, SYN flag and all. */
  lemma ResetExample(rt: u16, recvCapacity: nat, sendCapacity: nat, isn: u32)
    ensures var c := TimedOut(CM.Connect(CM.NewConnection(rt, recvCapacity, sendCapacity, isn)), 8);
            && GivesUp(c.sender, c.sender.rto)
            && exists seg: TcpSegment :: seg.header.syn && seg.header.rst && CM.Tick(c, c.sender.rto).out == c.out + [seg]
  {
    var c0 := CM.Connect(CM.NewConnection(rt, recvCapacity, sendCapacity, isn));
    ConnectUnanswered(rt, recvCapacity, sendCapacity, isn);
    StaysUnanswered(c0, 8);
    hide ConnInv, TimedOut, CM.Tick;
    var c := TimedOut(c0, 8);
    ResetIsRetransmission(c, c.sender.rto);
    var seg := c.sender.outstanding[0].(header := c.sender.outstanding[0].header.(rst := true));
    assert CM.Tick(c, c.sender.rto).out == c.out + [seg];
  }

  // ---------------------------------------------------------------- a second SYN

  /** Any segment with SYN that is received, the first or not, sets the initial number to its own. */
  lemma SynRenames(r: RM.Receiver, seg: TcpSegment)
    requires seg.header.syn
    ensures RM.SegmentReceived(r, seg).value.isn == Some(seg.header.seqno)
  {
  }

  // ---------------------------------------------------------------- numbers that repeat the initial one

  /** A sender that has sent SYN and 2^32 bytes. */
  ghost function LongSender(isn: u32): Sender {
    NewSender(0, 1000, isn).(stream := RawStream(Bytes(TWO_32), TWO_32, 0, false, false), next := TWO_32 + 1,
                             una := TWO_32 + 1)
  }

  /** Its last byte carries the initial number again, and a receiver waiting for just that byte drops it. */
  lemma LongStreamExample(isn: u32, r: RM.Receiver)
    requires r.isn == Some(isn) && r.reassembly.cur == TWO_32 - 1
    ensures var seg := BlankSegment(isn).(payload := [0]);
            Inv(LongSender(isn)) && Placed(seg, TWO_32, LongSender(isn)) && RM.SegmentReceived(r, seg) == Returned(r)
  {
    var s, seg := LongSender(isn), BlankSegment(isn).(payload := [0]);
    assert Wrap(TWO_32, isn) == isn;
    assert s.stream.all[TWO_32 - 1..TWO_32] == [0];
    LongStreamIndex(s, r, seg, TWO_32);
  }
}
