/** What every call on the sender keeps: outstanding segments tile the flight, and each one sits where it says. */
module SenderInvariants {
  import opened Types
  import opened WrappingIntegers
  import opened StreamModel
  import opened SenderModel

  /** Stream index of the first payload byte of a segment at absolute number `a`: SYN takes number 0. */
  function DataIndex(a: nat): nat { if a == 0 then 0 else a - 1 }

  /**
   The segment occupies numbers `a` to `a + Length()`: only number 0 carries SYN, the payload is the outbound
   stream's at that place, and FIN is the last number of all.
   */
  ghost predicate Placed(seg: TcpSegment, a: nat, s: Sender) {
    && seg.header.seqno == Wrap(a, s.isn) && a + seg.Length() <= s.next
    && (if a == 0 then seg.header.syn || seg.Length() == 0 else !seg.header.syn)
    && (seg.payload != [] ==>
          && DataIndex(a) + |seg.payload| <= s.stream.read
          && seg.payload == s.stream.all[DataIndex(a)..DataIndex(a) + |seg.payload|])
    && (seg.header.fin ==> s.finSent && a + seg.Length() == s.next)
  }

  ghost predicate Authentic(seg: TcpSegment, s: Sender) { exists a: nat :: Placed(seg, a, s) }

  /** The segments, not yet stamped with an acknowledgment, follow one another from `from` to `to` with no gap. */
  ghost predicate Tiles(q: seq<TcpSegment>, from: nat, to: nat, s: Sender)
    decreases |q|
  {
    if q == [] then from == to
    else
      && Placed(q[0], from, s) && q[0].Length() > 0 && !q[0].header.ack
      && Tiles(q[1..], from + q[0].Length(), to, s)
  }

  ghost predicate FlightInv(s: Sender) {
    && s.flight <= s.next && s.flight < TWO_16
    && Tiles(s.outstanding, s.next - s.flight, s.next, s)
    && (if s.outstanding == [] then s.una == s.next
        else s.next - s.flight <= s.una < s.next - s.flight + s.outstanding[0].Length())
  }

  /** Numbers used: SYN, the bytes taken from the stream, FIN. */
  ghost predicate CountInv(s: Sender) {
    && (s.finSent ==> s.stream.ended)
    && (if s.next == 0 then s.stream.read == 0 && !s.finSent
        else s.next == 1 + s.stream.read + (if s.finSent then 1 else 0))
  }

  ghost predicate TimerInv(s: Sender) {
    && (s.timer.running <==> s.outstanding != [])
    && (s.timer.running ==> s.timer.deadline == s.rto)
  }

  ghost predicate Inv(s: Sender) {
    FlightInv(s) && CountInv(s) && TimerInv(s) && forall seg <- s.out :: Authentic(seg, s) && !seg.header.ack
  }

  // ---------------------------------------------------------------- segments stay where they were placed

  /** The later sender continues the earlier one: same numbers, longer stream, flight no further back. */
  ghost predicate Continues(s: Sender, s': Sender) {
    && s'.isn == s.isn && s.stream.all <= s'.stream.all && s.stream.read <= s'.stream.read
    && s.next <= s'.next && (s.finSent ==> s'.finSent && s'.next == s.next)
    && s.next - s.flight <= s'.next - s'.flight
  }

  lemma PlacedContinues(seg: TcpSegment, a: nat, s: Sender, s': Sender)
    requires Placed(seg, a, s) && Continues(s, s')
    ensures Placed(seg, a, s')
  {
  }

  lemma AuthenticContinues(seg: TcpSegment, s: Sender, s': Sender)
    requires Authentic(seg, s) && Continues(s, s')
    ensures Authentic(seg, s')
  {
    var a: nat :| Placed(seg, a, s);
    PlacedContinues(seg, a, s, s');
  }

  lemma {:induction false} TilesContinues(q: seq<TcpSegment>, from: nat, to: nat, s: Sender, s': Sender)
    requires Tiles(q, from, to, s) && Continues(s, s')
    ensures Tiles(q, from, to, s')
    decreases |q|
  {
    if q != [] {
      PlacedContinues(q[0], from, s, s');
      TilesContinues(q[1..], from + q[0].Length(), to, s, s');
    }
  }

  lemma {:induction false} TilesAppend(q: seq<TcpSegment>, from: nat, to: nat, seg: TcpSegment, s: Sender)
    requires Tiles(q, from, to, s) && Placed(seg, to, s) && seg.Length() > 0 && !seg.header.ack
    ensures Tiles(q + [seg], from, to + seg.Length(), s)
    decreases |q|
  {
    if q == [] {
      assert q + [seg] == [seg];
    } else {
      assert (q + [seg])[1..] == q[1..] + [seg];
      TilesAppend(q[1..], from + q[0].Length(), to, seg, s);
    }
  }

  function TotalLength(q: seq<TcpSegment>): nat {
    if q == [] then 0 else q[0].Length() + TotalLength(q[1..])
  }

  /** `_bytes_in_flight` is the sum of the outstanding lengths. */
  lemma {:induction false} TilesTotal(q: seq<TcpSegment>, from: nat, to: nat, s: Sender)
    requires Tiles(q, from, to, s)
    ensures from + TotalLength(q) == to
    decreases |q|
  {
    if q != [] { TilesTotal(q[1..], from + q[0].Length(), to, s); }
  }

  // ---------------------------------------------------------------- fill_window

  /** Everything a call changes in the queue and the flight when it emits `seg` at the old next number. */
  lemma EmitKeeps(s: Sender, s1: Sender, seg: TcpSegment)
    requires Inv(s) && Continues(s, s1) && CountInv(s1)
    requires s1.outstanding == s.outstanding && s1.out == s.out && s1.una == s.una
    requires s1.timer == s.timer && s1.rto == s.rto
    requires seg.Length() > 0 && s1.next == s.next + seg.Length() && s1.flight == s.flight + seg.Length() < TWO_16
    requires Placed(seg, s.next, s1) && !seg.header.ack
    ensures Inv(Emit(s1, seg)) && Continues(s, Emit(s1, seg))
  {
    hide Placed;
    var s' := Emit(s1, seg);
    assert Continues(s1, s');
    TilesContinues(s.outstanding, s.next - s.flight, s.next, s, s');
    PlacedContinues(seg, s.next, s1, s');
    TilesAppend(s.outstanding, s.next - s.flight, s.next, seg, s');
    forall x <- s'.out ensures Authentic(x, s') && !x.header.ack {
      if x in s.out { AuthenticContinues(x, s, s'); }
    }
  }

  /** The sender after a turn, before it queues the segment. */
  ghost function Unqueued(s: Sender, s': Sender): Sender {
    s'.(out := s.out, outstanding := s.outstanding, timer := s.timer)
  }

  /** A turn queues one segment, placed at the old next number, or changes nothing. */
  lemma FillRoundShape(s: Sender, w: nat)
    requires CountInv(s) && !s.finSent && s.flight < w
    ensures var s' := FillRound(s, w, false);
            && s'.flight <= w && s'.next > 0 && CountInv(s') && Continues(s, s')
            && (s' == s ||
                var seg := (s'.out[|s.out|..] + [BlankSegment(0)])[0];
                && s' == Emit(Unqueued(s, s'), seg) && Placed(seg, s.next, s') && !seg.header.ack && seg.Length() > 0
                && s'.next == s.next + seg.Length() && s'.flight == s.flight + seg.Length())
  {
    hide Wrap;
    var s' := FillRound(s, w, false);
    if s'.out == s.out { assert s'.stream == s.stream; }
  }

  /** One turn of the loop keeps the invariant when the segment object carries no SYN from a turn before. */
  lemma FillRoundKeeps(s: Sender, w: nat)
    requires Inv(s) && !s.finSent && s.flight < w < TWO_16
    ensures var s' := FillRound(s, w, false);
            Inv(s') && Continues(s, s') && s'.flight <= w && s'.next > 0
  {
    FillRoundShape(s, w);
    RoundFrame(s, w, false);
    hide Tiles, Authentic, Placed, FillRound;
    var s' := FillRound(s, w, false);
    if s' != s {
      var seg := (s'.out[|s.out|..] + [BlankSegment(0)])[0];
      PlacedContinues(seg, s.next, s', Unqueued(s, s'));
      EmitKeeps(s, Unqueued(s, s'), seg);
    }
  }

  lemma RoundFrame(s: Sender, w: nat, syn: bool)
    requires s.flight < w
    ensures var s' := FillRound(s, w, syn); s'.una == s.una && s'.rto == s.rto
  {
  }

  /** The call opens the stream and has more to send than its first segment takes, so the loop turns again. */
  predicate SynSticks(s: Sender, w: nat) {
    s.next == 0 && |Buffer(s.stream)| > 1000 && w > 1001
  }

  /** Nothing more may be sent: the window is full, FIN is out, or the stream has nothing to give. */
  ghost predicate Filled(s: Sender, w: nat) {
    s.flight >= w || s.finSent || (Buffer(s.stream) == [] && !s.stream.ended)
  }

  /** A turn after which the loop goes round again has made progress; it opened the stream only if SYN sticks. */
  lemma RoundAgain(s: Sender, w: nat)
    requires CountInv(s) && !s.finSent && s.flight < w
    ensures var s' := FillRound(s, w, false);
            if Buffer(s'.stream) != [] && s'.flight < w then
              s.flight < s'.flight && (s.next == 0 ==> SynSticks(s, w))
            else Filled(s', w)
  {
    hide Wrap;
  }

  lemma {:induction false} FillLoopKeeps(s: Sender, w: nat)
    requires Inv(s) && s.flight < w < TWO_16 && !SynSticks(s, w)
    ensures var s' := FillLoop(s, w, false);
            Inv(s') && Continues(s, s') && s'.flight <= w && Filled(s', w) && (s'.next > 0 || s.finSent)
    decreases w - s.flight
  {
    if !s.finSent {
      FillRoundKeeps(s, w);
      RoundAgain(s, w);
      hide Tiles, Authentic, FillRound;
      var s1 := FillRound(s, w, false);
      if Buffer(s1.stream) != [] && s1.flight < w {
        FillLoopKeeps(s1, w);
      }
    }
  }

  lemma {:induction false} FillLoopOut(s: Sender, w: nat, syn: bool)
    requires s.flight < w
    ensures s.out <= FillLoop(s, w, syn).out && FillLoop(s, w, syn).isn == s.isn
    decreases w - s.flight
  {
    if !s.finSent {
      var s1 := FillRound(s, w, syn);
      if Buffer(s1.stream) != [] && s1.flight < w { FillLoopOut(s1, w, syn || s.next == 0); }
    }
  }

  /** The second turn of an opening call still has SYN set, at a number that is not 0. */
  lemma StickySegment(s: Sender, w: nat)
    requires CountInv(s) && s.flight <= s.next && s.flight < w && SynSticks(s, w)
    ensures var s1 := FillRound(s, w, false);
            && s1.flight < w && Buffer(s1.stream) != [] && !s1.finSent
            && var s2 := FillRound(s1, w, true);
               && |s1.out| < |s2.out| && s2.out[|s1.out|].header.syn
               && s2.out[|s1.out|].header.seqno == Wrap(1001, s.isn)
  {
    var s1 := FillRound(s, w, false);
    assert s1.next == 1001 && s1.flight < w && Buffer(s1.stream) != [];
  }

  lemma StickyOut(s: Sender, w: nat)
    requires CountInv(s) && s.flight <= s.next && s.flight < w && SynSticks(s, w)
    ensures var s' := FillLoop(s, w, false);
            exists seg <- s'.out :: seg.header.syn && seg.header.seqno == Wrap(1001, s'.isn)
  {
    hide Wrap;
    StickySegment(s, w);
    var s1 := FillRound(s, w, false);
    var s2 := FillRound(s1, w, true);
    var s' := FillLoop(s, w, false);
    hide FillRound;
    assert s' == FillLoop(s1, w, true);
    if Buffer(s2.stream) != [] && s2.flight < w { FillLoopOut(s2, w, true); }
    FillLoopOut(s, w, false);
    assert s'.out[|s1.out|] == s2.out[|s1.out|];
  }

  lemma MisplacedSyn(seg: TcpSegment, s: Sender)
    requires seg.header.syn && seg.header.seqno == Wrap(1001, s.isn)
    ensures !Authentic(seg, s)
  {
  }

  /** On its own, the sender keeps SYN to number 0 exactly when the opening call does not loop. */
  lemma FillLoopExact(s: Sender, w: nat)
    requires Inv(s) && s.flight < w < TWO_16
    ensures Inv(FillLoop(s, w, false)) <==> !SynSticks(s, w)
  {
    if SynSticks(s, w) {
      StickyOut(s, w);
      hide FillLoop, FlightInv, Authentic;
      var s' := FillLoop(s, w, false);
      var seg :| seg in s'.out && seg.header.syn && seg.header.seqno == Wrap(1001, s'.isn);
      MisplacedSyn(seg, s');
    } else {
      FillLoopKeeps(s, w);
    }
  }

  /** `fill_window` sends all the window and the stream allow, and never past the window. */
  lemma FillWindowKeeps(s: Sender)
    requires Inv(s) && !SynSticks(s, OpenWindow(s))
    ensures var s' := FillWindow(s);
            && Inv(s') && Continues(s, s') && Filled(s', OpenWindow(s')) && s'.window == s.window
            && s'.flight <= (if s.flight <= OpenWindow(s) then OpenWindow(s) else s.flight)
            && s'.next > 0
            && s'.stream.all == s.stream.all && s'.stream.ended == s.stream.ended
            && s'.una == s.una && s'.rto == s.rto && s'.retx == s.retx && s'.initialRto == s.initialRto
  {
    if OpenWindow(s) > s.flight {
      FillLoopKeeps(s, OpenWindow(s));
      FillLoopFrame(s, OpenWindow(s), false);
    }
  }

  lemma {:induction false} FillLoopFrame(s: Sender, w: nat, syn: bool)
    requires s.flight < w
    ensures var s' := FillLoop(s, w, syn);
            && s'.stream.all == s.stream.all && s'.stream.ended == s.stream.ended && s'.stream.error == s.stream.error
            && s'.una == s.una && s'.rto == s.rto && s'.retx == s.retx && s'.initialRto == s.initialRto
            && s'.window == s.window && s'.timer == (if s.timer.running || s'.outstanding == s.outstanding then s.timer
                                                      else Timer(s.rto, 0, true))
            && s.outstanding <= s'.outstanding && (s'.finSent ==> s.finSent || Eof(s'.stream)) && s.next <= s'.next
    decreases w - s.flight
  {
    if !s.finSent {
      var s1 := FillRound(s, w, syn);
      if Buffer(s1.stream) != [] && s1.flight < w { FillLoopFrame(s1, w, syn || s.next == 0); }
    }
  }

  /** The loop stays within the window whether or not SYN sticks. */
  lemma {:induction false} FillLoopBound(s: Sender, w: nat, syn: bool)
    requires s.flight < w
    ensures FillLoop(s, w, syn).flight <= w && FillLoop(s, w, syn).window == s.window
    decreases w - s.flight
  {
    if !s.finSent {
      var s1 := FillRound(s, w, syn);
      if Buffer(s1.stream) != [] && s1.flight < w { FillLoopBound(s1, w, syn || s.next == 0); }
    }
  }

  lemma FillWindowBound(s: Sender)
    ensures var s' := FillWindow(s); s'.window == s.window && (s'.flight <= OpenWindow(s') || s'.flight == s.flight)
  {
    if OpenWindow(s) > s.flight { FillLoopBound(s, OpenWindow(s), false); }
  }

  // ---------------------------------------------------------------- ack_received

  lemma TilesFront(q: seq<TcpSegment>, from: nat, to: nat, s: Sender)
    requires q != [] && Tiles(q, from, to, s)
    ensures q[0].header.seqno == Wrap(from, s.isn) && 0 < q[0].Length() <= to - from
    ensures Tiles(q[1..], from + q[0].Length(), to, s)
  {
    TilesTotal(q, from, to, s);
  }

  /** The pop loop removes exactly the segments acknowledged as a whole; `unwrap` finds their true numbers. */
  lemma {:induction false} PopAckedKeeps(s: Sender, ack: nat)
    requires s.flight <= s.next < TWO_64 && s.flight < TWO_16
    requires Tiles(s.outstanding, s.next - s.flight, s.next, s) && s.next - s.flight <= ack <= s.next
    ensures var s' := PopAcked(s, ack);
            && s' == s.(flight := s'.flight, outstanding := s'.outstanding) && s'.flight <= s.flight
            && Tiles(s'.outstanding, s.next - s'.flight, s.next, s')
            && (if s'.outstanding == [] then ack == s.next
                else s.next - s'.flight <= ack < s.next - s'.flight + s'.outstanding[0].Length())
    decreases |s.outstanding|
  {
    hide Tiles, Unwrap, Wrap;
    TilesTotal(s.outstanding, s.next - s.flight, s.next, s);
    if s.outstanding != [] {
      var seg := s.outstanding[0];
      TilesFront(s.outstanding, s.next - s.flight, s.next, s);
      UnwrapWrap(s.next - s.flight, s.isn, s.next);
      if ack >= s.next - s.flight + seg.Length() {
        var s1 := s.(flight := Less(s.flight, seg.Length()), outstanding := s.outstanding[1..]);
        TilesContinues(s1.outstanding, s.next - s1.flight, s.next, s, s1);
        PopAckedKeeps(s1, ack);
      }
    }
  }

  lemma AckReceivedKeeps(s: Sender, ackno: u32, window: u16)
    requires Inv(s) && s.next < TWO_64
    ensures var s' := AckReceived(s, ackno, window);
            && Inv(s') && Continues(s, s') && s'.window == window && s'.flight <= s.flight && s.una <= s'.una
            && s'.next == s.next && s'.stream == s.stream && s'.out == s.out
  {
    hide Tiles, Authentic, Unwrap, PopAcked;
    var ack := Unwrap(ackno, s.isn, s.next);
    var s' := AckReceived(s, ackno, window);
    if s.una < ack <= s.next {
      var s1 := s.(window := window, una := ack);
      TilesContinues(s.outstanding, s.next - s.flight, s.next, s, s1);
      PopAckedKeeps(s1, ack);
      var s2 := PopAcked(s1, ack);
      TilesContinues(s2.outstanding, s.next - s2.flight, s.next, s2, s');
    } else {
      TilesContinues(s.outstanding, s.next - s.flight, s.next, s, s');
    }
    forall seg <- s'.out ensures Authentic(seg, s') { AuthenticContinues(seg, s, s'); }
  }

  // ---------------------------------------------------------------- the other calls

  /** A change that touches neither the numbers nor the queue keeps the invariant; new output must be placed. */
  lemma FrameKeeps(s: Sender, s': Sender)
    requires Inv(s) && Continues(s, s') && CountInv(s') && TimerInv(s')
    requires s'.next == s.next && s'.flight == s.flight && s'.una == s.una && s'.outstanding == s.outstanding
    requires forall seg <- s'.out :: seg in s.out || (Authentic(seg, s') && !seg.header.ack)
    ensures Inv(s')
  {
    hide Tiles, Placed;
    TilesContinues(s.outstanding, s.next - s.flight, s.next, s, s');
    forall seg <- s'.out ensures Authentic(seg, s') {
      if seg in s.out { AuthenticContinues(seg, s, s'); }
    }
  }

  lemma TickKeeps(s: Sender, ms: nat)
    requires Inv(s)
    ensures Inv(Tick(s, ms)) && Continues(s, Tick(s, ms))
  {
    var s' := Tick(s, ms);
    if s.outstanding != [] {
      PlacedContinues(s.outstanding[0], s.next - s.flight, s, s');
    }
    FrameKeeps(s, s');
  }

  lemma SendEmptyKeeps(s: Sender)
    requires Inv(s)
    ensures Inv(SendEmpty(s)) && Continues(s, SendEmpty(s))
  {
    var s' := SendEmpty(s);
    assert Placed(BlankSegment(Wrap(s.next, s.isn)), s.next, s');
    FrameKeeps(s, s');
  }

  lemma NewSenderInv(capacity: nat, initialRto: u16, isn: u32)
    ensures Inv(NewSender(capacity, initialRto, isn))
  {
  }
}
