/** Every action at either end keeps the two endpoints in step. */
module NetworkSafety {
  import opened Types
  import opened WrappingIntegers
  import opened StreamModel
  import opened SenderModel
  import opened SenderInvariants
  import opened ConnectionInvariants
  import opened ConnectionRuns
  import opened Network
  import RM = ReceiverModel
  import CM = ConnectionModel
  import T = ConnectionTheorems
  import opened TcpStateModel

  /** The inbound side as the peer can see it is unchanged. */
  ghost predicate SameInbound(r: RM.Receiver, r': RM.Receiver) {
    && r'.isn == r.isn && r'.reassembly == r.reassembly.(out := r'.reassembly.out)
    && r'.reassembly.out.all == r.reassembly.out.all && r'.reassembly.out.ended == r.reassembly.out.ended
  }

  // ---------------------------------------------------------------- calls from above

  lemma CallQuiet(c: CM.Connection, e: Event)
    requires ConnInv(c) && !e.Receive? && !e.Dequeue?
    ensures var c' := Step(c, e).value;
            c'.sender.una == c.sender.una && SameInbound(c.receiver, c'.receiver) && NewAcksNow(c, c')
  {
    hide FillWindow, CM.SegmentReceived, Tiles, Authentic;
    match e
    case Connect =>
      FillWindowFrame(c.sender);
      FillAndSendAcks(c);
    case WriteData(data) =>
      var s := c.sender.(stream := Write(c.sender.stream, data));
      FillWindowFrame(s);
      StreamKeeps(c.sender, s.stream);
      FillAndSendAcks(c.(sender := s));
    case EndInput =>
      var s := c.sender.(stream := StreamModel.EndInput(c.sender.stream));
      FillWindowFrame(s);
      StreamKeeps(c.sender, s.stream);
      FillUnstamped(s);
      SendAllAcks(c.(sender := FillWindow(s)));
    case Tick(ms) => TickAcks(c, ms);
    case ReadInbound(len) =>
  }

  // ---------------------------------------------------------------- one direction at a time

  /** The data direction out of the end that acted: its sender moved on, its acknowledged number within reach. */
  lemma HalfOut(x: End, x': End, y: End)
    requires Half(x, y) && ConnInv(x'.conn) && Continues(x.conn.sender, x'.conn.sender)
    requires x'.wire == x.wire || (x.conn.out != [] && x'.wire == x.wire + {x.conn.out[0]})
    requires x'.conn.sender.una <= AckLimit(y.conn.receiver)
    ensures Half(x', y)
  {
    var s, s' := x.conn.sender, x'.conn.sender;
    assert CountInv(s) && CountInv(s');
    hide SenderReady, Follows, Authentic, Truthful, Continues, AckLimit;
    FollowsContinues(s, s', y.conn.receiver);
    forall seg <- x'.wire ensures Authentic(seg, s') {
      assert seg in x.wire || seg in x.conn.out;
      AuthenticContinues(seg, s, s');
    }
    assert s'.isn == s.isn by { SameIsn(s, s'); }
    forall seg <- y.wire ensures Truthful(seg, s', y.conn.receiver) {
      TruthfulContinues(seg, s, s', y.conn.receiver, y.conn.receiver);
    }
    forall seg <- y.conn.out ensures Truthful(seg, s', y.conn.receiver) {
      TruthfulContinues(seg, s, s', y.conn.receiver, y.conn.receiver);
    }
  }

  lemma SameIsn(s: Sender, s': Sender)
    requires Continues(s, s')
    ensures s'.isn == s.isn
  {
  }

  /** The data direction into the end that acted: what it stores is still right, what it acknowledges is true. */
  lemma HalfIn(x: End, y: End, y': End)
    requires Half(x, y) && Follows(x.conn.sender, y'.conn.receiver)
    requires AckLimit(y.conn.receiver) <= AckLimit(y'.conn.receiver)
    requires y'.wire == y.wire || (y.conn.out != [] && y'.wire == y.wire + {y.conn.out[0]})
    requires NewAcksNow(y.conn, y'.conn)
    ensures Half(x, y')
  {
    var s, r, r' := x.conn.sender, y.conn.receiver, y'.conn.receiver;
    assert r'.isn.Some? ==> r'.isn.value == s.isn;
    hide ConnInv, Follows, Authentic, Truthful;
    forall seg <- y'.wire ensures Truthful(seg, s, r') {
      assert seg in y.wire || seg in y.conn.out;
      TruthfulContinues(seg, s, s, r, r');
    }
    forall seg <- y'.conn.out ensures Truthful(seg, s, r') {
      if seg in y.conn.out {
        TruthfulContinues(seg, s, s, r, r');
      } else {
        NowIsTruthful(seg, s, r');
      }
    }
  }

  lemma NowIsTruthful(seg: TcpSegment, s: Sender, r: RM.Receiver)
    requires AcksNow(seg, r) && (r.isn.Some? ==> r.isn.value == s.isn)
    ensures Truthful(seg, s, r)
  {
  }

  lemma SameInboundFollows(s: Sender, r: RM.Receiver, r': RM.Receiver)
    requires Follows(s, r) && SameInbound(r, r')
    ensures Follows(s, r') && AckLimit(r') == AckLimit(r)
  {
  }

  // ---------------------------------------------------------------- the three actions

  lemma CallKeeps(s: System, e: Event)
    requires NetInv(s) && Short(s) && Enabled(s, Call(e))
    ensures NetInv(Act(s, Call(e)).value)
  {
    var c := s.near.conn;
    var c' := Step(c, e).value;
    CallQuiet(c, e);
    T.StepInv(c, e);
    hide Step, ConnInv;
    SameInboundFollows(s.far.conn.sender, c.receiver, c'.receiver);
    HalfOut(s.near, s.near.(conn := c'), s.far);
    HalfIn(s.far, s.near, s.near.(conn := c'));
  }

  lemma TransmitKeeps(s: System)
    requires NetInv(s) && Enabled(s, Transmit)
    ensures NetInv(Act(s, Transmit).value)
  {
    var near' := Act(s, Transmit).value.near;
    assert Continues(s.near.conn.sender, near'.conn.sender);
    HalfOut(s.near, near', s.far);
    HalfIn(s.far, s.near, near');
  }

  /** A delivered segment reaches the receiver as a whole, or leaves the inbound side as it was. */
  lemma DeliverInbound(c: CM.Connection, seg: TcpSegment)
    requires CM.SegmentReceived(c, seg).Returned?
    ensures var r' := CM.SegmentReceived(c, seg).value.receiver;
            || SameInbound(c.receiver, r')
            || RM.SegmentReceived(c.receiver, seg) == Returned(r')
  {
    hide RM.SegmentReceived, CM.Reply, CM.TakeAck;
    var c1 := c.(sinceLast := 0, receiver := RM.SegmentReceived(c.receiver, seg).value);
    TakeAckFrame(c1, seg);
    ReplyFrame(CM.TakeAck(c1, seg), seg);
  }

  lemma RespondAcks(c: CM.Connection, seg: TcpSegment)
    requires ConnInv(c) && Fits(c.sender)
    ensures NewAcksNow(c, CM.Reply(CM.TakeAck(c, seg), seg))
  {
    if seg.header.ack { AckInv(c.sender, seg.header.ackno, seg.header.win); }
    var c1 := CM.TakeAck(c, seg);
    hide AckReceived, Tiles, Authentic;
    ReplyAcks(c1, seg);
  }

  lemma DeliverAcks(c: CM.Connection, seg: TcpSegment)
    requires ConnInv(c) && Fits(c.sender) && CM.SegmentReceived(c, seg).Returned?
    ensures NewAcksNow(c, CM.SegmentReceived(c, seg).value)
  {
    hide RM.SegmentReceived, CM.Reply, CM.TakeAck, Tiles, Authentic;
    var c0 := c.(sinceLast := 0);
    if seg.header.rst {
    } else if CM.IsKeepAlive(c0, seg) {
      SendAllAcks(c0.(sender := SendEmpty(c0.sender)));
    } else if !(CM.State(c0) == LISTEN && !seg.header.syn) {
      ReceiverValid(c0.receiver, seg);
      RespondAcks(c0.(receiver := RM.SegmentReceived(c0.receiver, seg).value), seg);
    }
  }

  lemma RespondUna(c: CM.Connection, seg: TcpSegment)
    ensures var s' := CM.Reply(CM.TakeAck(c, seg), seg).sender;
            s'.una == c.sender.una ||
            (seg.header.ack && s'.una == Unwrap(seg.header.ackno, c.sender.isn, c.sender.next))
  {
    hide Unwrap, FillWindow;
    if seg.header.ack {
      var ack := Unwrap(seg.header.ackno, c.sender.isn, c.sender.next);
      PopAckedFrame(c.sender.(window := seg.header.win, una := ack), ack);
    }
    FillWindowFrame(CM.TakeAck(c, seg).sender);
  }

  /** An acknowledged number comes from the segment's own acknowledgment. */
  lemma DeliverUna(c: CM.Connection, seg: TcpSegment)
    ensures var s' := CM.SegmentReceived(c, seg).value.sender;
            s'.una == c.sender.una ||
            (seg.header.ack && s'.una == Unwrap(seg.header.ackno, c.sender.isn, c.sender.next))
  {
    hide RM.SegmentReceived, Unwrap, CM.TakeAck, CM.Reply;
    RespondUna(c.(sinceLast := 0, receiver := RM.SegmentReceived(c.receiver, seg).value), seg);
  }

  lemma TruthfulUnwrap(seg: TcpSegment, s: Sender, r: RM.Receiver)
    requires Truthful(seg, s, r) && seg.header.ack && Follows(s, r) && CountInv(s) && s.next < TWO_31
    ensures Unwrap(seg.header.ackno, s.isn, s.next) <= AckLimit(r)
  {
    LimitWithin(s, r);
    var v: nat :| v <= AckLimit(r) && seg.header.ackno == Wrap(v, s.isn);
    UnwrapWrap(v, s.isn, s.next);
  }

  lemma DeliverKeeps(s: System, seg: TcpSegment)
    requires NetInv(s) && Short(s) && Enabled(s, Deliver(seg)) && Act(s, Deliver(seg)).Returned?
    ensures NetInv(Act(s, Deliver(seg)).value)
  {
    var c, near' := s.near.conn, Act(s, Deliver(seg)).value.near;
    SegmentReceivedInv(c, seg);
    DeliverInbound(c, seg);
    DeliverAcks(c, seg);
    DeliverUna(c, seg);
    hide CM.SegmentReceived, RM.SegmentReceived, Tiles, Authentic, Truthful, Follows, AckLimit, Unwrap;
    assert near'.conn == CM.SegmentReceived(c, seg).value;
    if seg.header.ack { TruthfulUnwrap(seg, c.sender, s.far.conn.receiver); }
    if RM.SegmentReceived(c.receiver, seg) == Returned(near'.conn.receiver) {
      ReceiveFollows(s.far.conn.sender, c.receiver, seg);
    } else {
      SameInboundFollows(s.far.conn.sender, c.receiver, near'.conn.receiver);
    }
    HalfOut(s.near, near', s.far);
    HalfIn(s.far, s.near, near');
  }

  /** Whatever happens at either end, the two endpoints stay in step. */
  lemma ActKeeps(s: System, a: Action)
    requires NetInv(s) && Short(s) && Enabled(s, a) && Act(s, a).Returned?
    ensures NetInv(Act(s, a).value)
  {
    match a
    case Call(e) => CallKeeps(s, e);
    case Transmit => TransmitKeeps(s);
    case Deliver(seg) => DeliverKeeps(s, seg);
  }
}
