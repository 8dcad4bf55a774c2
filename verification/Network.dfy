/**
 Two endpoints joined by a network that may lose, duplicate, delay and reorder every segment they send.
 */
module Network {
  import opened Types
  import opened WrappingIntegers
  import opened StreamModel
  import opened SenderModel
  import opened SenderInvariants
  import opened ConnectionInvariants
  import opened ConnectionRuns
  import RA = ReassemblyModel
  import RP = ReassemblyProperties
  import RM = ReceiverModel
  import CM = ConnectionModel

  /** An endpoint and every segment it ever put on the wire; the network may deliver any of them at any time. */
  datatype End = End(conn: CM.Connection, wire: set<TcpSegment>)

  datatype System = System(near: End, far: End)

  function Swap(s: System): System { System(s.far, s.near) }

  /** What happens at the near end. */
  datatype Action =
    | Call(e: Event)             // the application, the clock or the reader
    | Transmit                   // the next queued segment goes on the wire
    | Deliver(seg: TcpSegment)   // the network hands over something the far end once sent

  predicate Enabled(s: System, a: Action) {
    match a
    case Call(e) => !e.Receive? && !e.Dequeue?
    case Transmit => s.near.conn.out != []
    case Deliver(seg) => seg in s.far.wire
  }

  function Act(s: System, a: Action): Outcome<System>
    requires Enabled(s, a)
  {
    match a
    case Call(e) => Returned(s.(near := s.near.(conn := Step(s.near.conn, e).value)))
    case Transmit =>
      Returned(s.(near := End(CM.Dequeue(s.near.conn), s.near.wire + {s.near.conn.out[0]})))
    case Deliver(seg) =>
      match CM.SegmentReceived(s.near.conn, seg)
      case Returned(c) => Returned(s.(near := s.near.(conn := c)))
      case Thrown(c) => Thrown(s.(near := s.near.(conn := c)))
  }

  // ---------------------------------------------------------------- what the endpoints keep in step

  /** The bytes the sender has handed to the network so far. */
  ghost function Source(s: Sender): seq<byte> { s.stream.all[..s.stream.read] }

  /** The receiver follows that very sender: same initial number, right bytes, an end only after FIN. */
  ghost predicate Follows(s: Sender, r: RM.Receiver) {
    && (r.isn.Some? ==> r.isn.value == s.isn && s.next > 0)
    && (r.isn.None? ==> r.reassembly.cur == 0)
    && RA.Valid(r.reassembly) && RP.Matches(r.reassembly, Source(s))
    && (r.reassembly.out.ended ==> r.reassembly.eof) && (r.reassembly.eof ==> s.finSent)
  }

  /** The highest number the receiver has acknowledged. */
  function AckLimit(r: RM.Receiver): nat { if r.isn.Some? then RM.AckNumber(r) else 0 }

  /** An acknowledgment, if the segment carries one, names a number the receiver has reached. */
  ghost predicate Truthful(seg: TcpSegment, s: Sender, r: RM.Receiver) {
    seg.header.ack ==> exists v: nat :: v <= AckLimit(r) && seg.header.ackno == Wrap(v, s.isn)
  }

  /** Data from `x` to `y`, and acknowledgments back. */
  ghost predicate Half(x: End, y: End) {
    && ConnInv(x.conn) && (forall seg <- x.wire :: Authentic(seg, x.conn.sender))
    && Follows(x.conn.sender, y.conn.receiver)
    && x.conn.sender.una <= AckLimit(y.conn.receiver)
    && (forall seg <- y.wire :: Truthful(seg, x.conn.sender, y.conn.receiver))
    && (forall seg <- y.conn.out :: Truthful(seg, x.conn.sender, y.conn.receiver))
  }

  ghost predicate NetInv(s: System) { Half(s.near, s.far) && Half(s.far, s.near) }

  /** Few enough sequence numbers that an old duplicate cannot be mistaken for new data. */
  predicate Short(s: System) { s.near.conn.sender.next < TWO_31 && s.far.conn.sender.next < TWO_31 }

  // ---------------------------------------------------------------- the sender moves on

  lemma FollowsContinues(s: Sender, s': Sender, r: RM.Receiver)
    requires Follows(s, r) && Continues(s, s') && CountInv(s) && CountInv(s')
    ensures Follows(s', r)
  {
    assert Source(s) <= Source(s');
  }

  lemma TruthfulContinues(seg: TcpSegment, s: Sender, s': Sender, r: RM.Receiver, r': RM.Receiver)
    requires Truthful(seg, s, r) && s'.isn == s.isn && AckLimit(r) <= AckLimit(r')
    ensures Truthful(seg, s', r')
  {
  }

  /** The acknowledgment limit lies within what the sender has sent. */
  lemma LimitWithin(s: Sender, r: RM.Receiver)
    requires Follows(s, r) && CountInv(s)
    ensures AckLimit(r) <= s.next && r.reassembly.cur <= s.next
  {
  }

  // ---------------------------------------------------------------- the receiver takes an authentic segment

  /** Where the receiver puts the payload: exactly where the sender took it from. */
  lemma IndexIsRight(s: Sender, cur: nat, seg: TcpSegment, a: nat)
    requires Placed(seg, a, s) && CountInv(s) && s.next < TWO_31 && cur <= s.next
    ensures var start := if seg.header.syn then Advance(seg.header.seqno, 1) else seg.header.seqno;
            && (seg.header.syn ==> seg.header.seqno == s.isn && s.next > 0)
            && (start == s.isn ==> seg.Length() == 0)
            && (start != s.isn ==> RM.StreamIndex(start, s.isn, cur) == DataIndex(a))
  {
    if seg.header.syn {
      assert Advance(seg.header.seqno, 1) == Wrap(1, s.isn);
      UnwrapWrap(1, s.isn, cur);
    } else {
      UnwrapWrap(a, s.isn, cur);
    }
  }

  /**
   However long the stream, a segment less than half the 32-bit space away from what was received goes to its true
   index, except that a number the initial one repeats at, every 2^32, is dropped.
   */
  lemma LongStreamIndex(s: Sender, r: RM.Receiver, seg: TcpSegment, a: nat)
    requires Placed(seg, a, s) && 0 < a < TWO_64 && r.isn == Some(s.isn)
    requires r.reassembly.cur < TWO_64 && Distance(a, r.reassembly.cur) < TWO_31
    ensures RM.SegmentReceived(r, seg) ==
            if a % TWO_32 == 0 then Returned(r)
            else
              match RA.Push(r.reassembly, seg.payload, a - 1, seg.header.fin)
              case Returned(x) => Returned(RM.Receiver(x, r.isn))
              case Thrown(x) => Thrown(RM.Receiver(x, r.isn))
  {
    hide RA.Push;
    UnwrapWrap(a, s.isn, r.reassembly.cur);
    CongruentOffset(a, s.isn, s.isn);
  }

  lemma SegmentIsExcerpt(s: Sender, seg: TcpSegment, a: nat)
    requires Placed(seg, a, s) && CountInv(s)
    ensures RP.Excerpt(seg.payload, DataIndex(a), Source(s))
    ensures seg.header.fin ==> s.finSent && DataIndex(a) + |seg.payload| == |Source(s)|
  {
    if seg.payload != [] {
      assert Source(s)[DataIndex(a)..DataIndex(a) + |seg.payload|] == seg.payload;
    }
  }

  lemma PushFollows(s: Sender, r: RA.Reassembly, data: seq<byte>, index: nat, eof: bool)
    requires RA.Valid(r) && RP.Matches(r, Source(s)) && (r.out.ended ==> r.eof) && (r.eof ==> s.finSent)
    requires RP.Excerpt(data, index, Source(s)) && (eof ==> s.finSent) && RA.Push(r, data, index, eof).Returned?
    ensures var r' := RA.Push(r, data, index, eof).value;
            && RA.Valid(r') && RP.Matches(r', Source(s)) && (r'.out.ended ==> r'.eof) && (r'.eof ==> s.finSent)
            && r.cur <= r'.cur && (r.out.ended ==> r'.out.ended)
  {
    RA.PushCovers(r, data, index, eof);
    RP.PushMatches(r, data, index, eof, Source(s));
    if Room(r.out) > 0 { RP.PushEof(r, data, index, eof); }
  }

  lemma ReceiveFollows(s: Sender, r: RM.Receiver, seg: TcpSegment)
    requires Follows(s, r) && CountInv(s) && Authentic(seg, s) && s.next < TWO_31
    requires RM.SegmentReceived(r, seg).Returned?
    ensures var r' := RM.SegmentReceived(r, seg).value;
            Follows(s, r') && AckLimit(r) <= AckLimit(r')
  {
    var a: nat :| Placed(seg, a, s);
    LimitWithin(s, r);
    IndexIsRight(s, r.reassembly.cur, seg, a);
    SegmentIsExcerpt(s, seg, a);
    var start := if seg.header.syn then Advance(seg.header.seqno, 1) else seg.header.seqno;
    var isn := if seg.header.syn then Some(seg.header.seqno) else r.isn;
    if isn.Some? && isn.value != start {
      PushFollows(s, r.reassembly, seg.payload, DataIndex(a), seg.header.fin);
      hide RA.Push;
    }
  }

  // ---------------------------------------------------------------- acknowledgments on outgoing segments

  /** The acknowledgment, if any, is the receiver's current one, and so is the window, cut to 16 bits. */
  ghost predicate AcksNow(seg: TcpSegment, r: RM.Receiver) {
    seg.header.ack ==>
      && r.isn.Some? && seg.header.ackno == Wrap(RM.AckNumber(r), r.isn.value)
      && seg.header.win == Min(RM.WindowSize(r), TWO_16 - 1)
  }

  /** Segments queued by a call carry the acknowledgment as of the end of the call. */
  ghost predicate NewAcksNow(c: CM.Connection, c': CM.Connection) {
    forall seg <- c'.out :: seg in c.out || AcksNow(seg, c'.receiver)
  }

  lemma SendAllAcks(c: CM.Connection)
    requires forall seg <- c.sender.out :: !seg.header.ack
    ensures NewAcksNow(c, CM.SendAll(c))
  {
  }

  lemma FillUnstamped(s: Sender)
    requires Inv(s) && (s.next == 0 ==> OpenWindow(s) == 1 || s.stream.all == [])
    ensures forall seg <- FillWindow(s).out :: !seg.header.ack
  {
    FillReady(s);
    hide FillWindow;
  }

  lemma FillAndSendAcks(c: CM.Connection)
    requires Inv(c.sender) && (c.sender.next == 0 ==> OpenWindow(c.sender) == 1 || c.sender.stream.all == [])
    ensures NewAcksNow(c, CM.FillAndSend(c))
  {
    FillUnstamped(c.sender);
    hide FillWindow;
    SendAllAcks(c.(sender := FillWindow(c.sender)));
  }

  lemma ReplyAcks(c: CM.Connection, seg: TcpSegment)
    requires Inv(c.sender) && (c.sender.next == 0 ==> OpenWindow(c.sender) == 1 || c.sender.stream.all == [])
    ensures NewAcksNow(c, CM.Reply(c, seg))
  {
    FillUnstamped(c.sender);
    hide FillWindow;
    var c1 := c.(sender := FillWindow(c.sender));
    SendAllAcks(c1);
    SendAllAcks(c1.(sender := SendEmpty(c1.sender)));
  }

  lemma TickAcks(c: CM.Connection, ms: nat)
    requires Inv(c.sender)
    ensures NewAcksNow(c, CM.Tick(c, ms))
  {
    var c1 := c.(sinceLast := c.sinceLast + ms, sender := SenderModel.Tick(c.sender, ms));
    TickKeeps(c.sender, ms);
    SendAllAcks(c1);
  }
}
