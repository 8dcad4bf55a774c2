/** End-to-end safety over every run of two endpoints and the network between them. */
module NetworkTheorems {
  import opened Types
  import opened WrappingIntegers
  import opened StreamModel
  import opened SenderModel
  import opened SenderInvariants
  import opened ConnectionInvariants
  import opened ConnectionRuns
  import opened Network
  import opened NetworkSafety
  import RA = ReassemblyModel
  import RP = ReassemblyProperties
  import RM = ReceiverModel
  import CM = ConnectionModel
  import T = ConnectionTheorems

  datatype Move = AtNear(a: Action) | AtFar(a: Action)

  predicate Possible(s: System, m: Move) {
    match m
    case AtNear(a) => Enabled(s, a) && Act(s, a).Returned?
    case AtFar(a) => Enabled(Swap(s), a) && Act(Swap(s), a).Returned?
  }

  function Do(s: System, m: Move): System
    requires Possible(s, m)
  {
    match m
    case AtNear(a) => Act(s, a).value
    case AtFar(a) => Swap(Act(Swap(s), a).value)
  }

  /** The system after the moves, if each was possible and none threw. */
  function Exec(s: System, ms: seq<Move>): Option<System> {
    if ms == [] then Some(s)
    else
      match Exec(s, ms[..|ms| - 1])
      case None => None
      case Some(t) => if Possible(t, ms[|ms| - 1]) then Some(Do(t, ms[|ms| - 1])) else None
  }

  /** Two new connections, with nothing on the wire. */
  ghost predicate Initial(s: System) {
    && s.near.wire == {} && s.far.wire == {}
    && (exists rt, rc, sc, isn :: s.near.conn == CM.NewConnection(rt, rc, sc, isn))
    && (exists rt, rc, sc, isn :: s.far.conn == CM.NewConnection(rt, rc, sc, isn))
  }

  /** The event the acting endpoint sees. */
  function AsEvent(a: Action): Event {
    match a
    case Call(e) => e
    case Transmit => Dequeue
    case Deliver(seg) => Receive(seg)
  }

  lemma ActIsStep(s: System, a: Action)
    requires Enabled(s, a)
    ensures Act(s, a).value.near.conn == Step(s.near.conn, AsEvent(a)).value
    ensures Act(s, a).Returned? == Step(s.near.conn, AsEvent(a)).Returned?
    ensures Act(s, a).value.far == s.far
  {
  }

  lemma NewHalf(x: End, y: End, rt: u16, rc: nat, sc: nat, isn: u32)
    requires x == End(CM.NewConnection(rt, rc, sc, isn), {}) && y.wire == {} && y.conn.out == []
    requires exists capacity :: y.conn.receiver == RM.NewReceiver(capacity)
    ensures Half(x, y)
  {
    NewConnectionInv(rt, rc, sc, isn);
    hide ConnInv;
  }

  lemma InitialInv(s: System)
    requires Initial(s)
    ensures NetInv(s)
  {
    hide Half;
    var rt, rc, sc, isn :| s.near.conn == CM.NewConnection(rt, rc, sc, isn);
    var rt', rc', sc', isn' :| s.far.conn == CM.NewConnection(rt', rc', sc', isn');
    NewHalf(s.near, s.far, rt, rc, sc, isn);
    NewHalf(s.far, s.near, rt', rc', sc', isn');
  }

  /** Sequence numbers only grow, so a run that is short at the end was short throughout. */
  lemma ShortBefore(s: System, m: Move)
    requires Possible(s, m) && Short(Do(s, m))
    ensures Short(s)
  {
    match m
    case AtNear(a) =>
      ActIsStep(s, a);
      StepFrame(s.near.conn, AsEvent(a));
      hide Act, Step;
    case AtFar(a) =>
      ActIsStep(Swap(s), a);
      StepFrame(s.far.conn, AsEvent(a));
      hide Act, Step;
  }

  lemma DoKeeps(s: System, m: Move)
    requires NetInv(s) && Short(s) && Possible(s, m)
    ensures NetInv(Do(s, m))
  {
    hide Half, Act;
    match m
    case AtNear(a) => ActKeeps(s, a);
    case AtFar(a) => ActKeeps(Swap(s), a);
  }

  lemma {:induction false} ExecInv(s: System, ms: seq<Move>)
    requires Initial(s) && Exec(s, ms).Some? && Short(Exec(s, ms).value)
    ensures NetInv(Exec(s, ms).value)
  {
    if ms == [] {
      InitialInv(s);
    } else {
      var t := Exec(s, ms[..|ms| - 1]).value;
      ShortBefore(t, ms[|ms| - 1]);
      hide NetInv, Short, Do;
      ExecInv(s, ms[..|ms| - 1]);
      DoKeeps(t, ms[|ms| - 1]);
    }
  }

  // ---------------------------------------------------------------- main results

  ghost function Delivered(e: End): seq<byte> { e.conn.receiver.reassembly.out.all }
  ghost function Written(e: End): seq<byte> { e.conn.sender.stream.all }

  /**
   In every run, whatever is lost, repeated or reordered, each side has delivered a prefix of what the other
   side's `write` accepted, and no side believes more acknowledged than the other has reached.
   */
  lemma PrefixSafety(s: System, ms: seq<Move>)
    requires Initial(s) && Exec(s, ms).Some? && Short(Exec(s, ms).value)
    ensures var t := Exec(s, ms).value;
            && Delivered(t.far) <= Written(t.near) && Delivered(t.near) <= Written(t.far)
            && t.near.conn.sender.una <= AckLimit(t.far.conn.receiver)
            && t.far.conn.sender.una <= AckLimit(t.near.conn.receiver)
  {
    ExecInv(s, ms);
    hide Exec, ConnInv, Authentic, Truthful;
    var t := Exec(s, ms).value;
    FollowsPrefix(t.near.conn.sender, t.far.conn.receiver);
    FollowsPrefix(t.far.conn.sender, t.near.conn.receiver);
  }

  lemma FollowsPrefix(s: Sender, r: RM.Receiver)
    requires Follows(s, r)
    ensures r.reassembly.out.all <= s.stream.all
  {
  }

  // ---------------------------------------------------------------- closing

  /** Neither application writes after it closed its stream. */
  predicate Orderly(s: System, ms: seq<Move>) {
    ms == [] ||
    (Orderly(s, ms[..|ms| - 1]) &&
     match Exec(s, ms[..|ms| - 1])
     case None => true
     case Some(t) => !LateWrite(t, ms[|ms| - 1]))
  }

  predicate LateWrite(s: System, m: Move) {
    m.a.Call? && m.a.e.WriteData? &&
    (if m.AtNear? then s.near.conn.sender.stream.ended else s.far.conn.sender.stream.ended)
  }

  ghost predicate BothFinLast(s: System) {
    T.FinIsLast(s.near.conn.sender) && T.FinIsLast(s.far.conn.sender)
  }

  lemma DoFin(s: System, m: Move)
    requires NetInv(s) && Short(s) && Possible(s, m) && BothFinLast(s) && !LateWrite(s, m)
    ensures BothFinLast(Do(s, m))
  {
    match m
    case AtNear(a) =>
      ActIsStep(s, a);
      T.FinStep(s.near.conn, AsEvent(a));
      hide Act, Step;
    case AtFar(a) =>
      ActIsStep(Swap(s), a);
      T.FinStep(s.far.conn, AsEvent(a));
      hide Act, Step;
  }

  lemma {:induction false} ExecFin(s: System, ms: seq<Move>)
    requires Initial(s) && Exec(s, ms).Some? && Short(Exec(s, ms).value) && Orderly(s, ms)
    ensures BothFinLast(Exec(s, ms).value)
  {
    if ms != [] {
      var t := Exec(s, ms[..|ms| - 1]).value;
      ShortBefore(t, ms[|ms| - 1]);
      hide NetInv, Do, BothFinLast, LateWrite;
      ExecInv(s, ms[..|ms| - 1]);
      ExecFin(s, ms[..|ms| - 1]);
      DoFin(t, ms[|ms| - 1]);
    }
  }

  /** Once everything up to FIN is acknowledged, the peer has every byte and knows the stream is over. */
  lemma AckedIsDelivered(x: End, y: End)
    requires Half(x, y) && x.conn.sender.finSent && x.conn.sender.una == x.conn.sender.next
    ensures Delivered(y) == Source(x.conn.sender) && y.conn.receiver.reassembly.out.ended
  {
    hide Authentic, Truthful, Tiles;
  }

  /** An endpoint that closed without error has sent FIN and had it acknowledged. */
  lemma InactiveIsAcked(c: CM.Connection)
    requires ConnInv(c) && !CM.Active(c) && !CM.HasError(c)
    ensures c.sender.finSent && c.sender.una == c.sender.next
  {
    var s := c.sender;
    TilesTotal(s.outstanding, s.next - s.flight, s.next, s);
    hide Tiles, Authentic;
  }

  /** In every orderly run, a clean close on one side means the other side received every byte and the end. */
  lemma CloseMeansDelivered(s: System, ms: seq<Move>)
    requires Initial(s) && Exec(s, ms).Some? && Short(Exec(s, ms).value) && Orderly(s, ms)
    requires var c := Exec(s, ms).value.near.conn; !CM.Active(c) && !CM.HasError(c)
    ensures var t := Exec(s, ms).value;
            && Delivered(t.far) == Written(t.near) && t.far.conn.receiver.reassembly.out.ended
            && Delivered(t.near) <= Written(t.far)
  {
    ExecInv(s, ms);
    ExecFin(s, ms);
    PrefixSafety(s, ms);
    hide Exec, ConnInv, Authentic, Truthful, Follows;
    var t := Exec(s, ms).value;
    InactiveIsAcked(t.near.conn);
    AckedIsDelivered(t.near, t.far);
    assert Source(t.near.conn.sender) == Written(t.near);
  }

  // ---------------------------------------------------------------- no byte acknowledged before it is delivered

  /** The segment is a bare FIN that the receiver would take for the end although bytes before it are missing. */
  predicate PrematureFin(r: RM.Receiver, seg: TcpSegment) {
    var start := if seg.header.syn then Advance(seg.header.seqno, 1) else seg.header.seqno;
    var isn := if seg.header.syn then Some(seg.header.seqno) else r.isn;
    isn.Some? && isn.value != start &&
    RP.PrematureEnd(r.reassembly, seg.payload, RM.StreamIndex(start, isn.value, r.reassembly.cur), seg.header.fin)
  }

  predicate Premature(s: System, m: Move) {
    m.a.Deliver? && PrematureFin(if m.AtNear? then s.near.conn.receiver else s.far.conn.receiver, m.a.seg)
  }

  /** No move hands a bare FIN to a receiver that is missing the byte before it. */
  predicate InOrderFins(s: System, ms: seq<Move>) {
    ms == [] ||
    (InOrderFins(s, ms[..|ms| - 1]) &&
     match Exec(s, ms[..|ms| - 1])
     case None => true
     case Some(t) => !Premature(t, ms[|ms| - 1]))
  }

  ghost predicate EndsMatch(x: End, y: End) {
    RP.EndIsRight(y.conn.receiver.reassembly, Source(x.conn.sender))
  }

  ghost predicate BothEndsMatch(s: System) { EndsMatch(s.near, s.far) && EndsMatch(s.far, s.near) }

  /** Taking an authentic segment keeps the announced end right exactly when it is not a premature FIN. */
  lemma ReceiveEndExact(s: Sender, r: RM.Receiver, seg: TcpSegment)
    requires Follows(s, r) && CountInv(s) && Authentic(seg, s) && s.next < TWO_31
    requires RM.SegmentReceived(r, seg).Returned? && RP.EndIsRight(r.reassembly, Source(s))
    ensures RP.EndIsRight(RM.SegmentReceived(r, seg).value.reassembly, Source(s)) <==> !PrematureFin(r, seg)
  {
    var a: nat :| Placed(seg, a, s);
    LimitWithin(s, r);
    IndexIsRight(s, r.reassembly.cur, seg, a);
    SegmentIsExcerpt(s, seg, a);
    var start := if seg.header.syn then Advance(seg.header.seqno, 1) else seg.header.seqno;
    var isn := if seg.header.syn then Some(seg.header.seqno) else r.isn;
    hide RA.Push, RP.Excerpt;
    if isn.Some? && isn.value != start {
      RP.PushEndExact(r.reassembly, seg.payload, DataIndex(a), seg.header.fin, Source(s));
    }
  }

  lemma SenderMovesEnd(s: Sender, s': Sender, r: RM.Receiver)
    requires Follows(s, r) && Continues(s, s') && CountInv(s) && CountInv(s') && RP.EndIsRight(r.reassembly, Source(s))
    ensures RP.EndIsRight(r.reassembly, Source(s'))
  {
    if r.reassembly.eof { assert Source(s') == Source(s); }
  }

  lemma ActEnds(s: System, a: Action)
    requires NetInv(s) && Short(s) && Enabled(s, a) && Act(s, a).Returned? && BothEndsMatch(s)
    requires a.Deliver? ==> !PrematureFin(s.near.conn.receiver, a.seg)
    ensures BothEndsMatch(Act(s, a).value)
  {
    var c, c' := s.near.conn, Act(s, a).value.near.conn;
    ActIsStep(s, a);
    T.StepInv(c, AsEvent(a));
    match a {
      case Call(e) => CallQuiet(c, e);
      case Transmit =>
      case Deliver(seg) => DeliverInbound(c, seg);
    }
    assert CountInv(c.sender) && CountInv(c'.sender) && CountInv(s.far.conn.sender);
    hide Act, Step, RM.SegmentReceived, SenderReady, Follows, Authentic, PrematureFin, RP.EndIsRight;
    SenderMovesEnd(c.sender, c'.sender, s.far.conn.receiver);
    if a.Deliver? && RM.SegmentReceived(c.receiver, a.seg) == Returned(c'.receiver) {
      ReceiveEndExact(s.far.conn.sender, c.receiver, a.seg);
    } else {
      SameInboundEnd(s.far.conn.sender, c.receiver, c'.receiver);
    }
  }

  lemma SameInboundEnd(s: Sender, r: RM.Receiver, r': RM.Receiver)
    requires SameInbound(r, r') && RP.EndIsRight(r.reassembly, Source(s))
    ensures RP.EndIsRight(r'.reassembly, Source(s))
  {
  }

  lemma {:induction false} ExecEnds(s: System, ms: seq<Move>)
    requires Initial(s) && Exec(s, ms).Some? && Short(Exec(s, ms).value) && InOrderFins(s, ms)
    ensures BothEndsMatch(Exec(s, ms).value)
  {
    if ms != [] {
      var t, m := Exec(s, ms[..|ms| - 1]).value, ms[|ms| - 1];
      ShortBefore(t, m);
      hide NetInv, PrematureFin, Act;
      ExecInv(s, ms[..|ms| - 1]);
      ExecEnds(s, ms[..|ms| - 1]);
      if m.AtNear? {
        ActEnds(t, m.a);
      } else {
        assert NetInv(Swap(t)) by { SwapInv(t); }
        ActEnds(Swap(t), m.a);
      }
    }
  }

  lemma SwapInv(s: System)
    requires NetInv(s)
    ensures NetInv(Swap(s))
  {
  }

  /** In every run without a premature FIN, each byte the sender counts as acknowledged was delivered. */
  lemma AcknowledgedBytesDelivered(s: System, ms: seq<Move>, k: nat)
    requires Initial(s) && Exec(s, ms).Some? && Short(Exec(s, ms).value) && InOrderFins(s, ms)
    requires var x := Exec(s, ms).value.near.conn.sender; k + 1 < x.una && k < x.stream.read
    ensures var t := Exec(s, ms).value;
            k < |Delivered(t.far)| && Delivered(t.far)[k] == Written(t.near)[k]
  {
    PrefixSafety(s, ms);
    ExecInv(s, ms);
    ExecEnds(s, ms);
    hide Exec, ConnInv, Authentic, Truthful;
  }

  function BareSyn(seqno: u32): TcpSegment { BlankSegment(seqno).(header := BlankSegment(seqno).header.(syn := true)) }
  function BareFin(seqno: u32): TcpSegment { BlankSegment(seqno).(header := BlankSegment(seqno).header.(fin := true)) }

  lemma EarlyIndex(v: nat, isn: u32, checkpoint: nat)
    requires 0 < v < TWO_31 && checkpoint < TWO_31
    ensures Wrap(v, isn) != isn && RM.StreamIndex(Wrap(v, isn), isn, checkpoint) == v - 1
  {
    UnwrapWrap(v, isn, checkpoint);
  }

  /** With one, it need not: after SYN and a bare FIN two bytes ahead, the receiver acknowledges a byte it never got. */
  lemma PrematureFinExample(isn: u32)
    ensures var r := RM.SegmentReceived(RM.NewReceiver(8), BareSyn(isn)).value;
            var r' := RM.SegmentReceived(r, BareFin(Wrap(3, isn))).value;
            PrematureFin(r, BareFin(Wrap(3, isn))) && RM.AckNumber(r') == 2 && r'.reassembly.cur == 0
  {
    RP.PrematureEndExample();
    EarlyIndex(1, isn, 0);
    EarlyIndex(3, isn, 0);
    assert Advance(isn, 1) == Wrap(1, isn);
    hide RA.Push, RM.StreamIndex, RP.PrematureEnd, Wrap, Advance;
    assert RM.SegmentReceived(RM.NewReceiver(8), BareSyn(isn)) == Returned(RM.NewReceiver(8).(isn := Some(isn)));
  }
}
