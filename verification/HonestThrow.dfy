/**
 A run of two new endpoints that ends in an exception: an acknowledgment delivered a second time reopens the sender's
 window, and the reassembler keeps a byte from beyond its own.
 */
module HonestThrow {
  import opened Types
  import opened WrappingIntegers
  import opened StreamModel
  import opened SenderModel
  import opened ConnectionRuns
  import opened Network
  import opened NetworkTheorems
  import opened CornerCases
  import RA = ReassemblyModel
  import RP = ReassemblyProperties
  import RM = ReceiverModel
  import CM = ConnectionModel
  import opened TcpStateModel

  // ---------------------------------------------------------------- single calls, in the cases the run needs

  /** The sender has opened its stream, sent all it was given, and has nothing waiting. */
  ghost predicate Quiet(s: Sender, isn: u32, n: nat) {
    s.isn == isn && s.next == n > 0 && s.out == [] && s.stream.read == |s.stream.all| && !s.stream.ended && !s.finSent
  }

  lemma FillNothing(s: Sender)
    requires s.next > 0 && Buffer(s.stream) == [] && !s.stream.ended
    ensures FillWindow(s) == s
  {
    hide Wrap;
  }

  function SynSegment(isn: u32): TcpSegment {
    var seg := BlankSegment(Wrap(0, isn));
    seg.(header := seg.header.(syn := true))
  }

  /** The first call of a new sender sends SYN and nothing else. */
  lemma FillSyn(rt: u16, capacity: nat, isn: u32)
    ensures var s := FillWindow(NewSender(capacity, rt, isn));
            && s.(out := []) == Emit(Occupy(NewSender(capacity, rt, isn), 1), SynSegment(isn)).(out := [])
            && s.out == [SynSegment(isn)]
  {
    hide Wrap;
  }

  function DataSegment(n: nat, isn: u32, data: seq<byte>): TcpSegment { BlankSegment(Wrap(n, isn)).(payload := data) }

  lemma FillData(s: Sender, data: seq<byte>)
    requires s.next > 0 && Buffer(s.stream) == data && !s.stream.ended && !s.finSent
    requires 0 < |data| <= 1000 && s.flight + |data| <= OpenWindow(s)
    ensures var s1 := Occupy(s.(stream := s.stream.(read := |s.stream.all|)), |data|);
            FillWindow(s) == Emit(s1, DataSegment(s.next, s.isn, data))
  {
    hide Wrap;
    var want := Min(OpenWindow(s) - s.flight, 1000);
    var s1 := Occupy(s.(stream := s.stream.(read := |s.stream.all|)), |data|);
    assert Peek(s.stream, want) == data && Pop(s.stream, want) == s1.stream;
    assert FillRound(s, OpenWindow(s), false) == Emit(s1, DataSegment(s.next, s.isn, data));
  }

  /** Writing to a quiet sender with room in the window sends one segment. */
  lemma WriteQuiet(c: CM.Connection, data: seq<byte>, isn: u32, n: nat)
    requires Quiet(c.sender, isn, n) && 0 < |data| <= 1000 && |data| <= c.sender.stream.capacity
    requires c.sender.flight + |data| <= OpenWindow(c.sender)
    ensures var (s, c') := (c.sender, CM.WriteData(c, data));
            && Quiet(c'.sender, isn, n + |data|) && c'.sender.flight == s.flight + |data| && c'.sender.window == s.window
            && c'.sender.una == s.una && c'.sender.outstanding == s.outstanding + [DataSegment(n, isn, data)]
            && c'.sender.stream.capacity == s.stream.capacity && c'.receiver == c.receiver
            && c'.out == c.out + [CM.Stamp(DataSegment(n, isn, data), c.receiver)]
  {
    var s := c.sender.(stream := Write(c.sender.stream, data));
    assert Buffer(s.stream) == data;
    FillData(s, data);
    hide FillWindow, Wrap, CM.Stamp;
  }

  /** A quiet connection answers a segment that occupies numbers with a bare acknowledgment, any other with nothing. */
  lemma DeliverQuiet(c: CM.Connection, seg: TcpSegment, isn: u32, n: nat)
    requires Quiet(c.sender, isn, n) && !seg.header.rst && !CM.IsKeepAlive(c, seg)
    requires RM.SegmentReceived(c.receiver, seg).Returned?
    ensures var (s, r') := (c.sender, RM.SegmentReceived(c.receiver, seg).value);
            && CM.SegmentReceived(c, seg).Returned?
            && var c' := CM.SegmentReceived(c, seg).value;
               && c'.receiver == r'
               && c'.sender == (if seg.header.ack then AckReceived(s, seg.header.ackno, seg.header.win) else s)
               && c'.out == c.out + if seg.Length() == 0 then [] else [CM.Stamp(BlankSegment(Wrap(n, isn)), r')]
  {
    hide RM.SegmentReceived, AckReceived, Wrap, CM.Stamp, Unwrap;
    var r' := RM.SegmentReceived(c.receiver, seg).value;
    var c1 := CM.TakeAck(c.(sinceLast := 0, receiver := r'), seg);
    if seg.header.ack { AckQuiet(c.sender, seg.header.ackno, seg.header.win, isn, n); }
    FillNothing(c1.sender);
    hide FillWindow;
  }

  lemma AckQuiet(s: Sender, ackno: u32, window: u16, isn: u32, n: nat)
    requires Quiet(s, isn, n)
    ensures Quiet(AckReceived(s, ackno, window), isn, n)
    ensures AckReceived(s, ackno, window).stream == s.stream
  {
    hide Unwrap;
    var ack := Unwrap(ackno, s.isn, s.next);
    PopAckedFrame(s.(window := window, una := ack), ack);
  }

  /** An acknowledgment of the one outstanding segment clears the flight. */
  lemma AckAll(s: Sender, window: u16)
    requires |s.outstanding| == 1 && s.outstanding[0].Length() == s.flight <= s.next < TWO_31 && s.una < s.next
    requires s.outstanding[0].header.seqno == Wrap(s.next - s.flight, s.isn)
    ensures var s' := AckReceived(s, Wrap(s.next, s.isn), window);
            s'.flight == 0 && s'.outstanding == [] && s'.una == s.next && s'.window == window
  {
    UnwrapWrap(s.next, s.isn, s.next);
    UnwrapWrap(s.next - s.flight, s.isn, s.next);
    hide Unwrap, Wrap;
    var s1 := s.(window := window, una := s.next);
    var s2 := s1.(flight := 0, outstanding := []);
    assert s1.outstanding[1..] == [];
    assert PopAcked(s1, s.next) == PopAcked(s2, s.next) == s2;
  }

  lemma AckStale(s: Sender, v: nat, window: u16)
    requires v <= s.una <= s.next < TWO_31
    ensures AckReceived(s, Wrap(v, s.isn), window) == s.(window := window)
  {
    UnwrapWrap(v, s.isn, s.next);
    hide Unwrap, Wrap;
  }

  /** A receiver that knows the initial number puts a payload at its place. */
  lemma ReceiveAt(r: RM.Receiver, seg: TcpSegment, isn: u32, v: nat)
    requires r.isn == Some(isn) && !seg.header.syn && seg.header.seqno == Wrap(v, isn)
    requires 0 < v < TWO_31 && r.reassembly.cur < TWO_31
    ensures var x := RA.Push(r.reassembly, seg.payload, v - 1, seg.header.fin);
            RM.SegmentReceived(r, seg) ==
            if x.Returned? then Returned(RM.Receiver(x.value, r.isn)) else Thrown(RM.Receiver(x.value, r.isn))
  {
    hide RA.Push, RM.StreamIndex, Wrap;
    EarlyIndex(v, isn, r.reassembly.cur);
  }

  lemma ReceiveSyn(r: RM.Receiver, seg: TcpSegment, isn: u32)
    requires seg.header.syn && !seg.header.fin && seg.payload == [] && seg.header.seqno == Wrap(0, isn)
    requires r.reassembly.cur == 0 && RA.Valid(r.reassembly) && !r.reassembly.eof
    ensures RM.SegmentReceived(r, seg) == Returned(r.(isn := Some(isn)))
  {
    assert Wrap(0, isn) == isn && Advance(isn, 1) == Wrap(1, isn);
    PushNothing(r.reassembly);
    hide RA.Push, RM.StreamIndex, Wrap, Advance;
    EarlyIndex(1, isn, 0);
  }

  /** An empty substring at the current index changes nothing. */
  lemma PushNothing(r: RA.Reassembly)
    requires RA.Valid(r) && !r.eof
    ensures RA.Push(r, [], r.cur, false) == Returned(r)
  {
    assert RA.Run(r.pending, r.cur) == [];
    assert RA.Without(r.pending, r.cur, 0) == r.pending;
    assert Write(r.out, []) == r.out;
  }

  // ---------------------------------------------------------------- single moves

  lemma {:induction false} Grow(s: System, ms: seq<Move>, m: Move)
    requires Exec(s, ms).Some? && Possible(Exec(s, ms).value, m)
    ensures Exec(s, ms + [m]) == Some(Do(Exec(s, ms).value, m))
  {
    assert (ms + [m])[..|ms|] == ms;
  }

  lemma NearSends(s: System, ms: seq<Move>) returns (ms': seq<Move>)
    requires Exec(s, ms).Some? && Exec(s, ms).value.near.conn.out != []
    ensures var t := Exec(s, ms).value;
            var c := t.near.conn;
            Exec(s, ms') == Some(t.(near := End(c.(out := c.out[1..]), t.near.wire + {c.out[0]})))
  {
    ms' := ms + [AtNear(Transmit)];
    Grow(s, ms, AtNear(Transmit));
    hide Exec;
  }

  lemma FarSends(s: System, ms: seq<Move>) returns (ms': seq<Move>)
    requires Exec(s, ms).Some? && Exec(s, ms).value.far.conn.out != []
    ensures var t := Exec(s, ms).value;
            var c := t.far.conn;
            Exec(s, ms') == Some(t.(far := End(c.(out := c.out[1..]), t.far.wire + {c.out[0]})))
  {
    ms' := ms + [AtFar(Transmit)];
    Grow(s, ms, AtFar(Transmit));
    hide Exec;
  }

  lemma NearGets(s: System, ms: seq<Move>, seg: TcpSegment) returns (ms': seq<Move>)
    requires Exec(s, ms).Some? && seg in Exec(s, ms).value.far.wire
    requires CM.SegmentReceived(Exec(s, ms).value.near.conn, seg).Returned?
    ensures var t := Exec(s, ms).value;
            Exec(s, ms') == Some(t.(near := t.near.(conn := CM.SegmentReceived(t.near.conn, seg).value)))
  {
    hide CM.SegmentReceived;
    ms' := ms + [AtNear(Deliver(seg))];
    Grow(s, ms, AtNear(Deliver(seg)));
    hide Exec;
  }

  lemma FarGets(s: System, ms: seq<Move>, seg: TcpSegment) returns (ms': seq<Move>)
    requires Exec(s, ms).Some? && seg in Exec(s, ms).value.near.wire
    requires CM.SegmentReceived(Exec(s, ms).value.far.conn, seg).Returned?
    ensures var t := Exec(s, ms).value;
            Exec(s, ms') == Some(t.(far := t.far.(conn := CM.SegmentReceived(t.far.conn, seg).value)))
  {
    hide CM.SegmentReceived;
    ms' := ms + [AtFar(Deliver(seg))];
    Grow(s, ms, AtFar(Deliver(seg)));
    hide Exec;
  }

  lemma NearCalls(s: System, ms: seq<Move>, e: Event) returns (ms': seq<Move>)
    requires Exec(s, ms).Some? && !e.Receive? && !e.Dequeue?
    ensures var t := Exec(s, ms).value;
            Exec(s, ms') == Some(t.(near := t.near.(conn := Step(t.near.conn, e).value)))
  {
    hide Step;
    ms' := ms + [AtNear(Call(e))];
    Grow(s, ms, AtNear(Call(e)));
    hide Exec;
  }

  lemma FarCalls(s: System, ms: seq<Move>, e: Event) returns (ms': seq<Move>)
    requires Exec(s, ms).Some? && !e.Receive? && !e.Dequeue?
    ensures var t := Exec(s, ms).value;
            Exec(s, ms') == Some(t.(far := t.far.(conn := Step(t.far.conn, e).value)))
  {
    hide Step;
    ms' := ms + [AtFar(Call(e))];
    Grow(s, ms, AtFar(Call(e)));
    hide Exec;
  }

  // ---------------------------------------------------------------- opening

  /** The two initial sequence numbers. */
  datatype Names = Names(near: u32, far: u32)

  const NEAR_CAPACITY: nat := 8
  const FAR_CAPACITY: nat := 3

  function NearReceiver(i: Names): RM.Receiver { RM.Receiver(RA.NewReassembly(NEAR_CAPACITY), Some(i.far)) }
  function FarReceiver(i: Names): RM.Receiver { RM.Receiver(RA.NewReassembly(FAR_CAPACITY), Some(i.near)) }

  function Syn(i: Names): TcpSegment { CM.Stamp(SynSegment(i.near), RM.NewReceiver(NEAR_CAPACITY)) }
  function SynAck(i: Names): TcpSegment { CM.Stamp(SynSegment(i.far), FarReceiver(i)) }

  function Fresh(rt: u16, i: Names): System {
    System(End(CM.NewConnection(rt, NEAR_CAPACITY, NEAR_CAPACITY, i.near), {}),
           End(CM.NewConnection(rt, FAR_CAPACITY, NEAR_CAPACITY, i.far), {}))
  }

  ghost predicate Idle(s: Sender, isn: u32, n: nat, w: nat) {
    && Quiet(s, isn, n) && s.flight == 0 && s.outstanding == [] && s.una == n && s.window == w
    && s.stream.capacity == NEAR_CAPACITY
  }

  lemma Opens(rt: u16, i: Names)
    ensures var c := CM.Connect(Fresh(rt, i).near.conn);
            && Quiet(c.sender, i.near, 1) && c.sender.flight == 1 && c.sender.una == 0
            && c.sender.outstanding == [SynSegment(i.near)] && c.sender.stream.capacity == NEAR_CAPACITY
            && c.receiver == RM.NewReceiver(NEAR_CAPACITY) && c.out == [Syn(i)]
  {
    FillSyn(rt, NEAR_CAPACITY, i.near);
    hide FillWindow, Wrap;
  }

  /** The far end takes SYN and answers with its own. */
  lemma Answers(rt: u16, i: Names)
    ensures var x := CM.SegmentReceived(Fresh(rt, i).far.conn, Syn(i));
            && x.Returned? && Quiet(x.value.sender, i.far, 1)
            && x.value.receiver == FarReceiver(i) && x.value.out == [SynAck(i)]
  {
    var c := Fresh(rt, i).far.conn;
    ReceiveSyn(c.receiver, Syn(i), i.near);
    FillSyn(rt, NEAR_CAPACITY, i.far);
    hide FillWindow, RM.SegmentReceived, Wrap;
  }

  /** The near end takes SYN of the far end and its acknowledgment, and has an open window of three. */
  lemma Completes(c: CM.Connection, i: Names)
    requires Quiet(c.sender, i.near, 1) && c.sender.flight == 1 && c.sender.una == 0
    requires c.sender.outstanding == [SynSegment(i.near)] && c.sender.stream.capacity == NEAR_CAPACITY
    requires c.receiver == RM.NewReceiver(NEAR_CAPACITY) && c.out == []
    ensures var x := CM.SegmentReceived(c, SynAck(i));
            && x.Returned? && Idle(x.value.sender, i.near, 1, FAR_CAPACITY)
            && x.value.receiver == NearReceiver(i) && |x.value.out| == 1
  {
    var seg := SynAck(i);
    assert seg.header.ack && seg.header.ackno == Wrap(1, i.near) && seg.header.win == FAR_CAPACITY;
    assert seg.header.syn && !seg.header.fin && seg.payload == [] && seg.header.seqno == Wrap(0, i.far);
    hide Wrap, RM.SegmentReceived, AckReceived, SynAck, CM.Stamp;
    ReceiveSyn(c.receiver, seg, i.far);
    DeliverQuiet(c, seg, i.near, 1);
    AckAll(c.sender, FAR_CAPACITY);
    AckQuiet(c.sender, seg.header.ackno, seg.header.win, i.near, 1);
  }

  /** Both ends are open, the near end may send three bytes, and the far end's SYN is on the wire for good. */
  ghost predicate Established(t: System, i: Names) {
    && Idle(t.near.conn.sender, i.near, 1, FAR_CAPACITY) && t.near.conn.receiver == NearReceiver(i)
    && |t.near.conn.out| == 1
    && Quiet(t.far.conn.sender, i.far, 1) && t.far.conn.receiver == FarReceiver(i) && t.far.conn.out == []
    && SynAck(i) in t.far.wire
  }

  lemma Handshake(rt: u16, i: Names) returns (ms: seq<Move>)
    ensures Exec(Fresh(rt, i), ms).Some? && Established(Exec(Fresh(rt, i), ms).value, i)
  {
    var s := Fresh(rt, i);
    ms := [];
    assert Exec(s, ms) == Some(s);
    Opens(rt, i);
    Answers(rt, i);
    hide Exec, CM.Connect, CM.SegmentReceived, Quiet, Syn, SynAck;
    ms := NearCalls(s, ms, Connect);
    ms := NearSends(s, ms);
    ms := FarGets(s, ms, Syn(i));
    ms := FarSends(s, ms);
    Completes(Exec(s, ms).value.near.conn, i);
    ms := NearGets(s, ms, SynAck(i));
  }

  // ---------------------------------------------------------------- two bytes, and a stale window

  function Data(i: Names, n: nat, data: seq<byte>): TcpSegment { CM.Stamp(DataSegment(n, i.near, data), NearReceiver(i)) }

  /** Two bytes delivered and not read, nothing stored. */
  ghost predicate HoldsTwo(r: RM.Receiver, i: Names) {
    && r.isn == Some(i.near) && RA.Valid(r.reassembly) && r.reassembly.cur == 2 && r.reassembly.pending == map[]
    && r.reassembly.out.read == 0 && r.reassembly.out.capacity == FAR_CAPACITY && !r.reassembly.out.ended
  }

  lemma PushTwo(data: seq<byte>)
    requires |data| == 2
    ensures var x := RA.Push(RA.NewReassembly(FAR_CAPACITY), data, 0, false);
            && x.Returned? && RA.Valid(x.value) && x.value.cur == 2 && x.value.pending == map[]
            && x.value.out.read == 0 && x.value.out.capacity == FAR_CAPACITY && !x.value.out.ended
  {
    var r := RA.NewReassembly(FAR_CAPACITY);
    RA.PushWithinWindow(r, data, 0, false);
    RA.PushCovers(r, data, 0, false);
    RP.PushEof(r, data, 0, false);
    RP.PushQuiet(r, data, 0, false);
    RP.FirstGap(r, data, 0, false, 2);
    hide RA.Push;
    var r' := RA.Push(r, data, 0, false).value;
    forall k: nat ensures k !in r'.pending {
      assert RA.Covered(r', k) <==> RA.Covered(r, k) || RA.Taken(r, data, 0, k);
    }
  }

  /** The far end acknowledges number 3 and offers one byte. */
  function AckThree(i: Names, r: RM.Receiver): TcpSegment { CM.Stamp(BlankSegment(Wrap(1, i.far)), r) }

  lemma FarTakesTwo(c: CM.Connection, i: Names, data: seq<byte>)
    requires |data| == 2 && Quiet(c.sender, i.far, 1) && c.receiver == FarReceiver(i) && c.out == []
    ensures var x := CM.SegmentReceived(c, Data(i, 1, data));
            && x.Returned? && Quiet(x.value.sender, i.far, 1) && HoldsTwo(x.value.receiver, i)
            && x.value.out == [AckThree(i, x.value.receiver)]
  {
    var seg := Data(i, 1, data);
    assert seg.payload == data && !seg.header.syn && !seg.header.fin && !seg.header.rst && seg.Length() == 2;
    assert seg.header.seqno == Wrap(1, i.near);
    hide Wrap, RM.SegmentReceived, AckReceived, RA.Push, Data, CM.Stamp;
    ReceiveAt(c.receiver, seg, i.near, 1);
    PushTwo(data);
    DeliverQuiet(c, seg, i.far, 1);
    AckQuiet(c.sender, seg.header.ackno, seg.header.win, i.far, 1);
  }

  lemma NearTakesAck(c: CM.Connection, i: Names, r: RM.Receiver, data: seq<byte>)
    requires HoldsTwo(r, i) && |data| == 2
    requires Quiet(c.sender, i.near, 3) && c.sender.flight == 2 && c.sender.una == 1
    requires c.sender.outstanding == [DataSegment(1, i.near, data)] && c.sender.stream.capacity == NEAR_CAPACITY
    requires c.receiver == NearReceiver(i) && c.out == []
    ensures var x := CM.SegmentReceived(c, AckThree(i, r));
            && x.Returned? && Idle(x.value.sender, i.near, 3, 1)
            && x.value.receiver == NearReceiver(i) && x.value.out == []
  {
    var seg := AckThree(i, r);
    assert seg.header.ack && seg.header.ackno == Wrap(3, i.near) && seg.header.win == 1 && seg.Length() == 0;
    assert !seg.header.syn && !seg.header.fin && !seg.header.rst && seg.header.seqno == Wrap(1, i.far);
    assert Advance(Wrap(1, i.far), -1) != Wrap(1, i.far);
    hide Wrap, Advance, RM.SegmentReceived, AckReceived, RA.Push, AckThree, CM.Stamp;
    assert RM.Ackno(c.receiver) == Some(Wrap(1, i.far));
    ReceiveAt(c.receiver, seg, i.far, 1);
    PushNothing(c.receiver.reassembly);
    DeliverQuiet(c, seg, i.near, 3);
    AckAll(c.sender, 1);
    AckQuiet(c.sender, seg.header.ackno, seg.header.win, i.near, 3);
  }

  /** The far end's SYN comes a second time, with the window it had then. */
  lemma NearTakesStale(c: CM.Connection, i: Names)
    requires Idle(c.sender, i.near, 3, 1) && c.receiver == NearReceiver(i) && c.out == []
    ensures var x := CM.SegmentReceived(c, SynAck(i));
            && x.Returned? && Idle(x.value.sender, i.near, 3, FAR_CAPACITY)
            && x.value.receiver == NearReceiver(i) && |x.value.out| == 1
  {
    var seg := SynAck(i);
    assert seg.header.ack && seg.header.ackno == Wrap(1, i.near) && seg.header.win == FAR_CAPACITY;
    assert seg.header.syn && !seg.header.fin && !seg.header.rst && seg.payload == [];
    assert seg.header.seqno == Wrap(0, i.far);
    hide Wrap, RM.SegmentReceived, AckReceived, SynAck, CM.Stamp;
    ReceiveSyn(c.receiver, seg, i.far);
    DeliverQuiet(c, seg, i.near, 3);
    AckStale(c.sender, 1, FAR_CAPACITY);
  }

  /** The near end may send three more bytes although the far end has room for one. */
  ghost predicate Reopened(t: System, i: Names) {
    && Idle(t.near.conn.sender, i.near, 3, FAR_CAPACITY) && t.near.conn.receiver == NearReceiver(i)
    && |t.near.conn.out| == 1
    && Quiet(t.far.conn.sender, i.far, 1) && HoldsTwo(t.far.conn.receiver, i)
  }

  lemma StaleWindow(s: System, ms: seq<Move>, i: Names, data: seq<byte>) returns (ms': seq<Move>)
    requires Exec(s, ms).Some? && Established(Exec(s, ms).value, i) && |data| == 2
    ensures Exec(s, ms').Some? && Reopened(Exec(s, ms').value, i)
  {
    hide Exec, CM.WriteData, CM.SegmentReceived, HoldsTwo, SynAck, DataSegment, AckThree, CM.Stamp;
    ms' := NearSends(s, ms);
    WriteQuiet(Exec(s, ms').value.near.conn, data, i.near, 1);
    ms' := NearCalls(s, ms', WriteData(data));
    ms' := NearSends(s, ms');
    FarTakesTwo(Exec(s, ms').value.far.conn, i, data);
    ms' := FarGets(s, ms', Data(i, 1, data));
    var r := Exec(s, ms').value.far.conn.receiver;
    ms' := FarSends(s, ms');
    NearTakesAck(Exec(s, ms').value.near.conn, i, r, data);
    ms' := NearGets(s, ms', AckThree(i, r));
    NearTakesStale(Exec(s, ms').value.near.conn, i);
    ms' := NearGets(s, ms', SynAck(i));
  }

  // ---------------------------------------------------------------- three bytes where one fits

  /** Bytes 2, 3 and 4 of the stream are on the wire, each in a segment of its own. */
  ghost predicate Sent(t: System, i: Names, data: seq<byte>)
    requires |data| == 5
  {
    && {Data(i, 3, data[2..3]), Data(i, 4, data[3..4]), Data(i, 5, data[4..5])} <= t.near.wire
    && t.near.conn.sender.next == 6
    && Quiet(t.far.conn.sender, i.far, 1) && HoldsTwo(t.far.conn.receiver, i)
  }

  lemma SendsThree(s: System, ms: seq<Move>, i: Names, data: seq<byte>) returns (ms': seq<Move>)
    requires |data| == 5 && Exec(s, ms).Some? && Reopened(Exec(s, ms).value, i)
    ensures Exec(s, ms').Some? && Sent(Exec(s, ms').value, i, data)
  {
    hide Exec, CM.WriteData, HoldsTwo, DataSegment, CM.Stamp;
    ms' := NearSends(s, ms);
    WriteQuiet(Exec(s, ms').value.near.conn, data[2..3], i.near, 3);
    ms' := NearCalls(s, ms', WriteData(data[2..3]));
    ms' := NearSends(s, ms');
    WriteQuiet(Exec(s, ms').value.near.conn, data[3..4], i.near, 4);
    ms' := NearCalls(s, ms', WriteData(data[3..4]));
    ms' := NearSends(s, ms');
    WriteQuiet(Exec(s, ms').value.near.conn, data[4..5], i.near, 5);
    ms' := NearCalls(s, ms', WriteData(data[4..5]));
    ms' := NearSends(s, ms');
  }

  /** Byte 4 is stored beyond the window; byte 2 and one read move the edge to 4; byte 3 then frees two bytes at once. */
  lemma Overflow(r: RM.Receiver, i: Names, a: seq<byte>, b: seq<byte>, d: seq<byte>)
    requires HoldsTwo(r, i) && |a| == |b| == |d| == 1
    ensures var x := RA.Push(r.reassembly, d, 4, false);
            x.Returned? && x.value.cur == 2 &&
            var y := RA.Push(x.value, a, 2, false);
            y.Returned? && y.value.cur == 3 &&
            RA.Push(y.value.(out := Pop(y.value.out, 1)), b, 3, false).Thrown?
  {
    hide RA.Push;
    var r0 := r.reassembly;
    var x := RP.StepTo(r0, d, 4, 2);
    assert RA.Taken(r0, d, 4, 4) && RA.Covered(x, 4) && !RA.Covered(x, 3);
    var y := RP.StepTo(x, a, 2, 3);
    assert RA.Covered(y, 4);
    var z := y.(out := Pop(y.out, 1));
    forall k: nat | z.cur <= k <= RA.Edge(z) ensures RA.Covered(z, k) || RA.Taken(z, b, 3, k) {
      assert k == 3 || k == 4;
    }
    RA.PushThrowsExactly(z, b, 3, false);
  }

  /** A data segment that reaches the far end's reassembler without an exception. */
  lemma FarTakes(c: CM.Connection, i: Names, k: nat, data: seq<byte>)
    requires |data| == 1 && Quiet(c.sender, i.far, 1) && c.receiver.isn == Some(i.near) && k < 8
    requires c.receiver.reassembly.cur < 8
    requires RA.Push(c.receiver.reassembly, data, k, false).Returned?
    ensures var x := CM.SegmentReceived(c, Data(i, k + 1, data));
            && x.Returned? && Quiet(x.value.sender, i.far, 1) && x.value.receiver.isn == Some(i.near)
            && x.value.receiver.reassembly == RA.Push(c.receiver.reassembly, data, k, false).value
  {
    var seg := Data(i, k + 1, data);
    assert seg.payload == data && !seg.header.syn && !seg.header.fin && !seg.header.rst && seg.Length() == 1;
    assert seg.header.seqno == Wrap(k + 1, i.near);
    hide Wrap, RM.SegmentReceived, AckReceived, RA.Push, Data, CM.Stamp;
    ReceiveAt(c.receiver, seg, i.near, k + 1);
    DeliverQuiet(c, seg, i.far, 1);
    AckQuiet(c.sender, seg.header.ackno, seg.header.win, i.far, 1);
  }

  lemma FarThrows(c: CM.Connection, i: Names, k: nat, data: seq<byte>)
    requires |data| == 1 && Quiet(c.sender, i.far, 1) && c.receiver.isn == Some(i.near) && k < 8
    requires c.receiver.reassembly.cur < 8
    requires RA.Push(c.receiver.reassembly, data, k, false).Thrown?
    ensures CM.SegmentReceived(c, Data(i, k + 1, data)).Thrown?
  {
    var seg := Data(i, k + 1, data);
    assert seg.payload == data && !seg.header.syn && !seg.header.fin && !seg.header.rst && seg.Length() == 1;
    assert seg.header.seqno == Wrap(k + 1, i.near);
    hide Wrap, RM.SegmentReceived, RA.Push, Data, CM.Stamp;
    ReceiveAt(c.receiver, seg, i.near, k + 1);
  }

  lemma ReadsOne(c: CM.Connection)
    ensures var (r, c') := (c.receiver.reassembly, Step(c, ReadInbound(1)).value);
            c' == c.(receiver := c.receiver.(reassembly := r.(out := Pop(r.out, 1))))
  {
  }

  lemma Drains(s: System, ms: seq<Move>, i: Names, data: seq<byte>) returns (ms': seq<Move>, seg: TcpSegment)
    requires |data| == 5 && Exec(s, ms).Some? && Sent(Exec(s, ms).value, i, data)
    ensures Exec(s, ms').Some?
    ensures var t := Exec(s, ms').value;
            && seg in t.near.wire && CM.SegmentReceived(t.far.conn, seg).Thrown?
            && t.near.conn.sender.next == 6 && t.far.conn.sender.next == 1
  {
    var c := Exec(s, ms).value.far.conn;
    Overflow(c.receiver, i, data[2..3], data[3..4], data[4..5]);
    hide Exec, Step, CM.SegmentReceived, Data, RA.Push, HoldsTwo, Pop;
    FarTakes(c, i, 4, data[4..5]);
    ms' := FarGets(s, ms, Data(i, 5, data[4..5]));
    FarTakes(Exec(s, ms').value.far.conn, i, 2, data[2..3]);
    ms' := FarGets(s, ms', Data(i, 3, data[2..3]));
    ReadsOne(Exec(s, ms').value.far.conn);
    ms' := FarCalls(s, ms', ReadInbound(1));
    seg := Data(i, 4, data[3..4]);
    FarThrows(Exec(s, ms').value.far.conn, i, 3, data[3..4]);
  }

  lemma ThrownAct(t: System, seg: TcpSegment)
    requires seg in t.near.wire && CM.SegmentReceived(t.far.conn, seg).Thrown?
    ensures Enabled(Swap(t), Deliver(seg)) && Act(Swap(t), Deliver(seg)).Thrown?
  {
    hide CM.SegmentReceived;
  }

  lemma FreshInitial(rt: u16, i: Names)
    ensures Initial(Fresh(rt, i))
  {
  }

  /** Two new endpoints, five bytes, nothing lost: a possible next delivery throws. */
  lemma HonestRunThrows(rt: u16, i: Names, data: seq<byte>) returns (ms: seq<Move>, seg: TcpSegment)
    requires |data| == 5
    ensures Initial(Fresh(rt, i)) && Exec(Fresh(rt, i), ms).Some?
    ensures var t := Exec(Fresh(rt, i), ms).value;
            Short(t) && Enabled(Swap(t), Deliver(seg)) && Act(Swap(t), Deliver(seg)).Thrown?
  {
    var s := Fresh(rt, i);
    FreshInitial(rt, i);
    hide Exec, Established, Reopened, Sent, CM.SegmentReceived, Initial, Act, Fresh;
    ms := Handshake(rt, i);
    ms := StaleWindow(s, ms, i, data[..2]);
    ms := SendsThree(s, ms, i, data);
    ms, seg := Drains(s, ms, i, data);
    ThrownAct(Exec(s, ms).value, seg);
  }
}
