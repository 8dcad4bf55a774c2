/** Whole runs of one endpoint: any calls in any order, with any segments from the network. */
module ConnectionRuns {
  import opened Types
  import opened WrappingIntegers
  import opened StreamModel
  import opened SenderModel
  import opened SenderInvariants
  import opened ConnectionInvariants
  import RM = ReceiverModel
  import CM = ConnectionModel
  import opened TcpStateModel

  datatype Event =
    | Connect
    | WriteData(data: seq<byte>)
    | EndInput
    | Tick(ms: nat)
    | Receive(seg: TcpSegment)
    | ReadInbound(len: nat)
    | Dequeue

  function Step(c: CM.Connection, e: Event): Outcome<CM.Connection> {
    match e
    case Connect => Returned(CM.Connect(c))
    case WriteData(data) => Returned(CM.WriteData(c, data))
    case EndInput => Returned(CM.EndInputStream(c))
    case Tick(ms) => Returned(CM.Tick(c, ms))
    case Receive(seg) => CM.SegmentReceived(c, seg)
    case ReadInbound(len) => Returned(CM.ReadInbound(c, len))
    case Dequeue => Returned(CM.Dequeue(c))
  }

  function Run(c: CM.Connection, es: seq<Event>): Outcome<CM.Connection> {
    if es == [] then Returned(c)
    else
      var before := Run(c, es[..|es| - 1]);
      if before.Thrown? then before else Step(before.value, es[|es| - 1])
  }

  // ---------------------------------------------------------------- what a call leaves alone

  lemma FillWindowFrame(s: Sender)
    ensures var s' := FillWindow(s);
            && s'.stream.all == s.stream.all && s'.stream.ended == s.stream.ended && s'.stream.error == s.stream.error
            && s'.una == s.una && s'.rto == s.rto && s'.retx == s.retx && s'.initialRto == s.initialRto
            && s'.timer == (if s.timer.running || s'.outstanding == s.outstanding then s.timer else Timer(s.rto, 0, true))
            && s.outstanding <= s'.outstanding && (s'.finSent ==> s.finSent || Eof(s'.stream)) && s.next <= s'.next
  {
    if OpenWindow(s) > s.flight { FillLoopFrame(s, OpenWindow(s), false); }
  }

  lemma {:induction false} PopAckedFrame(s: Sender, ack: nat)
    ensures PopAcked(s, ack) == s.(flight := PopAcked(s, ack).flight, outstanding := PopAcked(s, ack).outstanding)
    decreases |s.outstanding|
  {
    if s.outstanding != [] {
      var seg := s.outstanding[0];
      PopAckedFrame(s.(flight := Less(s.flight, seg.Length()), outstanding := s.outstanding[1..]), ack);
    }
  }

  lemma AckFrame(s: Sender, ackno: u32, window: u16)
    ensures var s' := AckReceived(s, ackno, window);
            && s'.stream == s.stream && s'.initialRto == s.initialRto && s'.finSent == s.finSent && s'.next == s.next
            && (s'.una == s.una || (s'.retx == 0 && s'.rto == s.initialRto && s'.timer.elapsed == 0))
            && (s'.una == s.una ==> s'.retx == s.retx && s'.rto == s.rto && s'.timer == s.timer)
  {
    hide Unwrap;
    var ack := Unwrap(ackno, s.isn, s.next);
    PopAckedFrame(s.(window := window, una := ack), ack);
  }

  /** The sender's side of a call, seen from outside: bytes come in by `write`, the end by `end_input_stream`. */
  ghost predicate SenderFrame(s: Sender, s': Sender, e: Event) {
    && s'.initialRto == s.initialRto
    && s'.stream.all == s.stream.all + (if e.WriteData? then e.data[..Min(|e.data|, Room(s.stream))] else [])
    && s'.stream.ended == (s.stream.ended || e.EndInput?)
    && (s.stream.error ==> s'.stream.error)
    && (s'.finSent ==> s.finSent || Eof(s'.stream)) && s.next <= s'.next
  }

  ghost function Clock(c: CM.Connection, e: Event): nat {
    match e
    case Tick(ms) => c.sinceLast + ms
    case Receive(_) => 0
    case _ => c.sinceLast
  }

  lemma ReceiverErrorKept(r: RM.Receiver, seg: TcpSegment)
    ensures RM.SegmentReceived(r, seg).value.reassembly.out.error == r.reassembly.out.error
  {
  }

  /** Nothing but the sender and the outgoing queue changes. */
  ghost predicate OnlySends(c: CM.Connection, c': CM.Connection) {
    && c' == c.(sender := c'.sender, out := c'.out)
    && c'.sender.initialRto == c.sender.initialRto && c'.sender.stream.all == c.sender.stream.all
    && c'.sender.stream.ended == c.sender.stream.ended && c'.sender.stream.error == c.sender.stream.error
    && (c'.sender.finSent ==> c.sender.finSent || Eof(c'.sender.stream)) && c.sender.next <= c'.sender.next
  }

  lemma SendAllFrame(c: CM.Connection)
    ensures OnlySends(c, CM.SendAll(c))
  {
  }

  lemma ReplyFrame(c: CM.Connection, seg: TcpSegment)
    ensures OnlySends(c, CM.Reply(c, seg))
  {
    FillWindowFrame(c.sender);
    hide FillWindow;
  }

  lemma TakeAckFrame(c: CM.Connection, seg: TcpSegment)
    ensures var c' := CM.TakeAck(c, seg);
            && OnlySends(c.(linger := c'.linger), c') && c'.sender.finSent == c.sender.finSent
            && (c'.linger ==> c.linger)
  {
    if seg.header.ack { AckFrame(c.sender, seg.header.ackno, seg.header.win); }
    hide AckReceived;
  }

  lemma ReceiveFrame(c: CM.Connection, seg: TcpSegment)
    ensures var c' := CM.SegmentReceived(c, seg).value;
            && SenderFrame(c.sender, c'.sender, Receive(seg))
            && c'.rtTimeout == c.rtTimeout && c'.sinceLast == 0
            && (c'.linger ==> c.linger) && (CM.HasError(c) ==> CM.HasError(c'))
  {
    hide RM.SegmentReceived, CM.TakeAck, CM.Reply, CM.SendAll;
    SendAllFrame(c.(sinceLast := 0, sender := SendEmpty(c.sender)));
    ReceiverErrorKept(c.receiver, seg);
    var c1 := c.(sinceLast := 0, receiver := RM.SegmentReceived(c.receiver, seg).value);
    TakeAckFrame(c1, seg);
    ReplyFrame(CM.TakeAck(c1, seg), seg);
  }

  lemma FillAndSendFrame(c: CM.Connection)
    ensures OnlySends(c, CM.FillAndSend(c))
  {
    FillWindowFrame(c.sender);
    hide FillWindow;
  }

  lemma EndInputFrame(c: CM.Connection)
    ensures OnlySends(c.(sender := c.sender.(stream := StreamModel.EndInput(c.sender.stream))), CM.EndInputStream(c))
  {
    FillWindowFrame(c.sender.(stream := StreamModel.EndInput(c.sender.stream)));
    hide FillWindow;
  }

  lemma SenderTickFrame(s: Sender, ms: nat)
    ensures var s' := SenderModel.Tick(s, ms);
            && s'.initialRto == s.initialRto && s'.stream == s.stream && s'.finSent == s.finSent && s'.next == s.next
  {
  }

  lemma TickFrame(c: CM.Connection, ms: nat)
    ensures var c' := CM.Tick(c, ms);
            && SenderFrame(c.sender, c'.sender, Tick(ms))
            && c'.rtTimeout == c.rtTimeout && c'.sinceLast == c.sinceLast + ms
            && c'.linger == c.linger && (CM.HasError(c) ==> CM.HasError(c'))
  {
    hide SenderModel.Tick;
    SenderTickFrame(c.sender, ms);
  }

  /** What each call does to the clock, the linger flag, the error state and the outbound stream. */
  lemma StepFrame(c: CM.Connection, e: Event)
    ensures var c' := Step(c, e).value;
            && SenderFrame(c.sender, c'.sender, e)
            && c'.rtTimeout == c.rtTimeout && c'.sinceLast == Clock(c, e)
            && (c'.linger ==> c.linger) && (CM.HasError(c) ==> CM.HasError(c'))
  {
    hide CM.FillAndSend, CM.EndInputStream, CM.SegmentReceived, CM.Tick;
    match e
    case Connect => FillAndSendFrame(c);
    case WriteData(data) => FillAndSendFrame(c.(sender := c.sender.(stream := Write(c.sender.stream, data))));
    case EndInput => EndInputFrame(c);
    case Tick(ms) => TickFrame(c, ms);
    case Receive(seg) => ReceiveFrame(c, seg);
    case ReadInbound(len) =>
    case Dequeue =>
  }
}
