/** How the outbound stream is cut into segments: pieces of 1000 bytes, a shorter one only at the end. */
module Segmentation {
  import opened Types
  import opened WrappingIntegers
  import opened StreamModel
  import opened SenderModel
  import opened ConnectionRuns
  import RM = ReceiverModel
  import CM = ConnectionModel

  // ---------------------------------------------------------------- one call of fill_window

  /** The segments a call has added to the outstanding ones. */
  function Added(s: Sender, s': Sender): seq<TcpSegment>
    requires |s.outstanding| <= |s'.outstanding|
  {
    s'.outstanding[|s.outstanding|..]
  }

  function Joined(q: seq<TcpSegment>): seq<byte> {
    if q == [] then [] else q[0].payload + Joined(q[1..])
  }

  /** Each piece but the last is 1000 bytes; the last is shorter only if the stream or the window ran out. */
  ghost predicate Pieces(q: seq<TcpSegment>, s': Sender, w: nat) {
    && (forall k | 0 <= k < |q| :: |q[k].payload| <= 1000)
    && (forall k | 0 <= k < |q| - 1 :: |q[k].payload| == 1000)
    && (q != [] && |q[|q| - 1].payload| < 1000 ==> Buffer(s'.stream) == [] || s'.flight == w)
  }

  /** What a turn or a call of the loop queues: to both queues the same, together the bytes it took. */
  ghost predicate Cuts(s: Sender, s': Sender, w: nat) {
    && s.outstanding <= s'.outstanding && s'.out == s.out + Added(s, s') && Pieces(Added(s, s'), s', w)
    && s'.stream.all == s.stream.all && s.stream.read <= s'.stream.read
    && Joined(Added(s, s')) == s.stream.all[s.stream.read..s'.stream.read]
  }

  lemma RoundCuts(s: Sender, w: nat, syn: bool)
    requires s.flight < w
    ensures var s' := FillRound(s, w, syn);
            && Cuts(s, s', w) && |Added(s, s')| <= 1
            && (Buffer(s'.stream) != [] && s'.flight < w ==>
                  |Added(s, s')| == 1 && |Added(s, s')[0].payload| == 1000)
  {
    hide Wrap;
    var s' := FillRound(s, w, syn);
    if s'.outstanding != s.outstanding {
      assert Added(s, s')[1..] == [];
      assert Joined(Added(s, s')) == Added(s, s')[0].payload;
    }
  }

  lemma CutsJoin(s: Sender, s1: Sender, s': Sender, w: nat)
    requires Cuts(s, s1, w) && Cuts(s1, s', w)
    requires |Added(s, s1)| == 1 && |Added(s, s1)[0].payload| == 1000
    requires Added(s1, s') == [] ==> s1.stream == s'.stream && s1.flight == s'.flight
    ensures Cuts(s, s', w)
  {
    var first, rest := Added(s, s1), Added(s1, s');
    assert Added(s, s') == first + rest;
    assert (first + rest)[1..] == rest;
    var (all, a, b, d) := (s.stream.all, s.stream.read, s1.stream.read, s'.stream.read);
    assert all[a..b] + all[b..d] == all[a..d];
    assert Joined(first) == first[0].payload by { assert first[1..] == []; }
  }

  lemma {:induction false} FillLoopCuts(s: Sender, w: nat, syn: bool)
    requires s.flight < w
    ensures Cuts(s, FillLoop(s, w, syn), w)
    ensures FillLoop(s, w, syn).outstanding == s.outstanding ==>
              FillLoop(s, w, syn).stream == s.stream && FillLoop(s, w, syn).flight == s.flight
    decreases w - s.flight
  {
    if s.finSent {
      assert Added(s, s) == [];
    } else {
      hide Cuts, Wrap;
      RoundCuts(s, w, syn);
      RoundQuiet(s, w, syn);
      var s1 := FillRound(s, w, syn);
      if Buffer(s1.stream) != [] && s1.flight < w {
        RoundGrows(s, w, syn);
        hide FillRound;
        FillLoopCuts(s1, w, syn || s.next == 0);
        var s' := FillLoop(s1, w, syn || s.next == 0);
        AddedNone(s1, s', w);
        CutsJoin(s, s1, s', w);
        OutgrowsBoth(s, s1, s', w);
      }
    }
  }

  lemma RoundQuiet(s: Sender, w: nat, syn: bool)
    requires s.flight < w
    ensures var s' := FillRound(s, w, syn);
            s'.outstanding == s.outstanding ==> s'.stream == s.stream && s'.flight == s.flight
  {
    hide Wrap;
  }

  lemma RoundGrows(s: Sender, w: nat, syn: bool)
    requires s.flight < w && Buffer(FillRound(s, w, syn).stream) != []
    ensures FillRound(s, w, syn).flight > s.flight || FillRound(s, w, syn).flight >= w
  {
    hide Wrap;
  }

  lemma AddedNone(s: Sender, s': Sender, w: nat)
    requires Cuts(s, s', w)
    ensures Added(s, s') == [] ==> s'.outstanding == s.outstanding
  {
  }

  lemma OutgrowsBoth(s: Sender, s1: Sender, s': Sender, w: nat)
    requires Cuts(s, s1, w) && Cuts(s1, s', w) && |Added(s, s1)| == 1
    ensures s'.outstanding != s.outstanding
  {
  }

  /**
   The segments one call of `fill_window` queues carry, in order, exactly the bytes it takes from the stream: 1000 each,
   and fewer in the last one only when no byte is left or the peer's window, one if closed, is full.
   */
  lemma FillWindowCuts(s: Sender)
    ensures var (s', w) := (FillWindow(s), if s.window == 0 then 1 else s.window);
            Cuts(s, s', w) && (s'.outstanding == s.outstanding ==> s'.stream == s.stream)
  {
    if OpenWindow(s) > s.flight {
      FillLoopCuts(s, OpenWindow(s), false);
    } else {
      assert Added(s, s) == [];
    }
  }

  // ---------------------------------------------------------------- every run

  ghost predicate Small(q: seq<TcpSegment>) { forall seg <- q :: |seg.payload| <= 1000 }

  ghost predicate SmallSender(s: Sender) { Small(s.out) && Small(s.outstanding) }

  ghost predicate SmallAll(c: CM.Connection) { SmallSender(c.sender) && Small(c.out) }

  lemma FillSmall(s: Sender)
    requires SmallSender(s)
    ensures SmallSender(FillWindow(s))
  {
    FillWindowCuts(s);
    hide FillWindow;
    var s' := FillWindow(s);
    assert s'.outstanding == s.outstanding + Added(s, s');
  }

  lemma {:induction false} PopAckedKeepsTail(s: Sender, ack: nat)
    ensures forall seg <- PopAcked(s, ack).outstanding :: seg in s.outstanding
    decreases |s.outstanding|
  {
    if s.outstanding != [] {
      var seg := s.outstanding[0];
      PopAckedKeepsTail(s.(flight := Less(s.flight, seg.Length()), outstanding := s.outstanding[1..]), ack);
    }
  }

  lemma AckSmall(s: Sender, ackno: u32, window: u16)
    requires SmallSender(s)
    ensures SmallSender(AckReceived(s, ackno, window))
  {
    hide Unwrap;
    var ack := Unwrap(ackno, s.isn, s.next);
    var s1 := s.(window := window, una := ack);
    PopAckedKeepsTail(s1, ack);
    PopAckedFrame(s1, ack);
    hide PopAcked;
  }

  lemma TickSmall(s: Sender, ms: nat)
    requires SmallSender(s)
    ensures SmallSender(SenderModel.Tick(s, ms))
  {
  }

  lemma SendAllSmall(c: CM.Connection)
    requires SmallAll(c)
    ensures SmallAll(CM.SendAll(c))
  {
    hide Wrap;
  }

  lemma ReplySmall(c: CM.Connection, seg: TcpSegment)
    requires SmallAll(c)
    ensures SmallAll(CM.Reply(CM.TakeAck(c, seg), seg))
  {
    if seg.header.ack { AckSmall(c.sender, seg.header.ackno, seg.header.win); }
    hide AckReceived;
    var c1 := CM.TakeAck(c, seg);
    FillSmall(c1.sender);
    hide FillWindow, CM.SendAll;
    var c2 := c1.(sender := FillWindow(c1.sender));
    SendAllSmall(c2);
    SendAllSmall(c2.(sender := SendEmpty(c2.sender)));
  }

  lemma ReceiveSmall(c: CM.Connection, seg: TcpSegment)
    requires SmallAll(c)
    ensures SmallAll(CM.SegmentReceived(c, seg).value)
  {
    hide RM.SegmentReceived, CM.TakeAck, CM.Reply, CM.SendAll;
    SendAllSmall(c.(sinceLast := 0, sender := SendEmpty(c.sender)));
    ReplySmall(c.(sinceLast := 0, receiver := RM.SegmentReceived(c.receiver, seg).value), seg);
  }

  lemma FillAndSendSmall(c: CM.Connection)
    requires SmallAll(c)
    ensures SmallAll(CM.FillAndSend(c))
  {
    FillSmall(c.sender);
    hide FillWindow, CM.SendAll;
    SendAllSmall(c.(sender := FillWindow(c.sender)));
  }

  lemma ConnTickSmall(c: CM.Connection, ms: nat)
    requires SmallAll(c)
    ensures SmallAll(CM.Tick(c, ms))
  {
    TickSmall(c.sender, ms);
    hide SenderModel.Tick, CM.SendAll;
    var c1 := c.(sinceLast := c.sinceLast + ms, sender := SenderModel.Tick(c.sender, ms));
    SendAllSmall(c1);
  }

  lemma StepSmall(c: CM.Connection, e: Event)
    requires SmallAll(c)
    ensures SmallAll(Step(c, e).value)
  {
    hide FillWindow, CM.FillAndSend, CM.SegmentReceived, CM.Tick, CM.SendAll;
    match e
    case Connect => FillAndSendSmall(c);
    case WriteData(data) => FillAndSendSmall(c.(sender := c.sender.(stream := Write(c.sender.stream, data))));
    case EndInput =>
      var s := c.sender.(stream := StreamModel.EndInput(c.sender.stream));
      FillSmall(s);
      SendAllSmall(c.(sender := FillWindow(s)));
    case Tick(ms) => ConnTickSmall(c, ms);
    case Receive(seg) => ReceiveSmall(c, seg);
    case ReadInbound(len) =>
    case Dequeue =>
  }

  /** In every run no segment waiting, outstanding or queued for the wire carries more than 1000 bytes. */
  lemma {:induction false} RunSmall(rt: u16, recvCapacity: nat, sendCapacity: nat, isn: u32, es: seq<Event>)
    ensures var c := Run(CM.NewConnection(rt, recvCapacity, sendCapacity, isn), es).value;
            forall seg <- c.out + c.sender.out + c.sender.outstanding :: |seg.payload| <= 1000
  {
    var c := Run(CM.NewConnection(rt, recvCapacity, sendCapacity, isn), es).value;
    hide Step;
    RunSmallAll(CM.NewConnection(rt, recvCapacity, sendCapacity, isn), es);
    hide Run;
  }

  lemma {:induction false} RunSmallAll(c: CM.Connection, es: seq<Event>)
    requires SmallAll(c)
    ensures SmallAll(Run(c, es).value)
  {
    hide Step, SmallAll;
    if es != [] {
      RunSmallAll(c, es[..|es| - 1]);
      StepSmall(Run(c, es[..|es| - 1]).value, es[|es| - 1]);
    }
  }
}
