/** What every call on an endpoint keeps, whatever segments arrive. */
module ConnectionInvariants {
  import opened Types
  import opened WrappingIntegers
  import opened StreamModel
  import opened SenderModel
  import opened SenderInvariants
  import RA = ReassemblyModel
  import RM = ReceiverModel
  import CM = ConnectionModel
  import opened TcpStateModel

  /** Before SYN nothing was written and the window is still the initial one, so SYN cannot stick. */
  ghost predicate SenderReady(s: Sender) {
    && Inv(s) && Filled(s, OpenWindow(s))
    && (s.next == 0 ==> s.window == 1 && s.stream.all == [] && !s.stream.ended)
  }

  ghost predicate ConnInv(c: CM.Connection) {
    && SenderReady(c.sender) && RA.Valid(c.receiver.reassembly)
    && forall seg <- c.out :: Authentic(seg, c.sender)
  }

  /** The sequence numbers used so far fit in 64 bits. */
  predicate Fits(s: Sender) { s.next < TWO_64 }

  lemma NewConnectionInv(rtTimeout: u16, recvCapacity: nat, sendCapacity: nat, isn: u32)
    ensures ConnInv(CM.NewConnection(rtTimeout, recvCapacity, sendCapacity, isn))
  {
    NewSenderInv(sendCapacity, rtTimeout, isn);
  }

  // ---------------------------------------------------------------- the sender, call by call

  lemma FillReady(s: Sender)
    requires Inv(s) && (s.next == 0 ==> OpenWindow(s) == 1 || s.stream.all == [])
    ensures SenderReady(FillWindow(s)) && Continues(s, FillWindow(s)) && FillWindow(s).next > 0
    ensures FillWindow(s).stream.all == s.stream.all && FillWindow(s).stream.ended == s.stream.ended
  {
    hide Inv;
    FillWindowKeeps(s);
  }

  /** A call that changes no number, no queue, no window and no byte of the stream leaves the sender ready. */
  lemma ReadyFrame(s: Sender, s': Sender)
    requires SenderReady(s) && Inv(s')
    requires s'.next == s.next && s'.flight == s.flight && s'.window == s.window && s'.finSent == s.finSent
    requires s'.stream == s.stream.(error := s'.stream.error)
    ensures SenderReady(s')
  {
  }

  lemma TickReady(s: Sender, ms: nat)
    requires SenderReady(s)
    ensures SenderReady(Tick(s, ms)) && Continues(s, Tick(s, ms))
  {
    TickKeeps(s, ms);
    hide Inv;
    ReadyFrame(s, Tick(s, ms));
  }

  lemma SendEmptyReady(s: Sender)
    requires SenderReady(s)
    ensures SenderReady(SendEmpty(s)) && Continues(s, SendEmpty(s))
  {
    SendEmptyKeeps(s);
    hide Inv;
    ReadyFrame(s, SendEmpty(s));
  }

  /** Taking segments off the queue or marking the stream as failed changes nothing that matters. */
  lemma TrimReady(s: Sender, s': Sender)
    requires SenderReady(s) && s' == s.(out := s'.out, stream := s.stream.(error := s'.stream.error))
    requires forall seg <- s'.out :: seg in s.out
    ensures SenderReady(s') && Continues(s, s')
  {
    FrameKeeps(s, s');
  }

  lemma StreamKeeps(s: Sender, stream: Stream)
    requires Inv(s) && s.stream.all <= stream.all && stream.read == s.stream.read && (s.stream.ended ==> stream.ended)
    ensures Inv(s.(stream := stream)) && Continues(s, s.(stream := stream))
  {
    FrameKeeps(s, s.(stream := stream));
  }

  // ---------------------------------------------------------------- from the sender's queue to the wire

  /** Stamping and resetting change neither the numbers, the flags SYN and FIN, nor the payload. */
  ghost predicate SameContent(seg: TcpSegment, seg': TcpSegment) {
    && seg'.payload == seg.payload && seg'.header.seqno == seg.header.seqno
    && seg'.header.syn == seg.header.syn && seg'.header.fin == seg.header.fin
  }

  lemma SameContentAuthentic(seg: TcpSegment, seg': TcpSegment, s: Sender)
    requires Authentic(seg, s) && SameContent(seg, seg')
    ensures Authentic(seg', s)
  {
    var a: nat :| Placed(seg, a, s);
    assert Placed(seg', a, s);
  }

  lemma SendAllInv(c: CM.Connection)
    requires ConnInv(c)
    ensures ConnInv(CM.SendAll(c)) && Continues(c.sender, CM.SendAll(c).sender)
  {
    var c' := CM.SendAll(c);
    TrimReady(c.sender, c'.sender);
    hide SenderReady, Authentic, Placed;
    forall seg <- c'.out ensures Authentic(seg, c'.sender) {
      if seg in c.out {
        AuthenticContinues(seg, c.sender, c'.sender);
      } else {
        var i :| 0 <= i < |c.sender.out| && seg == CM.Stamp(c.sender.out[i], c.receiver);
        OutAuthentic(c.sender, c.sender.out[i]);
        SameContentAuthentic(c.sender.out[i], seg, c.sender);
        AuthenticContinues(seg, c.sender, c'.sender);
      }
    }
  }

  lemma OutAuthentic(s: Sender, seg: TcpSegment)
    requires SenderReady(s) && seg in s.out
    ensures Authentic(seg, s)
  {
  }

  /** Replacing the sender by one that continues it keeps what was sent before. */
  lemma SwapSender(c: CM.Connection, s: Sender)
    requires ConnInv(c) && SenderReady(s) && Continues(c.sender, s)
    ensures ConnInv(c.(sender := s))
  {
    hide SenderReady, Authentic;
    forall seg <- c.out ensures Authentic(seg, s) { AuthenticContinues(seg, c.sender, s); }
  }

  // ---------------------------------------------------------------- the connection, call by call

  /** The calls that fill the window: the sender may have changed first, as long as it stays in order. */
  lemma FillInv(c: CM.Connection, s: Sender)
    requires ConnInv(c) && Inv(s) && Continues(c.sender, s)
    requires s.next == 0 ==> OpenWindow(s) == 1 || s.stream.all == []
    ensures ConnInv(c.(sender := FillWindow(s))) && Continues(c.sender, FillWindow(s))
  {
    FillReady(s);
    hide SenderReady, FillWindow;
    SwapSender(c, FillWindow(s));
  }

  lemma SendEmptyAllInv(c: CM.Connection)
    requires ConnInv(c)
    ensures var c' := CM.SendAll(c.(sender := SendEmpty(c.sender)));
            ConnInv(c') && Continues(c.sender, c'.sender)
  {
    hide SenderReady, Authentic;
    SendEmptyReady(c.sender);
    SwapSender(c, SendEmpty(c.sender));
    SendAllInv(c.(sender := SendEmpty(c.sender)));
  }

  lemma ReplyInv(c: CM.Connection, s: Sender, seg: TcpSegment)
    requires ConnInv(c) && Inv(s) && Continues(c.sender, s)
    requires s.next == 0 ==> OpenWindow(s) == 1 || s.stream.all == []
    ensures ConnInv(CM.Reply(c.(sender := s), seg)) && Continues(c.sender, CM.Reply(c.(sender := s), seg).sender)
  {
    FillInv(c, s);
    hide Inv, FillWindow, SenderReady, Authentic;
    var c1 := c.(sender := FillWindow(s));
    if c1.sender.out != [] {
      SendAllInv(c1);
    } else if seg.Length() != 0 {
      SendEmptyAllInv(c1);
    }
  }

  lemma AckInv(s: Sender, ackno: u32, window: u16)
    requires SenderReady(s) && Fits(s)
    ensures var s' := AckReceived(s, ackno, window);
            Inv(s') && Continues(s, s') && s'.stream == s.stream && (s'.next == 0 ==> s'.stream.all == [])
  {
    AckReceivedKeeps(s, ackno, window);
  }

  lemma ReceiverValid(r: RM.Receiver, seg: TcpSegment)
    requires RA.Valid(r.reassembly) && RM.SegmentReceived(r, seg).Returned?
    ensures RA.Valid(RM.SegmentReceived(r, seg).value.reassembly)
  {
    var start := if seg.header.syn then Advance(seg.header.seqno, 1) else seg.header.seqno;
    var isn := if seg.header.syn then Some(seg.header.seqno) else r.isn;
    if isn.Some? && isn.value != start {
      RA.PushCovers(r.reassembly, seg.payload, RM.StreamIndex(start, isn.value, r.reassembly.cur), seg.header.fin);
    }
  }

  lemma RespondInv(c: CM.Connection, seg: TcpSegment)
    requires ConnInv(c) && Fits(c.sender)
    ensures var c' := CM.Reply(CM.TakeAck(c, seg), seg);
            ConnInv(c') && Continues(c.sender, c'.sender)
  {
    var c1 := CM.TakeAck(c, seg);
    if seg.header.ack { AckInv(c.sender, seg.header.ackno, seg.header.win); }
    var c0 := c.(linger := c1.linger);
    assert c1 == c0.(sender := c1.sender);
    ReplyInv(c0, c1.sender, seg);
  }

  lemma SetErrorsInv(c: CM.Connection)
    requires ConnInv(c)
    ensures ConnInv(CM.SetErrors(c)) && Continues(c.sender, CM.SetErrors(c).sender)
  {
    var c' := CM.SetErrors(c);
    TrimReady(c.sender, c'.sender);
    hide SenderReady;
    SwapSender(c, c'.sender);
  }

  lemma SegmentReceivedInv(c: CM.Connection, seg: TcpSegment)
    requires ConnInv(c) && Fits(c.sender) && CM.SegmentReceived(c, seg).Returned?
    ensures var c' := CM.SegmentReceived(c, seg).value;
            ConnInv(c') && Continues(c.sender, c'.sender)
  {
    hide SenderReady;
    var c0 := c.(sinceLast := 0);
    if seg.header.rst {
      SetErrorsInv(c0);
    } else if CM.IsKeepAlive(c0, seg) {
      SendEmptyAllInv(c0);
    } else if !(CM.State(c0) == LISTEN && !seg.header.syn) {
      ReceiverValid(c0.receiver, seg);
      RespondInv(c0.(receiver := RM.SegmentReceived(c0.receiver, seg).value), seg);
    }
  }

  lemma FillAndSendInv(c: CM.Connection, s: Sender)
    requires ConnInv(c) && Inv(s) && Continues(c.sender, s)
    requires s.next == 0 ==> OpenWindow(s) == 1 || s.stream.all == []
    ensures var c' := CM.FillAndSend(c.(sender := s));
            ConnInv(c') && Continues(c.sender, c'.sender)
  {
    FillInv(c, s);
    hide Inv, FillWindow, SenderReady;
    SendAllInv(c.(sender := FillWindow(s)));
  }

  lemma WriteInv(c: CM.Connection, data: seq<byte>)
    requires ConnInv(c)
    ensures ConnInv(CM.WriteData(c, data)) && Continues(c.sender, CM.WriteData(c, data).sender)
  {
    StreamKeeps(c.sender, Write(c.sender.stream, data));
    FillAndSendInv(c, c.sender.(stream := Write(c.sender.stream, data)));
  }

  lemma EndInputInv(c: CM.Connection)
    requires ConnInv(c)
    ensures ConnInv(CM.EndInputStream(c)) && Continues(c.sender, CM.EndInputStream(c).sender)
  {
    var s := c.sender.(stream := EndInput(c.sender.stream));
    StreamKeeps(c.sender, s.stream);
    FillInv(c, s);
    hide SenderReady, FillWindow;
    SendAllInv(c.(sender := FillWindow(s)));
  }

  lemma SendRstInv(c: CM.Connection)
    requires ConnInv(c)
    ensures ConnInv(CM.SendRst(c)) && Continues(c.sender, CM.SendRst(c).sender)
  {
    var c' := CM.SendRst(c);
    var s := SendEmpty(c.sender);
    SendEmptyReady(c.sender);
    TrimReady(s, c'.sender);
    OutAuthentic(s, s.out[0]);
    hide SenderReady, Authentic, Placed;
    var seg := s.out[0].(header := s.out[0].header.(rst := true));
    SameContentAuthentic(s.out[0], seg, s);
    AuthenticContinues(seg, s, c'.sender);
    forall x <- c.out ensures Authentic(x, c'.sender) {
      AuthenticContinues(x, c.sender, s);
      AuthenticContinues(x, s, c'.sender);
    }
  }

  lemma TickInv(c: CM.Connection, ms: nat)
    requires ConnInv(c)
    ensures ConnInv(CM.Tick(c, ms)) && Continues(c.sender, CM.Tick(c, ms).sender)
  {
    TickReady(c.sender, ms);
    hide SenderReady, Tick;
    var c1 := c.(sinceLast := c.sinceLast + ms, sender := Tick(c.sender, ms));
    SwapSender(c.(sinceLast := c.sinceLast + ms), c1.sender);
    if c1.sender.retx > CM.MAX_RETX_ATTEMPTS {
      SendRstInv(c1);
      SetErrorsInv(CM.SendRst(c1));
    } else {
      SendAllInv(c1);
    }
  }

  lemma ReadInboundInv(c: CM.Connection, len: nat)
    requires ConnInv(c)
    ensures ConnInv(CM.ReadInbound(c, len)) && CM.ReadInbound(c, len).sender == c.sender
  {
  }
}
