/** What one endpoint does: a sender, a receiver and the calls that drive them (tcp_connection.{hh,cc}). */
module ConnectionModel {
  import opened Types
  import opened WrappingIntegers
  import opened StreamModel
  import SM = SenderModel
  import RM = ReceiverModel
  import opened TcpStateModel

  const MAX_RETX_ATTEMPTS: nat := 8

  datatype Connection = Connection(
    rtTimeout: u16, receiver: RM.Receiver, sender: SM.Sender,
    out: seq<TcpSegment>, linger: bool, sinceLast: nat)

  function NewConnection(rtTimeout: u16, recvCapacity: nat, sendCapacity: nat, isn: u32): Connection {
    Connection(rtTimeout, RM.NewReceiver(recvCapacity), SM.NewSender(sendCapacity, rtTimeout, isn), [], true, 0)
  }

  /** Fill in the fields that come from the receiver: the acknowledgment and the window, cut to 16 bits. */
  function Stamp(seg: TcpSegment, r: RM.Receiver): TcpSegment {
    var ackno := RM.Ackno(r);
    var win := Min(RM.WindowSize(r), TWO_16 - 1);
    if ackno.Some? then seg.(header := seg.header.(ack := true, ackno := ackno.value, win := win))
    else seg.(header := seg.header.(win := win))
  }

  function StampAll(q: seq<TcpSegment>, r: RM.Receiver): seq<TcpSegment> {
    seq(|q|, i requires 0 <= i < |q| => Stamp(q[i], r))
  }

  function SendAll(c: Connection): Connection {
    c.(out := c.out + StampAll(c.sender.out, c.receiver), sender := c.sender.(out := []))
  }

  /** Whatever is at the front of the sender's queue goes out as a reset. */
  function SendRst(c: Connection): Connection {
    var s := SM.SendEmpty(c.sender);
    var seg := s.out[0];
    c.(sender := s.(out := s.out[1..]), out := c.out + [seg.(header := seg.header.(rst := true))])
  }

  function SetErrors(c: Connection): Connection {
    var r := c.receiver.reassembly;
    c.(sender := c.sender.(stream := SetError(c.sender.stream)),
       receiver := c.receiver.(reassembly := r.(out := SetError(r.out))))
  }

  predicate HasError(c: Connection) { c.sender.stream.error || c.receiver.reassembly.out.error }

  predicate Active(c: Connection) {
    if HasError(c) then false
    else if c.linger && c.sinceLast < 10 * c.rtTimeout then true
    else if c.sender.flight != 0 then true
    else !(c.sender.stream.ended && c.receiver.reassembly.out.ended)
  }

  function State(c: Connection): TcpState { Summarize(c.sender, c.receiver, Active(c), c.linger) }

  predicate IsKeepAlive(c: Connection, seg: TcpSegment) {
    && RM.Ackno(c.receiver).Some? && seg.Length() == 0
    && seg.header.seqno == Advance(RM.Ackno(c.receiver).value, -1)
  }

  /** The acknowledgment goes to the sender; an inbound stream that ended first cancels lingering. */
  function TakeAck(c: Connection, seg: TcpSegment): Connection {
    var s := if seg.header.ack then SM.AckReceived(c.sender, seg.header.ackno, seg.header.win) else c.sender;
    c.(sender := s, linger := c.linger && !(c.receiver.reassembly.out.ended && !Eof(s.stream)))
  }

  /** Send what the window allows, or a bare acknowledgment if the segment occupied any number. */
  function Reply(c: Connection, seg: TcpSegment): Connection {
    var c1 := c.(sender := SM.FillWindow(c.sender));
    if c1.sender.out != [] then SendAll(c1)
    else if seg.Length() != 0 then SendAll(c1.(sender := SM.SendEmpty(c1.sender)))
    else c1
  }

  function SegmentReceived(c0: Connection, seg: TcpSegment): Outcome<Connection> {
    var c := c0.(sinceLast := 0);
    if seg.header.rst then Returned(SetErrors(c))
    else if IsKeepAlive(c, seg) then Returned(SendAll(c.(sender := SM.SendEmpty(c.sender))))
    else if State(c) == LISTEN && !seg.header.syn then Returned(c)
    else
      match RM.SegmentReceived(c.receiver, seg)
      case Thrown(r) => Thrown(c.(receiver := r))
      case Returned(r) => Returned(Reply(TakeAck(c.(receiver := r), seg), seg))
  }

  function FillAndSend(c: Connection): Connection { SendAll(c.(sender := SM.FillWindow(c.sender))) }

  function Connect(c: Connection): Connection { FillAndSend(c) }

  function WriteData(c: Connection, data: seq<byte>): Connection {
    FillAndSend(c.(sender := c.sender.(stream := Write(c.sender.stream, data))))
  }

  /** The segments stay with the sender unless the first one waiting carries FIN. */
  function EndInputStream(c: Connection): Connection {
    var s := SM.FillWindow(c.sender.(stream := EndInput(c.sender.stream)));
    var c1 := c.(sender := s);
    if s.out == [] || !s.out[0].header.fin then c1 else SendAll(c1)
  }

  function Tick(c: Connection, ms: nat): Connection {
    var c1 := c.(sinceLast := c.sinceLast + ms, sender := SM.Tick(c.sender, ms));
    if c1.sender.retx > MAX_RETX_ATTEMPTS then SetErrors(SendRst(c1)) else SendAll(c1)
  }

  /** The reader takes up to `len` bytes from the inbound stream. */
  function ReadInbound(c: Connection, len: nat): Connection {
    var r := c.receiver.reassembly;
    c.(receiver := c.receiver.(reassembly := r.(out := Pop(r.out, len))))
  }

  /** The owner takes the next segment to put on the wire. */
  function Dequeue(c: Connection): Connection {
    if c.out == [] then c else c.(out := c.out[1..])
  }
}
