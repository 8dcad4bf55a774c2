/** What the sending half of a connection does (tcp_sender.{hh,cc}). */
module SenderModel {
  import opened Types
  import opened WrappingIntegers
  import opened StreamModel

  const MAX_PAYLOAD_SIZE: nat := 1000

  // ---------------------------------------------------------------- the retransmission timer

  datatype Timer = Timer(deadline: nat, elapsed: nat, running: bool)

  predicate Expired(t: Timer) { t.running && t.elapsed >= t.deadline }
  function Start(t: Timer, deadline: nat): Timer { if t.running then t else Timer(deadline, 0, true) }
  function Stop(t: Timer): Timer { Timer(0, 0, false) }
  function Advanced(t: Timer, ms: nat): Timer { if t.running then t.(elapsed := t.elapsed + ms) else t }

  // ---------------------------------------------------------------- the sender

  datatype Sender = Sender(
    isn: u32, initialRto: u16, stream: Stream,
    next: nat,                       // absolute number of the next byte to send
    window: u16, flight: nat,
    una: nat,                        // oldest unacknowledged absolute number
    outstanding: seq<TcpSegment>, out: seq<TcpSegment>,
    timer: Timer, rto: nat, retx: nat,
    finSent: bool)

  function NewSender(capacity: nat, initialRto: u16, isn: u32): Sender {
    Sender(isn, initialRto, NewStream(capacity), 0, 1, 0, 0, [], [], Timer(0, 0, false), initialRto, 0, false)
  }

  function Emit(s: Sender, seg: TcpSegment): Sender {
    s.(out := s.out + [seg], outstanding := s.outstanding + [seg], timer := Start(s.timer, s.rto))
  }

  /** Take `n` further sequence numbers into flight. */
  function Occupy(s: Sender, n: nat): Sender { s.(next := s.next + n, flight := s.flight + n) }

  /** The bytes a segment may carry, and the sender after taking them from the stream. */
  function Load(s: Sender, w: nat): (seq<byte>, Sender)
    requires s.flight <= w
  {
    var want := Min(w - s.flight, MAX_PAYLOAD_SIZE);
    var payload := Peek(s.stream, want);
    (payload, Occupy(s.(stream := Pop(s.stream, want)), |payload|))
  }

  /** FIN is due: the stream is over and the window has room for one more number. */
  predicate FinDue(s: Sender, w: nat) { Eof(s.stream) && s.flight < w }

  /** One turn of the loop of `fill_window`. `syn` is the flag left over in the segment object. */
  function FillRound(s: Sender, w: nat, syn: bool): Sender
    requires s.flight < w
  {
    var begun := if s.next == 0 then Occupy(s, 1) else s;
    var (payload, loaded) := Load(begun, w);
    var fin := FinDue(loaded, w);
    var closed := if fin then Occupy(loaded, 1).(finSent := true) else loaded;
    var header := BlankSegment(Wrap(s.next, s.isn)).header.(syn := syn || s.next == 0, fin := fin);
    if payload != [] || header.syn || fin then Emit(closed, TcpSegment(header, payload)) else closed
  }

  function FillLoop(s: Sender, w: nat, syn: bool): Sender
    requires s.flight < w
    decreases w - s.flight
  {
    if s.finSent then s
    else
      var s' := FillRound(s, w, syn);
      if Buffer(s'.stream) != [] && s'.flight < w then FillLoop(s', w, syn || s.next == 0) else s'
  }

  /** The peer's window, a closed one counted as one byte. */
  function OpenWindow(s: Sender): nat { if s.window == 0 then 1 else s.window }

  function FillWindow(s: Sender): Sender {
    if OpenWindow(s) <= s.flight then s else FillLoop(s, OpenWindow(s), false)
  }

  /** `_bytes_in_flight - len` in 64-bit unsigned arithmetic. */
  function Less(flight: nat, len: nat): nat {
    if len <= flight then flight - len else (flight - len) % TWO_64
  }

  /** Drop segments from the front while they are acknowledged as a whole. */
  function PopAcked(s: Sender, ack: nat): Sender
    decreases |s.outstanding|
  {
    if s.outstanding == [] then s
    else
      var seg := s.outstanding[0];
      if ack >= Unwrap(seg.header.seqno, s.isn, s.next) + seg.Length() then
        PopAcked(s.(flight := Less(s.flight, seg.Length()), outstanding := s.outstanding[1..]), ack)
      else s
  }

  function AckReceived(s: Sender, ackno: u32, window: u16): Sender {
    var ack := Unwrap(ackno, s.isn, s.next);
    var s1 := s.(window := window);
    if ack <= s.una || ack > s.next then s1
    else
      var s2 := PopAcked(s1.(una := ack), ack);
      s2.(rto := s.initialRto, retx := 0,
          timer := if s2.outstanding == [] then Stop(s2.timer) else Start(Stop(s2.timer), s.initialRto))
  }

  function Tick(s: Sender, ms: nat): Sender {
    var s1 := s.(timer := Advanced(s.timer, ms));
    if Expired(s1.timer) && s.outstanding != [] then
      var s2 := s1.(out := s.out + [s.outstanding[0]]);
      var s3 := if s.window != 0 then s2.(retx := s.retx + 1, rto := s.rto * 2 % TWO_64) else s2;
      s3.(timer := Start(Stop(s3.timer), s3.rto))
    else s1
  }

  function SendEmpty(s: Sender): Sender {
    s.(out := s.out + [BlankSegment(Wrap(s.next, s.isn))])
  }
}
