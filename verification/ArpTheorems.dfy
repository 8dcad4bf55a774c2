/** The interface over whole runs: no datagram lost or doubled, requests spaced out, addresses fresh. */
module ArpTheorems {
  import opened Types
  import opened ArpModel

  datatype Event =
    | Send(dgram: Ipv4Datagram, hop: u32)
    | Recv(frame: Frame)
    | Pass(ms: nat)
    | Dequeue

  /** A frame queued at some time on behalf of a next hop. */
  datatype Sent = Sent(at: nat, hop: u32, frame: Frame)

  /** An ARP message read at some time. */
  datatype Heard = Heard(ip: u32, mac: Mac, at: nat)

  /** The interface, what callers gave it, all it ever queued, and the ARP messages it read. */
  datatype History = History(i: Interface, given: multiset<Waiting>, log: seq<Sent>, heard: set<Heard>)

  function Start(mac: Mac, ip: u32): History { History(NewInterface(mac, ip), multiset{}, [], {}) }

  function Queued(i: Interface, i': Interface, hop: u32): seq<Sent> {
    if |i.out| <= |i'.out| then
      seq(|i'.out| - |i.out|, k requires 0 <= k < |i'.out| - |i.out| => Sent(i.now, hop, i'.out[|i.out| + k]))
    else []
  }

  function Step(h: History, e: Event): History {
    match e
    case Send(dgram, hop) =>
      var i := SendDatagram(h.i, dgram, hop);
      History(i, h.given + multiset{Waiting(dgram, hop)}, h.log + Queued(h.i, i, hop), h.heard)
    case Recv(f) =>
      if Accepts(h.i, f) then
        var (msg, i) := (f.payload.msg, RecvFrame(h.i, f).0);
        History(i, h.given, h.log + Queued(h.i, i, msg.senderIp),
                h.heard + {Heard(msg.senderIp, msg.senderMac, h.i.now)})
      else h.(i := RecvFrame(h.i, f).0)
    case Pass(ms) => h.(i := Tick(h.i, ms))
    case Dequeue => if h.i.out == [] then h else h.(i := h.i.(out := h.i.out[1..]))
  }

  function Run(h: History, es: seq<Event>): History {
    if es == [] then h else Step(Run(h, es[..|es| - 1]), es[|es| - 1])
  }

  // ---------------------------------------------------------------- what holds throughout

  /** The datagrams that went out in IPv4 frames, with their next hops. */
  function SentDatagrams(log: seq<Sent>): multiset<Waiting> {
    if log == [] then multiset{}
    else
      var last := log[|log| - 1];
      SentDatagrams(log[..|log| - 1]) +
      (if last.frame.payload.IpPayload? then multiset{Waiting(last.frame.payload.dgram, last.hop)} else multiset{})
  }

  predicate IsRequest(x: Sent) { x.frame.payload.ArpPayload? && x.frame.payload.msg.opcode == OPCODE_REQUEST }

  /** The frames not yet taken are the end of the log. */
  ghost predicate QueueIsTail(h: History) {
    && |h.i.out| <= |h.log|
    && forall k | 0 <= k < |h.i.out| :: h.i.out[k] == h.log[|h.log| - |h.i.out| + k].frame
  }

  ghost predicate Conserved(h: History) {
    h.given == SentDatagrams(h.log) + multiset(h.i.pending)
  }

  /** A request younger than the blocking time still blocks its address. */
  ghost predicate Blocked(h: History, x: Sent) {
    IsRequest(x) ==>
      var ip := x.frame.payload.msg.targetIp;
      x.at + 5000 <= h.i.now || (ip in h.i.blocking && x.at <= h.i.blocking[ip] <= h.i.now)
  }

  /** Two requests for the same address are at least the blocking time apart. */
  ghost predicate Apart(x: Sent, y: Sent) {
    IsRequest(x) && IsRequest(y) && x.frame.payload.msg.targetIp == y.frame.payload.msg.targetIp ==>
      x.at + 5000 <= y.at
  }

  ghost predicate Spaced(log: seq<Sent>) { forall j, k | 0 <= j < k < |log| :: Apart(log[j], log[k]) }

  /** The cache holds only what was heard within the validity time. */
  ghost predicate CacheFresh(h: History) {
    forall ip <- h.i.mapping ::
      var l := h.i.mapping[ip];
      Heard(ip, l.mac, l.at) in h.heard && l.at <= h.i.now < l.at + 30000
  }

  /** The IPv4 frame went to an address its next hop had announced less than the validity time before. */
  ghost predicate WellAddressed(x: Sent, heard: set<Heard>) {
    x.frame.payload.IpPayload? ==>
      exists t: nat :: Heard(x.hop, x.frame.dst, t) in heard && t <= x.at < t + 30000
  }

  ghost predicate Inv(h: History) {
    && QueueIsTail(h) && Conserved(h) && Spaced(h.log) && CacheFresh(h)
    && (forall k | 0 <= k < |h.log| :: Blocked(h, h.log[k]))
    && (forall k | 0 <= k < |h.log| :: WellAddressed(h.log[k], h.heard))
  }

  // ---------------------------------------------------------------- bookkeeping lemmas

  lemma {:induction false} SentConcat(a: seq<Sent>, b: seq<Sent>)
    ensures SentDatagrams(a + b) == SentDatagrams(a) + SentDatagrams(b)
    decreases |b|
  {
    if b == [] {
      assert a + b == a;
    } else {
      assert (a + b)[..|a + b| - 1] == a + b[..|b| - 1];
      SentConcat(a, b[..|b| - 1]);
    }
  }

  lemma {:induction false} SelectSplits(ws: seq<Waiting>, hop: u32)
    ensures multiset(ws) == multiset(Select(ws, hop, true)) + multiset(Select(ws, hop, false))
    ensures forall w <- Select(ws, hop, true) :: w.hop == hop
    ensures forall w <- Select(ws, hop, false) :: w.hop != hop
  {
    if ws != [] {
      assert ws == ws[..|ws| - 1] + [ws[|ws| - 1]];
      SelectSplits(ws[..|ws| - 1], hop);
    }
  }

  /** With the address known, each waiting datagram goes out in one IPv4 frame and nothing else changes. */
  lemma {:induction false} SendEachKnown(i: Interface, ws: seq<Waiting>, hop: u32)
    requires hop in i.mapping && forall w <- ws :: w.hop == hop
    ensures var i' := SendEach(i, ws);
            && i' == i.(out := i'.out) && |i'.out| == |i.out| + |ws| && i.out <= i'.out
            && forall k | 0 <= k < |ws| :: i'.out[|i.out| + k] == IpFrame(i, i.mapping[hop].mac, ws[k].dgram)
  {
    if ws != [] { SendEachKnown(i, ws[..|ws| - 1], hop); }
  }

  lemma {:induction false} SentAll(log: seq<Sent>, ws: seq<Waiting>)
    requires |log| == |ws|
    requires forall k | 0 <= k < |ws| ::
               log[k].frame.payload == IpPayload(ws[k].dgram) && log[k].hop == ws[k].hop
    ensures SentDatagrams(log) == multiset(ws)
  {
    if ws != [] {
      assert ws == ws[..|ws| - 1] + [ws[|ws| - 1]];
      SentAll(log[..|log| - 1], ws[..|ws| - 1]);
    }
  }

  // ---------------------------------------------------------------- one event

  /** Frames queued now at the end of the log, none of them a request for an address still blocked. */
  lemma LogGrows(h: History, more: seq<Sent>)
    requires Spaced(h.log) && Spaced(more)
    requires forall k | 0 <= k < |h.log| :: Blocked(h, h.log[k])
    requires forall x <- more :: x.at == h.i.now && (IsRequest(x) ==> x.frame.payload.msg.targetIp !in h.i.blocking)
    ensures Spaced(h.log + more)
  {
    var log := h.log + more;
    forall j, k | 0 <= j < k < |log| ensures Apart(log[j], log[k]) {
      if j < |h.log| <= k {
        assert Blocked(h, h.log[j]);
        assert log[k] in more;
      } else if |h.log| <= j {
        assert Apart(more[j - |h.log|], more[k - |h.log|]);
      } else {
        assert Apart(h.log[j], h.log[k]);
      }
    }
  }

  /** Old requests stay blocked while the clock stands still and no address is unblocked. */
  lemma BlockedKept(h: History, h': History, x: Sent)
    requires Blocked(h, x) && h'.i.now == h.i.now
    requires forall ip <- h.i.blocking :: ip in h'.i.blocking && h'.i.blocking[ip] == h.i.blocking[ip]
    ensures Blocked(h', x)
  {
  }

  lemma TailExtends(h: History, h': History, hop: u32)
    requires QueueIsTail(h) && h.i.out <= h'.i.out && h'.log == h.log + Queued(h.i, h'.i, hop)
    ensures QueueIsTail(h')
  {
    var more := Queued(h.i, h'.i, hop);
    assert |more| == |h'.i.out| - |h.i.out| && |h'.log| - |h'.i.out| == |h.log| - |h.i.out|;
    forall k | 0 <= k < |h'.i.out| ensures h'.i.out[k] == h'.log[|h'.log| - |h'.i.out| + k].frame {
      if k < |h.i.out| {
        assert h'.i.out[k] == h.i.out[k];
      } else {
        assert h'.i.out[k] == more[k - |h.i.out|].frame;
      }
    }
  }

  /** An event that queues frames and keeps the books keeps the invariant. */
  lemma Extend(h: History, h': History, hop: u32)
    requires var more := Queued(h.i, h'.i, hop);
             Inv(h) && h'.log == h.log + more && h.i.out <= h'.i.out && h.heard <= h'.heard && h'.i.now == h.i.now
    requires Conserved(h') && CacheFresh(h') && Spaced(Queued(h.i, h'.i, hop))
    requires forall ip <- h.i.blocking :: ip in h'.i.blocking && h'.i.blocking[ip] == h.i.blocking[ip]
    requires forall x <- Queued(h.i, h'.i, hop) :: IsRequest(x) ==> x.frame.payload.msg.targetIp !in h.i.blocking
    requires forall x <- Queued(h.i, h'.i, hop) :: Blocked(h', x) && WellAddressed(x, h'.heard)
    ensures Inv(h')
  {
    var more := Queued(h.i, h'.i, hop);
    LogGrows(h, more);
    TailExtends(h, h', hop);
    hide Queued, QueueIsTail, IsRequest, Spaced, Conserved, CacheFresh;
    forall k | 0 <= k < |h'.log| ensures Blocked(h', h'.log[k]) && WellAddressed(h'.log[k], h'.heard) {
      if k < |h.log| {
        BlockedKept(h, h', h.log[k]);
        assert WellAddressed(h.log[k], h.heard);
      } else {
        assert h'.log[k] in more;
      }
    }
  }

  /** What `send_datagram` queues: the datagram, a request, or nothing. */
  lemma SendQueues(i: Interface, dgram: Ipv4Datagram, hop: u32)
    ensures Queued(i, SendDatagram(i, dgram, hop), hop) ==
            if hop in i.mapping then [Sent(i.now, hop, IpFrame(i, i.mapping[hop].mac, dgram))]
            else if hop in i.blocking then []
            else [Sent(i.now, hop, Request(i, hop))]
    ensures multiset(SendDatagram(i, dgram, hop).pending) + SentDatagrams(Queued(i, SendDatagram(i, dgram, hop), hop)) ==
            multiset(i.pending) + multiset{Waiting(dgram, hop)}
  {
    var more := Queued(i, SendDatagram(i, dgram, hop), hop);
    assert |more| <= 1 && (more != [] ==> more == [more[0]] && SentDatagrams(more[..0]) == multiset{});
  }

  lemma SendInv(h: History, dgram: Ipv4Datagram, hop: u32)
    requires Inv(h)
    ensures Inv(Step(h, Send(dgram, hop)))
  {
    var h' := Step(h, Send(dgram, hop));
    var more := Queued(h.i, h'.i, hop);
    SendQueues(h.i, dgram, hop);
    SentConcat(h.log, more);
    hide Queued, SentDatagrams, Spaced;
    assert Spaced(more) by { OneIsSpaced(more); }
    Extend(h, h', hop);
  }

  lemma OneIsSpaced(more: seq<Sent>)
    requires |more| <= 1
    ensures Spaced(more)
  {
  }

  lemma LearnFresh(h: History, msg: ArpMessage)
    requires CacheFresh(h)
    ensures CacheFresh(h.(i := Learn(h.i, msg.senderIp, msg.senderMac),
                          heard := h.heard + {Heard(msg.senderIp, msg.senderMac, h.i.now)}))
  {
  }

  /** What reading an ARP message queues: frames to its sender, never a request. */
  ghost predicate ToSender(x: Sent, now: nat, hop: u32, mac: Mac) {
    x.at == now && x.hop == hop && !IsRequest(x) && (x.frame.payload.IpPayload? ==> x.frame.dst == mac)
  }

  lemma SendEachQueues(i: Interface, ws: seq<Waiting>, hop: u32)
    requires hop in i.mapping && forall w <- ws :: w.hop == hop
    ensures var i' := SendEach(i, ws);
            && i' == i.(out := i'.out) && i.out <= i'.out && SentDatagrams(Queued(i, i', hop)) == multiset(ws)
            && forall x <- Queued(i, i', hop) :: ToSender(x, i.now, hop, i.mapping[hop].mac)
  {
    hide SendEach, SentDatagrams;
    SendEachKnown(i, ws, hop);
    var more := Queued(i, SendEach(i, ws), hop);
    assert |more| == |ws|;
    forall k | 0 <= k < |ws| ensures more[k] == Sent(i.now, hop, IpFrame(i, i.mapping[hop].mac, ws[k].dgram)) {}
    hide Queued;
    SentAll(more, ws);
  }

  /** An accepted reply sends every datagram that waited for that address, once, and leaves the others waiting. */
  lemma ReplyFlushes(i: Interface, msg: ArpMessage)
    requires msg.opcode == OPCODE_REPLY && msg.senderIp in i.mapping
    ensures var i' := RecvArp(i, msg);
            var more := Queued(i, i', msg.senderIp);
            && i' == i.(out := i'.out, pending := i'.pending) && i.out <= i'.out
            && multiset(i.pending) == SentDatagrams(more) + multiset(i'.pending)
            && (forall w <- i'.pending :: w.hop != msg.senderIp)
            && forall x <- more :: ToSender(x, i.now, msg.senderIp, i.mapping[msg.senderIp].mac)
  {
    hide Select, SendEach, SentDatagrams, ToSender;
    SelectSplits(i.pending, msg.senderIp);
    var rest := i.(pending := Select(i.pending, msg.senderIp, false));
    var ws := Select(i.pending, msg.senderIp, true);
    SendEachQueues(rest, ws, msg.senderIp);
    assert Queued(i, SendEach(rest, ws), msg.senderIp) == Queued(rest, SendEach(rest, ws), msg.senderIp);
  }

  lemma OthersQueue(i: Interface, msg: ArpMessage)
    requires msg.opcode != OPCODE_REPLY && msg.senderIp in i.mapping
    ensures var i' := RecvArp(i, msg);
            var more := Queued(i, i', msg.senderIp);
            && i' == i.(out := i'.out) && i.out <= i'.out && SentDatagrams(more) == multiset{}
            && forall x <- more :: ToSender(x, i.now, msg.senderIp, i.mapping[msg.senderIp].mac)
  {
    var more := Queued(i, RecvArp(i, msg), msg.senderIp);
    assert |more| <= 1 && (more != [] ==> more == [more[0]] && SentDatagrams(more[..0]) == multiset{});
  }

  lemma QuietIsSpaced(more: seq<Sent>)
    requires forall x <- more :: !IsRequest(x)
    ensures Spaced(more)
  {
    forall j, k | 0 <= j < k < |more| ensures Apart(more[j], more[k]) { assert more[j] in more; }
  }

  /** Reading an ARP message: learn first, then answer or flush. */
  lemma RecvArpQueues(i: Interface, msg: ArpMessage)
    ensures var (i1, i') := (Learn(i, msg.senderIp, msg.senderMac), RecvArp(i, msg));
            var more := Queued(i, i', msg.senderIp);
            && msg.senderIp in i1.mapping && i' == i1.(out := i'.out, pending := i'.pending) && i.out <= i'.out
            && multiset(i.pending) == SentDatagrams(more) + multiset(i'.pending)
            && (msg.opcode == OPCODE_REPLY ==> forall w <- i'.pending :: w.hop != msg.senderIp)
            && forall x <- more :: ToSender(x, i.now, msg.senderIp, i1.mapping[msg.senderIp].mac)
  {
    hide SendEach, SentDatagrams, ToSender;
    var i1 := Learn(i, msg.senderIp, msg.senderMac);
    assert RecvArp(i, msg) == RecvArp(i1, msg);
    if msg.opcode == OPCODE_REPLY { ReplyFlushes(i1, msg); } else { OthersQueue(i1, msg); }
    hide RecvArp;
    assert Queued(i, RecvArp(i, msg), msg.senderIp) == Queued(i1, RecvArp(i, msg), msg.senderIp);
  }

  lemma RecvInv(h: History, f: Frame)
    requires Inv(h)
    ensures Inv(Step(h, Recv(f)))
  {
    hide RecvArp, Queued, SentDatagrams, Spaced;
    if Accepts(h.i, f) {
      var msg, h' := f.payload.msg, Step(h, Recv(f));
      var more := Queued(h.i, h'.i, msg.senderIp);
      RecvArpQueues(h.i, msg);
      LearnFresh(h, msg);
      SentConcat(h.log, more);
      forall x <- more ensures !IsRequest(x) && Blocked(h', x) && WellAddressed(x, h'.heard) {
        assert ToSender(x, h.i.now, msg.senderIp, h'.i.mapping[msg.senderIp].mac);
      }
      QuietIsSpaced(more);
      Extend(h, h', msg.senderIp);
    }
  }

  lemma PassInv(h: History, ms: nat)
    requires Inv(h)
    ensures Inv(Step(h, Pass(ms)))
  {
    var h' := Step(h, Pass(ms));
    forall k | 0 <= k < |h.log| ensures Blocked(h', h.log[k]) { assert Blocked(h, h.log[k]); }
  }

  lemma {:induction false} RunInv(mac: Mac, ip: u32, es: seq<Event>)
    ensures Inv(Run(Start(mac, ip), es))
  {
    if es != [] {
      var h := Run(Start(mac, ip), es[..|es| - 1]);
      RunInv(mac, ip, es[..|es| - 1]);
      hide Inv;
      match es[|es| - 1]
      case Send(dgram, hop) => SendInv(h, dgram, hop);
      case Recv(f) => RecvInv(h, f);
      case Pass(ms) => PassInv(h, ms);
      case Dequeue => DequeueInv(h);
    }
  }

  lemma SameBooks(h: History, h': History)
    requires Conserved(h) && CacheFresh(h) && h' == h.(i := h.i.(out := h'.i.out))
    ensures Conserved(h') && CacheFresh(h')
  {
  }

  lemma DequeueInv(h: History)
    requires Inv(h)
    ensures Inv(Step(h, Dequeue))
  {
    hide Spaced, Conserved, CacheFresh, IsRequest;
    var h' := Step(h, Dequeue);
    assert Conserved(h') && CacheFresh(h') by { SameBooks(h, h'); }
    forall k | 0 <= k < |h.log| ensures Blocked(h', h.log[k]) { BlockedKept(h, h', h.log[k]); }
  }
}
