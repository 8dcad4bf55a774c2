/** What the interface hands up and what it sends: each frame, each request and each flush, exactly. */
module ArpAnswers {
  import opened Types
  import opened ArpModel
  import opened ArpTheorems

  // ---------------------------------------------------------------- frames received

  /** The frame is addressed to this interface or to everyone. */
  predicate Addressed(i: Interface, f: Frame) { f.dst == i.mac || f.dst == 0xffff_ffff_ffff }

  /** A datagram is handed up exactly when an IPv4 frame addressed here parses to it, and nothing changes then. */
  lemma HandedUp(i: Interface, f: Frame, d: Ipv4Datagram)
    ensures RecvFrame(i, f).1 == Some(d) <==> Addressed(i, f) && f.ethertype == 0x800 && f.payload == IpPayload(d)
    ensures RecvFrame(i, f).1 == Some(d) ==> RecvFrame(i, f).0 == i
  {
    hide RecvArp;
  }

  /** Only an ARP message addressed here changes the interface. */
  lemma OthersUnchanged(i: Interface, f: Frame)
    requires !(Addressed(i, f) && f.ethertype == 0x806 && f.payload.ArpPayload?)
    ensures RecvFrame(i, f).0 == i
  {
    hide RecvArp;
  }

  /**
   A request is answered exactly when it asks for this interface's address: with one reply, sent to the asker, that
   carries both addresses of this interface and of the asker.
   */
  lemma RequestAnswered(i: Interface, f: Frame)
    requires Addressed(i, f) && f.ethertype == 0x806 && f.payload.ArpPayload? && f.payload.msg.opcode == 1
    ensures var (i', asker, ip) := (RecvFrame(i, f).0, f.payload.msg.senderMac, f.payload.msg.senderIp);
            && i'.pending == i.pending && i'.blocking == i.blocking && i'.now == i.now
            && i'.out == i.out +
               (if f.payload.msg.targetIp == i.ip
                then [Frame(asker, i.mac, 0x806, ArpPayload(ArpMessage(2, i.mac, i.ip, asker, ip)))] else [])
  {
  }

  /** A message that is neither request nor reply teaches its sender's address and does nothing else. */
  lemma OtherOpcodes(i: Interface, msg: ArpMessage)
    requires msg.opcode != 1 && msg.opcode != 2
    ensures RecvArp(i, msg) == i.(mapping := RecvArp(i, msg).mapping)
  {
  }

  // ---------------------------------------------------------------- the order of a flush

  /** Selecting distributes over concatenation, so the selected datagrams keep their order. */
  lemma {:induction false} SelectConcat(a: seq<Waiting>, b: seq<Waiting>, hop: u32, matching: bool)
    ensures Select(a + b, hop, matching) == Select(a, hop, matching) + Select(b, hop, matching)
    decreases |b|
  {
    if b == [] {
      assert a + b == a;
    } else {
      assert (a + b)[..|a + b| - 1] == a + b[..|b| - 1];
      SelectConcat(a, b[..|b| - 1], hop, matching);
    }
  }

  lemma SelectOne(w: Waiting, hop: u32)
    ensures Select([w], hop, true) == (if w.hop == hop then [w] else [])
    ensures Select([w], hop, false) == (if w.hop == hop then [] else [w])
  {
    assert [w][..0] == [];
  }

  /** An accepted reply sends the datagrams waiting for that address oldest first, each in a frame to that address. */
  lemma FlushInOrder(i: Interface, msg: ArpMessage)
    requires msg.opcode == 2
    ensures var (i', ws) := (RecvArp(i, msg), Select(i.pending, msg.senderIp, true));
            var mac := if msg.senderIp in i.mapping then i.mapping[msg.senderIp].mac else msg.senderMac;
            && |i'.out| == |i.out| + |ws| && i.out <= i'.out
            && (forall k | 0 <= k < |ws| :: i'.out[|i.out| + k] == Frame(mac, i.mac, 0x800, IpPayload(ws[k].dgram)))
            && i'.pending == Select(i.pending, msg.senderIp, false)
  {
    var i1 := Learn(i, msg.senderIp, msg.senderMac);
    SelectSplits(i.pending, msg.senderIp);
    hide Select, SendEach;
    SendEachKnown(i1.(pending := Select(i.pending, msg.senderIp, false)), Select(i.pending, msg.senderIp, true), msg.senderIp);
  }

  // ---------------------------------------------------------------- when a request goes out

  predicate RequestFor(x: Sent, hop: u32) {
    x.frame.payload.ArpPayload? && x.frame.payload.msg.opcode == 1 && x.frame.payload.msg.targetIp == hop
  }

  /** A request for the hop went out less than 5000 ms ago. */
  ghost predicate AskedLately(h: History, hop: u32) {
    exists k :: 0 <= k < |h.log| && RequestFor(h.log[k], hop) && h.i.now < h.log[k].at + 5000
  }

  /** The request is the one that blocks the hop, and is less than 5000 ms old. */
  ghost predicate Blocks(h: History, x: Sent, hop: u32) {
    hop in h.i.blocking && RequestFor(x, hop) && x.at == h.i.blocking[hop] <= h.i.now < x.at + 5000
  }

  /** Whatever blocks an address is such a request. */
  ghost predicate BlockTimes(h: History) {
    forall hop <- h.i.blocking :: exists k :: 0 <= k < |h.log| && Blocks(h, h.log[k], hop)
  }

  lemma SendBlocks(h: History, dgram: Ipv4Datagram, hop: u32)
    requires BlockTimes(h)
    ensures BlockTimes(Step(h, Send(dgram, hop)))
  {
    var h' := Step(h, Send(dgram, hop));
    SendQueues(h.i, dgram, hop);
    hide Queued, SentDatagrams;
    forall x <- h'.i.blocking
      ensures exists k :: 0 <= k < |h'.log| && Blocks(h', h'.log[k], x)
    {
      if x in h.i.blocking && h'.i.blocking[x] == h.i.blocking[x] {
        var k :| 0 <= k < |h.log| && Blocks(h, h.log[k], x);
        assert Blocks(h', h'.log[k], x);
      } else {
        assert Blocks(h', h'.log[|h.log|], hop);
      }
    }
  }

  lemma RecvBlocks(h: History, f: Frame)
    requires BlockTimes(h)
    ensures BlockTimes(Step(h, Recv(f)))
  {
    hide RecvArp, Queued, SentDatagrams, ToSender;
    var h' := Step(h, Recv(f));
    if Accepts(h.i, f) { RecvArpQueues(h.i, f.payload.msg); }
    forall x <- h'.i.blocking
      ensures exists k :: 0 <= k < |h'.log| && Blocks(h', h'.log[k], x)
    {
      var k :| 0 <= k < |h.log| && Blocks(h, h.log[k], x);
      assert Blocks(h', h'.log[k], x);
    }
  }

  lemma PassBlocks(h: History, ms: nat)
    requires BlockTimes(h)
    ensures BlockTimes(Step(h, Pass(ms)))
  {
    var h' := Step(h, Pass(ms));
    forall x <- h'.i.blocking ensures exists k :: 0 <= k < |h'.log| && Blocks(h', h'.log[k], x) {
      var k :| 0 <= k < |h.log| && Blocks(h, h.log[k], x);
      assert Blocks(h', h'.log[k], x);
    }
  }

  lemma DequeueBlocks(h: History)
    requires BlockTimes(h)
    ensures BlockTimes(Step(h, Dequeue))
  {
    var h' := Step(h, Dequeue);
    forall x <- h'.i.blocking ensures exists k :: 0 <= k < |h'.log| && Blocks(h', h'.log[k], x) {
      var k :| 0 <= k < |h.log| && Blocks(h, h.log[k], x);
      assert Blocks(h', h'.log[k], x);
    }
  }

  lemma {:induction false} RunBlocks(mac: Mac, ip: u32, es: seq<Event>)
    ensures BlockTimes(Run(Start(mac, ip), es))
  {
    if es != [] {
      var h := Run(Start(mac, ip), es[..|es| - 1]);
      RunBlocks(mac, ip, es[..|es| - 1]);
      hide BlockTimes, Step;
      match es[|es| - 1] {
        case Send(dgram, hop) => SendBlocks(h, dgram, hop);
        case Recv(f) => RecvBlocks(h, f);
        case Pass(ms) => PassBlocks(h, ms);
        case Dequeue => DequeueBlocks(h);
      }
    }
  }

  /** An address blocks requests exactly while the last one is less than 5000 ms old. */
  lemma BlockedExactly(mac: Mac, ip: u32, es: seq<Event>, hop: u32)
    ensures var h := Run(Start(mac, ip), es);
            hop in h.i.blocking <==> AskedLately(h, hop)
  {
    var h := Run(Start(mac, ip), es);
    RunBlocks(mac, ip, es);
    RunInv(mac, ip, es);
    hide Run, QueueIsTail, Conserved, Spaced, CacheFresh, WellAddressed;
    if AskedLately(h, hop) {
      var k :| 0 <= k < |h.log| && RequestFor(h.log[k], hop) && h.i.now < h.log[k].at + 5000;
      assert Blocked(h, h.log[k]);
    }
  }

  /**
   After every run, a datagram for a known hop goes out at once to the address known; for an unknown one it waits, and
   a broadcast request for that hop goes out if and only if none did in the last 5000 ms.
   */
  lemma RequestExactly(mac: Mac, ip: u32, es: seq<Event>, dgram: Ipv4Datagram, hop: u32)
    ensures var h := Run(Start(mac, ip), es);
            var (i, i') := (h.i, SendDatagram(h.i, dgram, hop));
            && i.mac == mac && i.ip == ip
            && i'.out == i.out +
               (if hop in i.mapping then [Frame(i.mapping[hop].mac, mac, 0x800, IpPayload(dgram))]
                else if AskedLately(h, hop) then []
                else [Frame(0xffff_ffff_ffff, mac, 0x806, ArpPayload(ArpMessage(1, mac, ip, 0, hop)))])
            && i'.pending == i.pending + (if hop in i.mapping then [] else [Waiting(dgram, hop)])
  {
    BlockedExactly(mac, ip, es, hop);
    RunAddresses(mac, ip, es);
    hide Run, AskedLately;
  }

  lemma StepAddresses(h: History, e: Event)
    ensures Step(h, e).i.mac == h.i.mac && Step(h, e).i.ip == h.i.ip
  {
    hide RecvArp, Queued, SentDatagrams, ToSender;
    if e.Recv? && Accepts(h.i, e.frame) { RecvArpQueues(h.i, e.frame.payload.msg); }
  }

  lemma {:induction false} RunAddresses(mac: Mac, ip: u32, es: seq<Event>)
    ensures Run(Start(mac, ip), es).i.mac == mac && Run(Start(mac, ip), es).i.ip == ip
  {
    hide Step;
    if es != [] {
      RunAddresses(mac, ip, es[..|es| - 1]);
      StepAddresses(Run(Start(mac, ip), es[..|es| - 1]), es[|es| - 1]);
    }
  }
}
