/** What the interface does not do: refresh an address it knows, or send what waits when a request teaches it one. */
module ArpCorners {
  import opened Types
  import opened ArpModel
  import opened ArpTheorems

  // ---------------------------------------------------------------- no refresh

  /** When the entry for the sender of a message was made, once the message has been read. */
  function EntryTime(i: Interface, ip: u32): nat { if ip in i.mapping then i.mapping[ip].at else i.now }

  /** A message changes neither the address nor the time of an entry that is there, and makes one that is not. */
  lemma LearnsOnce(i: Interface, msg: ArpMessage)
    ensures var m := RecvArp(i, msg).mapping;
            && msg.senderIp in m
            && m == if msg.senderIp in i.mapping then i.mapping
                    else i.mapping[msg.senderIp := Learned(msg.senderMac, i.now)]
  {
    hide Queued, SentDatagrams, ToSender, RecvArp;
    RecvArpQueues(i, msg);
  }

  /** Heard from just now, an address is forgotten `ms` later exactly when its first announcement is 30000 ms old. */
  lemma ForgottenExactly(i: Interface, msg: ArpMessage, ms: nat)
    ensures msg.senderIp in Tick(RecvArp(i, msg), ms).mapping <==>
            i.now + ms < EntryTime(i, msg.senderIp) + 30000
  {
    LearnsOnce(i, msg);
    hide Queued, SentDatagrams, ToSender, RecvArp;
    RecvArpQueues(i, msg);
  }

  /** An announcement is good for 30000 ms if and only if it made the entry, or came in the same millisecond. */
  lemma RefreshExact(i: Interface, msg: ArpMessage)
    requires EntryTime(i, msg.senderIp) <= i.now
    ensures (forall ms: nat | ms < 30000 :: msg.senderIp in Tick(RecvArp(i, msg), ms).mapping) <==>
            EntryTime(i, msg.senderIp) == i.now
  {
    hide Tick, RecvArp;
    forall ms: nat
      ensures msg.senderIp in Tick(RecvArp(i, msg), ms).mapping <==>
              i.now + ms < EntryTime(i, msg.senderIp) + 30000
    {
      ForgottenExactly(i, msg, ms);
    }
    assert msg.senderIp in Tick(RecvArp(i, msg), 29999).mapping <==>
           i.now + 29999 < EntryTime(i, msg.senderIp) + 30000;
  }

  /** An address announced at 0 and again at 29999 ms is forgotten one millisecond after the second time. */
  lemma NoRefreshExample(mac: Mac, ip: u32, msg: ArpMessage)
    ensures var i := Tick(RecvArp(NewInterface(mac, ip), msg), 29999);
            msg.senderIp in i.mapping && msg.senderIp !in Tick(RecvArp(i, msg), 1).mapping
  {
    var i0 := NewInterface(mac, ip);
    LearnsOnce(i0, msg);
    ForgottenExactly(i0, msg, 29999);
    RecvArpQueues(i0, msg);
    hide RecvArp, Queued, SentDatagrams, ToSender;
    var i := Tick(RecvArp(i0, msg), 29999);
    ForgottenExactly(i, msg, 1);
  }

  // ---------------------------------------------------------------- datagrams left waiting

  /** Nothing waits for an address that is known. */
  ghost predicate NoneStuck(i: Interface) { forall w <- i.pending :: w.hop !in i.mapping }

  /** The message teaches the address of a hop for which datagrams wait, without being a reply. */
  ghost predicate Strands(i: Interface, msg: ArpMessage) {
    msg.opcode != OPCODE_REPLY && msg.senderIp !in i.mapping && exists w <- i.pending :: w.hop == msg.senderIp
  }

  lemma OthersStay(i: Interface, msg: ArpMessage)
    requires msg.opcode != OPCODE_REPLY
    ensures RecvArp(i, msg).pending == i.pending
  {
  }

  lemma RepliesOnlyRemove(i: Interface, msg: ArpMessage)
    requires msg.opcode == OPCODE_REPLY
    ensures forall w <- RecvArp(i, msg).pending :: w in i.pending && w.hop != msg.senderIp
  {
    hide Queued, SentDatagrams, ToSender, RecvArp;
    RecvArpQueues(i, msg);
    var i' := RecvArp(i, msg);
    forall w <- i'.pending ensures w in i.pending {
      assert w in multiset(i'.pending);
      assert w in multiset(i.pending);
    }
  }

  /** Reading a message leaves a datagram waiting for a known address exactly when it strands one. */
  lemma StrandsExactly(i: Interface, msg: ArpMessage)
    requires NoneStuck(i)
    ensures NoneStuck(RecvArp(i, msg)) <==> !Strands(i, msg)
  {
    LearnsOnce(i, msg);
    hide RecvArp;
    if msg.opcode == OPCODE_REPLY { RepliesOnlyRemove(i, msg); } else { OthersStay(i, msg); }
  }

  /** No message of the run strands a datagram. */
  ghost predicate NeverStrands(h: History, es: seq<Event>) {
    es == [] ||
    var (before, last) := (Run(h, es[..|es| - 1]), es[|es| - 1]);
    NeverStrands(h, es[..|es| - 1]) &&
    (last.Recv? && Accepts(before.i, last.frame) ==> !Strands(before.i, last.frame.payload.msg))
  }

  lemma StepUnstuck(h: History, e: Event)
    requires NoneStuck(h.i)
    ensures NoneStuck(Step(h, e).i) <==> !(e.Recv? && Accepts(h.i, e.frame) && Strands(h.i, e.frame.payload.msg))
  {
    hide RecvArp;
    if e.Recv? && Accepts(h.i, e.frame) { StrandsExactly(h.i, e.frame.payload.msg); }
  }

  /** Over every run in which no message strands a datagram, none waits for a known address. */
  lemma {:induction false} RunUnstuck(mac: Mac, ip: u32, es: seq<Event>)
    requires NeverStrands(Start(mac, ip), es)
    ensures NoneStuck(Run(Start(mac, ip), es).i)
  {
    hide Step;
    if es != [] {
      RunUnstuck(mac, ip, es[..|es| - 1]);
      StepUnstuck(Run(Start(mac, ip), es[..|es| - 1]), es[|es| - 1]);
    }
  }

  /** After a request from the hop, a second datagram goes out while the first still waits. */
  lemma OvertakenExample(mac: Mac, ip: u32, first: Ipv4Datagram, second: Ipv4Datagram, msg: ArpMessage)
    requires msg.opcode == OPCODE_REQUEST && msg.targetIp != ip
    ensures var i := RecvArp(SendDatagram(NewInterface(mac, ip), first, msg.senderIp), msg);
            var i' := SendDatagram(i, second, msg.senderIp);
            i'.pending == [Waiting(first, msg.senderIp)] && i'.out == i.out + [IpFrame(i, msg.senderMac, second)]
  {
  }
}
