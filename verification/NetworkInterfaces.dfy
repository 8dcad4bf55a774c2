/** The network interface itself: maps and lists updated in place, with erasing loops (network_interface.{hh,cc}). */
module NetworkInterfaces {
  import opened Types
  import M = ArpModel

  class NetworkInterface {
    const ethernetAddress: M.Mac
    const ipAddress: u32
    var framesOut: seq<M.Frame>
    var mapping: map<u32, M.Learned>
    var pendingList: seq<M.Waiting>
    var currentTime: nat
    var blockingMapping: map<u32, nat>

    ghost function State(): M.Interface
      reads this
    {
      M.Interface(ethernetAddress, ipAddress, framesOut, mapping, pendingList, currentTime, blockingMapping)
    }

    constructor (ethernetAddress: M.Mac, ipAddress: u32)
      ensures State() == M.NewInterface(ethernetAddress, ipAddress)
    {
      this.ethernetAddress := ethernetAddress;
      this.ipAddress := ipAddress;
      framesOut, mapping, pendingList, currentTime, blockingMapping := [], map[], [], 0, map[];
    }

    method SendDatagram(dgram: Ipv4Datagram, nextHop: u32)
      modifies this
      ensures State() == M.SendDatagram(old(State()), dgram, nextHop)
    {
      var frame;
      if nextHop !in mapping {
        pendingList := pendingList + [M.Waiting(dgram, nextHop)];
        if nextHop in blockingMapping {
          return;
        }
        blockingMapping := blockingMapping[nextHop := currentTime];
        var arp := M.ArpMessage(M.OPCODE_REQUEST, ethernetAddress, ipAddress, 0, nextHop);
        frame := M.Frame(M.BROADCAST, ethernetAddress, M.TYPE_ARP, M.ArpPayload(arp));
      } else {
        frame := M.Frame(mapping[nextHop].mac, ethernetAddress, M.TYPE_IPV4, M.IpPayload(dgram));
      }
      framesOut := framesOut + [frame];
    }

    /** Move the datagrams that wait for `ip` to a list of their own, erasing while iterating. */
    method TakePending(ip: u32) returns (taken: seq<M.Waiting>)
      modifies this`pendingList
      ensures taken == M.Select(old(pendingList), ip, true)
      ensures pendingList == M.Select(old(pendingList), ip, false)
    {
      ghost var all, seen := pendingList, 0;
      taken := [];
      var it := 0;
      while it < |pendingList|
        invariant 0 <= it <= |pendingList| && 0 <= seen <= |all| && pendingList[it..] == all[seen..]
        invariant taken == M.Select(all[..seen], ip, true)
        invariant pendingList[..it] == M.Select(all[..seen], ip, false)
        decreases |pendingList| - it
      {
        assert pendingList[it] == all[seen] && all[..seen + 1][..seen] == all[..seen];
        if pendingList[it].hop == ip {
          taken := taken + [pendingList[it]];
          pendingList := pendingList[..it] + pendingList[it + 1..];
        } else {
          it := it + 1;
        }
        seen := seen + 1;
      }
      assert all[..seen] == all;
    }

    method RecvFrame(frame: M.Frame) returns (dgram: Option<Ipv4Datagram>)
      modifies this
      ensures (State(), dgram) == M.RecvFrame(old(State()), frame)
    {
      dgram := None;
      if frame.dst != ethernetAddress && frame.dst != M.BROADCAST {
        return;
      }
      if frame.ethertype == M.TYPE_ARP {
        if !frame.payload.ArpPayload? {
          return;
        }
        RecvArp(frame.payload.msg);
      } else if frame.ethertype == M.TYPE_IPV4 {
        if frame.payload.IpPayload? {
          dgram := Some(frame.payload.dgram);
        }
      }
    }

    method RecvArp(msg: M.ArpMessage)
      modifies this
      ensures State() == M.RecvArp(old(State()), msg)
    {
      if msg.senderIp !in mapping {
        mapping := mapping[msg.senderIp := M.Learned(msg.senderMac, currentTime)];
      }
      if msg.opcode == M.OPCODE_REPLY {
        var tmpList := TakePending(msg.senderIp);
        ghost var start := State();
        for k := 0 to |tmpList|
          invariant State() == M.SendEach(start, tmpList[..k])
        {
          assert tmpList[..k + 1][..k] == tmpList[..k];
          SendDatagram(tmpList[k].dgram, tmpList[k].hop);
        }
        assert tmpList[..|tmpList|] == tmpList;
      } else if msg.opcode == M.OPCODE_REQUEST {
        if msg.targetIp != ipAddress {
          return;
        }
        var reply := M.ArpMessage(M.OPCODE_REPLY, ethernetAddress, ipAddress, msg.senderMac, msg.senderIp);
        framesOut := framesOut + [M.Frame(msg.senderMac, ethernetAddress, M.TYPE_ARP, M.ArpPayload(reply))];
      }
    }

    method Tick(msSinceLastTick: nat)
      modifies this
      ensures State() == M.Tick(old(State()), msSinceLastTick)
    {
      currentTime := currentTime + msSinceLastTick;
      ExpireMapping();
      ExpireBlocking();
    }

    method ExpireMapping()
      modifies this`mapping
      ensures mapping == map ip | ip in old(mapping) && currentTime < old(mapping)[ip].at + M.ARP_VALID_TIME ::
                           old(mapping)[ip]
    {
      ghost var cache := mapping;
      var todo := mapping.Keys;
      while todo != {}
        invariant todo <= cache.Keys
        invariant forall ip :: ip in mapping <==>
                    ip in cache && (ip in todo || currentTime < cache[ip].at + M.ARP_VALID_TIME)
        invariant forall ip <- mapping :: mapping[ip] == cache[ip]
        decreases |todo|
      {
        var ip :| ip in todo;
        if mapping[ip].at + M.ARP_VALID_TIME <= currentTime {
          mapping := mapping - {ip};
        }
        todo := todo - {ip};
      }
    }

    method ExpireBlocking()
      modifies this`blockingMapping
      ensures blockingMapping == map ip | ip in old(blockingMapping) &&
                                   currentTime < old(blockingMapping)[ip] + M.ARP_REQ_BLOCKING_TIME ::
                                   old(blockingMapping)[ip]
    {
      ghost var blocked := blockingMapping;
      var todo := blockingMapping.Keys;
      while todo != {}
        invariant todo <= blocked.Keys
        invariant forall ip :: ip in blockingMapping <==>
                    ip in blocked && (ip in todo || currentTime < blocked[ip] + M.ARP_REQ_BLOCKING_TIME)
        invariant forall ip <- blockingMapping :: blockingMapping[ip] == blocked[ip]
        decreases |todo|
      {
        var ip :| ip in todo;
        if blockingMapping[ip] + M.ARP_REQ_BLOCKING_TIME <= currentTime {
          blockingMapping := blockingMapping - {ip};
        }
        todo := todo - {ip};
      }
    }
  }
}
