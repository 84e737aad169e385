/** The network interface as an object with the fields of the code, each method proved against `Arp`. */
module NetworkInterfaces {
  import opened Words
  import opened Routing
  import opened Arp
  import opened ArpInvariants

  class NetworkInterface {
    const eth: Eth
    const ip: Ip
    var ip2eth: map<Ip, Eth>
    var waiting: map<Ip, seq<Datagram>>
    var pending: map<Ip, nat>
    var entries: seq<Entry>
    var time: nat
    var framesOut: seq<Frame>
    ghost var handed: seq<Handed>
    ghost var framed: seq<Framed>
    ghost var sent: seq<Frame>

    ghost function State(): Interface
      reads this
    {
      Interface(eth, ip, ip2eth, waiting, pending, entries, time, framesOut, handed, framed, sent)
    }

    ghost predicate Valid()
      reads this
    {
      Inv(State())
    }

    constructor (ethernetAddress: Eth, ipAddress: Ip)
      ensures Valid() && State() == InitialInterface(ethernetAddress, ipAddress)
    {
      eth, ip := ethernetAddress, ipAddress;
      ip2eth, waiting, pending, entries, time := map[], map[], map[], [], 0;
      framesOut, handed, framed, sent := [], [], [], [];
      ArpInvariants.InitialInv(ethernetAddress, ipAddress);
    }

    method PushFrame(f: Frame)
      modifies `framesOut, `sent
      ensures State() == old(State()).Push(f)
    {
      framesOut := framesOut + [f];
      sent := sent + [f];
    }

    method SendFrame(hop: Ip, to: Eth, dgram: Datagram)
      modifies `framesOut, `sent, `framed
      ensures State() == old(State()).SendFrame(hop, to, dgram)
    {
      framed := framed + [Framed(hop, to, dgram)];
      PushFrame(Frame(eth, to, IPV4, Dgram(dgram)));
    }

    method SendArp(opcode: Opcode, targetIp: Ip, targetEth: Eth)
      modifies `framesOut, `sent
      ensures State() == old(State()).SendArp(opcode, targetIp, targetEth)
    {
      PushFrame(Frame(eth, if opcode == Reply then targetEth else BROADCAST, EtherType.ARP,
                      Arp.Arp(Message(opcode, ip, eth, targetIp, targetEth))));
    }

    method SendDatagram(dgram: Datagram, hop: Ip)
      requires Valid()
      modifies this
      ensures Valid() && State() == old(State()).SendDatagram(dgram, hop)
    {
      hide Inv, Interface.SendFrame, Interface.SendArp;
      SendKeepsInv(State(), dgram, hop);
      handed := handed + [Handed(hop, dgram)];
      if hop in ip2eth {
        SendFrame(hop, ip2eth[hop], dgram);
        return;
      }
      waiting := waiting[hop := (if hop in waiting then waiting[hop] else []) + [dgram]];
      if hop in pending && time - pending[hop] < REQUEST_INTERVAL {
        return;
      }
      pending := pending[hop := time];
      SendArp(Request, hop, NO_ADDRESS);
    }

    /** Sends what waits for an address that has just been learned. */
    method FlushQueue(from: Ip)
      requires from in ip2eth
      modifies this
      ensures State() == old(State()).Flush(from)
    {
      if from !in pending {
        return;
      }
      ghost var goal, cleared := State().Flush(from), waiting[from := []];
      hide Interface.Flush;
      pending := pending - {from};
      if from !in waiting {
        waiting := waiting[from := []];
      }
      while |waiting[from]| > 0
        invariant from in waiting && from in ip2eth && waiting[from := []] == cleared
        invariant State().(waiting := cleared).SendFrames(from, ip2eth[from], waiting[from]) == goal
        decreases |waiting[from]|
      {
        SendFrame(from, ip2eth[from], waiting[from][0]);
        waiting := waiting[from := waiting[from][1..]];
        assert waiting[from := []] == cleared;
      }
      assert waiting == waiting[from := []];
    }

    method RecvFrame(f: Frame) returns (dgram: Option<Datagram>)
      requires Valid()
      modifies this
      ensures Valid() && State() == old(State()).RecvFrame(f)
      ensures dgram == old(State()).Received(f)
    {
      hide Inv, Interface.Flush, Interface.SendArp;
      RecvKeepsInv(State(), f);
      if f.etherType == IPV4 && f.dst == eth {
        return if f.payload.Dgram? then Some(f.payload.dgram) else None;
      }
      if !f.payload.Arp? {
        return None;
      }
      var msg := f.payload.msg;
      if msg.senderIp !in ip2eth {
        entries := entries + [Entry(msg.senderIp, msg.senderEth, time)];
        ip2eth := ip2eth[msg.senderIp := msg.senderEth];
      }
      FlushQueue(msg.senderIp);
      if msg.opcode == Request && msg.targetIp == ip {
        SendArp(Reply, msg.senderIp, msg.senderEth);
      }
      return None;
    }

    /** Drops expired mappings, looking only at the front of the queue of entries. */
    method Tick(ms: nat)
      requires Valid()
      modifies this
      ensures Valid() && State() == old(State()).Tick(ms)
    {
      hide InOrder, Waiting, Pushed, Restrict, Alive;
      TickKeepsInv(State(), ms);
      RestrictAll(State());
      ghost var n := State();
      time := time + ms;
      ghost var k := 0;
      while |entries| > 0 && time - entries[0].time > MAPPING_LIFETIME
        invariant k <= |n.entries| && entries == n.entries[k..]
        invariant forall i :: 0 <= i < k ==> Expired(n.entries[i], time)
        invariant time == n.time + ms && ip2eth == Restrict(n.ip2eth, entries)
        invariant State() == n.(time := time, entries := entries, ip2eth := ip2eth)
        decreases |entries|
      {
        DropFront(n, k);
        ip2eth := ip2eth - {entries[0].ip};
        entries := entries[1..];
        k := k + 1;
      }
      assert k < |n.entries| ==> n.entries[k] == entries[0];
      AliveIsSuffix(n.entries, time, k);
    }
  }

  lemma RestrictAll(n: Interface)
    requires Table(n)
    ensures Restrict(n.ip2eth, n.entries) == n.ip2eth
  {
  }

  lemma ListedCons(entries: seq<Entry>, ip: Ip)
    requires entries != []
    ensures Listed(entries, ip) <==> entries[0].ip == ip || Listed(entries[1..], ip)
  {
    assert entries == [entries[0]] + entries[1..];
  }

  lemma OneEntryEach(entries: seq<Entry>, k: nat)
    requires Sorted(entries) && k < |entries|
    ensures !Listed(entries[k + 1..], entries[k].ip)
  {
  }

  /** Dropping the oldest entry drops exactly its mapping. */
  lemma DropFront(n: Interface, k: nat)
    requires Table(n) && k < |n.entries|
    ensures Restrict(n.ip2eth, n.entries[k..]) - {n.entries[k].ip} == Restrict(n.ip2eth, n.entries[k + 1..])
  {
    hide Listed, Sorted;
    OneEntryEach(n.entries, k);
    forall ip: Ip
      ensures Listed(n.entries[k..], ip) <==> n.entries[k].ip == ip || Listed(n.entries[k + 1..], ip)
    {
      ListedCons(n.entries[k..], ip);
      assert n.entries[k..][1..] == n.entries[k + 1..];
    }
  }
}
