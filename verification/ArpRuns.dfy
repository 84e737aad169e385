/** A network interface over whole runs. */
module ArpRuns {
  import opened Words
  import opened Routing
  import opened Arp
  import opened ArpInvariants

  datatype Event = Send(dgram: Datagram, hop: Ip) | Recv(frame: Frame) | Tick(ms: nat) | Drain

  function Next(n: Interface, e: Event): Interface {
    match e
    case Send(d, hop) => n.SendDatagram(d, hop)
    case Recv(f) => n.RecvFrame(f)
    case Tick(ms) => n.Tick(ms)
    case Drain => n.Drained()
  }

  predicate IsRun(ns: seq<Interface>, es: seq<Event>, eth: Eth, ip: Ip) {
    && |ns| == |es| + 1
    && ns[0] == InitialInterface(eth, ip)
    && forall k :: 0 <= k < |es| ==> ns[k + 1] == Next(ns[k], es[k])
  }

  lemma DrainKeepsInv(n: Interface)
    requires Inv(n)
    ensures Inv(n.Drained())
  {
    SameTable(n, n.Drained());
    OrderDepends(n, n.Drained());
    PushedDepends(n, n.Drained());
    hide InOrder, Pushed, Table;
  }

  lemma StepKeepsInv(n: Interface, e: Event)
    requires Inv(n)
    ensures Inv(Next(n, e))
  {
    hide Inv, Interface.SendDatagram, Interface.RecvFrame, Interface.Tick, Interface.Drained;
    match e
    case Send(d, hop) => SendKeepsInv(n, d, hop);
    case Recv(f) => RecvKeepsInv(n, f);
    case Tick(ms) => TickKeepsInv(n, ms);
    case Drain => DrainKeepsInv(n);
  }

  /**
   * In every run and for every next hop: datagrams handed over are framed in order, what is
   * not yet framed waits, nothing waits for a known address, whatever waits has a request
   * pending, and no mapping is older than its lifetime.
   */
  lemma {:induction false} EveryRunKeepsInv(ns: seq<Interface>, es: seq<Event>, eth: Eth, ip: Ip, k: nat)
    requires IsRun(ns, es, eth, ip) && k < |ns|
    ensures Inv(ns[k])
  {
    hide Inv, Next;
    if k == 0 {
      ArpInvariants.InitialInv(eth, ip);
    } else {
      EveryRunKeepsInv(ns, es, eth, ip, k - 1);
      StepKeepsInv(ns[k - 1], es[k - 1]);
    }
  }

  // Requests

  predicate IsRequest(f: Frame, ip: Ip) {
    f.payload.Arp? && f.payload.msg.opcode == Request && f.payload.msg.targetIp == ip
  }

  /** The step pushes a request for `ip`. */
  predicate Asks(n: Interface, n': Interface, ip: Ip) {
    exists i :: |n.sent| <= i < |n'.sent| && IsRequest(n'.sent[i], ip)
  }

  /** The event brings an ARP message from `ip`. */
  predicate HearsFrom(n: Interface, e: Event, ip: Ip) {
    e.Recv? && !n.ForUs(e.frame) && e.frame.payload.Arp? && e.frame.payload.msg.senderIp == ip
  }

  lemma {:induction false} SendFramesAskNothing(n: Interface, hop: Ip, to: Eth, dgrams: seq<Datagram>, ip: Ip)
    ensures var m := n.SendFrames(hop, to, dgrams);
            n.sent <= m.sent && !Asks(n, m, ip)
    decreases |dgrams|
  {
    if dgrams != [] {
      SendFramesAskNothing(n.SendFrame(hop, to, dgrams[0]), hop, to, dgrams[1..], ip);
    }
  }

  /** Only handing over a datagram makes the interface ask, and then not within the interval of the last request. */
  lemma WhoAsks(n: Interface, e: Event, ip: Ip)
    requires Asks(n, Next(n, e), ip)
    ensures e.Send? && e.hop == ip && !n.RecentlyAsked(ip)
    ensures ip in Next(n, e).pending && Next(n, e).pending[ip] == n.time
  {
    if e.Recv? && !n.ForUs(e.frame) && e.frame.payload.Arp? {
      var msg := e.frame.payload.msg;
      var l := n.Learn(msg.senderIp, msg.senderEth);
      if msg.senderIp in l.pending {
        SendFramesAskNothing(l.(pending := l.pending - {msg.senderIp}, waiting := l.waiting[msg.senderIp := []]),
                             msg.senderIp, l.ip2eth[msg.senderIp], l.Queue(msg.senderIp), ip);
      }
      hide Interface.SendFrames;
    }
  }

  /** A pending request stays pending, unless ARP from that address arrives. */
  lemma PendingStays(n: Interface, e: Event, ip: Ip, since: nat)
    requires ip in n.pending && n.pending[ip] >= since && n.time >= since && !HearsFrom(n, e, ip)
    ensures ip in Next(n, e).pending && Next(n, e).pending[ip] >= since && Next(n, e).time >= since
  {
    if e.Recv? && !n.ForUs(e.frame) && e.frame.payload.Arp? {
      var msg := e.frame.payload.msg;
      hide Interface.Flush;
      FlushFacts(n.Learn(msg.senderIp, msg.senderEth), msg.senderIp);
    }
  }

  lemma {:induction false} PendingUntil(ns: seq<Interface>, es: seq<Event>, i: nat, j: nat, ip: Ip, since: nat)
    requires |ns| == |es| + 1 && i <= j < |ns|
    requires forall k :: i <= k < j ==> ns[k + 1] == Next(ns[k], es[k]) && !HearsFrom(ns[k], es[k], ip)
    requires ip in ns[i].pending && ns[i].pending[ip] >= since && ns[i].time >= since
    ensures ip in ns[j].pending && ns[j].pending[ip] >= since && ns[j].time >= since
    decreases j
  {
    if i < j {
      PendingUntil(ns, es, i, j - 1, ip, since);
      hide Next, HearsFrom;
      PendingStays(ns[j - 1], es[j - 1], ip, since);
    }
  }

  lemma SendKeepsTime(n: Interface, e: Event)
    requires e.Send?
    ensures Next(n, e).time == n.time
  {
  }

  /** In every run, two requests for one address are an interval apart, unless ARP from that address came between. */
  lemma RequestsAreSpaced(ns: seq<Interface>, es: seq<Event>, eth: Eth, self: Ip, i: nat, j: nat, ip: Ip)
    requires IsRun(ns, es, eth, self) && i < j < |es|
    requires Asks(ns[i], ns[i + 1], ip) && Asks(ns[j], ns[j + 1], ip)
    requires forall k :: i < k < j ==> !HearsFrom(ns[k], es[k], ip)
    ensures ns[j].time - ns[i].time >= REQUEST_INTERVAL
  {
    hide Next, HearsFrom, Asks;
    WhoAsks(ns[i], es[i], ip);
    SendKeepsTime(ns[i], es[i]);
    PendingUntil(ns, es, i + 1, j, ip, ns[i].time);
    WhoAsks(ns[j], es[j], ip);
  }
}
