/** What every operation of a network interface keeps. */
module ArpInvariants {
  import opened Words
  import opened Routing
  import opened Arp

  /** For a next hop, what was handed over is what was framed, in order, followed by what waits. */
  predicate Balanced(n: Interface, hop: Ip) {
    HandedTo(n.handed, hop) == FramedTo(n.framed, hop) + n.Queue(hop)
  }

  ghost predicate InOrder(n: Interface) {
    forall hop: Ip :: Balanced(n, hop)
  }

  /** Nothing waits for a known address, and whatever waits has been asked for. */
  ghost predicate Waiting(n: Interface) {
    && (forall hop :: hop in n.ip2eth ==> n.Queue(hop) == [])
    && (forall hop :: n.Queue(hop) != [] ==> hop in n.pending)
    && (forall hop :: hop in n.pending ==> n.pending[hop] <= n.time)
  }

  /** The IPv4 frames pushed are those of the framed datagrams, in order. */
  predicate Pushed(n: Interface) {
    Ipv4Only(n.sent) == FramesOf(n.eth, n.framed)
  }

  /** Entries are in order of time, one per address. */
  predicate Sorted(entries: seq<Entry>) {
    forall i, j :: 0 <= i < j < |entries| ==> entries[i].time <= entries[j].time && entries[i].ip != entries[j].ip
  }

  /** Every known mapping has exactly one entry, none is in the future, and none is older than its lifetime. */
  ghost predicate Table(n: Interface) {
    && Sorted(n.entries)
    && (forall e :: e in n.entries ==> e.time <= n.time && !Expired(e, n.time) && e.ip in n.ip2eth && n.ip2eth[e.ip] == e.eth)
    && (forall ip :: ip in n.ip2eth ==> Listed(n.entries, ip))
  }

  ghost predicate Inv(n: Interface) {
    InOrder(n) && Waiting(n) && Pushed(n) && Table(n)
  }

  function InitialInterface(eth: Eth, ip: Ip): Interface {
    Interface(eth, ip, map[], map[], map[], [], 0, [], [], [], [])
  }

  lemma InitialInv(eth: Eth, ip: Ip)
    ensures Inv(InitialInterface(eth, ip))
  {
  }

  // Logs

  lemma HandedSnoc(log: seq<Handed>, h: Handed, hop: Ip)
    ensures HandedTo(log + [h], hop) == HandedTo(log, hop) + if h.hop == hop then [h.dgram] else []
  {
    assert (log + [h])[..|log|] == log;
  }

  lemma FramedSnoc(log: seq<Framed>, f: Framed, hop: Ip)
    ensures FramedTo(log + [f], hop) == FramedTo(log, hop) + if f.hop == hop then [f.dgram] else []
  {
    assert (log + [f])[..|log|] == log;
  }

  lemma FramesSnoc(eth: Eth, log: seq<Framed>, f: Framed)
    ensures FramesOf(eth, log + [f]) == FramesOf(eth, log) + [Frame(eth, f.eth, IPV4, Dgram(f.dgram))]
  {
    assert (log + [f])[..|log|] == log;
  }

  lemma Ipv4Snoc(frames: seq<Frame>, f: Frame)
    ensures Ipv4Only(frames + [f]) == Ipv4Only(frames) + if f.etherType == IPV4 then [f] else []
  {
    assert (frames + [f])[..|frames|] == frames;
  }

  /** Framing the first of what waits for a hop leaves the rest of the balance alone. */
  lemma {:induction false} SendFramesBalance(n: Interface, hop: Ip, to: Eth, dgrams: seq<Datagram>, other: Ip)
    ensures var m := n.SendFrames(hop, to, dgrams);
            && FramedTo(m.framed, other) == FramedTo(n.framed, other) + (if other == hop then dgrams else [])
            && m == n.(framed := m.framed, framesOut := m.framesOut, sent := m.sent)
            && (Pushed(n) ==> Pushed(m))
    decreases |dgrams|
  {
    hide Pushed, FramedTo;
    if dgrams != [] {
      var d := dgrams[0];
      SendFrameBalance(n, hop, to, d, other);
      SendFramesBalance(n.SendFrame(hop, to, d), hop, to, dgrams[1..], other);
      assert dgrams == [d] + dgrams[1..];
    }
  }

  lemma SendFrameBalance(n: Interface, hop: Ip, to: Eth, d: Datagram, other: Ip)
    ensures var m := n.SendFrame(hop, to, d);
            && FramedTo(m.framed, other) == FramedTo(n.framed, other) + (if other == hop then [d] else [])
            && m == n.(framed := m.framed, framesOut := m.framesOut, sent := m.sent)
            && (Pushed(n) ==> Pushed(m))
  {
    FramedSnoc(n.framed, Framed(hop, to, d), other);
    FramesSnoc(n.eth, n.framed, Framed(hop, to, d));
    Ipv4Snoc(n.sent, Frame(n.eth, to, IPV4, Dgram(d)));
  }

  lemma SendArpFrame(n: Interface, opcode: Opcode, targetIp: Ip, targetEth: Eth)
    ensures var m := n.SendArp(opcode, targetIp, targetEth);
            && m == n.(framesOut := m.framesOut, sent := m.sent)
            && (Pushed(n) ==> Pushed(m))
  {
    var f := Frame(n.eth, if opcode == Reply then targetEth else BROADCAST, ARP,
                   Arp.Arp(Message(opcode, n.ip, n.eth, targetIp, targetEth)));
    Ipv4Snoc(n.sent, f);
  }

  // Sending

  lemma FramedNowBalances(n: Interface, d: Datagram, hop: Ip, to: Eth, other: Ip)
    requires Balanced(n, other) && n.Queue(hop) == []
    ensures Balanced(n.(handed := n.handed + [Handed(hop, d)]).SendFrame(hop, to, d), other)
  {
    hide HandedTo, FramedTo;
    HandedSnoc(n.handed, Handed(hop, d), other);
    FramedSnoc(n.framed, Framed(hop, to, d), other);
  }

  lemma QueuedBalances(n: Interface, d: Datagram, hop: Ip, other: Ip)
    requires Balanced(n, other)
    ensures Balanced(n.(handed := n.handed + [Handed(hop, d)], waiting := n.waiting[hop := n.Queue(hop) + [d]]), other)
  {
    hide HandedTo, FramedTo;
    HandedSnoc(n.handed, Handed(hop, d), other);
  }

  lemma SendKeepsOrder(n: Interface, d: Datagram, hop: Ip)
    requires InOrder(n) && Waiting(n)
    ensures InOrder(n.SendDatagram(d, hop))
  {
    hide HandedTo, FramedTo;
    forall other: Ip
      ensures Balanced(n.SendDatagram(d, hop), other)
    {
      assert Balanced(n, other);
      if hop in n.ip2eth {
        FramedNowBalances(n, d, hop, n.ip2eth[hop], other);
      } else {
        QueuedBalances(n, d, hop, other);
      }
    }
  }

  lemma SendKeepsPushed(n: Interface, d: Datagram, hop: Ip)
    requires Pushed(n)
    ensures Pushed(n.SendDatagram(d, hop))
  {
    if hop in n.ip2eth {
      var to := n.ip2eth[hop];
      FramesSnoc(n.eth, n.framed, Framed(hop, to, d));
      Ipv4Snoc(n.sent, Frame(n.eth, to, IPV4, Dgram(d)));
    } else if !n.RecentlyAsked(hop) {
      SendArpFrame(n, Request, hop, NO_ADDRESS);
    }
  }

  lemma SendKeepsWaiting(n: Interface, d: Datagram, hop: Ip)
    requires Waiting(n)
    ensures Waiting(n.SendDatagram(d, hop))
  {
  }

  lemma SameTable(n: Interface, m: Interface)
    requires Table(n) && m.entries == n.entries && m.ip2eth == n.ip2eth && m.time == n.time
    ensures Table(m)
  {
  }

  lemma SendKeepsInv(n: Interface, d: Datagram, hop: Ip)
    requires Inv(n)
    ensures Inv(n.SendDatagram(d, hop))
  {
    hide InOrder, Waiting, Pushed, Table;
    SendKeepsOrder(n, d, hop);
    SendKeepsPushed(n, d, hop);
    SendKeepsWaiting(n, d, hop);
    SameTable(n, n.SendDatagram(d, hop));
  }

  // Receiving

  lemma LearnKeepsTable(n: Interface, from: Ip, to: Eth)
    requires Table(n)
    ensures Table(n.Learn(from, to)) && from in n.Learn(from, to).ip2eth
  {
    var m := n.Learn(from, to);
    if from !in n.ip2eth {
      forall e | e in n.entries
        ensures e.ip != from
      {
      }
      assert Entry(from, to, n.time) in m.entries;
      forall ip | ip in m.ip2eth
        ensures Listed(m.entries, ip)
      {
        if ip != from {
          assert Listed(n.entries, ip);
          var e :| e in n.entries && e.ip == ip;
          assert e in m.entries;
        }
      }
    }
  }

  /** Learning a mapping and sending what waited for it keeps the order, and nothing waits for it any more. */
  lemma FlushKeepsOrder(n: Interface, from: Ip)
    requires InOrder(n) && from in n.ip2eth
    ensures InOrder(n.Flush(from))
  {
    hide HandedTo, FramedTo, Pushed;
    if from in n.pending {
      var m := n.(pending := n.pending - {from}, waiting := n.waiting[from := []]);
      forall other: Ip
        ensures Balanced(n.Flush(from), other)
      {
        assert Balanced(n, other);
        SendFramesBalance(m, from, n.ip2eth[from], n.Queue(from), other);
      }
    }
  }

  lemma FlushFacts(n: Interface, from: Ip)
    requires from in n.ip2eth
    ensures var m := n.Flush(from);
            && m.entries == n.entries && m.ip2eth == n.ip2eth && m.time == n.time && m.eth == n.eth && m.ip == n.ip
            && m.pending == (if from in n.pending then n.pending - {from} else n.pending)
            && (forall hop: Ip :: m.Queue(hop) == if hop == from && from in n.pending then [] else n.Queue(hop))
            && (Pushed(n) ==> Pushed(m))
  {
    hide Pushed;
    if from in n.pending {
      var m := n.(pending := n.pending - {from}, waiting := n.waiting[from := []]);
      assert Pushed(n) ==> Pushed(m) by {
        PushedDepends(n, m);
      }
      SendFramesBalance(m, from, n.ip2eth[from], n.Queue(from), from);
    }
  }

  lemma PushedDepends(n: Interface, m: Interface)
    requires m.sent == n.sent && m.eth == n.eth && m.framed == n.framed
    ensures Pushed(n) ==> Pushed(m)
  {
  }

  lemma LearnAndFlushKeepsWaiting(n: Interface, from: Ip, to: Eth)
    requires Waiting(n)
    ensures from in n.Learn(from, to).ip2eth && Waiting(n.Learn(from, to).Flush(from))
  {
    hide Pushed, Interface.Flush;
    FlushFacts(n.Learn(from, to), from);
  }

  lemma AnswerKeepsInv(n: Interface, msg: Message)
    requires Inv(n)
    ensures Inv(n.Answer(msg))
  {
    var m := n.Answer(msg);
    SendArpFrame(n, Reply, msg.senderIp, msg.senderEth);
    SameTable(n, m);
    OrderDepends(n, m);
    hide InOrder, Pushed, Table;
  }

  lemma OrderDepends(n: Interface, m: Interface)
    requires InOrder(n) && m.handed == n.handed && m.framed == n.framed && m.waiting == n.waiting
    ensures InOrder(m)
  {
    hide HandedTo, FramedTo;
    forall hop: Ip
      ensures Balanced(m, hop)
    {
      assert Balanced(n, hop);
    }
  }

  lemma RecvKeepsInv(n: Interface, f: Frame)
    requires Inv(n)
    ensures Inv(n.RecvFrame(f))
  {
    hide InOrder, Waiting, Pushed, Table, Interface.Flush, Interface.Answer;
    if !n.ForUs(f) && f.payload.Arp? {
      var msg := f.payload.msg;
      var from, to := msg.senderIp, msg.senderEth;
      var l := n.Learn(from, to);
      LearnKeepsTable(n, from, to);
      OrderDepends(n, l);
      PushedDepends(n, l);
      FlushKeepsOrder(l, from);
      FlushFacts(l, from);
      SameTable(l, l.Flush(from));
      LearnAndFlushKeepsWaiting(n, from, to);
      AnswerKeepsInv(l.Flush(from), msg);
    }
  }

  // Time

  lemma {:induction false} AliveMembers(entries: seq<Entry>, now: nat, e: Entry)
    ensures e in Alive(entries, now) <==> e in entries && !Expired(e, now)
  {
    if entries != [] {
      AliveMembers(entries[1..], now, e);
    }
  }

  lemma {:induction false} AliveAll(entries: seq<Entry>, now: nat)
    requires forall e :: e in entries ==> !Expired(e, now)
    ensures Alive(entries, now) == entries
  {
    if entries != [] {
      AliveAll(entries[1..], now);
    }
  }

  /** Because entries are in order of time, dropping expired ones from the front filters the whole list. */
  lemma {:induction false} AliveIsSuffix(entries: seq<Entry>, now: nat, k: nat)
    requires Sorted(entries) && k <= |entries|
    requires forall i :: 0 <= i < k ==> Expired(entries[i], now)
    requires k < |entries| ==> !Expired(entries[k], now)
    ensures Alive(entries, now) == entries[k..]
    decreases k
  {
    if k == 0 {
      assert forall e :: e in entries ==> !Expired(e, now);
      AliveAll(entries, now);
      assert entries[0..] == entries;
    } else {
      AliveIsSuffix(entries[1..], now, k - 1);
      assert entries[1..][k - 1..] == entries[k..];
    }
  }

  lemma FirstAlive(entries: seq<Entry>, now: nat) returns (k: nat)
    ensures k <= |entries| && (forall i :: 0 <= i < k ==> Expired(entries[i], now))
    ensures k < |entries| ==> !Expired(entries[k], now)
  {
    k := 0;
    while k < |entries| && Expired(entries[k], now)
      invariant k <= |entries| && forall i :: 0 <= i < k ==> Expired(entries[i], now)
    {
      k := k + 1;
    }
  }

  lemma TickKeepsTable(n: Interface, ms: nat)
    requires Table(n)
    ensures Table(n.Tick(ms))
  {
    hide Table, Alive;
    var now := n.time + ms;
    var k := FirstAlive(n.entries, now);
    TableSorted(n);
    AliveIsSuffix(n.entries, now, k);
    forall e
      ensures e in n.entries[k..] <==> e in n.entries && !Expired(e, now)
    {
      AliveMembers(n.entries, now, e);
    }
    SuffixKeepsTable(n, k, n.Tick(ms));
  }

  lemma TableSorted(n: Interface)
    requires Table(n)
    ensures Sorted(n.entries)
  {
  }

  lemma SuffixKeepsTable(n: Interface, k: nat, m: Interface)
    requires Table(n) && k <= |n.entries| && m.time >= n.time
    requires m.entries == n.entries[k..] && m.ip2eth == Restrict(n.ip2eth, m.entries)
    requires forall e :: e in m.entries <==> e in n.entries && !Expired(e, m.time)
    ensures Table(m)
  {
    forall e | e in m.entries
      ensures e.ip in m.ip2eth && m.ip2eth[e.ip] == e.eth
    {
      assert Listed(m.entries, e.ip);
    }
  }

  lemma TickKeepsInv(n: Interface, ms: nat)
    requires Inv(n)
    ensures Inv(n.Tick(ms))
  {
    TickKeepsTable(n, ms);
    OrderDepends(n, n.Tick(ms));
    PushedDepends(n, n.Tick(ms));
    hide InOrder, Pushed, Table, Alive;
  }
}
