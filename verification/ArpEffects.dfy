/** What an interface is bound to do: which frames go out, what is learned, and for how long. */
module ArpEffects {
  import opened Words
  import opened Routing
  import opened Arp
  import opened ArpInvariants
  import opened ArpRuns

  // One step

  /** The broadcast request an interface makes for an address. */
  function RequestFor(eth: Eth, ip: Ip, hop: Ip): Frame {
    Frame(eth, [255, 255, 255, 255, 255, 255], ARP, Arp(Message(Request, ip, eth, hop, [0, 0, 0, 0, 0, 0])))
  }

  /** The answer to a request: this interface has the address that was asked for. */
  function ReplyTo(eth: Eth, ip: Ip, msg: Message): Frame {
    Frame(eth, msg.senderEth, ARP, Arp(Message(Reply, ip, eth, msg.senderIp, msg.senderEth)))
  }

  function FramesFor(eth: Eth, to: Eth, dgrams: seq<Datagram>): seq<Frame> {
    seq(|dgrams|, i requires 0 <= i < |dgrams| => Frame(eth, to, IPV4, Dgram(dgrams[i])))
  }

  /** The step pushes exactly these frames. */
  predicate Pushes(n: Interface, m: Interface, frames: seq<Frame>) {
    m.framesOut == n.framesOut + frames && m.sent == n.sent + frames
  }

  /** Table and clock are the same. */
  predicate SameKnowledge(n: Interface, m: Interface) {
    m.ip2eth == n.ip2eth && m.entries == n.entries && m.time == n.time && m.eth == n.eth && m.ip == n.ip
  }

  /** Only the queue of `hop` may differ, and is `queue`. */
  ghost predicate Queues(n: Interface, m: Interface, hop: Ip, queue: seq<Datagram>) {
    forall other: Ip :: m.Queue(other) == if other == hop then queue else n.Queue(other)
  }

  /**
   * Handing over a datagram frames it if the address is known.  Otherwise it waits, and a
   * request goes out exactly if none did less than five seconds ago.
   */
  lemma SendEffect(n: Interface, d: Datagram, hop: Ip)
    ensures var m := n.SendDatagram(d, hop);
            && SameKnowledge(n, m) && m.handed == n.handed + [Handed(hop, d)]
            && if hop in n.ip2eth then
                 && Pushes(n, m, [Frame(n.eth, n.ip2eth[hop], IPV4, Dgram(d))])
                 && Queues(n, m, hop, n.Queue(hop)) && m.pending == n.pending
               else if hop in n.pending && n.time < n.pending[hop] + 5000 then
                 Pushes(n, m, []) && Queues(n, m, hop, n.Queue(hop) + [d]) && m.pending == n.pending
               else
                 && Pushes(n, m, [RequestFor(n.eth, n.ip, hop)])
                 && Queues(n, m, hop, n.Queue(hop) + [d]) && m.pending == n.pending[hop := n.time]
  {
  }

  lemma {:induction false} SendFramesPushes(n: Interface, hop: Ip, to: Eth, dgrams: seq<Datagram>)
    ensures var m := n.SendFrames(hop, to, dgrams);
            && Pushes(n, m, FramesFor(n.eth, to, dgrams)) && SameKnowledge(n, m)
            && m.pending == n.pending && m.waiting == n.waiting
    decreases |dgrams|
  {
    if dgrams == [] {
      assert FramesFor(n.eth, to, dgrams) == [];
    } else {
      SendFramesPushes(n.SendFrame(hop, to, dgrams[0]), hop, to, dgrams[1..]);
      assert FramesFor(n.eth, to, dgrams) == [Frame(n.eth, to, IPV4, Dgram(dgrams[0]))] + FramesFor(n.eth, to, dgrams[1..]);
    }
  }

  /** The message of a frame that the interface tries as ARP. */
  predicate Hears(n: Interface, f: Frame) {
    !(f.etherType == IPV4 && f.dst == n.eth) && f.payload.Arp?
  }

  /** The address at which the sender of a message is known afterwards. */
  function AddressOf(n: Interface, msg: Message): Eth {
    if msg.senderIp in n.ip2eth then n.ip2eth[msg.senderIp] else msg.senderEth
  }

  /**
   * An ARP message teaches the interface its sender's address, unless one is known.  If that
   * was asked for, everything waiting goes out to the known address, in order.  A request for
   * this interface is answered, after that.
   */
  lemma HearEffect(n: Interface, f: Frame)
    requires Hears(n, f)
    ensures var m, msg := n.RecvFrame(f), f.payload.msg;
            var from, to := msg.senderIp, AddressOf(n, msg);
            && m.ip2eth == n.ip2eth[from := to] && m.pending == n.pending - {from}
            && m.entries == n.entries + (if from in n.ip2eth then [] else [Entry(from, msg.senderEth, n.time)])
            && m.time == n.time && m.eth == n.eth && m.ip == n.ip && m.handed == n.handed
            && Queues(n, m, from, if from in n.pending then [] else n.Queue(from))
            && Pushes(n, m, (if from in n.pending then FramesFor(n.eth, to, n.Queue(from)) else [])
                            + (if msg.opcode == Request && msg.targetIp == n.ip then [ReplyTo(n.eth, n.ip, msg)] else []))
  {
    hide Interface.Flush, FramesFor, Queues;
    var msg := f.payload.msg;
    var l := n.Learn(msg.senderIp, msg.senderEth);
    assert n.ip2eth[msg.senderIp := AddressOf(n, msg)] == l.ip2eth;
    FlushEffect(l, msg.senderIp);
    QueuesFrom(n, l, l.Flush(msg.senderIp), n.RecvFrame(f), msg.senderIp, if msg.senderIp in n.pending then [] else n.Queue(msg.senderIp));
  }

  /** Queues are made of what waits, and of nothing else. */
  lemma QueuesFrom(n: Interface, l: Interface, p: Interface, m: Interface, hop: Ip, queue: seq<Datagram>)
    requires n.waiting == l.waiting && p.waiting == m.waiting && Queues(l, p, hop, queue)
    ensures Queues(n, m, hop, queue)
  {
    forall other: Ip
      ensures m.Queue(other) == if other == hop then queue else n.Queue(other)
    {
      assert m.Queue(other) == p.Queue(other) && n.Queue(other) == l.Queue(other);
    }
  }

  /** Sending what was waiting for a known address. */
  lemma FlushEffect(l: Interface, from: Ip)
    requires from in l.ip2eth
    ensures var m := l.Flush(from);
            && SameKnowledge(l, m) && m.handed == l.handed && m.pending == l.pending - {from}
            && Queues(l, m, from, if from in l.pending then [] else l.Queue(from))
            && Pushes(l, m, if from in l.pending then FramesFor(l.eth, l.ip2eth[from], l.Queue(from)) else [])
  {
    hide Interface.SendFrames, FramesFor;
    if from in l.pending {
      var cleared := l.(pending := l.pending - {from}, waiting := l.waiting[from := []]);
      SendFramesPushes(cleared, from, l.ip2eth[from], l.Queue(from));
      SendFramesHands(cleared, from, l.ip2eth[from], l.Queue(from));
    } else {
      assert l.pending - {from} == l.pending;
    }
  }

  lemma {:induction false} SendFramesHands(n: Interface, hop: Ip, to: Eth, dgrams: seq<Datagram>)
    ensures n.SendFrames(hop, to, dgrams).handed == n.handed
    decreases |dgrams|
  {
    if dgrams != [] {
      SendFramesHands(n.SendFrame(hop, to, dgrams[0]), hop, to, dgrams[1..]);
    }
  }

  /** Any other frame leaves the interface alone; a datagram is passed up exactly if it is IPv4 for this interface. */
  lemma PassesUpIff(n: Interface, f: Frame, d: Datagram)
    ensures n.Received(f) == Some(d) <==> f == Frame(f.src, n.eth, IPV4, Dgram(d))
    ensures !Hears(n, f) ==> n.RecvFrame(f) == n
  {
  }

  /** Time passing takes exactly the mappings older than thirty seconds off the table, and does nothing else. */
  lemma TickEffect(n: Interface, ms: nat)
    requires Inv(n)
    ensures var m := n.Tick(ms);
            && m == n.(time := n.time + ms, entries := m.entries, ip2eth := m.ip2eth)
            && (forall e :: e in m.entries <==> e in n.entries && n.time + ms <= e.time + 30000)
            && (forall ip :: ip in m.ip2eth <==> ip in n.ip2eth && Entered(n.entries, ip, n.ip2eth[ip], n.time + ms - 30000))
            && (forall ip :: ip in m.ip2eth ==> m.ip2eth[ip] == n.ip2eth[ip])
  {
    var now := n.time + ms;
    forall e
      ensures e in Alive(n.entries, now) <==> e in n.entries && now <= e.time + 30000
    {
      AliveMembers(n.entries, now, e);
    }
    hide Alive, InOrder, Pushed, Waiting, Sorted;
    forall ip | ip in n.ip2eth
      ensures Listed(Alive(n.entries, now), ip) <==> Entered(n.entries, ip, n.ip2eth[ip], now - 30000)
    {
      if Entered(n.entries, ip, n.ip2eth[ip], now - 30000) {
        var e :| e in n.entries && e.ip == ip && e.eth == n.ip2eth[ip] && e.time >= now - 30000;
        assert e in Alive(n.entries, now);
      }
    }
  }

  /** An entry for this mapping was made no earlier than `since`. */
  predicate Entered(entries: seq<Entry>, ip: Ip, eth: Eth, since: int) {
    exists e :: e in entries && e.ip == ip && e.eth == eth && e.time >= since
  }

  // Runs

  /** Event `j` hands over a datagram and thereby pushes a request for `hop`. */
  predicate AsksAt(ns: seq<Interface>, es: seq<Event>, j: nat, hop: Ip)
    requires j < |es| && j + 1 < |ns|
  {
    && es[j].Send? && es[j].hop == hop
    && ns[j + 1].sent == ns[j].sent + [RequestFor(ns[j].eth, ns[j].ip, hop)]
  }

  /** Event `j` brings an ARP message saying that `ip` is at `eth`. */
  predicate HearsAt(ns: seq<Interface>, es: seq<Event>, j: nat, ip: Ip, eth: Eth)
    requires j < |es| && j < |ns|
  {
    es[j].Recv? && Hears(ns[j], es[j].frame) && es[j].frame.payload.msg.senderIp == ip && es[j].frame.payload.msg.senderEth == eth
  }

  /** What a step does to the note of a request: it is new with a request going out, or the same as before. */
  lemma NoteComesFrom(n: Interface, e: Event, hop: Ip)
    requires hop in Next(n, e).pending
    ensures var m := Next(n, e);
            || (e.Send? && e.hop == hop && m.pending[hop] == n.time && m.sent == n.sent + [RequestFor(n.eth, n.ip, hop)])
            || (hop in n.pending && m.pending[hop] == n.pending[hop])
  {
    hide Interface.SendDatagram, Interface.RecvFrame, FramesFor, Queues;
    match e
    case Send(d, to) => SendEffect(n, d, to);
    case Recv(f) =>
      if Hears(n, f) {
        HearEffect(n, f);
      } else {
        PassesUpIff(n, f, Datagram(0, 0, []));
      }
    case _ =>
  }

  /** In every run, whatever an address is noted as asked for, a request for it was pushed at that time. */
  lemma {:induction false} NotedWasAsked(ns: seq<Interface>, es: seq<Event>, eth: Eth, ip: Ip, k: nat, hop: Ip) returns (j: nat)
    requires IsRun(ns, es, eth, ip) && k < |ns| && hop in ns[k].pending
    ensures j < k && AsksAt(ns, es, j, hop) && ns[j].time == ns[k].pending[hop]
  {
    hide Next, RequestFor;
    NoteComesFrom(ns[k - 1], es[k - 1], hop);
    if hop in ns[k - 1].pending && ns[k].pending[hop] == ns[k - 1].pending[hop] {
      j := NotedWasAsked(ns, es, eth, ip, k - 1, hop);
    } else {
      j := k - 1;
    }
  }

  lemma StepSends(n: Interface, e: Event)
    ensures var m := Next(n, e);
            n.sent <= m.sent && n.time <= m.time && m.eth == n.eth && m.ip == n.ip
  {
    hide Interface.SendDatagram, Interface.RecvFrame, FramesFor, Queues;
    match e
    case Send(d, to) => SendEffect(n, d, to);
    case Recv(f) =>
      if Hears(n, f) {
        HearEffect(n, f);
      } else {
        PassesUpIff(n, f, Datagram(0, 0, []));
      }
    case _ =>
  }

  lemma {:induction false} SentGrows(ns: seq<Interface>, es: seq<Event>, eth: Eth, ip: Ip, j: nat, k: nat)
    requires IsRun(ns, es, eth, ip) && j <= k < |ns|
    ensures ns[j].sent <= ns[k].sent && ns[k].eth == eth && ns[k].ip == ip
    decreases k
  {
    hide Next;
    if k > 0 {
      StepSends(ns[k - 1], es[k - 1]);
      SentGrows(ns, es, eth, ip, if j < k then j else k - 1, k - 1);
    }
  }

  /**
   * In every run, whenever a datagram waits for an address, a request for that address has
   * gone out, at the time noted for it and at most the present.
   */
  lemma WaitingWasAsked(ns: seq<Interface>, es: seq<Event>, eth: Eth, ip: Ip, k: nat, hop: Ip) returns (j: nat)
    requires IsRun(ns, es, eth, ip) && k < |ns| && ns[k].Queue(hop) != []
    ensures hop in ns[k].pending && j < k && AsksAt(ns, es, j, hop) && ns[j].time == ns[k].pending[hop] <= ns[k].time
    ensures RequestFor(eth, ip, hop) in ns[k].sent
  {
    hide Next, RequestFor, InOrder, Pushed, Table;
    EveryRunKeepsInv(ns, es, eth, ip, k);
    j := NotedWasAsked(ns, es, eth, ip, k, hop);
    SentGrows(ns, es, eth, ip, j + 1, k);
    SentGrows(ns, es, eth, ip, j, j);
    assert ns[j + 1].sent[|ns[j].sent|] in ns[k].sent;
  }

  /** An entry is new with the message it was learned from, or was there before. */
  lemma EntryComesFrom(n: Interface, e: Event, x: Entry)
    requires Inv(n) && x in Next(n, e).entries
    ensures || x in n.entries
            || (&& e.Recv? && Hears(n, e.frame) && e.frame.payload.msg.senderIp == x.ip && e.frame.payload.msg.senderEth == x.eth
                && x.time == n.time)
  {
    hide Interface.SendDatagram, Interface.RecvFrame, Interface.Tick, FramesFor, Queues, Inv;
    match e
    case Send(d, to) => SendEffect(n, d, to);
    case Recv(f) =>
      if Hears(n, f) {
        HearEffect(n, f);
      } else {
        PassesUpIff(n, f, Datagram(0, 0, []));
      }
    case Tick(ms) => TickEffect(n, ms);
    case Drain =>
  }

  lemma {:induction false} EntryWasHeard(ns: seq<Interface>, es: seq<Event>, eth: Eth, ip: Ip, k: nat, x: Entry) returns (j: nat)
    requires IsRun(ns, es, eth, ip) && k < |ns| && x in ns[k].entries
    ensures j < k && HearsAt(ns, es, j, x.ip, x.eth) && ns[j].time == x.time
  {
    hide Next, Inv, Hears;
    EveryRunKeepsInv(ns, es, eth, ip, k - 1);
    EntryComesFrom(ns[k - 1], es[k - 1], x);
    if x in ns[k - 1].entries {
      j := EntryWasHeard(ns, es, eth, ip, k - 1, x);
    } else {
      j := k - 1;
    }
  }

  /** In every run, an address is only ever taken from an ARP message its owner sent, at most thirty seconds ago. */
  lemma KnownWasHeard(ns: seq<Interface>, es: seq<Event>, eth: Eth, ip: Ip, k: nat, hop: Ip) returns (j: nat)
    requires IsRun(ns, es, eth, ip) && k < |ns| && hop in ns[k].ip2eth
    ensures j < k && HearsAt(ns, es, j, hop, ns[k].ip2eth[hop]) && ns[k].time <= ns[j].time + 30000
  {
    hide IsRun, InOrder, Pushed, Waiting, HearsAt;
    EveryRunKeepsInv(ns, es, eth, ip, k);
    var x :| x in ns[k].entries && x.ip == hop;
    j := EntryWasHeard(ns, es, eth, ip, k, x);
  }

  lemma EntryStays(n: Interface, e: Event, x: Entry)
    requires Inv(n) && x in n.entries && Next(n, e).time <= x.time + 30000
    ensures x in Next(n, e).entries
  {
    hide Interface.SendDatagram, Interface.RecvFrame, Interface.Tick, FramesFor, Queues, Inv;
    match e
    case Send(d, to) => SendEffect(n, d, to);
    case Recv(f) =>
      if Hears(n, f) {
        HearEffect(n, f);
      } else {
        PassesUpIff(n, f, Datagram(0, 0, []));
      }
    case Tick(ms) => TickEffect(n, ms);
    case Drain =>
  }

  lemma NewlyHeard(n: Interface, f: Frame)
    requires Hears(n, f) && f.payload.msg.senderIp !in n.ip2eth
    ensures Entry(f.payload.msg.senderIp, f.payload.msg.senderEth, n.time) in n.RecvFrame(f).entries
  {
    hide Interface.RecvFrame, Queues, Pushes;
    HearEffect(n, f);
  }

  lemma {:induction false} EntryLasts(ns: seq<Interface>, es: seq<Event>, eth: Eth, ip: Ip, j: nat, k: nat, hop: Ip, at: Eth)
    requires IsRun(ns, es, eth, ip) && j < k < |ns| && HearsAt(ns, es, j, hop, at) && hop !in ns[j].ip2eth
    requires ns[k].time <= ns[j].time + 30000
    ensures Entry(hop, at, ns[j].time) in ns[k].entries
    decreases k
  {
    hide Next, Inv, Hears, Interface.RecvFrame;
    if k == j + 1 {
      NewlyHeard(ns[j], es[j].frame);
      NextHears(ns[j], es[j]);
    } else {
      EveryRunKeepsInv(ns, es, eth, ip, k - 1);
      StepSends(ns[k - 1], es[k - 1]);
      EntryLasts(ns, es, eth, ip, j, k - 1, hop, at);
      EntryStays(ns[k - 1], es[k - 1], Entry(hop, at, ns[j].time));
    }
  }

  lemma NextHears(n: Interface, e: Event)
    requires e.Recv?
    ensures Next(n, e) == n.RecvFrame(e.frame)
  {
  }

  /** In every run, an address heard while unknown stays known for thirty seconds. */
  lemma HeardStaysKnown(ns: seq<Interface>, es: seq<Event>, eth: Eth, ip: Ip, j: nat, k: nat, hop: Ip, at: Eth)
    requires IsRun(ns, es, eth, ip) && j < k < |ns| && HearsAt(ns, es, j, hop, at) && hop !in ns[j].ip2eth
    requires ns[k].time <= ns[j].time + 30000
    ensures hop in ns[k].ip2eth && ns[k].ip2eth[hop] == at
  {
    hide IsRun, HearsAt, InOrder, Pushed, Waiting, Sorted;
    EntryLasts(ns, es, eth, ip, j, k, hop, at);
    EveryRunKeepsInv(ns, es, eth, ip, k);
  }
}
