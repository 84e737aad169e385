/** A network interface as a value: address table, pending requests, waiting datagrams. */
module Arp {
  import opened Words
  import opened Routing

  type Eth = seq<Byte>

  const BROADCAST: Eth := [255, 255, 255, 255, 255, 255]
  const NO_ADDRESS: Eth := [0, 0, 0, 0, 0, 0]
  const REQUEST_INTERVAL: nat := 5000
  const MAPPING_LIFETIME: nat := 30000

  datatype Opcode = Request | Reply | Other

  datatype Message = Message(opcode: Opcode, senderIp: Ip, senderEth: Eth, targetIp: Ip, targetEth: Eth)

  datatype Datagram = Datagram(ttl: Byte, dst: Ip, body: seq<Byte>)

  datatype EtherType = IPV4 | ARP | UNKNOWN

  /** The content of a frame, as far as one of the two parsers accepts it. */
  datatype Payload = Dgram(dgram: Datagram) | Arp(msg: Message) | Junk

  datatype Frame = Frame(src: Eth, dst: Eth, etherType: EtherType, payload: Payload)

  /** A learned mapping and when it was learned. */
  datatype Entry = Entry(ip: Ip, eth: Eth, time: nat)

  /** A datagram handed over for a next hop. */
  datatype Handed = Handed(hop: Ip, dgram: Datagram)

  /** A datagram put into a frame, with the address it went to. */
  datatype Framed = Framed(hop: Ip, eth: Eth, dgram: Datagram)

  /**
   * The fields of the interface.  `handed`, `framed` and `sent` are history: all datagrams
   * handed over, all datagrams framed, all frames pushed on the outgoing queue.
   */
  datatype Interface = Interface(
    eth: Eth, ip: Ip, ip2eth: map<Ip, Eth>, waiting: map<Ip, seq<Datagram>>, pending: map<Ip, nat>, entries: seq<Entry>,
    time: nat, framesOut: seq<Frame>, handed: seq<Handed>, framed: seq<Framed>, sent: seq<Frame>)
  {
    /** Datagrams waiting for the address of `hop`. */
    function Queue(hop: Ip): seq<Datagram> {
      if hop in waiting then waiting[hop] else []
    }

    function Push(f: Frame): Interface {
      this.(framesOut := framesOut + [f], sent := sent + [f])
    }

    function SendFrame(hop: Ip, to: Eth, dgram: Datagram): Interface {
      this.(framed := framed + [Framed(hop, to, dgram)]).Push(Frame(eth, to, IPV4, Dgram(dgram)))
    }

    function SendArp(opcode: Opcode, targetIp: Ip, targetEth: Eth): Interface {
      Push(Frame(eth, if opcode == Reply then targetEth else BROADCAST, ARP, Arp(Message(opcode, ip, eth, targetIp, targetEth))))
    }

    /** A request for this address went out less than the interval ago. */
    predicate RecentlyAsked(hop: Ip) {
      hop in pending && time - pending[hop] < REQUEST_INTERVAL
    }

    function SendDatagram(dgram: Datagram, hop: Ip): Interface {
      var n := this.(handed := handed + [Handed(hop, dgram)]);
      if hop in ip2eth then n.SendFrame(hop, ip2eth[hop], dgram)
      else
        var q := n.(waiting := waiting[hop := Queue(hop) + [dgram]]);
        if RecentlyAsked(hop) then q
        else q.(pending := pending[hop := time]).SendArp(Request, hop, NO_ADDRESS)
    }

    /** Frames some datagrams in order. */
    function SendFrames(hop: Ip, to: Eth, dgrams: seq<Datagram>): Interface
      decreases |dgrams|
    {
      if dgrams == [] then this else SendFrame(hop, to, dgrams[0]).SendFrames(hop, to, dgrams[1..])
    }

    /** Learns the sender of an ARP message, unless a mapping is still known. */
    function Learn(from: Ip, to: Eth): Interface {
      if from in ip2eth then this
      else this.(entries := entries + [Entry(from, to, time)], ip2eth := ip2eth[from := to])
    }

    /** Sends what was waiting for an address that was asked for. */
    function Flush(from: Ip): Interface
      requires from in ip2eth
    {
      if from in pending then
        this.(pending := pending - {from}, waiting := waiting[from := []]).SendFrames(from, ip2eth[from], Queue(from))
      else
        this
    }

    function Answer(msg: Message): Interface {
      if msg.opcode == Request && msg.targetIp == ip then SendArp(Reply, msg.senderIp, msg.senderEth) else this
    }

    predicate ForUs(f: Frame) {
      f.etherType == IPV4 && f.dst == eth
    }

    /** Anything that is not an IPv4 frame for this interface is tried as ARP. */
    function RecvFrame(f: Frame): Interface {
      if !ForUs(f) && f.payload.Arp? then
        Learn(f.payload.msg.senderIp, f.payload.msg.senderEth).Flush(f.payload.msg.senderIp).Answer(f.payload.msg)
      else
        this
    }

    /** The datagram passed up the stack. */
    function Received(f: Frame): Option<Datagram> {
      if ForUs(f) && f.payload.Dgram? then Some(f.payload.dgram) else None
    }

    /** Time passes: mappings older than their lifetime are dropped from the whole table. */
    function Tick(ms: nat): Interface {
      var kept := Alive(entries, time + ms);
      this.(time := time + ms, entries := kept, ip2eth := Restrict(ip2eth, kept))
    }

    function Drained(): Interface {
      this.(framesOut := [])
    }
  }

  predicate Expired(e: Entry, now: nat) {
    now - e.time > MAPPING_LIFETIME
  }

  function Alive(entries: seq<Entry>, now: nat): seq<Entry> {
    if entries == [] then []
    else (if Expired(entries[0], now) then [] else [entries[0]]) + Alive(entries[1..], now)
  }

  predicate Listed(entries: seq<Entry>, ip: Ip) {
    exists e :: e in entries && e.ip == ip
  }

  /** The mappings that some entry backs. */
  function Restrict(m: map<Ip, Eth>, entries: seq<Entry>): map<Ip, Eth> {
    map ip | ip in m && Listed(entries, ip) :: m[ip]
  }

  /** Datagrams of a log that were for `hop`, in order. */
  function HandedTo(log: seq<Handed>, hop: Ip): seq<Datagram> {
    if log == [] then []
    else HandedTo(log[..|log| - 1], hop) + (if log[|log| - 1].hop == hop then [log[|log| - 1].dgram] else [])
  }

  function FramedTo(log: seq<Framed>, hop: Ip): seq<Datagram> {
    if log == [] then []
    else FramedTo(log[..|log| - 1], hop) + (if log[|log| - 1].hop == hop then [log[|log| - 1].dgram] else [])
  }

  /** The IPv4 frames that framing these datagrams pushes. */
  function FramesOf(eth: Eth, log: seq<Framed>): seq<Frame> {
    if log == [] then []
    else FramesOf(eth, log[..|log| - 1]) + [Frame(eth, log[|log| - 1].eth, IPV4, Dgram(log[|log| - 1].dgram))]
  }

  function Ipv4Only(frames: seq<Frame>): seq<Frame> {
    if frames == [] then []
    else Ipv4Only(frames[..|frames| - 1]) + (if frames[|frames| - 1].etherType == IPV4 then [frames[|frames| - 1]] else [])
  }
}
