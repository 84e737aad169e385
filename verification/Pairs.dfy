/**
 * Two endpoints with their rings over a network that may drop, repeat and reorder, and what
 * every step keeps.  Two connections with partial maps in place of the rings shadow them.
 */
module Pairs {
  import opened Words
  import opened WrappingIntegers
  import opened ByteStreams
  import opened Segments
  import opened Assembly
  import opened AssemblyRuns
  import opened Rings
  import opened Sending
  import SI = SenderInvariants
  import opened Receiving
  import opened RingReceiving
  import P = Protocol
  import C = Connecting
  import opened Links
  import opened Duplex
  import E = Endpoints

  /** An endpoint, what it has transmitted, and a record of all it ever put on its way. */
  datatype Side = Side(x: E.Endpoint, net: set<Segment>, sent: set<Packet>)

  datatype Pair = Pair(a: Side, b: Side) {
    function Swapped(): Pair {
      Pair(b, a)
    }
  }

  /** An event at the left or the right endpoint. */
  datatype Move = Move(left: bool, e: C.Event)

  function Facing(d: Pair, left: bool): Pair {
    if left then d else d.Swapped()
  }

  function PeerOf(c: C.Connection, sent: set<Packet>): Peer {
    Peer(c.s, c.r, sent)
  }

  /** What the environment of the left endpoint may do. */
  ghost predicate CanMove(d: Pair, e: C.Event) {
    Enabled(d.a.x.c, e, PeerOf(d.b.x.c, d.b.sent), d.b.net)
  }

  ghost function MovedSide(side: Side, e: C.Event): Side
    requires side.x.Holds()
  {
    var x := E.Next(side.x, e);
    var net := if e.Transmit? then side.net + (set seg | seg in side.x.c.segmentsOut) else side.net;
    Side(x, net, side.sent + Handed(side.x.c, x.c))
  }

  ghost function Moved(d: Pair, e: C.Event): Pair
    requires d.a.x.Holds()
  {
    d.(a := MovedSide(d.a, e))
  }

  ghost predicate CanMoveAt(d: Pair, m: Move) {
    CanMove(Facing(d, m.left), m.e)
  }

  ghost function Next(d: Pair, m: Move): Pair
    requires d.a.x.Holds() && d.b.x.Holds()
  {
    Facing(Moved(Facing(d, m.left), m.e), m.left)
  }

  // The invariant

  /** The shadow of an endpoint: equal if all that was delivered could be placed, which shows in the length of the ring string. */
  ghost predicate Follows(x: E.Endpoint, c: C.Connection, fit: bool) {
    && x.Holds() && C.AlikeEnds(x.c, c)
    && (fit ==> x.c == c) && (|x.m.aux| == x.c.r.asm.cap <==> fit)
  }

  /** The output has ended once the FIN is assembled. */
  predicate EndFollows(r: Receiver) {
    r.syn && r.ckpt == r.lenStream ==> r.asm.out.ended
  }

  /** An endpoint that need not linger has seen the FIN of the other. */
  predicate LingerLaw(c: C.Connection, p: C.Connection) {
    !c.linger ==> p.s.finSent
  }

  /** Whatever waits or is on the network was put on its way. */
  ghost predicate OnRecord(side: Side) {
    && (forall seg :: seg in side.net ==> exists v :: Packet(seg, v) in side.sent)
    && (forall seg :: seg in side.x.c.segmentsOut ==> exists v :: Packet(seg, v) in side.sent)
  }

  /** Whether the sender was spared stale acknowledgments, and whether the ring could place all that was delivered. */
  datatype Luck = Luck(timely: bool, fit: bool)

  /** Of one end: its shadow `c` faces the shadow of the other. */
  ghost predicate Stands(side: Side, c: C.Connection, q: Peer, here: Luck, there: bool) {
    && Follows(side.x, c, here.fit) && OnRecord(side)
    && Faces(c, side.sent, q, here.timely, there)
    && C.Inv(c) && EndFollows(c.r)
  }

  ghost predicate Inv(d: Pair, ca: C.Connection, cb: C.Connection, la: Luck, lb: Luck) {
    && Stands(d.a, ca, PeerOf(cb, d.b.sent), la, lb.timely)
    && Stands(d.b, cb, PeerOf(ca, d.a.sent), lb, la.timely)
    && LingerLaw(ca, cb) && LingerLaw(cb, ca) && (ca.linger || cb.linger)
    && (la.timely ==> lb.fit) && (lb.timely ==> la.fit)
  }

  lemma InvSwaps(d: Pair, ca: C.Connection, cb: C.Connection, la: Luck, lb: Luck)
    requires Inv(d, ca, cb, la, lb)
    ensures Inv(d.Swapped(), cb, ca, lb, la)
  {
    hide Stands;
  }

  // What one event keeps of the shadows

  lemma FinStays(c: C.Connection, e: C.Event)
    requires c.Valid() && c.s.finSent
    ensures C.Next(c, e).s.finSent
  {
    hide Sender.FillWindow, Sender.AckReceived, Receiver.SegmentReceived, Receiver.Valid, C.Connection.DressedAll, C.Connection.Active;
    match e
    case Receive(seg) =>
      C.AbsorbKeepsValid(c, seg);
      AckKeepsFin(c.s, seg.header.ackno, seg.header.win);
      P.FillKeepsAck(c.Absorb(seg).s);
    case Write(data) => P.FillKeepsAck(c.s.Write(data));
    case EndInput => P.FillKeepsAck(c.s.EndInput());
    case Connect => P.FillKeepsAck(c.s);
    case _ =>
  }

  lemma AckKeepsFin(s: Sender, ackno: Word32, win: Word16)
    requires s.Shaped() && s.finSent
    ensures s.AckReceived(ackno, win).finSent
  {
    hide Sender.FillWindow, Unwrap;
  }

  lemma EndStillFollows(c: C.Connection, e: C.Event)
    requires c.Valid() && EndFollows(c.r)
    ensures EndFollows(C.Next(c, e).r)
  {
    hide Sender.FillWindow, Sender.AckReceived, Sender.Tick, Sender.SendEmpty, Assembler.Valid, Assembler.Push, C.Connection.DressedAll,
         C.Connection.Active, Wrap, Unwrap;
    match e
    case Receive(seg) => C.AbsorbKeepsValid(c, seg);
    case _ =>
  }

  /** A delivered FIN was sent: its sender's log has it. */
  lemma FinWasSent(s: Sender, seg: Segment, i: nat)
    requires SI.Inv(s) && CopyAt(s.log, seg, i) && seg.header.fin
    ensures s.finSent
  {
    hide SI.Inv;
    P.LogFin(s, i);
  }

  /** Lingering is given up only for a FIN, and only while the own FIN is not sent. */
  lemma LingerStep(c: C.Connection, e: C.Event)
    requires c.Valid() && c.linger && !C.Next(c, e).linger
    ensures e.Receive? && e.seg.header.fin && !c.Absorb(e.seg).s.stream.Eof()
  {
    hide Sender.FillWindow, Sender.AckReceived, Sender.Tick, Sender.SendEmpty, Receiver.SegmentReceived, C.Connection.DressedAll,
         C.Connection.Active, Receiver.Valid;
    match e
    case Receive(seg) => C.AbsorbKeepsValid(c, seg);
    case _ =>
  }

  lemma LingerStays(c: C.Connection, e: C.Event)
    requires c.Valid() && !c.linger
    ensures !C.Next(c, e).linger
  {
    hide Sender.FillWindow, Sender.AckReceived, Sender.Tick, Sender.SendEmpty, Receiver.SegmentReceived, C.Connection.DressedAll,
         C.Connection.Active, Receiver.Valid;
    match e
    case Receive(seg) => C.AbsorbKeepsValid(c, seg);
    case _ =>
  }

  lemma SenderInv(c: C.Connection)
    requires C.Inv(c)
    ensures SI.Inv(c.s)
  {
  }

  lemma FinKeepsEof(c: C.Connection, sent: set<Packet>, q: Peer, here: bool, there: bool, seg: Segment, inbound: set<Segment>)
    requires Faces(c, sent, q, here, there) && Enabled(c, C.Receive(seg), q, inbound) && c.s.finSent
    ensures c.Valid() && c.Absorb(seg).s.stream.Eof()
  {
    hide Faces, Enabled, Sender.AckReceived, Receiver.SegmentReceived, Receiver.Valid, NotStale;
    AbsorbFaces(c, sent, q, here, there, seg, inbound);
    FacesReady(c, sent, q, here, there);
    FacesReady(c.Absorb(seg), sent, q, here && NotStale(c.s, seg), there);
    AckKeepsFin(c.s, seg.header.ackno, seg.header.win);
  }

  /** Whoever stops lingering does so while the other end still lingers. */
  lemma LingerKept(c: C.Connection, p: C.Connection, sent: set<Packet>, back: set<Packet>, here: bool, there: bool, e: C.Event,
                   inbound: set<Segment>)
    requires Faces(c, sent, PeerOf(p, back), here, there) && C.Inv(p) && Enabled(c, e, PeerOf(p, back), inbound)
    requires LingerLaw(c, p) && LingerLaw(p, c) && (c.linger || p.linger)
    ensures c.Valid() && LingerLaw(C.Next(c, e), p) && (C.Next(c, e).linger || p.linger)
  {
    hide Faces, C.Inv, C.Next, AcksNear, C.Connection.Absorb;
    FacesReady(c, sent, PeerOf(p, back), here, there);
    if !c.linger {
      LingerStays(c, e);
    } else if !C.Next(c, e).linger {
      LingerStep(c, e);
      var i :| CopyNear(p.s, c.r, e.seg, i);
      SenderInv(p);
      FinWasSent(p.s, e.seg, i);
      if c.s.finSent {
        FinKeepsEof(c, sent, PeerOf(p, back), here, there, e.seg, inbound);
      }
    }
  }

  // From an endpoint to its shadow

  lemma EnabledAlike(x: C.Connection, c: C.Connection, y: C.Connection, d: C.Connection, e: C.Event, sent: set<Packet>,
                     inbound: set<Segment>)
    requires C.AlikeEnds(x, c) && C.AlikeEnds(y, d) && Enabled(x, e, PeerOf(y, sent), inbound)
    ensures Enabled(c, e, PeerOf(d, sent), inbound)
  {
    if e.Receive? && e.seg.Length() > 0 {
      var i :| CopyNear(y.s, x.r, e.seg, i);
      assert CopyNear(d.s, c.r, e.seg, i);
    }
  }

  lemma HandedAlike(x: C.Connection, x': C.Connection, c: C.Connection, c': C.Connection)
    requires C.AlikeEnds(x, c) && C.AlikeEnds(x', c')
    ensures Handed(x, x') == Handed(c, c')
  {
  }

  /** What the event brings: an acknowledgment that is not stale, and a payload that can be placed. */
  ghost function LuckAfter(l: Luck, x: E.Endpoint, e: C.Event): Luck
    requires x.c.r.asm.cap > 0
  {
    Luck(l.timely && Timely(x.c, e), l.fit && E.Fits(x.c.r, e))
  }

  lemma FollowsNext(x: E.Endpoint, c: C.Connection, e: C.Event, fit: bool)
    requires Follows(x, c, fit) && c.Valid()
    ensures x.c.r.asm.cap > 0 && Follows(E.Next(x, e), C.Next(c, e), fit && E.Fits(x.c.r, e))
  {
    hide E.Endpoint.Holds, C.AlikeEnds, E.Next, C.Next, E.Fits, C.Connection.Valid;
    E.NextHolds(x, e);
    E.NextAlike(x, c, e);
    E.NextCap(x, e);
    EndParts(x);
  }

  lemma EndParts(x: E.Endpoint)
    requires x.Holds()
    ensures x.c.Valid() && x.c.r.asm.cap > 0 && |x.m.aux| >= x.c.r.asm.cap
  {
    hide RingReceiver.Holds, Receiver.Valid;
    ReceiverParts(x.Inbound());
  }

  lemma RecordGrows(side: Side, e: C.Event)
    requires side.x.Holds() && OnRecord(side)
    ensures OnRecord(MovedSide(side, e))
  {
    hide E.Next, Receiver.Assembled;
    var c, d, m := side.x.c, E.Next(side.x, e).c, MovedSide(side, e);
    QueueKept(side.x, e);
    forall seg | seg in d.segmentsOut
      ensures exists v :: Packet(seg, v) in m.sent
    {
      var i :| 0 <= i < |d.segmentsOut| && d.segmentsOut[i] == seg;
      if i >= |c.segmentsOut| {
        assert Packet(seg, d.r.Assembled()) in Handed(c, d);
      } else {
        assert seg == c.segmentsOut[i] && seg in side.x.c.segmentsOut;
        var v :| Packet(seg, v) in side.sent;
        assert Packet(seg, v) in m.sent;
      }
    }
    forall seg | seg in m.net
      ensures exists v :: Packet(seg, v) in m.sent
    {
      var v :| Packet(seg, v) in side.sent;
      assert Packet(seg, v) in m.sent;
    }
  }

  /** The queue is only added to, or emptied. */
  lemma QueueKept(x: E.Endpoint, e: C.Event)
    requires x.Holds()
    ensures var c, d := x.c, E.Next(x, e).c;
            if e.Transmit? then d.segmentsOut == [] else c.segmentsOut <= d.segmentsOut
  {
    hide Sender.FillWindow, Sender.AckReceived, Sender.Tick, Sender.SendEmpty, RingReceiver.SegmentReceived, RingReceiver.Holds,
         C.Connection.DressedAll, C.Connection.Active, Receiver.Read;
    ReceiverParts(x.Inbound());
    if e.Receive? {
      E.AbsorbHolds(x, e.seg);
    }
  }

  // Steps

  lemma FacesBare(c: C.Connection, sent: set<Packet>, q: Peer, here: bool, there: bool)
    requires Faces(c, sent, q, here, there)
    ensures Bare(c.s.segmentsOut)
  {
    hide Half, Bare;
  }

  lemma FacesSwap(c: C.Connection, sent: set<Packet>, p: C.Connection, back: set<Packet>, here: bool, there: bool)
    requires Faces(c, sent, PeerOf(p, back), here, there) && Bare(p.s.segmentsOut)
    ensures Faces(p, back, PeerOf(c, sent), there, here)
  {
    hide Half, Bare;
  }

  /** Without stale acknowledgments at the other end, the ring here can place what comes from there. */
  lemma TimelyFits(c: C.Connection, sent: set<Packet>, q: Peer, here: bool, e: C.Event, inbound: set<Segment>)
    requires Faces(c, sent, q, here, true) && Enabled(c, e, q, inbound)
    ensures c.r.asm.cap > 0 && E.Fits(c.r, e)
  {
    hide Half, Receiver.Placeable, AcksNear;
    HalfReady(q.s, c.r, q.sent, sent, true);
    if e.Receive? && e.seg.Length() != 0 {
      var i :| CopyNear(q.s, c.r, e.seg, i);
      CopyIsPlaceable(q.s, c.r, q.sent, sent, e.seg, i);
    }
  }

  lemma StandsAfter(side: Side, c: C.Connection, q: Peer, l: Luck, there: bool, e: C.Event, inbound: set<Segment>)
    requires Stands(side, c, q, l, there) && Enabled(c, e, q, inbound)
    ensures side.x.Holds() && side.x.c.r.asm.cap > 0 && c.Valid()
    ensures Stands(MovedSide(side, e), C.Next(c, e), q, LuckAfter(l, side.x, e), there)
    ensures there && l.fit ==> LuckAfter(l, side.x, e).fit
  {
    hide Faces, C.Inv, C.Next, E.Next, EndFollows, C.Allowed, Enabled, C.Connection.Valid, OnRecord, Handed, E.Endpoint.Holds,
         C.AlikeEnds, E.Fits, Timely;
    NextFaces(c, e, side.sent, q, l.timely, there, inbound);
    FollowsNext(side.x, c, e, l.fit);
    HandedAlike(side.x.c, E.Next(side.x, e).c, c, C.Next(c, e));
    RecordGrows(side, e);
    C.StepKeepsInv(c, e);
    EndStillFollows(c, e);
    TimelyAlike(side.x.c, c, e);
    if there && l.fit {
      TimelyFits(c, side.sent, q, l.timely, e, inbound);
    }
  }

  lemma TimelyAlike(x: C.Connection, c: C.Connection, e: C.Event)
    requires C.AlikeEnds(x, c)
    ensures Timely(x, e) == Timely(c, e)
  {
    hide Sender.AckValue;
  }

  lemma MovedKeepsInv(d: Pair, ca: C.Connection, cb: C.Connection, la: Luck, lb: Luck, e: C.Event)
    requires Inv(d, ca, cb, la, lb) && CanMove(d, e)
    ensures d.a.x.Holds() && d.a.x.c.r.asm.cap > 0 && ca.Valid()
    ensures Inv(Moved(d, e), C.Next(ca, e), cb, LuckAfter(la, d.a.x, e), lb)
  {
    hide Faces, C.Inv, C.Next, EndFollows, Enabled, C.Connection.Valid, OnRecord, E.Endpoint.Holds, C.AlikeEnds, MovedSide, E.Fits,
         Timely, LingerLaw;
    EnabledAlike(d.a.x.c, ca, d.b.x.c, cb, e, d.b.sent, d.b.net);
    var q := PeerOf(cb, d.b.sent);
    StandsAfter(d.a, ca, q, la, lb.timely, e, d.b.net);
    LingerKept(ca, cb, d.a.sent, d.b.sent, la.timely, lb.timely, e, d.b.net);
    FinLaw(ca, cb, e);
    FacesBare(cb, d.b.sent, PeerOf(ca, d.a.sent), lb.timely, la.timely);
    FacesSwap(C.Next(ca, e), MovedSide(d.a, e).sent, cb, d.b.sent, LuckAfter(la, d.a.x, e).timely, lb.timely);
    hide Bare;
  }

  lemma FinLaw(c: C.Connection, p: C.Connection, e: C.Event)
    requires c.Valid() && LingerLaw(p, c)
    ensures LingerLaw(p, C.Next(c, e))
  {
    hide C.Next, C.Connection.Valid;
    if c.s.finSent {
      FinStays(c, e);
    }
  }
}
