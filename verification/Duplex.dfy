/** What one connection does to the two directions between it and another. */
module Duplex {
  import opened Words
  import opened WrappingIntegers
  import opened ByteStreams
  import opened Segments
  import opened Assembly
  import opened Sending
  import SI = SenderInvariants
  import SR = SenderRuns
  import opened Receiving
  import P = Protocol
  import FA = FreshAcks
  import C = Connecting
  import opened Links

  /** The other end: its sender and receiver, and what it has put on its way. */
  datatype Peer = Peer(s: Sender, r: Receiver, sent: set<Packet>)

  /**
   * Both directions, and the queue of the sender whose endpoint moves.  The flags say whether
   * each sender was spared stale acknowledgments so far.
   */
  ghost predicate Linked(s: Sender, r: Receiver, sent: set<Packet>, q: Peer, here: bool, there: bool) {
    Half(s, q.r, sent, q.sent, here) && Half(q.s, r, q.sent, sent, there) && Bare(s.segmentsOut)
  }

  lemma LinkedReady(s: Sender, r: Receiver, sent: set<Packet>, q: Peer, here: bool, there: bool)
    requires Linked(s, r, sent, q, here, there)
    ensures s.Shaped() && r.Valid() && r.asm.out.Valid() && SI.Accounts(s)
  {
    hide FA.FreshInv, Honest;
    HalfReady(s, q.r, sent, q.sent, here);
    HalfReady(q.s, r, q.sent, sent, there);
  }

  /** Operations of the sender alone. */
  predicate Plain(s: Sender, op: SR.Op) {
    match op
    case Write(data) => !s.stream.ended && |s.stream.written| + |data| <= TWO_63
    case Ack(_, _) => false
    case Drain => false
    case _ => true
  }

  lemma OpLinked(s: Sender, r: Receiver, sent: set<Packet>, q: Peer, here: bool, there: bool, op: SR.Op)
    requires Linked(s, r, sent, q, here, there) && s.Shaped() && Plain(s, op)
    ensures Linked(SR.Apply(s, op), r, sent, q, here, there)
  {
    hide Half;
    OpStaysBare(s, q.r, sent, q.sent, here, op);
    hide SR.Apply, Bare;
    SenderStep(s, q.r, sent, q.sent, here, op);
  }

  lemma OpStaysBare(s: Sender, r: Receiver, sent: set<Packet>, back: set<Packet>, here: bool, op: SR.Op)
    requires Half(s, r, sent, back, here) && Bare(s.segmentsOut) && s.Shaped() && Plain(s, op)
    ensures Bare(SR.Apply(s, op).segmentsOut)
  {
    hide Sender.FillWindow, Sender.Tick, P.Agrees, Honest, SI.Inv, SR.Timed, SR.OnlyCopies, FA.FreshInv;
    match op
    case Fill => FillStaysBare(s);
    case Tick(ms) => TickStaysBare(s, ms);
    case _ =>
  }

  /** The segment is on its way here, and what it acknowledges is near. */
  predicate AcksNear(s: Sender, back: set<Packet>, seg: Segment, v: nat) {
    Packet(seg, v) in back && NearNumber(s, Packet(seg, v))
  }

  /** The segment acknowledges no less than was acknowledged before. */
  predicate NotStale(s: Sender, seg: Segment) {
    seg.header.ack ==> s.ackAbs <= s.AckValue(seg.header.ackno)
  }

  lemma AckLinked(s: Sender, r: Receiver, sent: set<Packet>, q: Peer, here: bool, there: bool, seg: Segment, v: nat)
    requires Linked(s, r, sent, q, here, there) && s.Shaped() && seg.header.ack && AcksNear(s, q.sent, seg, v)
    ensures Linked(s.AckReceived(seg.header.ackno, seg.header.win), r, sent, q, here && NotStale(s, seg), there)
    ensures !SI.Premature(s, s.AckValue(seg.header.ackno))
  {
    hide Half, Bare, Sender.AckReceived, Sender.AckValue, SI.Premature;
    HalfWeakens(s, q.r, sent, q.sent, here, here && NotStale(s, seg));
    AckStep(s, q.r, sent, q.sent, here && NotStale(s, seg), Packet(seg, v));
    AckStaysBare(s, seg.header.ackno, seg.header.win);
  }

  lemma HalfWeakens(s: Sender, r: Receiver, sent: set<Packet>, back: set<Packet>, timely: bool, timely': bool)
    requires Half(s, r, sent, back, timely) && (timely' ==> timely)
    ensures Half(s, r, sent, back, timely')
  {
    hide P.Inv, FA.FreshInv, Honest;
  }

  /** The segment is a copy of a near entry of the other end's log. */
  predicate CopyNear(s': Sender, r: Receiver, seg: Segment, i: nat) {
    CopyAt(s'.log, seg, i) && NearEntry(s', r, i)
  }

  lemma TakeLinked(s: Sender, r: Receiver, sent: set<Packet>, q: Peer, here: bool, there: bool, seg: Segment, i: nat)
    requires Linked(s, r, sent, q, here, there) && r.Valid() && CopyNear(q.s, r, seg, i) && seg.Length() > 0
    ensures Linked(s, r.SegmentReceived(seg), sent, q, here, there)
  {
    hide Half, Bare, Receiver.SegmentReceived;
    ReceiverTakes(q.s, r, q.sent, sent, there, seg, i);
  }

  lemma ReadLinked(s: Sender, r: Receiver, sent: set<Packet>, q: Peer, here: bool, there: bool, n: nat)
    requires Linked(s, r, sent, q, here, there) && r.Valid()
    ensures Linked(s, r.Read(n), sent, q, here, there)
  {
    hide Half, Bare, Receiver.Read;
    ReceiverReads(q.s, r, q.sent, sent, there, n);
  }

  lemma FailLinked(c: C.Connection, sent: set<Packet>, q: Peer, here: bool, there: bool)
    requires Linked(c.s, c.r, sent, q, here, there)
    ensures Linked(c.Failed().s, c.Failed().r, sent, q, here, there)
  {
    hide Half;
    SenderFails(c.s, q.r, sent, q.sent, here);
    ReceiverFails(q.s, c.r, q.sent, sent, there);
  }

  // Operations of a connection

  /** The connection `c`, with what it has put on its way, faces the other end. */
  ghost predicate Faces(c: C.Connection, sent: set<Packet>, q: Peer, here: bool, there: bool) {
    Linked(c.s, c.r, sent, q, here, there)
  }

  lemma FacesReady(c: C.Connection, sent: set<Packet>, q: Peer, here: bool, there: bool)
    requires Faces(c, sent, q, here, there)
    ensures c.Valid() && c.s.Shaped() && c.r.asm.out.Valid() && SI.Accounts(c.s)
  {
    hide Linked;
    LinkedReady(c.s, c.r, sent, q, here, there);
  }

  /** What was put on the way when `c` became `d`: the segments that joined the queue. */
  ghost function Handed(c: C.Connection, d: C.Connection): set<Packet> {
    set i | |c.segmentsOut| <= i < |d.segmentsOut| :: Packet(d.segmentsOut[i], d.r.Assembled())
  }

  lemma HandedBySending(c: C.Connection)
    requires c.r.asm.out.Valid()
    ensures Handed(c, c.SendSegments()) == Packets(c, c.s.segmentsOut)
  {
    hide C.Connection.Dressed, Receiver.Assembled;
    var d, q := c.SendSegments(), c.s.segmentsOut;
    forall p | p in Packets(c, q)
      ensures p in Handed(c, d)
    {
      var k :| 0 <= k < |q| && p == Packet(c.Dressed(q[k]), c.r.Assembled());
      assert d.segmentsOut[|c.segmentsOut| + k] == c.Dressed(q[k]);
    }
    forall p | p in Handed(c, d)
      ensures p in Packets(c, q)
    {
      var i :| |c.segmentsOut| <= i < |d.segmentsOut| && p == Packet(d.segmentsOut[i], d.r.Assembled());
      assert p == Packet(c.Dressed(q[i - |c.segmentsOut|]), c.r.Assembled());
    }
  }

  /** `d` has the queue that `c` had before something was done to it. */
  lemma HandedDepends(c: C.Connection, c': C.Connection, d: C.Connection)
    requires |c.segmentsOut| == |c'.segmentsOut|
    ensures Handed(c, d) == Handed(c', d)
  {
  }

  /** Moving the sender's queue to the connection's, dressed, keeps both directions. */
  lemma SendFaces(c: C.Connection, sent: set<Packet>, q: Peer, here: bool, there: bool)
    requires Faces(c, sent, q, here, there) && c.r.asm.out.Valid()
    ensures var d := c.SendSegments();
            Faces(d, sent + Handed(c, d), q, here, there)
  {
    hide Half, Handed, Packets, C.Connection.DressedAll;
    HandedBySending(c);
    QueueOut(c, q.r, sent, q.sent, here);
    QueueBack(c, q.s, q.sent, sent, there);
  }

  /** What is asked of the network and the application at an endpoint. */
  ghost predicate Enabled(c: C.Connection, e: C.Event, q: Peer, inbound: set<Segment>) {
    match e
    case Receive(seg) =>
      && seg in inbound
      && (seg.header.ack ==> exists v :: AcksNear(c.s, q.sent, seg, v))
      && (seg.Length() > 0 ==> exists i :: CopyNear(q.s, c.r, seg, i))
    case Write(data) => !c.s.stream.ended && |c.s.stream.written| + |data| <= TWO_63
    case _ => true
  }

  /** The event does not bring a stale acknowledgment. */
  predicate Timely(c: C.Connection, e: C.Event) {
    e.Receive? ==> NotStale(c.s, e.seg)
  }

  lemma AbsorbFaces(c: C.Connection, sent: set<Packet>, q: Peer, here: bool, there: bool, seg: Segment, inbound: set<Segment>)
    requires Faces(c, sent, q, here, there) && Enabled(c, C.Receive(seg), q, inbound)
    ensures c.Valid() && C.Allowed(c, C.Receive(seg))
    ensures Faces(c.Absorb(seg), sent, q, here && NotStale(c.s, seg), there)
  {
    hide Linked, AcksNear, CopyNear, Sender.AckReceived, Receiver.SegmentReceived, SI.Premature, Receiver.Valid;
    LinkedReady(c.s, c.r, sent, q, here, there);
    if seg.header.ack {
      var v :| AcksNear(c.s, q.sent, seg, v);
      AckLinked(c.s, c.r, sent, q, here, there, seg, v);
    }
    if seg.Length() > 0 {
      var i :| CopyNear(q.s, c.r, seg, i);
      TakeLinked(c.Absorb(seg).s, c.r, sent, q, here && NotStale(c.s, seg), there, seg, i);
    }
  }

  lemma ConnectFaces(c: C.Connection, sent: set<Packet>, q: Peer, here: bool, there: bool)
    requires Faces(c, sent, q, here, there)
    ensures c.Valid() && Faces(c.Connect(), sent + Handed(c, c.Connect()), q, here, there)
  {
    hide Linked, Sender.FillWindow, Receiver.Valid, C.Connection.SendSegments, Handed;
    LinkedReady(c.s, c.r, sent, q, here, there);
    OpLinked(c.s, c.r, sent, q, here, there, SR.Fill);
    var d := c.(connectCalled := true, s := c.s.FillWindow());
    SendFaces(d, sent, q, here, there);
    HandedDepends(c, d, d.SendSegments());
  }

  lemma ReplyFaces(c: C.Connection, sent: set<Packet>, q: Peer, here: bool, there: bool, seg: Segment)
    requires Faces(c, sent, q, here, there)
    ensures c.s.Shaped() && c.r.asm.out.Valid()
    ensures var d := c.Reset(seg).Reply(seg).SendSegments();
            Faces(d, sent + Handed(c, d), q, here, there)
  {
    hide Linked, Receiver.Valid, C.Connection.SendSegments, C.Connection.Failed, C.Connection.Active, C.Connection.NeedsReply,
         Sender.SendEmpty, Handed;
    LinkedReady(c.s, c.r, sent, q, here, there);
    FailLinked(c.(rstReceived := true), sent, q, here, there);
    FailedQueue(c.(rstReceived := true));
    var d := c.Reset(seg);
    LinkedReady(d.s, d.r, sent, q, here, there);
    OpLinked(d.s, d.r, sent, q, here, there, SR.Empty);
    SendFaces(d.Reply(seg), sent, q, here, there);
    HandedDepends(c, d.Reply(seg), d.Reply(seg).SendSegments());
  }

  lemma FailedQueue(c: C.Connection)
    ensures c.Failed().segmentsOut == c.segmentsOut && c.Failed().connectCalled == c.connectCalled
    ensures c.Failed().linger == c.linger && (c.Failed().s.stream.Eof() <==> c.s.stream.Eof())
    ensures c.Failed().s.finSent == c.s.finSent && (c.Failed().s.Shaped() <==> c.s.Shaped())
  {
  }

  lemma ReceiveFaces(c: C.Connection, sent: set<Packet>, q: Peer, here: bool, there: bool, seg: Segment, inbound: set<Segment>)
    requires Faces(c, sent, q, here, there) && Enabled(c, C.Receive(seg), q, inbound)
    ensures c.Valid() && C.Allowed(c, C.Receive(seg))
    ensures var d := c.SegmentReceived(seg);
            Faces(d, sent + Handed(c, d), q, here && NotStale(c.s, seg), there)
  {
    hide Faces, C.Connection.Absorb, C.Connection.Connect, C.Connection.SendSegments, C.Connection.Reply, C.Connection.Reset,
         C.Allowed, Enabled, NotStale, Handed;
    AbsorbFaces(c, sent, q, here, there, seg, inbound);
    var d := c.Absorb(seg);
    ConnectFaces(d, sent, q, here && NotStale(c.s, seg), there);
    ReplyFaces(d, sent, q, here && NotStale(c.s, seg), there, seg);
    AbsorbQueue(c, seg);
    HandedDepends(c, d, c.SegmentReceived(seg));
  }

  lemma AbsorbQueue(c: C.Connection, seg: Segment)
    requires c.Valid()
    ensures c.Absorb(seg).segmentsOut == c.segmentsOut
  {
  }

  lemma WriteFaces(c: C.Connection, sent: set<Packet>, q: Peer, here: bool, there: bool, data: seq<Byte>)
    requires Faces(c, sent, q, here, there) && !c.s.stream.ended && |c.s.stream.written| + |data| <= TWO_63
    ensures c.Valid() && Faces(c.Write(data), sent + Handed(c, c.Write(data)), q, here, there)
  {
    hide Linked, Sender.FillWindow, Receiver.Valid, C.Connection.SendSegments, Handed;
    LinkedReady(c.s, c.r, sent, q, here, there);
    OpLinked(c.s, c.r, sent, q, here, there, SR.Op.Write(data));
    OpLinked(c.s.Write(data), c.r, sent, q, here, there, SR.Fill);
    var d := c.(s := c.s.Write(data).FillWindow());
    SendFaces(d, sent, q, here, there);
    HandedDepends(c, d, d.SendSegments());
  }

  lemma EndFaces(c: C.Connection, sent: set<Packet>, q: Peer, here: bool, there: bool)
    requires Faces(c, sent, q, here, there)
    ensures c.Valid() && Faces(c.EndInputStream(), sent + Handed(c, c.EndInputStream()), q, here, there)
  {
    hide Linked, Sender.FillWindow, Receiver.Valid, C.Connection.SendSegments, Handed;
    LinkedReady(c.s, c.r, sent, q, here, there);
    OpLinked(c.s, c.r, sent, q, here, there, SR.End);
    OpLinked(c.s.EndInput(), c.r, sent, q, here, there, SR.Fill);
    var d := c.(s := c.s.EndInput().FillWindow());
    SendFaces(d, sent, q, here, there);
    HandedDepends(c, d, d.SendSegments());
  }

  lemma TickFaces(c: C.Connection, sent: set<Packet>, q: Peer, here: bool, there: bool, ms: nat)
    requires Faces(c, sent, q, here, there)
    ensures c.Valid() && Faces(c.Tick(ms), sent + Handed(c, c.Tick(ms)), q, here, there)
  {
    hide Linked, Sender.Tick, Receiver.Valid, C.Connection.SendSegments, C.Connection.Failed, Handed;
    LinkedReady(c.s, c.r, sent, q, here, there);
    OpLinked(c.s, c.r, sent, q, here, there, SR.Op.Tick(ms));
    var d := c.(time := c.time + ms, s := c.s.Tick(ms));
    var f := d.(rstToSend := true).Failed();
    FailLinked(d.(rstToSend := true), sent, q, here, there);
    FailedQueue(d.(rstToSend := true));
    LinkedReady(f.s, f.r, sent, q, here, there);
    SendFaces(f, sent, q, here, there);
    SendFaces(d, sent, q, here, there);
    HandedDepends(c, f, f.SendSegments());
    HandedDepends(c, d, d.SendSegments());
  }

  lemma ReadFaces(c: C.Connection, sent: set<Packet>, q: Peer, here: bool, there: bool, n: nat)
    requires Faces(c, sent, q, here, there)
    ensures c.Valid() && Faces(c.ReadInbound(n), sent, q, here, there)
  {
    hide Linked, Receiver.Valid, Receiver.Read;
    LinkedReady(c.s, c.r, sent, q, here, there);
    ReadLinked(c.s, c.r, sent, q, here, there, n);
  }

  /** Reading and transmitting put nothing on the way. */
  lemma NothingHanded(c: C.Connection, d: C.Connection, sent: set<Packet>)
    requires |d.segmentsOut| <= |c.segmentsOut|
    ensures sent + Handed(c, d) == sent
  {
  }

  lemma NextFaces(c: C.Connection, e: C.Event, sent: set<Packet>, q: Peer, here: bool, there: bool, inbound: set<Segment>)
    requires Faces(c, sent, q, here, there) && Enabled(c, e, q, inbound)
    ensures c.Valid() && C.Allowed(c, e)
    ensures var d := C.Next(c, e);
            Faces(d, sent + Handed(c, d), q, here && Timely(c, e), there)
  {
    hide Linked, C.Connection.SegmentReceived, C.Connection.Write, C.Connection.EndInputStream, C.Connection.Tick, C.Connection.Connect,
         C.Connection.Valid, Handed, NotStale;
    FacesReady(c, sent, q, here, there);
    match e
    case Receive(seg) => ReceiveFaces(c, sent, q, here, there, seg, inbound);
    case Write(data) => WriteFaces(c, sent, q, here, there, data);
    case EndInput => EndFaces(c, sent, q, here, there);
    case Tick(ms) => TickFaces(c, sent, q, here, there, ms);
    case Connect => ConnectFaces(c, sent, q, here, there);
    case ReadInbound(n) =>
      ReadFaces(c, sent, q, here, there, n);
      NothingHanded(c, C.Next(c, e), sent);
    case Transmit =>
      NothingHanded(c, C.Next(c, e), sent);
  }
}
