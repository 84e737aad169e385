/** An endpoint with its ring, as a value, and the connection with a partial map that shadows it. */
module Endpoints {
  import opened Words
  import opened WrappingIntegers
  import opened ByteStreams
  import opened Segments
  import opened Assembly
  import opened Ring
  import opened Rings
  import opened Sending
  import opened Receiving
  import opened RingReceiving
  import C = Connecting

  datatype Endpoint = Endpoint(c: C.Connection, m: Slots) {

    function Inbound(): RingReceiver {
      RingReceiver(c.r, m)
    }

    ghost predicate Holds() {
      c.s.Shaped() && Inbound().Holds()
    }

    /** First the sender sees the acknowledgment, then the receiver the rest. */
    ghost function Absorb(seg: Segment): Endpoint
      requires Holds()
    {
      var x := if seg.Length() != 0 then Inbound().SegmentReceived(seg) else Inbound();
      Endpoint(c.(s := if seg.header.ack then c.s.AckReceived(seg.header.ackno, seg.header.win) else c.s, r := x.r), x.m)
    }

    ghost function SegmentReceived(seg: Segment): Endpoint
      requires Holds()
    {
      AbsorbHolds(this, seg);
      var x := Absorb(seg);
      x.(c := x.c.Respond(seg))
    }
  }

  lemma AbsorbHolds(x: Endpoint, seg: Segment)
    requires x.Holds()
    ensures x.Absorb(seg).Holds() && x.Absorb(seg).c.r.asm.out.Valid()
  {
    hide Sender.AckReceived, RingReceiver.SegmentReceived, RingReceiver.Holds;
    if seg.Length() != 0 {
      ReceiveHolds(x.Inbound(), seg);
    }
    ReceiverParts(x.Absorb(seg).Inbound());
  }

  ghost function Next(x: Endpoint, e: C.Event): Endpoint
    requires x.Holds()
  {
    match e
    case Receive(seg) => x.SegmentReceived(seg)
    case _ => x.(c := C.Next(x.c, e))
  }

  ghost function FreshEndpoint(isn: Word32, rto: nat, sendCap: nat, recvCap: nat): Endpoint {
    Endpoint(C.InitialConnection(isn, rto, sendCap, recvCap), FreshReceiver(recvCap).m)
  }

  // The ring survives every event

  /** The events other than a segment reach the ring only through its output. */
  predicate OnlyOutput(r: Receiver, r': Receiver) {
    && r' == r.(asm := r.asm.(out := r'.asm.out))
    && r'.asm.out.written == r.asm.out.written && r'.asm.out.cap == r.asm.out.cap
    && r'.asm.out.ended == r.asm.out.ended && (r.asm.out.Valid() ==> r'.asm.out.Valid())
  }

  lemma RespondOnlyOutput(c: C.Connection, seg: Segment)
    requires c.s.Shaped() && c.r.asm.out.Valid()
    ensures OnlyOutput(c.r, c.Respond(seg).r) && c.Respond(seg).s.Shaped()
  {
    hide Sender.FillWindow, C.Connection.DressedAll, C.Connection.Active, C.Connection.NeedsReply;
  }

  lemma NextOnlyOutput(c: C.Connection, e: C.Event)
    requires c.Valid() && !e.Receive?
    ensures OnlyOutput(c.r, C.Next(c, e).r) && C.Next(c, e).s.Shaped()
  {
    hide Sender.FillWindow, C.Connection.SendSegments, Sender.Tick, Assembler.Valid, OnlyOutput;
    C.OutIsValid(c);
    SameOutput(c.r);
    match e
    case Write(data) => SendOnlyOutput(c.(s := c.s.Write(data).FillWindow()));
    case EndInput => SendOnlyOutput(c.(s := c.s.EndInput().FillWindow()));
    case Connect => SendOnlyOutput(c.(connectCalled := true, s := c.s.FillWindow()));
    case Tick(ms) =>
      var d := c.(time := c.time + ms, s := c.s.Tick(ms));
      SendOnlyOutput(d);
      FailOnlyOutput(d.(rstToSend := true));
      SendOnlyOutput(d.(rstToSend := true).Failed());
    case ReadInbound(n) => ReadOnlyOutput(c.r, n);
    case Transmit =>
  }

  lemma SameOutput(r: Receiver)
    ensures OnlyOutput(r, r)
  {
  }

  lemma ReadOnlyOutput(r: Receiver, n: nat)
    requires r.asm.out.Valid()
    ensures OnlyOutput(r, r.Read(n))
  {
  }

  lemma FailOnlyOutput(c: C.Connection)
    requires c.s.Shaped()
    ensures OnlyOutput(c.r, c.Failed().r) && c.Failed().s.Shaped()
    ensures c.r.asm.out.Valid() ==> c.Failed().r.asm.out.Valid()
  {
  }

  lemma SendOnlyOutput(c: C.Connection)
    requires c.r.asm.out.Valid() && c.s.Shaped()
    ensures c.SendSegments().r == c.r && c.SendSegments().s.Shaped()
  {
    hide C.Connection.DressedAll;
  }

  lemma OutputHolds(x: RingReceiver, r': Receiver)
    requires x.Holds() && OnlyOutput(x.r, r')
    ensures x.(r := r').Holds()
  {
    hide Known, Ringed.Holds, Assembler.Valid;
    HoldsParts(x.Buffer());
    OutputIsApart(x.Buffer(), r'.asm.out);
    HoldsParts(x.(r := r').Buffer());
  }

  lemma NextHolds(x: Endpoint, e: C.Event)
    requires x.Holds()
    ensures Next(x, e).Holds()
  {
    hide C.Next, C.Connection.Respond, RingReceiver.Holds, OnlyOutput, Endpoint.Absorb;
    match e
    case Receive(seg) =>
      AbsorbHolds(x, seg);
      var y := x.Absorb(seg);
      RespondOnlyOutput(y.c, seg);
      OutputHolds(y.Inbound(), y.c.Respond(seg).r);
    case _ =>
      ReceiverParts(x.Inbound());
      NextOnlyOutput(x.c, e);
      OutputHolds(x.Inbound(), C.Next(x.c, e).r);
  }

  // The shadow

  /** The event delivers nothing that the ring cannot place. */
  predicate Fits(r: Receiver, e: C.Event)
    requires r.asm.cap > 0
  {
    e.Receive? && e.seg.Length() != 0 ==> r.Placeable(e.seg)
  }

  lemma AbsorbsAlike(x: Endpoint, d: C.Connection, seg: Segment)
    requires x.Holds() && d.Valid() && C.AlikeEnds(x.c, d)
    ensures C.AlikeEnds(x.Absorb(seg).c, d.Absorb(seg)) && x.c.r.asm.cap > 0
    ensures x.c == d && Fits(x.c.r, C.Receive(seg)) ==> x.Absorb(seg).c == d.Absorb(seg)
    ensures |x.Absorb(seg).m.aux| >= |x.m.aux|
    ensures |x.Absorb(seg).m.aux| == |x.m.aux| <==> Fits(x.c.r, C.Receive(seg))
  {
    hide Sender.AckReceived, RingReceiver.SegmentReceived, RingReceiver.Holds, Receiver.SegmentReceived, Receiver.Valid, Alike,
         Receiver.Placeable;
    ReceiverParts(x.Inbound());
    if seg.Length() != 0 {
      ReceiveHolds(x.Inbound(), seg);
      ReceivesAlike(x.c.r, d.r, seg);
      AlikeTransitive(x.Inbound().SegmentReceived(seg).r, x.c.r.SegmentReceived(seg), d.r.SegmentReceived(seg));
    }
  }

  lemma OthersAlike(c: C.Connection, d: C.Connection, e: C.Event)
    requires c.Valid() && d.Valid() && C.AlikeEnds(c, d) && !e.Receive?
    ensures C.AlikeEnds(C.Next(c, e), C.Next(d, e))
  {
    hide Sender.FillWindow, Sender.Tick, C.Connection.SendSegments, Receiver.Valid;
    C.OutIsValid(c);
    C.OutIsValid(d);
    match e
    case Write(data) =>
      var s := c.s.Write(data).FillWindow();
      C.SendsAlike(c.(s := s), d.(s := s));
    case EndInput =>
      var s := c.s.EndInput().FillWindow();
      C.SendsAlike(c.(s := s), d.(s := s));
    case Tick(ms) => TicksAlike(c, d, ms);
    case Connect =>
      var s := c.s.FillWindow();
      C.SendsAlike(c.(connectCalled := true, s := s), d.(connectCalled := true, s := s));
    case ReadInbound(n) =>
    case Transmit =>
  }

  lemma TicksAlike(c: C.Connection, d: C.Connection, ms: nat)
    requires c.s.Shaped() && c.r.asm.out.Valid() && d.r.asm.out.Valid() && C.AlikeEnds(c, d)
    ensures C.AlikeEnds(c.Tick(ms), d.Tick(ms))
  {
    hide Sender.Tick, C.Connection.SendSegments;
    var s := c.s.Tick(ms);
    var c', d' := c.(time := c.time + ms, s := s), d.(time := c.time + ms, s := s);
    C.SendsAlike(c', d');
    C.SendsAlike(c'.(rstToSend := true).Failed(), d'.(rstToSend := true).Failed());
  }

  /**
   * An endpoint follows the connection with a partial map: as long as the ring can place what
   * is delivered in everything, and always in everything but byte values.  The ring string
   * keeps its length over an event exactly if the ring can place what it delivers.
   */
  lemma NextAlike(x: Endpoint, d: C.Connection, e: C.Event)
    requires x.Holds() && d.Valid() && C.AlikeEnds(x.c, d)
    ensures C.AlikeEnds(Next(x, e).c, C.Next(d, e)) && x.c.r.asm.cap > 0
    ensures x.c == d && Fits(x.c.r, e) ==> Next(x, e).c == C.Next(d, e)
    ensures |Next(x, e).m.aux| >= |x.m.aux| && (|Next(x, e).m.aux| == |x.m.aux| <==> Fits(x.c.r, e))
  {
    hide C.AlikeEnds, C.Connection.Respond, RingReceiver.Holds, Endpoint.Absorb, C.Connection.Absorb, Receiver.Placeable,
         C.Connection.Write, C.Connection.EndInputStream, C.Connection.Tick, C.Connection.Connect, C.Connection.ReadInbound;
    ReceiverParts(x.Inbound());
    match e
    case Receive(seg) =>
      AbsorbHolds(x, seg);
      C.AbsorbKeepsValid(d, seg);
      AbsorbsAlike(x, d, seg);
      ReceiverParts(x.Absorb(seg).Inbound());
      C.RespondsAlike(x.Absorb(seg).c, d.Absorb(seg), seg);
    case _ =>
      OthersAlike(x.c, d, e);
  }

  lemma NextCap(x: Endpoint, e: C.Event)
    requires x.Holds()
    ensures Next(x, e).c.r.asm.cap == x.c.r.asm.cap
  {
    hide RingReceiver.Holds, C.Connection.Respond, OnlyOutput, C.Next, RingReceiver.SegmentReceived;
    match e
    case Receive(seg) =>
      AbsorbHolds(x, seg);
      if seg.Length() != 0 {
        ReceiveCap(x.Inbound(), seg);
      }
      RespondOnlyOutput(x.Absorb(seg).c, seg);
      OutputCap(x.Absorb(seg).c.r, Next(x, e).c.r);
    case _ =>
      ReceiverParts(x.Inbound());
      NextOnlyOutput(x.c, e);
      OutputCap(x.c.r, Next(x, e).c.r);
  }

  lemma OutputCap(r: Receiver, r': Receiver)
    requires OnlyOutput(r, r')
    ensures r'.asm.cap == r.asm.cap
  {
  }
}
