/**
 * The two directions between a pair of connected endpoints, each a sender here and a receiver
 * there; data and acknowledgments travel on the same segments.
 */
module Links {
  import opened Words
  import opened WrappingIntegers
  import opened ByteStreams
  import opened Segments
  import opened Assembly
  import opened AssemblyRuns
  import opened Sending
  import SI = SenderInvariants
  import SR = SenderRuns
  import opened Receiving
  import P = Protocol
  import opened SenderFacts
  import opened WholePieces
  import FA = FreshAcks
  import C = Connecting

  /** A segment put on its way; `acked` is the absolute number that its acknowledgment was wrapped from. */
  datatype Packet = Packet(seg: Segment, acked: nat) {

    predicate Acknowledges() {
      seg.header.ack
    }

    function Ack(): P.Ack {
      P.Ack(seg.header.ackno, seg.header.win, acked)
    }
  }

  /** Equal in all that a receiver looks at. */
  predicate SameContent(x: Segment, y: Segment) {
    && x.payload == y.payload && x.header.seqno == y.header.seqno
    && x.header.syn == y.header.syn && x.header.fin == y.header.fin
  }

  /** The segment is a copy of entry `i` of the log, but for acknowledgment, window and RST. */
  predicate CopyAt(log: seq<Sent>, seg: Segment, i: nat) {
    i < |log| && SameContent(log[i].seg, seg)
  }

  ghost predicate Honest(sent: set<Packet>, log: seq<Sent>) {
    forall p :: p in sent && p.seg.Length() > 0 ==> exists i :: CopyAt(log, p.seg, i)
  }

  /** The acknowledgments that packets carry. */
  function AcksOf(sent: set<Packet>): set<P.Ack> {
    set p | p in sent && p.Acknowledges() :: p.Ack()
  }

  /** One direction as a world of its own, with the acknowledgments on the way back. */
  function View(s: Sender, r: Receiver, back: set<Packet>): P.World {
    P.World(s, r, {}, AcksOf(back))
  }

  /**
   * Sender and receiver of one direction agree, whatever of `out` and `back` is still under way;
   * and the sender stays within the receiver's room if no acknowledgment was stale.
   */
  ghost predicate Half(s: Sender, r: Receiver, out: set<Packet>, back: set<Packet>, timely: bool) {
    P.Inv(View(s, r, back)) && Honest(out, s.log) && (timely ==> FA.FreshInv(View(s, r, back)))
  }

  /** The connection has not put an acknowledgment on the segment yet. */
  predicate Bare(segs: seq<Segment>) {
    forall seg :: seg in segs ==> !seg.header.ack
  }

  lemma {:induction false} FillLoopStaysBare(s: Sender)
    requires s.Shaped() && Bare(s.segmentsOut)
    ensures Bare(s.FillLoop().segmentsOut)
    decreases |s.stream.Buffered()|
  {
    hide Wrap;
    if |s.stream.Buffered()| > 0 && s.windowSize > s.bytesFlying {
      FillLoopStaysBare(s.Emit(false, s.SegmentSize(), s.FinRides(s.SegmentSize())));
    }
  }

  lemma FillStaysBare(s: Sender)
    requires s.Shaped() && Bare(s.segmentsOut)
    ensures Bare(s.FillWindow().segmentsOut)
  {
    hide Wrap, Sender.FillLoop;
    FillLoopStaysBare(s);
  }

  lemma AckStaysBare(s: Sender, ackno: Word32, win: Word16)
    requires s.Shaped() && Bare(s.segmentsOut)
    ensures Bare(s.AckReceived(ackno, win).segmentsOut)
  {
    hide Unwrap, Sender.FillWindow;
    var w := s.(windowSize := win);
    if w.Accepts(s.AckValue(ackno)) {
      FillStaysBare(w.Acknowledge(s.AckValue(ackno)));
    }
  }

  /** Retransmissions are copies of log entries, which are bare. */
  lemma TickStaysBare(s: Sender, ms: nat)
    requires SI.Inv(s) && Bare(s.segmentsOut)
    ensures Bare(s.Tick(ms).segmentsOut)
  {
    hide Wrap, SI.Accounts, SI.Tiles;
    if s.outstanding != [] {
      assert SI.Genuine(s.log[|s.log| - |s.outstanding|], s.isn, s.stream);
    }
  }

  lemma HonestGrows(sent: set<Packet>, log: seq<Sent>, log': seq<Sent>)
    requires Honest(sent, log) && log <= log'
    ensures Honest(sent, log')
  {
    forall p | p in sent && p.seg.Length() > 0
      ensures exists i :: CopyAt(log', p.seg, i)
    {
      var i :| CopyAt(log, p.seg, i);
      assert CopyAt(log', p.seg, i);
    }
  }

  /** The invariants of one direction do not depend on what the world remembers of its network. */
  lemma ForgetNet(w: P.World)
    requires P.Inv(w)
    ensures P.Inv(w.(net := {}))
    ensures FA.FreshInv(w) ==> FA.FreshInv(w.(net := {}))
  {
    hide SR.Good, P.Agrees, FA.AllFit, FA.WindowWithinEdge, FA.WithinEdge;
    P.SafeAcksSurvive(w, w.(net := {}));
  }

  lemma HalfReady(s: Sender, r: Receiver, out: set<Packet>, back: set<Packet>, timely: bool)
    requires Half(s, r, out, back, timely)
    ensures s.Shaped() && r.Valid() && SR.Good(s) && SI.Accounts(s)
  {
  }

  // Steps of the sender

  lemma SenderStep(s: Sender, r: Receiver, out: set<Packet>, back: set<Packet>, timely: bool, op: SR.Op)
    requires Half(s, r, out, back, timely) && s.Shaped() && P.Enabled(View(s, r, back), P.SenderStep(op))
    ensures Half(SR.Apply(s, op), r, out, back, timely)
  {
    hide SR.Apply, P.Inv, Honest, SR.Good, P.Enabled, SR.Progress, FA.FreshInv, AcksOf;
    var w := View(s, r, back);
    P.InvReady(w);
    P.SenderStepKeepsInv(w, op);
    if timely {
      FA.SenderStepKeepsFresh(w, op);
    }
    ForgetNet(P.Next(w, P.SenderStep(op)));
    SenderProgress(w, op);
    HonestGrows(out, s.log, SR.Apply(s, op).log);
  }

  lemma SenderProgress(w: P.World, op: SR.Op)
    requires P.Inv(w) && P.Enabled(w, P.SenderStep(op))
    ensures w.s.Shaped() && w.s.log <= SR.Apply(w.s, op).log
  {
    hide SR.Good, P.Agrees, SR.Apply, SR.Allowed;
    SR.StepKeepsGood(w.s, op);
    P.ProgressLog(w.s, SR.Apply(w.s, op));
  }

  /** The number acknowledged is less than half a cycle from what the sender has read off its stream. */
  predicate NearNumber(s: Sender, p: Packet) {
    Abs(p.acked - s.stream.read) < TWO_31
  }

  lemma AckStep(s: Sender, r: Receiver, out: set<Packet>, back: set<Packet>, timely: bool, p: Packet)
    requires Half(s, r, out, back, timely) && s.Shaped() && p in back && p.Acknowledges() && NearNumber(s, p)
    requires timely ==> s.ackAbs <= s.AckValue(p.seg.header.ackno)
    ensures !SI.Premature(s, s.AckValue(p.seg.header.ackno))
    ensures Half(s.AckReceived(p.seg.header.ackno, p.seg.header.win), r, out, back, timely)
  {
    hide P.Inv, Honest, Sender.AckReceived, SR.Good, Wrap, Receiver.Assembled, SR.Progress, Sender.AckValue, FA.FreshInv;
    var w, a := View(s, r, back), p.Ack();
    assert a in w.acks;
    P.DeliverAckKeepsInv(w, a);
    FA.AckFacts(w, a);
    if timely {
      FA.DeliverAckKeepsFresh(w, a);
    }
    AckProgress(w, a);
    HonestGrows(out, s.log, s.AckReceived(a.ackno, a.win).log);
  }

  lemma AckProgress(w: P.World, a: P.Ack)
    requires P.Inv(w) && a in w.acks && P.AckNear(w, a)
    ensures w.s.Shaped() && w.s.log <= w.s.AckReceived(a.ackno, a.win).log
    ensures !SI.Premature(w.s, w.s.AckValue(a.ackno))
  {
    hide SR.Good, P.HonestNet, Wrap, Unwrap, Faithful, Sender.AckAt, SR.Progress, Sender.AckValue, Assembler.Valid;
    P.GoodAccounts(w.s);
    FA.AckFacts(w, a);
    SR.AckKeepsGood(w.s, a.ackno, a.win);
    P.ProgressLog(w.s, w.s.AckReceived(a.ackno, a.win));
  }

  lemma SenderFails(s: Sender, r: Receiver, out: set<Packet>, back: set<Packet>, timely: bool)
    requires Half(s, r, out, back, timely)
    ensures Half(s.(stream := s.stream.Fail()), r, out, back, timely)
  {
    hide FA.FreshInv, AcksOf, Honest;
    SenderFailKeeps(View(s, r, back));
    hide P.Inv;
  }

  lemma SenderFailKeeps(w: P.World)
    requires P.Inv(w)
    ensures var w' := w.(s := w.s.(stream := w.s.stream.Fail()));
            P.Inv(w') && (FA.FreshInv(w) ==> FA.FreshInv(w'))
  {
    hide SR.Good, Faithful, Receiver.Valid, Wrap, P.HonestNet, Fitting;
    C.FailKeepsGood(w.s);
    var w' := w.(s := w.s.(stream := w.s.stream.Fail()));
    P.SafeAcksSurvive(w, w');
    if FA.FreshInv(w) {
      FA.SameLogFits(w.s, w'.s, w.r.asm);
    }
  }

  // Steps of the receiver

  lemma ReceiverReads(s: Sender, r: Receiver, out: set<Packet>, back: set<Packet>, timely: bool, n: nat)
    requires Half(s, r, out, back, timely) && r.Valid()
    ensures Half(s, r.Read(n), out, back, timely)
  {
    hide P.Inv, Honest, Receiver.Valid, FA.FreshInv, AcksOf;
    var w := View(s, r, back);
    P.InvReady(w);
    P.ReadKeepsInv(w, n);
    if timely {
      FA.ReadKeepsFresh(w, n);
    }
  }

  lemma ReceiverFails(s: Sender, r: Receiver, out: set<Packet>, back: set<Packet>, timely: bool)
    requires Half(s, r, out, back, timely)
    ensures Half(s, r.(asm := r.asm.(out := r.asm.out.Fail())), out, back, timely)
  {
    hide FA.FreshInv, AcksOf, Honest;
    ReceiverFailKeeps(View(s, r, back));
    hide P.Inv;
  }

  lemma ReceiverFailKeeps(w: P.World)
    requires P.Inv(w)
    ensures var w' := w.(r := w.r.(asm := w.r.asm.(out := w.r.asm.out.Fail())));
            P.Inv(w') && (FA.FreshInv(w) ==> FA.FreshInv(w'))
  {
    hide SR.Good, Wrap, P.HonestNet;
    var w' := w.(r := w.r.(asm := w.r.asm.(out := w.r.asm.out.Fail())));
    P.SafeAcksSurvive(w, w');
    if FA.FreshInv(w) {
      forall i | 0 <= i < |w.s.log|
        ensures Fitting(w'.r.asm, FirstByte(w.s, i), FA.LastByte(w.s, i))
      {
        assert Fitting(w.r.asm, FirstByte(w.s, i), FA.LastByte(w.s, i));
      }
    }
  }

  /** The receiver does not look at the rest of a segment. */
  lemma ContentDecides(r: Receiver, x: Segment, y: Segment)
    requires r.Valid() && SameContent(x, y)
    ensures r.SegmentReceived(x) == r.SegmentReceived(y)
  {
    hide Unwrap, Wrap, Assembler.Push;
  }

  /** The entry starts less than half a cycle from the receiver's checkpoint, or is the SYN. */
  predicate NearEntry(s: Sender, r: Receiver, i: nat)
    requires i < |s.log|
  {
    s.log[i].start == 0 || Abs(s.log[i].start - r.ckpt) < TWO_31
  }

  lemma ReceiverTakes(s: Sender, r: Receiver, out: set<Packet>, back: set<Packet>, timely: bool, seg: Segment, i: nat)
    requires Half(s, r, out, back, timely) && r.Valid() && CopyAt(s.log, seg, i) && NearEntry(s, r, i) && seg.Length() > 0
    ensures Half(s, r.SegmentReceived(seg), out, back, timely)
  {
    hide P.Inv, Honest, Receiver.SegmentReceived, Receiver.Valid, SR.Good, SameContent, FA.FreshInv, AcksOf;
    var plain := s.log[i].seg;
    SameLength(plain, seg);
    var w := View(s, r, back).(net := {plain});
    SentWorld(View(s, r, back), i);
    assert P.SentNear(w, plain, i);
    P.DeliverKeepsInv(w, plain);
    if timely {
      FA.DeliverKeepsFresh(w, plain);
    }
    P.InvReady(w);
    ForgetNet(P.Next(w, P.Deliver(plain)));
    ContentDecides(r, plain, seg);
  }

  lemma SameLength(x: Segment, y: Segment)
    requires SameContent(x, y)
    ensures x.Length() == y.Length()
  {
  }

  lemma SentWorld(w: P.World, i: nat)
    requires P.Inv(w) && i < |w.s.log|
    ensures P.Inv(w.(net := {w.s.log[i].seg}))
    ensures FA.FreshInv(w) ==> FA.FreshInv(w.(net := {w.s.log[i].seg}))
  {
    hide SR.Good, P.Agrees, FA.AllFit, FA.WindowWithinEdge, FA.WithinEdge;
    P.SafeAcksSurvive(w, w.(net := {w.s.log[i].seg}));
  }

  /** Without stale acknowledgments the ring can place every near copy. */
  lemma CopyIsPlaceable(s: Sender, r: Receiver, out: set<Packet>, back: set<Packet>, seg: Segment, i: nat)
    requires Half(s, r, out, back, true) && CopyAt(s.log, seg, i) && NearEntry(s, r, i) && seg.Length() > 0
    ensures r.asm.cap > 0 && r.Placeable(seg)
  {
    hide P.Inv, Honest, SR.Good, FA.FreshInv, AcksOf, Unwrap, Assembler.Placeable;
    var plain := s.log[i].seg;
    var w := View(s, r, back).(net := {plain});
    SentWorld(View(s, r, back), i);
    assert P.SentNear(w, plain, i);
    P.InvReady(w);
    FA.DeliveryFits(w, plain);
  }

  // Handing segments over

  /** What the connection puts on its way when it hands over a queue. */
  ghost function Packets(c: C.Connection, queue: seq<Segment>): set<Packet>
    requires c.r.asm.out.Valid()
  {
    set i | 0 <= i < |queue| :: Packet(c.Dressed(queue[i]), c.r.Assembled())
  }

  lemma DressedIsHonest(c: C.Connection, sent: set<Packet>)
    requires c.r.asm.out.Valid() && SR.OnlyCopies(c.s.log, c.s.segmentsOut) && Honest(sent, c.s.log)
    ensures Honest(sent + Packets(c, c.s.segmentsOut), c.s.log)
  {
    hide SR.InLog, CopyAt, C.Connection.Dressed, Receiver.Assembled;
    forall p | p in Packets(c, c.s.segmentsOut) && p.seg.Length() > 0
      ensures exists i :: CopyAt(c.s.log, p.seg, i)
    {
      var k :| 0 <= k < |c.s.segmentsOut| && p == Packet(c.Dressed(c.s.segmentsOut[k]), c.r.Assembled());
      DressedContent(c, c.s.segmentsOut[k]);
      LoggedIsCopy(c.s.log, c.s.segmentsOut[k], p.seg);
    }
  }

  lemma DressedContent(c: C.Connection, seg: Segment)
    requires c.r.asm.out.Valid()
    ensures SameContent(seg, c.Dressed(seg)) && seg.Length() == c.Dressed(seg).Length()
  {
  }

  lemma LoggedIsCopy(log: seq<Sent>, plain: Segment, seg: Segment)
    requires SR.InLog(log, plain) && SameContent(plain, seg)
    ensures exists i :: CopyAt(log, seg, i)
  {
    var i :| 0 <= i < |log| && log[i].seg == plain;
    assert CopyAt(log, seg, i);
  }

  /** What a connection hands over carries the acknowledgment its receiver gives, or none. */
  lemma DressedAcks(c: C.Connection, sent: set<Packet>)
    requires c.r.asm.out.Valid() && Bare(c.s.segmentsOut)
    ensures AcksOf(sent + Packets(c, c.s.segmentsOut))
            == AcksOf(sent) + (if c.r.syn && c.s.segmentsOut != [] then {P.AckOf(c.r)} else {})
  {
    var q := c.s.segmentsOut;
    forall p | p in Packets(c, q)
      ensures p.Acknowledges() <==> c.r.syn
      ensures c.r.syn ==> p.Ack() == P.AckOf(c.r)
    {
      var k :| 0 <= k < |q| && p == Packet(c.Dressed(q[k]), c.r.Assembled());
      assert q[k] in q;
    }
    if c.r.syn && q != [] {
      assert Packet(c.Dressed(q[0]), c.r.Assembled()) in Packets(c, q);
    }
  }

  lemma QueueOut(c: C.Connection, r: Receiver, sent: set<Packet>, back: set<Packet>, timely: bool)
    requires Half(c.s, r, sent, back, timely) && c.r.asm.out.Valid()
    ensures Half(c.s.Drained(), r, sent + Packets(c, c.s.segmentsOut), back, timely)
  {
    hide P.Inv, Honest, FA.FreshInv, AcksOf, Packets, SR.OnlyCopies;
    HalfReady(c.s, r, sent, back, timely);
    P.GoodAccounts(c.s);
    DressedIsHonest(c, sent);
    SenderStep(c.s, r, sent, back, timely, SR.Drain);
    hide SR.Good;
  }

  /** What a connection puts on its segments acknowledges only what its receiver has assembled. */
  lemma QueueBack(c: C.Connection, s: Sender, out: set<Packet>, sent: set<Packet>, timely: bool)
    requires Half(s, c.r, out, sent, timely) && Bare(c.s.segmentsOut) && c.r.asm.out.Valid()
    ensures Half(s, c.r, out, sent + Packets(c, c.s.segmentsOut), timely)
  {
    hide P.Inv, Honest, FA.FreshInv, AcksOf, Packets, P.AckOf, Receiver.Valid;
    DressedAcks(c, sent);
    if c.r.syn && c.s.segmentsOut != [] {
      var w := View(s, c.r, sent);
      P.InvReady(w);
      P.EmitAckKeepsInv(w);
      if timely {
        FA.EmitAckKeepsFresh(w);
      }
    } else {
      assert AcksOf(sent) + {} == AcksOf(sent);
    }
  }
}
