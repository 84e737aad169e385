/** Two connections advance: what gets through of one end's segments and the other's acknowledgments has an effect. */
module DuplexAdvancing {
  import opened Words
  import opened WrappingIntegers
  import opened ByteStreams
  import opened Segments
  import opened Assembly
  import opened Sending
  import SE = SenderEffects
  import opened Receiving
  import P = Protocol
  import A = Advancing
  import C = Connecting
  import CE = ConnectionEffects
  import opened Links
  import opened Duplex
  import opened Pairs
  import E = Endpoints
  import opened DuplexRuns

  // The other end receives

  /** Entry `i` of the log covers the first unacknowledged number. */
  predicate EntryCoversNext(s: Sender, i: nat) {
    i < |s.log| && s.log[i].start <= s.ackAbs < s.log[i].End()
  }

  lemma CopyReaches(s: Sender, r: Receiver, back: set<Packet>, seg: Segment, i: nat)
    requires P.Inv(View(s, r, back)) && CopyNear(s, r, seg, i) && EntryCoversNext(s, i)
    ensures r.Valid() && (A.CanAdvance(View(s, r, back)) ==> s.ackAbs < r.SegmentReceived(seg).Assembled())
  {
    hide P.Inv, Receiver.SegmentReceived, Receiver.Valid, Receiver.Assembled, A.CanAdvance, SameContent;
    var w, plain := View(s, r, back), s.log[i].seg;
    P.InvReady(w);
    assert P.SentNear(w, plain, i) && SE.CoversNext(s, plain, i);
    A.DeliveryReaches(w, plain, i);
    ContentDecides(r, plain, seg);
  }

  /** A connection that receives a segment with content has taken it, whatever else it does. */
  lemma ReceiveAssembles(c: C.Connection, seg: Segment)
    requires c.Valid() && seg.Length() > 0
    ensures C.Next(c, C.Receive(seg)).r.Assembled() == c.r.SegmentReceived(seg).Assembled()
  {
    hide Receiver.SegmentReceived, C.Connection.SegmentReceived, Receiver.Valid, Sender.AckReceived, CE.Resets;
    if CE.Opens(c, seg) {
      CE.OpenEffect(c, seg);
    } else {
      CE.ReceiveEffect(c, seg);
    }
  }

  lemma AlikeAssembled(c: C.Connection, d: C.Connection)
    requires C.AlikeEnds(c, d)
    ensures c.r.Assembled() == d.r.Assembled() && c.r.ckpt == d.r.ckpt && c.s == d.s
    ensures forall s: Sender, back: set<Packet> :: A.CanAdvance(View(s, c.r, back)) <==> A.CanAdvance(View(s, d.r, back))
  {
  }

  /** Where a move leaves the end that moves. */
  lemma MovedEnd(ds: seq<Pair>, ms: seq<Move>, u: Setup, v: Setup, k: nat)
    requires IsRun(ds, ms, u, v) && k < |ms|
    ensures var x := Facing(ds[k], ms[k].left).a.x;
            x.Holds() && Facing(ds[k + 1], ms[k].left).a.x == E.Next(x, ms[k].e)
    ensures Facing(ds[k + 1], ms[k].left).b == Facing(ds[k], ms[k].left).b
    ensures CanMove(Facing(ds[k], ms[k].left), ms[k].e)
  {
    hide E.Next, E.Endpoint.Holds, CanMove;
    assert Step(ds[k], ms[k], ds[k + 1]);
  }

  lemma Across(d: Pair, left: bool)
    ensures Facing(d, !left).a == Facing(d, left).b && Facing(d, !left).b == Facing(d, left).a
  {
  }

  /** Move `k` brings the other end a near copy of entry `i` of this end's log, which covers the first unacknowledged number. */
  predicate BringsNext(ds: seq<Pair>, ms: seq<Move>, k: nat, left: bool, i: nat)
    requires k < |ms| && k < |ds|
  {
    var d := Facing(ds[k], left);
    && ms[k].left == !left && ms[k].e.Receive?
    && CopyNear(d.a.x.c.s, d.b.x.c.r, ms[k].e.seg, i) && EntryCoversNext(d.a.x.c.s, i)
  }

  /** The other end has room for a byte, or the next number it waits for is not a byte. */
  predicate HasRoom(d: Pair) {
    A.CanAdvance(View(d.a.x.c.s, d.b.x.c.r, {}))
  }

  /**
   * In every run of two ends: receiving the segment that covers the first number the other end
   * has no acknowledgment for takes an end beyond that number, if it has room or needs none.
   */
  lemma SegmentReaches(ds: seq<Pair>, ms: seq<Move>, u: Setup, v: Setup, k: nat, left: bool, i: nat)
    requires IsRun(ds, ms, u, v) && k < |ms| && BringsNext(ds, ms, k, left, i) && HasRoom(Facing(ds[k], left))
    ensures Facing(ds[k], left).a.x.c.s.ackAbs < Facing(ds[k + 1], left).b.x.c.r.Assembled()
  {
    hide IsRun, Inv, LuckAt, P.Inv, C.Inv, E.Endpoint.Holds, E.Next, C.Next, Receiver.Assembled, A.CanAdvance, C.AlikeEnds, CanMove, Facing,
         C.Connection.Valid, CopyNear;
    RunShape(ds, ms, u, v);
    var c, p := FacingInv(ds, ms, u, v, k, left);
    var d, seg := Facing(ds[k], left), ms[k].e.seg;
    ForwardInv(d, c, p, LuckAt(ds, ms, k, left), LuckAt(ds, ms, k, !left));
    InvReady(d, c, p, LuckAt(ds, ms, k, left), LuckAt(ds, ms, k, !left));
    MovedEnd(ds, ms, u, v, k);
    Across(ds[k], left);
    Across(ds[k + 1], left);
    AlikeAssembled(d.a.x.c, c);
    AlikeAssembled(d.b.x.c, p);
    CopyNearAlike(c.s, d.b.x.c.r, p.r, seg, i);
    CopyReaches(c.s, p.r, d.b.sent, seg, i);
    CanAdvanceAnyway(c.s, p.r, d.b.sent);
    CopyHasContent(c.s, seg, i);
    ReceiveAssembles(p, seg);
    E.NextAlike(d.b.x, p, ms[k].e);
    AlikeAssembled(Facing(ds[k + 1], left).b.x.c, C.Next(p, ms[k].e));
  }

  lemma RunShape(ds: seq<Pair>, ms: seq<Move>, u: Setup, v: Setup)
    requires IsRun(ds, ms, u, v)
    ensures |ds| == |ms| + 1
  {
  }

  lemma CanAdvanceAnyway(s: Sender, r: Receiver, back: set<Packet>)
    ensures A.CanAdvance(View(s, r, back)) <==> A.CanAdvance(View(s, r, {}))
  {
  }

  lemma CopyNearAlike(s: Sender, r: Receiver, q: Receiver, seg: Segment, i: nat)
    requires CopyNear(s, r, seg, i) && r.ckpt == q.ckpt
    ensures CopyNear(s, q, seg, i)
  {
  }

  lemma CopyHasContent(s: Sender, seg: Segment, i: nat)
    requires CopyAt(s.log, seg, i) && EntryCoversNext(s, i)
    ensures seg.Length() > 0
  {
  }

  // The acknowledgment comes back

  lemma NumberReaches(s: Sender, r: Receiver, back: set<Packet>, seg: Segment, v: nat)
    requires P.Inv(View(s, r, back)) && s.Shaped() && seg.header.ack && AcksNear(s, back, seg, v)
    ensures s.AckReceived(seg.header.ackno, seg.header.win).ackAbs == Max(s.ackAbs, v)
  {
    hide P.Inv, Sender.AckReceived, Receiver.Valid;
    var w, a := View(s, r, back), Packet(seg, v).Ack();
    assert a in w.acks;
    A.AckReaches(w, a);
  }

  lemma ReceiveAcknowledges(c: C.Connection, seg: Segment)
    requires c.Valid() && seg.header.ack
    ensures C.Next(c, C.Receive(seg)).s.ackAbs == c.s.AckReceived(seg.header.ackno, seg.header.win).ackAbs
  {
    hide Receiver.SegmentReceived, Receiver.Valid, Sender.AckReceived, C.Connection.DressedAll, C.Connection.Active, Wrap;
    C.AbsorbKeepsValid(c, seg);
  }

  /** Move `k` brings this end an acknowledgment of `n`. */
  predicate BringsAck(ds: seq<Pair>, ms: seq<Move>, k: nat, left: bool, n: nat)
    requires k < |ms| && k < |ds|
  {
    var d := Facing(ds[k], left);
    ms[k].left == left && ms[k].e.Receive? && ms[k].e.seg.header.ack && AcksNear(d.a.x.c.s, d.b.sent, ms[k].e.seg, n)
  }

  /** In every run of two ends, an acknowledgment is taken for exactly what the other end meant. */
  lemma AckReaches(ds: seq<Pair>, ms: seq<Move>, u: Setup, v: Setup, k: nat, left: bool, n: nat)
    requires IsRun(ds, ms, u, v) && k < |ms| && BringsAck(ds, ms, k, left, n)
    ensures Facing(ds[k + 1], left).a.x.c.s.ackAbs == Max(Facing(ds[k], left).a.x.c.s.ackAbs, n)
  {
    hide IsRun, Inv, LuckAt, P.Inv, C.Inv, E.Endpoint.Holds, E.Next, C.Next, Receiver.Assembled, A.CanAdvance, C.AlikeEnds, CanMove, Facing,
         AcksNear, Sender.AckReceived, C.Connection.Valid;
    RunShape(ds, ms, u, v);
    var c, p := FacingInv(ds, ms, u, v, k, left);
    var d, seg := Facing(ds[k], left), ms[k].e.seg;
    ForwardInv(d, c, p, LuckAt(ds, ms, k, left), LuckAt(ds, ms, k, !left));
    InvReady(d, c, p, LuckAt(ds, ms, k, left), LuckAt(ds, ms, k, !left));
    MovedEnd(ds, ms, u, v, k);
    AlikeAssembled(d.a.x.c, c);
    ShapedSender(c);
    NumberReaches(c.s, p.r, d.b.sent, seg, n);
    ReceiveAcknowledges(c, seg);
    E.NextAlike(d.a.x, c, ms[k].e);
    AlikeAssembled(Facing(ds[k + 1], left).a.x.c, C.Next(c, ms[k].e));
  }

  lemma ShapedSender(c: C.Connection)
    requires c.Valid()
    ensures c.s.Shaped()
  {
  }

  /**
   * In every run of two ends, whatever else is lost, repeated or reordered: if the segment that
   * covers the first unacknowledged number reaches the other end while that has room or needs
   * none, and an acknowledgment of what that end has assembled then, or of more, comes back, the
   * sender has more acknowledged than before.
   */
  lemma RoundAdvances(ds: seq<Pair>, ms: seq<Move>, u: Setup, v: Setup, j: nat, k: nat, left: bool, i: nat, n: nat)
    requires IsRun(ds, ms, u, v) && j < k < |ms|
    requires BringsNext(ds, ms, j, left, i) && HasRoom(Facing(ds[j], left))
    requires BringsAck(ds, ms, k, left, n) && n >= Facing(ds[j + 1], left).b.x.c.r.Assembled()
    ensures Facing(ds[j], left).a.x.c.s.ackAbs < Facing(ds[k + 1], left).a.x.c.s.ackAbs
  {
    hide Step, BringsNext, BringsAck, HasRoom, Receiver.Assembled;
    SegmentReaches(ds, ms, u, v, j, left, i);
    AckReaches(ds, ms, u, v, k, left, n);
  }
}
