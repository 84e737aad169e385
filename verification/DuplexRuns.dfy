/** What every run of two endpoints with their rings keeps. */
module DuplexRuns {
  import opened Words
  import opened WrappingIntegers
  import opened ByteStreams
  import opened Segments
  import opened Assembly
  import opened AssemblyRuns
  import opened Rings
  import opened RingRuns
  import opened Sending
  import SI = SenderInvariants
  import SR = SenderRuns
  import opened Receiving
  import opened RingReceiving
  import P = Protocol
  import PF = ProtocolFacts
  import PR = ProtocolRuns
  import FA = FreshAcks
  import C = Connecting
  import CR = ConnectionRuns
  import opened TcpStates
  import opened Links
  import opened Duplex
  import E = Endpoints
  import opened Pairs

  /** How an endpoint is set up. */
  datatype Setup = Setup(isn: Word32, rto: nat, sendCap: nat, recvCap: nat)

  ghost function NewEnd(u: Setup): E.Endpoint {
    E.FreshEndpoint(u.isn, u.rto, u.sendCap, u.recvCap)
  }

  ghost predicate Step(d: Pair, m: Move, d': Pair) {
    d.a.x.Holds() && d.b.x.Holds() && CanMoveAt(d, m) && d' == Pairs.Next(d, m)
  }

  /** A run of two new endpoints: move `ms[k]` leads from `ds[k]` to `ds[k + 1]`. */
  ghost predicate IsRun(ds: seq<Pair>, ms: seq<Move>, u: Setup, v: Setup) {
    && |ds| == |ms| + 1 && u.recvCap > 0 && v.recvCap > 0
    && ds[0] == Pair(Side(NewEnd(u), {}, {}), Side(NewEnd(v), {}, {}))
    && forall k :: 0 <= k < |ms| ==> Step(ds[k], ms[k], ds[k + 1])
  }

  /** Move `j`, if it is one of this end, brings no stale acknowledgment. */
  predicate TimelyAt(ds: seq<Pair>, ms: seq<Move>, j: nat, left: bool)
    requires j < |ds| && j < |ms|
  {
    ms[j].left == left ==> Timely(Facing(ds[j], left).a.x.c, ms[j].e)
  }

  /** Move `j`, if it is one of this end, brings nothing that its ring cannot place. */
  predicate FitAt(ds: seq<Pair>, ms: seq<Move>, j: nat, left: bool)
    requires j < |ds| && j < |ms|
  {
    ms[j].left == left ==>
      Facing(ds[j], left).a.x.c.r.asm.cap > 0 && E.Fits(Facing(ds[j], left).a.x.c.r, ms[j].e)
  }

  ghost predicate AllTimely(ds: seq<Pair>, ms: seq<Move>, k: nat, left: bool)
    requires k <= |ms| && k <= |ds|
  {
    forall j :: 0 <= j < k ==> TimelyAt(ds, ms, j, left)
  }

  ghost predicate AllFit(ds: seq<Pair>, ms: seq<Move>, k: nat, left: bool)
    requires k <= |ms| && k <= |ds|
  {
    forall j :: 0 <= j < k ==> FitAt(ds, ms, j, left)
  }

  ghost function LuckAt(ds: seq<Pair>, ms: seq<Move>, k: nat, left: bool): Luck
    requires k <= |ms| && k <= |ds|
  {
    Luck(AllTimely(ds, ms, k, left), AllFit(ds, ms, k, left))
  }

  // Every run keeps the invariant

  lemma NewHalf(u: Setup, v: Setup)
    requires v.recvCap > 0
    ensures Half(NewEnd(u).c.s, NewEnd(v).c.r, {}, {}, true)
  {
    hide P.Inv, FA.FreshInv;
    FA.StartIsFresh(u.isn, u.rto, u.sendCap, v.recvCap);
    P.StartInv(u.isn, u.rto, u.sendCap, v.recvCap);
    assert AcksOf({}) == {};
  }

  lemma NewStands(u: Setup, v: Setup)
    requires u.recvCap > 0 && v.recvCap > 0
    ensures Stands(Side(NewEnd(u), {}, {}), NewEnd(u).c, PeerOf(NewEnd(v).c, {}), Luck(true, true), true)
  {
    hide Half, C.Inv, RingReceiver.Holds;
    NewHalf(u, v);
    NewHalf(v, u);
    CR.InitialInv(u.isn, u.rto, u.sendCap, u.recvCap);
    FreshReceiverHolds(u.recvCap);
  }

  lemma NewInv(u: Setup, v: Setup)
    requires u.recvCap > 0 && v.recvCap > 0
    ensures Inv(Pair(Side(NewEnd(u), {}, {}), Side(NewEnd(v), {}, {})), NewEnd(u).c, NewEnd(v).c, Luck(true, true), Luck(true, true))
  {
    hide Stands;
    NewStands(u, v);
    NewStands(v, u);
  }

  lemma InvReady(d: Pair, ca: C.Connection, cb: C.Connection, la: Luck, lb: Luck)
    requires Inv(d, ca, cb, la, lb)
    ensures d.a.x.Holds() && d.b.x.Holds() && ca.Valid() && cb.Valid() && d.a.x.c.r.asm.cap > 0 && d.b.x.c.r.asm.cap > 0
  {
    hide Faces, C.Inv, E.Endpoint.Holds, C.AlikeEnds, OnRecord;
    EndParts(d.a.x);
    EndParts(d.b.x);
    FacesReady(ca, d.a.sent, PeerOf(cb, d.b.sent), la.timely, lb.timely);
    FacesReady(cb, d.b.sent, PeerOf(ca, d.a.sent), lb.timely, la.timely);
  }

  lemma StepKeepsInv(d: Pair, ca: C.Connection, cb: C.Connection, la: Luck, lb: Luck, m: Move)
    returns (ca': C.Connection, cb': C.Connection)
    requires Inv(d, ca, cb, la, lb) && CanMoveAt(d, m)
    ensures d.a.x.Holds() && d.b.x.Holds() && Facing(d, m.left).a.x.c.r.asm.cap > 0
    ensures if m.left then Inv(Pairs.Next(d, m), ca', cb', LuckAfter(la, d.a.x, m.e), lb)
            else Inv(Pairs.Next(d, m), ca', cb', la, LuckAfter(lb, d.b.x, m.e))
  {
    hide Inv, CanMove, C.Next, Moved, E.Endpoint.Holds, E.Fits, Timely;
    InvReady(d, ca, cb, la, lb);
    if m.left {
      ca', cb' := C.Next(ca, m.e), cb;
      MovedKeepsInv(d, ca, cb, la, lb, m.e);
    } else {
      ca', cb' := ca, C.Next(cb, m.e);
      InvSwaps(d, ca, cb, la, lb);
      MovedKeepsInv(d.Swapped(), cb, ca, lb, la, m.e);
      InvSwaps(Moved(d.Swapped(), m.e), cb', ca, LuckAfter(lb, d.b.x, m.e), la);
    }
  }

  lemma LuckStep(ds: seq<Pair>, ms: seq<Move>, k: nat)
    requires k < |ms| && k < |ds| && Facing(ds[k], ms[k].left).a.x.c.r.asm.cap > 0
    ensures var m := ms[k];
            && LuckAt(ds, ms, k + 1, m.left) == LuckAfter(LuckAt(ds, ms, k, m.left), Facing(ds[k], m.left).a.x, m.e)
            && LuckAt(ds, ms, k + 1, !m.left) == LuckAt(ds, ms, k, !m.left)
  {
    hide Timely, E.Fits;
    forall left: bool
      ensures AllTimely(ds, ms, k + 1, left) <==> AllTimely(ds, ms, k, left) && TimelyAt(ds, ms, k, left)
      ensures AllFit(ds, ms, k + 1, left) <==> AllFit(ds, ms, k, left) && FitAt(ds, ms, k, left)
    {
    }
  }

  /** Every run of two endpoints is shadowed, and keeps the invariant of the pair. */
  lemma {:induction false} EveryRunKeepsInv(ds: seq<Pair>, ms: seq<Move>, u: Setup, v: Setup, k: nat)
    returns (ca: C.Connection, cb: C.Connection)
    requires IsRun(ds, ms, u, v) && k <= |ms|
    ensures Inv(ds[k], ca, cb, LuckAt(ds, ms, k, true), LuckAt(ds, ms, k, false))
  {
    hide Inv, CanMove, Pairs.Next, LuckAt, LuckAfter, E.Endpoint.Holds;
    if k == 0 {
      ca, cb := NewEnd(u).c, NewEnd(v).c;
      NewInv(u, v);
      NoLuckYet(ds, ms);
    } else {
      var c, p := EveryRunKeepsInv(ds, ms, u, v, k - 1);
      assert Step(ds[k - 1], ms[k - 1], ds[k]);
      ca, cb := StepKeepsInv(ds[k - 1], c, p, LuckAt(ds, ms, k - 1, true), LuckAt(ds, ms, k - 1, false), ms[k - 1]);
      LuckStep(ds, ms, k - 1);
    }
  }

  lemma NoLuckYet(ds: seq<Pair>, ms: seq<Move>)
    ensures LuckAt(ds, ms, 0, true) == Luck(true, true) == LuckAt(ds, ms, 0, false)
  {
  }

  lemma FacingInv(ds: seq<Pair>, ms: seq<Move>, u: Setup, v: Setup, k: nat, left: bool) returns (c: C.Connection, p: C.Connection)
    requires IsRun(ds, ms, u, v) && k <= |ms|
    ensures Inv(Facing(ds[k], left), c, p, LuckAt(ds, ms, k, left), LuckAt(ds, ms, k, !left))
  {
    hide Inv, Step, LuckAt;
    var ca, cb := EveryRunKeepsInv(ds, ms, u, v, k);
    if left {
      c, p := ca, cb;
    } else {
      c, p := cb, ca;
      InvSwaps(ds[k], ca, cb, LuckAt(ds, ms, k, true), LuckAt(ds, ms, k, false));
    }
  }

  // Main results

  /** The forward direction of the shadows, as a world of its own. */
  lemma ForwardInv(d: Pair, c: C.Connection, p: C.Connection, l: Luck, l': Luck)
    requires Inv(d, c, p, l, l')
    ensures P.Inv(View(c.s, p.r, d.b.sent)) && C.AlikeEnds(d.a.x.c, c) && C.AlikeEnds(d.b.x.c, p)
    ensures l'.fit ==> d.b.x.c == p
    ensures (l.timely ==> l'.fit) && (|d.b.x.m.aux| == d.b.x.c.r.asm.cap <==> l'.fit)
    ensures C.Inv(c) && EndFollows(p.r)
  {
    hide P.Inv, C.Inv, Honest, C.AlikeEnds, OnRecord, E.Endpoint.Holds, FA.FreshInv, Bare, EndFollows;
  }

  /** In every run, the ring string has the length of the ring exactly as long as everything delivered could be placed. */
  lemma RingKeepsLengthIff(ds: seq<Pair>, ms: seq<Move>, u: Setup, v: Setup, k: nat, left: bool)
    requires IsRun(ds, ms, u, v) && k <= |ms|
    ensures var x := Facing(ds[k], left).b.x;
            |x.m.aux| == x.c.r.asm.cap <==> AllFit(ds, ms, k, !left)
  {
    hide Step, Inv, AllFit, AllTimely, P.Inv, C.AlikeEnds;
    var c, p := FacingInv(ds, ms, u, v, k, left);
    ForwardInv(Facing(ds[k], left), c, p, LuckAt(ds, ms, k, left), LuckAt(ds, ms, k, !left));
  }

  /**
   * In every run, if no acknowledgment that reached one end was stale, the ring at the other
   * could place everything that was delivered to it.
   */
  lemma TimelyRunsFit(ds: seq<Pair>, ms: seq<Move>, u: Setup, v: Setup, k: nat, left: bool)
    requires IsRun(ds, ms, u, v) && k <= |ms| && AllTimely(ds, ms, k, left)
    ensures AllFit(ds, ms, k, !left)
  {
    hide Step, Inv, AllFit, AllTimely, P.Inv, C.AlikeEnds;
    var c, p := FacingInv(ds, ms, u, v, k, left);
    ForwardInv(Facing(ds[k], left), c, p, LuckAt(ds, ms, k, left), LuckAt(ds, ms, k, !left));
  }

  /**
   * In every run, whatever the network does, no more comes out at one end than went in at the
   * other, and no end takes as acknowledged what the other has not assembled.
   */
  lemma ReleasedIsAssembled(ds: seq<Pair>, ms: seq<Move>, u: Setup, v: Setup, k: nat, left: bool)
    requires IsRun(ds, ms, u, v) && k <= |ms|
    ensures var d := Facing(ds[k], left);
            && |d.b.x.c.r.asm.out.written| <= |d.a.x.c.s.stream.written|
            && d.a.x.c.s.ackAbs <= d.b.x.c.r.Assembled()
  {
    hide Step, Inv, AllFit, AllTimely, P.Inv;
    var c, p := FacingInv(ds, ms, u, v, k, left);
    var d := Facing(ds[k], left);
    ForwardInv(d, c, p, LuckAt(ds, ms, k, left), LuckAt(ds, ms, k, !left));
    PF.WorldIsSafe(View(c.s, p.r, d.b.sent));
    PR.OutputWithin(View(c.s, p.r, d.b.sent));
  }

  /**
   * In every run in which the ring at one end could place everything delivered to it - in
   * particular if no acknowledgment at the other end was stale - what came out there is a prefix
   * of what went in at the other end, and every occupied slot holds the true byte.
   */
  lemma DeliveredIsPrefix(ds: seq<Pair>, ms: seq<Move>, u: Setup, v: Setup, k: nat, left: bool)
    requires IsRun(ds, ms, u, v) && k <= |ms|
    requires AllFit(ds, ms, k, !left) || AllTimely(ds, ms, k, left)
    ensures var d := Facing(ds[k], left);
            && d.b.x.c.r.asm.out.written <= d.a.x.c.s.stream.written
            && d.b.x.Holds() && SlotsAreTrue(d.b.x.Inbound().Buffer(), d.a.x.c.s.stream.written)
  {
    hide Step, Inv, AllFit, AllTimely, P.Inv, RingReceiver.Holds, SlotsAreTrue, Faithful;
    var c, p := FacingInv(ds, ms, u, v, k, left);
    var d := Facing(ds[k], left);
    ForwardInv(d, c, p, LuckAt(ds, ms, k, left), LuckAt(ds, ms, k, !left));
    InvReady(d, c, p, LuckAt(ds, ms, k, left), LuckAt(ds, ms, k, !left));
    PR.OutputWithin(View(c.s, p.r, d.b.sent));
    PR.BufferHolds(d.b.x.Inbound());
    KnownIsTrue(d.b.x.Inbound().Buffer(), c.s.stream.written);
  }

  /**
   * In every run, an endpoint that has become inactive without a reset has handed over all it
   * was given: the other end's output is as long as what was written here, and has ended; and
   * it is what was written here if the ring there could place everything delivered to it.
   */
  lemma DoneMeansDelivered(ds: seq<Pair>, ms: seq<Move>, u: Setup, v: Setup, k: nat, left: bool)
    requires IsRun(ds, ms, u, v) && k <= |ms|
    requires var c := Facing(ds[k], left).a.x.c;
             !c.Active() && !c.rstReceived && !c.rstToSend
    ensures var d := Facing(ds[k], left);
            && |d.b.x.c.r.asm.out.written| == |d.a.x.c.s.stream.written| && d.b.x.c.r.asm.out.ended
            && (AllFit(ds, ms, k, !left) || AllTimely(ds, ms, k, left) ==>
                  d.b.x.c.r.asm.out.written == d.a.x.c.s.stream.written)
  {
    hide Step, Inv, AllFit, AllTimely, P.Inv, C.Inv;
    var c, p := FacingInv(ds, ms, u, v, k, left);
    var d := Facing(ds[k], left);
    ForwardInv(d, c, p, LuckAt(ds, ms, k, left), LuckAt(ds, ms, k, !left));
    CR.FinishedIff(c);
    FullyAckedIsDelivered(View(c.s, p.r, d.b.sent));
  }

  lemma FullyAckedIsDelivered(w: P.World)
    requires P.Inv(w) && w.s.ackAbs == |w.s.stream.written| + 2 && EndFollows(w.r)
    ensures w.r.asm.out.written == w.s.stream.written && w.r.asm.out.ended
  {
    hide SR.Timed, SR.OnlyCopies, SI.AllGenuine, SI.Tiles, SI.Suffix, Wrap;
    PF.WorldIsSafe(w);
    FaithfulBound(w.r.asm, P.SentBytes(w.s));
  }

  /** In every run, at least one of the two ends lingers after both streams have ended. */
  lemma OneEndLingers(ds: seq<Pair>, ms: seq<Move>, u: Setup, v: Setup, k: nat)
    requires IsRun(ds, ms, u, v) && k <= |ms|
    ensures ds[k].a.x.c.linger || ds[k].b.x.c.linger
  {
    hide Step, Faces, C.Inv, LuckAt, E.Endpoint.Holds, Alike, OnRecord;
    var ca, cb := EveryRunKeepsInv(ds, ms, u, v, k);
  }

  predicate SummariesAgree(s: Summary, r: ReceiverState) {
    s != ERROR && r != BROKEN ==>
      && (r == SYN_RECV || r == FIN_RECV ==> s != CLOSED)
      && (s == SYN_ACKED || s == FIN_SENT || s == FIN_ACKED ==> r != LISTEN)
      && (r == FIN_RECV ==> s == SYN_SENT || s == FIN_SENT || s == FIN_ACKED)
      && (s == FIN_ACKED ==> r == FIN_RECV)
  }

  /**
   * In every run the summaries at the two ends fit together: the receiver there is past LISTEN
   * only if the SYN was sent here, and is if the SYN is acknowledged here; it has an ended
   * stream only if the FIN was sent here, and has one if the FIN is acknowledged here.
   */
  lemma SummariesFit(ds: seq<Pair>, ms: seq<Move>, u: Setup, v: Setup, k: nat, left: bool)
    requires IsRun(ds, ms, u, v) && k <= |ms|
    ensures var d := Facing(ds[k], left);
            SummariesAgree(SenderSummary(d.a.x.c.s), ReceiverSummary(d.b.x.c.r))
  {
    hide Step, Inv, SummariesAgree, LuckAt, P.Inv, C.Inv, SenderSummary;
    var c, p := FacingInv(ds, ms, u, v, k, left);
    var d := Facing(ds[k], left);
    ForwardInv(d, c, p, LuckAt(ds, ms, k, left), LuckAt(ds, ms, k, !left));
    WorldSummaries(View(c.s, p.r, d.b.sent));
  }

  lemma WorldSummaries(w: P.World)
    requires P.Inv(w) && EndFollows(w.r)
    ensures SummariesAgree(SenderSummary(w.s), ReceiverSummary(w.r))
  {
    hide P.Inv;
    if !w.s.stream.error && !w.r.asm.out.error {
      SummaryFacts(w);
      if w.s.ackAbs == |w.s.stream.written| + 2 {
        FullyAckedIsDelivered(w);
      }
    }
  }

  lemma SummaryFacts(w: P.World)
    requires P.Inv(w) && !w.s.stream.error
    ensures w.r.syn ==> w.s.nextSeqno > 0
    ensures w.s.ackAbs > 0 ==> w.r.syn
    ensures w.r.asm.out.ended ==> w.s.finSent
    ensures SenderSummary(w.s) == CLOSED <==> w.s.nextSeqno == 0
    ensures SenderSummary(w.s) == SYN_SENT <==> w.s.nextSeqno > 0 && w.s.ackAbs == 0
    ensures SenderSummary(w.s) == SYN_ACKED <==> w.s.ackAbs > 0 && !w.s.finSent
    ensures SenderSummary(w.s) == FIN_ACKED <==> w.s.finSent && w.s.ackAbs == |w.s.stream.written| + 2
  {
    hide SR.Timed, SR.OnlyCopies, SI.AllGenuine, SI.Tiles, SI.Suffix, Receiver.Valid, Faithful, Wrap, SenderSummary;
    SummaryMeaning(w.s);
  }

  // When the network may do as it likes

  /**
   * While both streams are shorter than half a cycle of sequence numbers, an endpoint may be
   * given any segment that the other ever put on the network, at any time and any number of times.
   */
  lemma ShortStreamsAreFree(ds: seq<Pair>, ms: seq<Move>, u: Setup, v: Setup, k: nat, left: bool, seg: Segment)
    requires IsRun(ds, ms, u, v) && k <= |ms| && seg in Facing(ds[k], left).b.net
    requires |ds[k].a.x.c.s.stream.written| + 2 < TWO_31 && |ds[k].b.x.c.s.stream.written| + 2 < TWO_31
    ensures CanMove(Facing(ds[k], left), C.Receive(seg))
  {
    hide Step, LuckAt, Inv, CanMove;
    var c, p := FacingInv(ds, ms, u, v, k, left);
    ShortIsFree(Facing(ds[k], left), c, p, LuckAt(ds, ms, k, left), LuckAt(ds, ms, k, !left), seg);
  }

  lemma ShortIsFree(d: Pair, c: C.Connection, p: C.Connection, l: Luck, l': Luck, seg: Segment)
    requires Inv(d, c, p, l, l') && seg in d.b.net
    requires |d.a.x.c.s.stream.written| + 2 < TWO_31 && |d.b.x.c.s.stream.written| + 2 < TWO_31
    ensures CanMove(d, C.Receive(seg))
  {
    hide P.Inv, C.Inv, AcksNear, CopyNear, E.Endpoint.Holds, FA.FreshInv, AcksOf, Bare, SameShape;
    var v :| Packet(seg, v) in d.b.sent;
    if seg.header.ack {
      AckIsNear(c.s, p.r, d.b.sent, Packet(seg, v));
    }
    if seg.Length() > 0 {
      var i :| CopyAt(p.s.log, seg, i);
      CopyIsNear(p.s, c.r, d.a.sent, seg, i);
      CopyNearAlike(p.s, c.r, d.a.x.c.r, seg, i);
    }
  }

  lemma CopyNearAlike(s': Sender, r: Receiver, q: Receiver, seg: Segment, i: nat)
    requires CopyNear(s', r, seg, i) && r.ckpt == q.ckpt
    ensures CopyNear(s', q, seg, i)
  {
  }

  lemma AckIsNear(s: Sender, r': Receiver, back: set<Packet>, p: Packet)
    requires P.Inv(View(s, r', back)) && |s.stream.written| + 2 < TWO_31 && p in back && p.Acknowledges()
    ensures AcksNear(s, back, p.seg, p.acked)
  {
    hide SR.Good, Wrap;
    FaithfulBound(r'.asm, P.SentBytes(s));
    assert p.Ack() in AcksOf(back);
    assert P.Acks(View(s, r', back), p.Ack());
  }

  lemma CopyIsNear(s': Sender, r: Receiver, back: set<Packet>, seg: Segment, i: nat)
    requires P.Inv(View(s', r, back)) && |s'.stream.written| + 2 < TWO_31 && CopyAt(s'.log, seg, i)
    ensures CopyNear(s', r, seg, i)
  {
    hide P.Inv, SameContent, AcksOf;
    var w := View(s', r, back);
    P.CkptBound(w);
    PF.EntryStart(w, i);
    StreamOfInv(w);
  }

  lemma StreamOfInv(w: P.World)
    requires P.Inv(w)
    ensures w.s.stream.read <= |w.s.stream.written|
  {
  }

  /** While the other end's stream is no longer than the capacity here, the ring can place whatever may be delivered. */
  lemma SmallStreamsFit(ds: seq<Pair>, ms: seq<Move>, u: Setup, v: Setup, k: nat, left: bool, e: C.Event)
    requires IsRun(ds, ms, u, v) && k <= |ms| && CanMove(Facing(ds[k], left), e)
    requires var d := Facing(ds[k], left);
             |d.b.x.c.s.stream.written| <= d.a.x.c.r.asm.cap
    ensures var r := Facing(ds[k], left).a.x.c.r;
            r.asm.cap > 0 && E.Fits(r, e)
  {
    hide Step, LuckAt, Inv, CanMove, E.Fits;
    var c, p := FacingInv(ds, ms, u, v, k, left);
    var d := Facing(ds[k], left);
    SmallFits(d, c, p, LuckAt(ds, ms, k, left), LuckAt(ds, ms, k, !left), e);
  }

  lemma SmallFits(d: Pair, c: C.Connection, p: C.Connection, l: Luck, l': Luck, e: C.Event)
    requires Inv(d, c, p, l, l') && CanMove(d, e) && |d.b.x.c.s.stream.written| <= d.a.x.c.r.asm.cap
    ensures d.a.x.c.r.asm.cap > 0 && E.Fits(d.a.x.c.r, e)
  {
    hide C.Inv, AcksNear, Inv, Receiver.Placeable, P.Inv;
    InvReady(d, c, p, l, l');
    InvSwaps(d, c, p, l, l');
    ForwardInv(d.Swapped(), p, c, l', l);
    if e.Receive? && e.seg.Length() != 0 {
      var i :| CopyNear(d.b.x.c.s, d.a.x.c.r, e.seg, i);
      CopyNearAlike(p.s, d.a.x.c.r, c.r, e.seg, i);
      PlacedCopy(p.s, c.r, d.a.sent, e.seg, i);
      PlaceableAlike(d.a.x.c.r, c.r, e.seg);
    }
  }

  lemma PlaceableAlike(r: Receiver, q: Receiver, seg: Segment)
    requires Alike(r, q) && q.asm.cap > 0
    ensures r.Placeable(seg) == q.Placeable(seg)
  {
    hide Unwrap;
  }

  lemma PlacedCopy(s': Sender, r: Receiver, back: set<Packet>, seg: Segment, i: nat)
    requires P.Inv(View(s', r, back)) && CopyNear(s', r, seg, i) && seg.Length() > 0
    requires |s'.stream.written| <= r.asm.cap
    ensures r.asm.cap > 0 && r.Placeable(seg)
  {
    hide P.Inv, SR.Good, Unwrap, AcksOf;
    var plain := s'.log[i].seg;
    var w := View(s', r, back).(net := {plain});
    SentWorld(View(s', r, back), i);
    P.InvReady(w);
    assert P.SentNear(w, plain, i);
    PF.SmallStreamFits(w, plain);
    SameIndex(r, plain, seg);
  }

  lemma SameIndex(r: Receiver, x: Segment, y: Segment)
    requires SameContent(x, y) && r.asm.cap > 0
    ensures r.Placeable(x) == r.Placeable(y)
  {
    hide Unwrap;
  }
}
