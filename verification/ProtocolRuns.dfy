/**
 * One sender and one receiver with its ring, over a network that may drop, repeat and reorder.
 * Every run is shadowed by a run in which the receiver has a partial map in place of the ring.
 */
module ProtocolRuns {
  import opened Words
  import opened WrappingIntegers
  import opened ByteStreams
  import opened Segments
  import opened Assembly
  import opened AssemblyRuns
  import opened Sending
  import SR = SenderRuns
  import opened Receiving
  import opened Ring
  import opened Rings
  import opened RingRuns
  import opened RingReceiving
  import P = Protocol
  import PF = ProtocolFacts
  import FA = FreshAcks

  datatype RingWorld = RingWorld(w: P.World, m: Slots) {

    function Inbound(): RingReceiver {
      RingReceiver(w.r, m)
    }

    ghost predicate Holds() {
      w.s.Shaped() && Inbound().Holds()
    }
  }

  ghost function Next(x: RingWorld, e: P.Event): RingWorld
    requires x.Holds()
  {
    match e
    case Deliver(seg) =>
      var y := x.Inbound().SegmentReceived(seg);
      RingWorld(x.w.(r := y.r), y.m)
    case _ => x.(w := P.Next(x.w, e))
  }

  ghost function Start(isn: Word32, rto: nat, sendCap: nat, recvCap: nat): RingWorld {
    RingWorld(P.Start(isn, rto, sendCap, recvCap), FreshReceiver(recvCap).m)
  }

  ghost predicate Step(x: RingWorld, e: P.Event, x': RingWorld) {
    x.Holds() && P.Enabled(x.w, e) && x' == Next(x, e)
  }

  /** A run from the start: event `es[k]` leads from `xs[k]` to `xs[k + 1]`. */
  ghost predicate IsRun(xs: seq<RingWorld>, es: seq<P.Event>, isn: Word32, rto: nat, sendCap: nat, recvCap: nat) {
    && |xs| == |es| + 1
    && xs[0] == Start(isn, rto, sendCap, recvCap)
    && forall k :: 0 <= k < |es| ==> Step(xs[k], es[k], xs[k + 1])
  }

  /** The ring can place what event `j` delivers. */
  ghost predicate FitsAt(xs: seq<RingWorld>, es: seq<P.Event>, j: nat)
    requires j < |xs| && j < |es|
  {
    xs[j].w.r.asm.cap > 0 && P.Fits(xs[j].w, es[j])
  }

  ghost predicate AllFit(xs: seq<RingWorld>, es: seq<P.Event>, k: nat)
    requires k <= |es| && k <= |xs|
  {
    forall j :: 0 <= j < k ==> FitsAt(xs, es, j)
  }

  // The shadow

  /** The same but for the values of bytes that the receiver holds or has written. */
  ghost predicate Shadows(x: RingWorld, w: P.World) {
    x.w == w.(r := x.w.r) && Alike(x.w.r, w.r)
  }

  lemma EnabledAlike(x: RingWorld, w: P.World, e: P.Event)
    requires Shadows(x, w) && P.Enabled(x.w, e)
    ensures P.Enabled(w, e)
  {
    if e.Deliver? {
      var i :| P.SentNear(x.w, e.seg, i);
      assert P.SentNear(w, e.seg, i);
    }
  }

  lemma OutputHolds(x: RingReceiver, n: nat)
    requires x.Holds() && x.r.asm.out.Valid()
    ensures x.(r := x.r.Read(n)).Holds()
  {
    hide Known, Ringed.Holds, Assembler.Valid;
    HoldsParts(x.Buffer());
    OutputIsApart(x.Buffer(), x.r.asm.out.Pop(n));
    HoldsParts(x.(r := x.r.Read(n)).Buffer());
  }

  lemma NextHolds(x: RingWorld, e: P.Event)
    requires x.Holds()
    ensures Next(x, e).Holds() && |Next(x, e).m.aux| >= |x.m.aux|
    ensures x.w.r.asm.cap > 0 && (|Next(x, e).m.aux| == |x.m.aux| <==> P.Fits(x.w, e))
  {
    hide RingReceiver.Holds, RingReceiver.SegmentReceived, Receiver.Placeable, SR.Apply, Sender.AckReceived, Receiver.Read;
    ReceiverParts(x.Inbound());
    match e
    case Deliver(seg) => ReceiveHolds(x.Inbound(), seg);
    case Read(n) => OutputHolds(x.Inbound(), n);
    case _ =>
  }

  lemma NextShadows(x: RingWorld, w: P.World, e: P.Event)
    requires x.Holds() && w.s.Shaped() && w.r.Valid() && Shadows(x, w)
    ensures Shadows(Next(x, e), P.Next(w, e)) && x.w.r.asm.cap > 0
    ensures x.w == w && P.Fits(x.w, e) ==> Next(x, e).w == P.Next(w, e)
  {
    hide RingReceiver.Holds, RingReceiver.SegmentReceived, Receiver.SegmentReceived, Receiver.Placeable, SR.Apply, Sender.AckReceived,
         Receiver.Valid;
    ReceiverParts(x.Inbound());
    match e
    case Deliver(seg) =>
      ReceiveHolds(x.Inbound(), seg);
      ReceivesAlike(x.w.r, w.r, seg);
      AlikeTransitive(x.Inbound().SegmentReceived(seg).r, x.w.r.SegmentReceived(seg), w.r.SegmentReceived(seg));
    case Read(n) => ReadsAlike(x.w.r, w.r, n);
    case _ => AckAlike(x.w.r, w.r);
  }

  lemma ReadsAlike(r: Receiver, q: Receiver, n: nat)
    requires Alike(r, q) && r.asm.out.Valid() && q.Valid()
    ensures Alike(r.Read(n), q.Read(n))
  {
  }

  lemma AckAlike(r: Receiver, q: Receiver)
    requires Alike(r, q) && r.asm.out.Valid() && q.Valid()
    ensures P.AckOf(r) == P.AckOf(q)
  {
  }

  /** What holds of a state of a run and the state that shadows it. */
  ghost predicate Follows(x: RingWorld, w: P.World, recvCap: nat, fit: bool) {
    && x.Holds() && P.Inv(w) && Shadows(x, w)
    && x.w.r.asm.cap == recvCap <= |x.m.aux|
    && (fit ==> x.w == w) && (|x.m.aux| == recvCap <==> fit)
  }

  lemma StartFollows(isn: Word32, rto: nat, sendCap: nat, recvCap: nat)
    requires recvCap > 0
    ensures Follows(Start(isn, rto, sendCap, recvCap), P.Start(isn, rto, sendCap, recvCap), recvCap, true)
  {
    hide RingReceiver.Holds, P.Inv;
    FreshReceiverHolds(recvCap);
    P.StartInv(isn, rto, sendCap, recvCap);
  }

  lemma StepFollows(x: RingWorld, w: P.World, e: P.Event, recvCap: nat, fit: bool)
    requires Follows(x, w, recvCap, fit) && P.Enabled(x.w, e)
    ensures w.s.Shaped() && w.r.Valid() && P.Enabled(w, e) && x.w.r.asm.cap > 0
    ensures Follows(Next(x, e), P.Next(w, e), recvCap, fit && P.Fits(x.w, e))
  {
    hide RingWorld.Holds, P.Inv, P.Enabled, P.Next, Next, P.Fits, Shadows;
    P.InvReady(w);
    EnabledAlike(x, w, e);
    NextHolds(x, e);
    NextShadows(x, w, e);
    P.StepKeepsInv(w, e);
    CapStays(x, e);
  }

  lemma CapStays(x: RingWorld, e: P.Event)
    requires x.Holds()
    ensures Next(x, e).w.r.asm.cap == x.w.r.asm.cap
  {
    hide SR.Apply, Sender.AckReceived, RingReceiver.SegmentReceived, RingReceiver.Holds;
    if e.Deliver? {
      ReceiveCap(x.Inbound(), e.seg);
    }
  }

  /** No acknowledgment that event `j` delivers has the sender gone beyond. */
  predicate FreshAt(xs: seq<RingWorld>, es: seq<P.Event>, j: nat)
    requires j < |xs| && j < |es|
  {
    FA.NotStale(xs[j].w, es[j])
  }

  ghost predicate AllFresh(xs: seq<RingWorld>, es: seq<P.Event>, k: nat)
    requires k <= |es| && k <= |xs|
  {
    forall j :: 0 <= j < k ==> FreshAt(xs, es, j)
  }

  lemma FreshStep(x: RingWorld, w: P.World, e: P.Event)
    requires x.w == w && FA.FreshInv(w) && P.Enabled(w, e) && FA.NotStale(w, e)
    ensures w.s.Shaped() && w.r.Valid() && w.r.asm.cap > 0 && FA.FreshInv(P.Next(w, e)) && P.Fits(w, e)
  {
    hide FA.FreshInv, P.Enabled, FA.NotStale, P.Next, Receiver.Placeable;
    FA.FreshReady(w);
    FA.StepKeepsFresh(w, e);
    if e.Deliver? {
      FA.DeliveryFits(w, e.seg);
    }
  }

  /**
   * Every state of a run is followed by a state with a partial map: equal to it if everything
   * delivered so far could be placed, which is so if no acknowledgment was stale.
   */
  lemma {:induction false} EveryRunFollows(xs: seq<RingWorld>, es: seq<P.Event>, isn: Word32, rto: nat, sendCap: nat, recvCap: nat, k: nat)
    returns (w: P.World)
    requires IsRun(xs, es, isn, rto, sendCap, recvCap) && recvCap > 0 && k <= |es|
    ensures Follows(xs[k], w, recvCap, AllFit(xs, es, k))
    ensures AllFresh(xs, es, k) ==> AllFit(xs, es, k) && FA.FreshInv(w)
  {
    hide Follows, P.Enabled, P.Next, Next, P.Fits, RingWorld.Holds, FA.FreshInv, FA.NotStale;
    if k == 0 {
      w := P.Start(isn, rto, sendCap, recvCap);
      StartFollows(isn, rto, sendCap, recvCap);
      FA.StartIsFresh(isn, rto, sendCap, recvCap);
    } else {
      var v := EveryRunFollows(xs, es, isn, rto, sendCap, recvCap, k - 1);
      var x, e := xs[k - 1], es[k - 1];
      assert Step(x, e, xs[k]);
      StepFollows(x, v, e, recvCap, AllFit(xs, es, k - 1));
      w := P.Next(v, e);
      assert AllFit(xs, es, k) <==> AllFit(xs, es, k - 1) && FitsAt(xs, es, k - 1);
      if AllFresh(xs, es, k) {
        assert FreshAt(xs, es, k - 1);
        SameIfFit(x, v, recvCap);
        FreshStep(x, v, e);
      }
    }
  }

  lemma SameIfFit(x: RingWorld, w: P.World, recvCap: nat)
    requires Follows(x, w, recvCap, true)
    ensures x.w == w
  {
    hide P.Inv, RingWorld.Holds;
  }

  // What every run keeps

  /**
   * In every run, whatever the network drops, repeats or reorders, the ring string has the
   * length of the ring exactly as long as everything delivered could be placed.
   */
  lemma RingKeepsLengthIff(xs: seq<RingWorld>, es: seq<P.Event>, isn: Word32, rto: nat, sendCap: nat, recvCap: nat, k: nat)
    requires IsRun(xs, es, isn, rto, sendCap, recvCap) && recvCap > 0 && k <= |es|
    ensures |xs[k].m.aux| == recvCap <==> AllFit(xs, es, k)
  {
    hide IsRun, AllFit, AllFresh, P.Inv, RingWorld.Holds;
    var w := EveryRunFollows(xs, es, isn, rto, sendCap, recvCap, k);
  }

  /**
   * In every run, no more comes out at the receiver than went in at the sender, and the sender
   * takes as acknowledged only what the receiver has assembled: the SYN, bytes written to its
   * output, and the FIN once the stream is complete.
   */
  lemma ReleasedIsAssembled(xs: seq<RingWorld>, es: seq<P.Event>, isn: Word32, rto: nat, sendCap: nat, recvCap: nat, k: nat)
    requires IsRun(xs, es, isn, rto, sendCap, recvCap) && recvCap > 0 && k <= |es|
    ensures var s, r := xs[k].w.s, xs[k].w.r;
            && |r.asm.out.written| <= |s.stream.written|
            && s.ackAbs <= r.Assembled()
            && Min(s.ackAbs - 1, |s.stream.written|) <= |r.asm.out.written|
            && (s.ackAbs == |s.stream.written| + 2 ==> |r.asm.out.written| == |s.stream.written|)
  {
    hide IsRun, AllFit, AllFresh, P.Inv, RingWorld.Holds;
    var w := EveryRunFollows(xs, es, isn, rto, sendCap, recvCap, k);
    PF.WorldIsSafe(w);
    OutputWithin(w);
  }

  lemma OutputWithin(w: P.World)
    requires P.Inv(w)
    ensures w.r.asm.out.written <= w.s.stream.written && Faithful(w.r.asm, w.s.stream.written)
  {
    hide SR.Good, P.HonestNet, Receiver.Valid, P.SafeAcks;
  }

  /**
   * In every run in which everything delivered could be placed - in particular in every run
   * without stale acknowledgments - what came out at the receiver is a prefix of what went in
   * at the sender, what was released came out, and every occupied slot holds the true byte.
   */
  lemma DeliveredIsPrefix(xs: seq<RingWorld>, es: seq<P.Event>, isn: Word32, rto: nat, sendCap: nat, recvCap: nat, k: nat)
    requires IsRun(xs, es, isn, rto, sendCap, recvCap) && recvCap > 0 && k <= |es|
    requires AllFit(xs, es, k) || AllFresh(xs, es, k)
    ensures var s, r := xs[k].w.s, xs[k].w.r;
            && r.asm.out.written <= s.stream.written
            && s.stream.written[..Min(Max(s.ackAbs - 1, 0), |s.stream.written|)] <= r.asm.out.written
            && xs[k].Holds() && SlotsAreTrue(xs[k].Inbound().Buffer(), s.stream.written)
  {
    hide Step, AllFit, AllFresh, P.Inv, RingReceiver.Holds, SlotsAreTrue, Faithful;
    var w := EveryRunFollows(xs, es, isn, rto, sendCap, recvCap, k);
    SameIfFit(xs[k], w, recvCap);
    PF.WorldIsSafe(w);
    OutputWithin(w);
    BufferHolds(xs[k].Inbound());
    KnownIsTrue(xs[k].Inbound().Buffer(), w.s.stream.written);
  }

  lemma BufferHolds(x: RingReceiver)
    requires x.Holds()
    ensures x.Buffer().Holds()
  {
  }

  /** In every run without stale acknowledgments the ring can place everything that is delivered. */
  lemma FreshRunsFit(xs: seq<RingWorld>, es: seq<P.Event>, isn: Word32, rto: nat, sendCap: nat, recvCap: nat, k: nat)
    requires IsRun(xs, es, isn, rto, sendCap, recvCap) && recvCap > 0 && k <= |es| && AllFresh(xs, es, k)
    ensures AllFit(xs, es, k)
  {
    hide IsRun, AllFit, AllFresh, Follows, FA.FreshInv;
    var w := EveryRunFollows(xs, es, isn, rto, sendCap, recvCap, k);
  }
}
