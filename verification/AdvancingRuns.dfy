/** Over whole runs: a segment and an acknowledgment that get through make the connection advance. */
module AdvancingRuns {
  import opened Words
  import opened ByteStreams
  import opened Segments
  import opened Assembly
  import opened Sending
  import SE = SenderEffects
  import opened Receiving
  import P = Protocol
  import A = Advancing
  import opened ProtocolRuns

  /** A state and its shadow have assembled the same, and have the same room. */
  lemma ShadowsMeasure(x: RingWorld, w: P.World)
    requires Shadows(x, w) && w.r.asm.out.Valid()
    ensures x.w.r.Assembled() == w.r.Assembled() && x.w.s == w.s && x.w.acks == w.acks
    ensures x.w.r.asm.out.Valid() && (A.CanAdvance(x.w) <==> A.CanAdvance(w))
  {
  }

  lemma FollowsParts(x: RingWorld, w: P.World, recvCap: nat, fit: bool)
    requires Follows(x, w, recvCap, fit)
    ensures P.Inv(w) && Shadows(x, w) && w.s.Shaped() && w.r.Valid() && w.r.asm.out.Valid() && x.Holds()
  {
    hide P.Inv, RingWorld.Holds, Shadows, Assembler.Valid;
    P.InvReady(w);
    ValidOut(w.r.asm);
  }

  lemma StepGrows(x: RingWorld, w: P.World, e: P.Event, recvCap: nat, fit: bool)
    requires Follows(x, w, recvCap, fit) && P.Enabled(x.w, e)
    ensures x.Holds()
    ensures x.w.r.Assembled() <= Next(x, e).w.r.Assembled() && x.w.s.ackAbs <= Next(x, e).w.s.ackAbs
  {
    hide Follows, P.Inv, P.Enabled, P.Next, Next, P.Fits, Shadows, Receiver.Assembled, Receiver.Valid;
    FollowsParts(x, w, recvCap, fit);
    StepFollows(x, w, e, recvCap, fit);
    FollowsParts(Next(x, e), P.Next(w, e), recvCap, fit && P.Fits(x.w, e));
    A.StepGrows(w, e);
    ShadowsMeasure(x, w);
    ShadowsMeasure(Next(x, e), P.Next(w, e));
  }

  /** In every run, what is assembled and what is acknowledged only grow. */
  lemma {:induction false} EveryRunGrows(xs: seq<RingWorld>, es: seq<P.Event>, isn: Word32, rto: nat, sendCap: nat, recvCap: nat,
                                         j: nat, k: nat)
    requires IsRun(xs, es, isn, rto, sendCap, recvCap) && recvCap > 0 && j <= k <= |es|
    ensures xs[j].w.r.Assembled() <= xs[k].w.r.Assembled() && xs[j].w.s.ackAbs <= xs[k].w.s.ackAbs
    decreases k
  {
    hide Follows, P.Enabled, Next, RingWorld.Holds, Receiver.Assembled;
    if j < k {
      EveryRunGrows(xs, es, isn, rto, sendCap, recvCap, j, k - 1);
      var w := EveryRunFollows(xs, es, isn, rto, sendCap, recvCap, k - 1);
      assert Step(xs[k - 1], es[k - 1], xs[k]);
      StepGrows(xs[k - 1], w, es[k - 1], recvCap, AllFit(xs, es, k - 1));
    }
  }

  /** Event `k` delivers entry `i` of the log, which covers the first unacknowledged number. */
  predicate DeliversNext(xs: seq<RingWorld>, es: seq<P.Event>, k: nat, i: nat)
    requires k < |es| && k < |xs|
  {
    es[k].Deliver? && P.SentNear(xs[k].w, es[k].seg, i) && SE.CoversNext(xs[k].w.s, es[k].seg, i)
  }

  /** In every run, delivering that segment moves the receiver beyond that number if it has room or needs none. */
  lemma DeliveryReaches(xs: seq<RingWorld>, es: seq<P.Event>, isn: Word32, rto: nat, sendCap: nat, recvCap: nat, k: nat, i: nat)
    requires IsRun(xs, es, isn, rto, sendCap, recvCap) && recvCap > 0 && k < |es| && DeliversNext(xs, es, k, i)
    ensures A.CanAdvance(xs[k].w) ==> xs[k].w.s.ackAbs < xs[k + 1].w.r.Assembled()
  {
    hide Follows, P.Inv, P.Enabled, P.Fits, RingWorld.Holds, Receiver.Assembled, Receiver.Valid, Receiver.SegmentReceived, Next,
         A.CanAdvance, SE.CoversNext;
    var w := EveryRunFollows(xs, es, isn, rto, sendCap, recvCap, k);
    var x, fit := xs[k], AllFit(xs, es, k);
    assert Step(x, es[k], xs[k + 1]);
    FollowsParts(x, w, recvCap, fit);
    StepFollows(x, w, es[k], recvCap, fit);
    FollowsParts(Next(x, es[k]), P.Next(w, es[k]), recvCap, fit && P.Fits(x.w, es[k]));
    ShadowsMeasure(x, w);
    ShadowsMeasure(Next(x, es[k]), P.Next(w, es[k]));
    assert P.SentNear(w, es[k].seg, i);
    A.DeliveryReaches(w, es[k].seg, i);
  }

  /** In every run, a delivered acknowledgment is taken for exactly what the receiver meant. */
  lemma AckReaches(xs: seq<RingWorld>, es: seq<P.Event>, isn: Word32, rto: nat, sendCap: nat, recvCap: nat, k: nat)
    requires IsRun(xs, es, isn, rto, sendCap, recvCap) && recvCap > 0 && k < |es| && es[k].DeliverAck?
    ensures xs[k + 1].w.s.ackAbs == Max(xs[k].w.s.ackAbs, es[k].a.value)
  {
    hide Follows, P.Inv, P.Enabled, P.Fits, RingWorld.Holds, Receiver.Assembled, Receiver.Valid, P.Next, Next;
    var w := EveryRunFollows(xs, es, isn, rto, sendCap, recvCap, k);
    var x, fit := xs[k], AllFit(xs, es, k);
    assert Step(x, es[k], xs[k + 1]);
    FollowsParts(x, w, recvCap, fit);
    StepFollows(x, w, es[k], recvCap, fit);
    FollowsParts(Next(x, es[k]), P.Next(w, es[k]), recvCap, fit && P.Fits(x.w, es[k]));
    ShadowsMeasure(x, w);
    ShadowsMeasure(Next(x, es[k]), P.Next(w, es[k]));
    A.AckReaches(w, es[k].a);
  }

  /**
   * In every run, whatever else is lost, repeated or reordered: if the segment that covers the
   * first unacknowledged number is delivered while the receiver has room or needs none, and an
   * acknowledgment it makes later is delivered, then the sender has more acknowledged than before.
   */
  lemma RoundAdvances(xs: seq<RingWorld>, es: seq<P.Event>, isn: Word32, rto: nat, sendCap: nat, recvCap: nat,
                      a: nat, b: nat, c: nat, i: nat)
    requires IsRun(xs, es, isn, rto, sendCap, recvCap) && recvCap > 0 && a < b < c < |es|
    requires DeliversNext(xs, es, a, i) && A.CanAdvance(xs[a].w)
    requires es[b].EmitAck? && es[c].DeliverAck? && es[c].a.value == xs[b].w.r.Assembled()
    ensures xs[a].w.s.ackAbs < xs[c + 1].w.s.ackAbs
  {
    hide Step, DeliversNext, A.CanAdvance, Receiver.Assembled;
    DeliveryReaches(xs, es, isn, rto, sendCap, recvCap, a, i);
    EveryRunGrows(xs, es, isn, rto, sendCap, recvCap, a + 1, b);
    AckReaches(xs, es, isn, rto, sendCap, recvCap, c);
  }
}
