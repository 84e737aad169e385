/** A connection with its ring over whole runs, with any peer: resets, giving up, closing, and what is handed over. */
module EndpointRuns {
  import opened Words
  import opened WrappingIntegers
  import opened ByteStreams
  import opened Segments
  import opened Assembly
  import opened Sending
  import SE = SenderEffects
  import opened Receiving
  import opened RingReceiving
  import opened Endpoints
  import C = Connecting
  import CR = ConnectionRuns
  import CE = ConnectionEffects

  ghost predicate Step(x: Endpoint, e: C.Event, x': Endpoint) {
    x.Holds() && C.Allowed(x.c, e) && x' == Next(x, e)
  }

  /** A run from a new endpoint: event `es[k]` leads from `xs[k]` to `xs[k + 1]`. */
  ghost predicate IsRun(xs: seq<Endpoint>, es: seq<C.Event>, isn: Word32, rto: nat, sendCap: nat, recvCap: nat) {
    && |xs| == |es| + 1 && recvCap > 0
    && xs[0] == FreshEndpoint(isn, rto, sendCap, recvCap)
    && forall k :: 0 <= k < |es| ==> Step(xs[k], es[k], xs[k + 1])
  }

  // The shadow

  ghost predicate Shadowed(xs: seq<Endpoint>, cs: seq<C.Connection>) {
    |cs| == |xs| && forall k :: 0 <= k < |xs| ==> C.AlikeEnds(xs[k].c, cs[k])
  }

  lemma AllowedAlike(c: C.Connection, d: C.Connection, e: C.Event)
    requires C.AlikeEnds(c, d) && C.Allowed(c, e)
    ensures C.Allowed(d, e)
  {
  }

  lemma InvIsValid(c: C.Connection)
    requires C.Inv(c)
    ensures c.Valid()
  {
  }

  lemma RunSnoc(cs: seq<C.Connection>, es: seq<C.Event>, isn: Word32, rto: nat, sendCap: nat, recvCap: nat, e: C.Event, c: C.Connection)
    requires CR.IsRun(cs, es, isn, rto, sendCap, recvCap) && CR.Step(cs[|es|], e, c)
    ensures CR.IsRun(cs + [c], es + [e], isn, rto, sendCap, recvCap)
  {
    hide CR.Step;
  }

  lemma RunPrefix(xs: seq<Endpoint>, es: seq<C.Event>, isn: Word32, rto: nat, sendCap: nat, recvCap: nat)
    requires IsRun(xs, es, isn, rto, sendCap, recvCap) && es != []
    ensures IsRun(xs[..|es|], es[..|es| - 1], isn, rto, sendCap, recvCap)
  {
    hide Step;
  }

  /** Every run with a ring goes along with a run with a partial map, equal but for the values of received bytes. */
  lemma {:induction false} EveryRunIsShadowed(xs: seq<Endpoint>, es: seq<C.Event>, isn: Word32, rto: nat, sendCap: nat, recvCap: nat)
    returns (cs: seq<C.Connection>)
    requires IsRun(xs, es, isn, rto, sendCap, recvCap)
    ensures CR.IsRun(cs, es, isn, rto, sendCap, recvCap) && Shadowed(xs, cs)
    decreases |es|
  {
    hide C.AlikeEnds, C.Allowed, C.Next, Next, Endpoint.Holds, C.Inv, C.Connection.Valid;
    if es == [] {
      cs := [C.InitialConnection(isn, rto, sendCap, recvCap)];
      SelfAlike(cs[0]);
    } else {
      var n := |es| - 1;
      RunPrefix(xs, es, isn, rto, sendCap, recvCap);
      var before := EveryRunIsShadowed(xs[..n + 1], es[..n], isn, rto, sendCap, recvCap);
      assert Step(xs[n], es[n], xs[n + 1]);
      var d := before[n];
      assert C.AlikeEnds(xs[..n + 1][n].c, d);
      CR.EveryRunKeepsInv(before, es[..n], isn, rto, sendCap, recvCap, n);
      InvIsValid(d);
      AllowedAlike(xs[n].c, d, es[n]);
      NextAlike(xs[n], d, es[n]);
      cs := before + [C.Next(d, es[n])];
      RunSnoc(before, es[..n], isn, rto, sendCap, recvCap, es[n], C.Next(d, es[n]));
      assert es == es[..n] + [es[n]];
      forall k | 0 <= k < |xs|
        ensures C.AlikeEnds(xs[k].c, cs[k])
      {
        assert k <= n ==> xs[..n + 1][k] == xs[k];
      }
    }
  }

  lemma SelfAlike(c: C.Connection)
    ensures C.AlikeEnds(c, c)
  {
  }

  /** What does not depend on the values of received bytes. */
  lemma AlikeFacts(c: C.Connection, d: C.Connection)
    requires C.AlikeEnds(c, d)
    ensures c.s == d.s && c.segmentsOut == d.segmentsOut && c.linger == d.linger && c.time == d.time && c.lastReceived == d.lastReceived
    ensures c.rstReceived == d.rstReceived && c.rstToSend == d.rstToSend && c.connectCalled == d.connectCalled && c.rtTimeout == d.rtTimeout
    ensures c.r.asm.out.error == d.r.asm.out.error && c.r.asm.out.Eof() == d.r.asm.out.Eof() && c.Active() == d.Active()
    ensures c.r.syn == d.r.syn && c.r.ack == d.r.ack
  {
  }

  // What holds of every run

  /** In every run an end that is not reset is inactive exactly if all is acknowledged, all inbound read, and no lingering due. */
  lemma InactiveMeansAcknowledged(xs: seq<Endpoint>, es: seq<C.Event>, isn: Word32, rto: nat, sendCap: nat, recvCap: nat, k: nat)
    requires IsRun(xs, es, isn, rto, sendCap, recvCap) && k < |xs| && !xs[k].c.rstReceived && !xs[k].c.rstToSend
    ensures var c := xs[k].c;
            !c.Active() <==> && C.FullyAcknowledged(c.s) && c.r.asm.out.Eof()
                             && (!c.linger || c.time - c.lastReceived >= 10 * rto)
  {
    hide Step, CR.IsRun, C.AlikeEnds, C.FullyAcknowledged, StreamState.Eof, C.Connection.Active;
    var cs := EveryRunIsShadowed(xs, es, isn, rto, sendCap, recvCap);
    AlikeFacts(xs[k].c, cs[k]);
    CR.InactiveMeansAcknowledged(cs, es, isn, rto, sendCap, recvCap, k);
  }

  /** In every run both streams are in error exactly if the end was reset or given up; it then never is active again. */
  lemma ResetIsFinal(xs: seq<Endpoint>, es: seq<C.Event>, isn: Word32, rto: nat, sendCap: nat, recvCap: nat, j: nat, k: nat)
    requires IsRun(xs, es, isn, rto, sendCap, recvCap) && j <= k < |xs|
    ensures CE.ErrorsTell(xs[k].c)
    ensures xs[j].c.rstReceived || xs[j].c.rstToSend ==> !xs[k].c.Active()
    ensures (xs[j].c.rstReceived ==> xs[k].c.rstReceived) && (xs[j].c.rstToSend ==> xs[k].c.rstToSend)
  {
    hide Step, CR.IsRun, C.AlikeEnds, StreamState.Eof, C.Connection.Active;
    var cs := EveryRunIsShadowed(xs, es, isn, rto, sendCap, recvCap);
    AlikeFacts(xs[j].c, cs[j]);
    AlikeFacts(xs[k].c, cs[k]);
    CE.ErrorsTellOfReset(cs, es, isn, rto, sendCap, recvCap, k);
    if cs[j].rstReceived || cs[j].rstToSend {
      CE.ResetIsFinal(cs, es, isn, rto, sendCap, recvCap, j, k);
    }
  }

  /** The segment resets the end: it was opened, and still is active once sender and receiver have seen the segment. */
  ghost predicate Resets(x: Endpoint, seg: Segment)
    requires x.Holds()
  {
    seg.header.rst && x.c.connectCalled && x.Absorb(seg).c.Active()
  }

  lemma ResetsAlike(x: Endpoint, d: C.Connection, seg: Segment)
    requires x.Holds() && d.Valid() && C.AlikeEnds(x.c, d)
    ensures Resets(x, seg) <==> CE.Resets(d, seg)
  {
    hide C.AlikeEnds, C.Connection.Active, StreamState.Eof, Receiver.SegmentReceived, RingReceiver.SegmentReceived, Sender.AckReceived,
         RingReceiver.Holds, Receiver.Valid;
    AlikeFacts(x.c, d);
    AbsorbsAlike(x, d, seg);
    AlikeFacts(x.Absorb(seg).c, d.Absorb(seg));
    AbsorbIs(d, seg);
  }

  lemma AbsorbIs(d: C.Connection, seg: Segment)
    requires d.Valid()
    ensures d.Absorb(seg) == d.(s := CE.SenderAfter(d, seg), r := CE.ReceiverAfter(d, seg))
  {
    hide Receiver.SegmentReceived, Sender.AckReceived, Receiver.Valid;
  }

  /** In every run exactly such a segment resets. */
  lemma ResetIff(xs: seq<Endpoint>, es: seq<C.Event>, isn: Word32, rto: nat, sendCap: nat, recvCap: nat, k: nat)
    requires IsRun(xs, es, isn, rto, sendCap, recvCap) && k < |es| && !xs[k].c.rstReceived
    ensures xs[k].Holds() && (xs[k + 1].c.rstReceived <==> es[k].Receive? && Resets(xs[k], es[k].seg))
  {
    hide CR.IsRun, C.AlikeEnds, StreamState.Eof, C.Connection.Active, Resets, CE.Resets, C.Connection.Valid, Endpoint.Holds, Next;
    assert Step(xs[k], es[k], xs[k + 1]);
    var cs := EveryRunIsShadowed(xs, es, isn, rto, sendCap, recvCap);
    AlikeFacts(xs[k].c, cs[k]);
    AlikeFacts(xs[k + 1].c, cs[k + 1]);
    CE.ResetIff(cs, es, isn, rto, sendCap, recvCap, k);
    if es[k].Receive? {
      ResetsAlike(xs[k], cs[k], es[k].seg);
    }
  }

  /** In every run exactly the tick that makes the ninth retransmission in a row gives up, and sends it with RST. */
  lemma GivesUpIff(xs: seq<Endpoint>, es: seq<C.Event>, isn: Word32, rto: nat, sendCap: nat, recvCap: nat, k: nat)
    requires IsRun(xs, es, isn, rto, sendCap, recvCap) && k < |es| && !xs[k].c.rstToSend
    ensures xs[k + 1].c.rstToSend <==> CE.GivesUp(xs[k].c, es[k])
    ensures xs[k + 1].c.rstToSend ==> CE.SentReset(xs[k].c, xs[k + 1].c)
  {
    hide Step, CR.IsRun, C.AlikeEnds, StreamState.Eof, C.Connection.Active, SE.Due;
    var cs := EveryRunIsShadowed(xs, es, isn, rto, sendCap, recvCap);
    AlikeFacts(xs[k].c, cs[k]);
    AlikeFacts(xs[k + 1].c, cs[k + 1]);
    CE.GivesUpIff(cs, es, isn, rto, sendCap, recvCap, k);
  }

  // What is handed over

  /** The end answers what it receives. */
  ghost predicate Answers(x: Endpoint, e: C.Event)
    requires x.Holds()
  {
    && e.Receive? && !CE.Opens(x.c, e.seg)
    && var r := x.Absorb(e.seg).c.r;
       e.seg.Length() > 0 || (r.syn && e.seg.header.seqno == (if r.ack == 0 then TWO_32 - 1 else r.ack - 1))
  }

  lemma AnswersAlike(x: Endpoint, d: C.Connection, e: C.Event)
    requires x.Holds() && d.Valid() && C.AlikeEnds(x.c, d)
    ensures Answers(x, e) <==> CE.Answers(d, e)
  {
    hide C.AlikeEnds, C.Connection.Active, StreamState.Eof, Receiver.SegmentReceived, RingReceiver.SegmentReceived, Sender.AckReceived,
         RingReceiver.Holds, Receiver.Valid, Endpoint.Absorb, C.Connection.Absorb;
    AlikeFacts(x.c, d);
    if e.Receive? {
      AbsorbsAlike(x, d, e.seg);
      AlikeFacts(x.Absorb(e.seg).c, d.Absorb(e.seg));
      AbsorbIs(d, e.seg);
    }
  }

  lemma HandsOverAlike(c: C.Connection, c': C.Connection, d: C.Connection, d': C.Connection, plain: seq<Segment>)
    requires C.AlikeEnds(c, d) && C.AlikeEnds(c', d') && CE.HandsOver(d, d', plain)
    ensures CE.HandsOver(c, c', plain)
  {
    forall i | 0 <= i < |plain|
      ensures CE.Carries(c', plain[i], c'.segmentsOut[|c.segmentsOut| + i])
    {
      assert CE.Carries(d', plain[i], d'.segmentsOut[|d.segmentsOut| + i]);
    }
  }

  /**
   * In every run, every event but taking the queue hands over exactly what the sender sends for
   * the first time, what the clock has it send again, and an answer where one is due.
   */
  lemma EveryRunHandsOver(xs: seq<Endpoint>, es: seq<C.Event>, isn: Word32, rto: nat, sendCap: nat, recvCap: nat, k: nat)
    requires IsRun(xs, es, isn, rto, sendCap, recvCap) && k < |es| && !es[k].Transmit?
    ensures xs[k].Holds() && xs[k].c.s.log <= xs[k + 1].c.s.log
    ensures var c, c' := xs[k].c, xs[k + 1].c;
            var answer := Segment(BLANK_HEADER.(seqno := Wrap(c'.s.nextSeqno, c'.s.isn)), []);
            CE.HandsOver(c, c', SE.NewSegs(c.s, c'.s) + CE.Again(c, es[k]) + if Answers(xs[k], es[k]) then [answer] else [])
  {
    hide CR.IsRun, C.AlikeEnds, StreamState.Eof, C.Connection.Active, Receiver.Valid, Endpoint.Holds, Next, Answers, CE.Answers,
         CE.HandsOver, SE.Due, Wrap;
    assert Step(xs[k], es[k], xs[k + 1]);
    var cs := EveryRunIsShadowed(xs, es, isn, rto, sendCap, recvCap);
    AlikeFacts(xs[k].c, cs[k]);
    AlikeFacts(xs[k + 1].c, cs[k + 1]);
    CE.EveryRunHandsOver(cs, es, isn, rto, sendCap, recvCap, k);
    AnswersAlike(xs[k], cs[k], es[k]);
    HandsOverAlike(xs[k].c, xs[k + 1].c, cs[k], cs[k + 1],
                   SE.NewSegs(cs[k].s, cs[k + 1].s) + CE.Again(cs[k], es[k]) + CE.Answer(cs[k], es[k], cs[k + 1].s));
  }
}
