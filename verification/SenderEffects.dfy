/** What the sender is bound to do: what filling the window, acknowledgments and the clock put on the queue. */
module SenderEffects {
  import opened Words
  import opened WrappingIntegers
  import opened ByteStreams
  import opened Segments
  import opened Sending
  import opened SenderInvariants
  import SW = SenderWindow
  import SR = SenderRuns

  // Filling the window

  function Segs(log: seq<Sent>): (r: seq<Segment>)
    ensures |r| == |log|
  {
    seq(|log|, i requires 0 <= i < |log| => log[i].seg)
  }

  function Stamps(n: nat, time: nat): (r: seq<nat>)
    ensures |r| == n && forall i :: 0 <= i < n ==> r[i] == time
  {
    seq(n, _ => time)
  }

  /** What was sent for the first time on the way from `s` to `s'`. */
  function NewSegs(s: Sender, s': Sender): seq<Segment>
    requires s.log <= s'.log
  {
    Segs(s'.log[|s.log|..])
  }

  /** The log grows, and exactly its new segments are queued, in order, and outstanding since now; timer and window are left alone. */
  predicate Appends(s: Sender, s': Sender) {
    && s.log <= s'.log
    && var more := NewSegs(s, s');
       && s'.segmentsOut == s.segmentsOut + more
       && s'.outstanding == s.outstanding + more
       && s'.timestamps == s.timestamps + Stamps(|more|, s.time)
       && s'.currRto == s.currRto && s'.consecRetrans == s.consecRetrans && s'.time == s.time
       && s'.ackAbs == s.ackAbs && s'.windowSize == s.windowSize && s'.initialRto == s.initialRto
  }

  lemma AppendsNothing(s: Sender)
    ensures Appends(s, s)
  {
    assert NewSegs(s, s) == [];
  }

  lemma AppendsOne(s: Sender, syn: bool, n: nat, fin: bool)
    requires s.Shaped() && n <= |s.stream.Buffered()|
    ensures Appends(s, s.Emit(syn, n, fin))
  {
    hide Wrap;
    var s' := s.Emit(syn, n, fin);
    assert s'.log[|s.log|..] == [s'.log[|s.log|]];
    assert NewSegs(s, s') == [s'.log[|s.log|].seg];
    assert Stamps(1, s.time) == [s.time];
  }

  lemma AppendsMore(a: Sender, b: Sender, c: Sender)
    requires Appends(a, b) && Appends(b, c)
    ensures Appends(a, c)
  {
    assert c.log[|a.log|..] == b.log[|a.log|..] + c.log[|b.log|..];
    assert NewSegs(a, c) == NewSegs(a, b) + NewSegs(b, c);
    var m, n := |NewSegs(a, b)|, |NewSegs(b, c)|;
    assert Stamps(m + n, a.time) == Stamps(m, a.time) + Stamps(n, a.time);
  }

  lemma {:induction false} FillLoopAppends(s: Sender)
    requires s.Shaped()
    ensures Appends(s, s.FillLoop())
    decreases |s.stream.Buffered()|
  {
    hide Sender.Emit, Appends;
    if |s.stream.Buffered()| > 0 && s.windowSize > s.bytesFlying {
      var n := s.SegmentSize();
      var t := s.Emit(false, n, s.FinRides(n));
      AppendsOne(s, false, n, s.FinRides(n));
      SR.EmitConsumes(s, false, n, s.FinRides(n));
      FillLoopAppends(t);
      AppendsMore(s, t, t.FillLoop());
    } else {
      AppendsNothing(s);
    }
  }

  /** Whatever filling the window sends is logged, queued and outstanding; nothing else is. */
  lemma FillWindowAppends(s: Sender)
    requires s.Shaped()
    ensures Appends(s, s.FillWindow())
  {
    hide Sender.Emit, Appends, Sender.FillLoop;
    AppendsOne(s, true, 0, false);
    AppendsOne(s, false, 0, true);
    if |s.stream.Buffered()| > 0 {
      AppendsOne(s, false, 1, false);
    }
    FillLoopAppends(s);
  }

  /** Nothing more may be sent for now. */
  predicate Exhausted(s: Sender)
    requires s.stream.Valid()
  {
    s.nextSeqno > 0 && (SW.Pending(s) == 0 || s.bytesFlying >= Max(1, s.windowSize))
  }

  /** Filling the window leaves nothing that may be sent; the very first time it sends the SYN alone. */
  lemma FillWindowExhausts(s: Sender)
    requires s.Shaped()
    ensures var s' := s.FillWindow();
            if s.nextSeqno > 0 then Exhausted(s')
            else s'.nextSeqno == 1 && s'.log == s.log + [Sent(0, MakeSegment(Wrap(0, s.isn), true, false, []))]
  {
    if s.nextSeqno > 0 {
      hide Sender.FillWindow;
      SW.FillWindowSends(s);
    } else {
      hide Wrap;
    }
  }

  // Acknowledgments

  /** An acknowledgment not beyond the last one, or beyond what was sent, only sets the window. */
  lemma OldAckEffect(s: Sender, ack: nat, win: Word16)
    requires Inv(s) && ack < TWO_64 && !Premature(s, ack)
    requires !(s.ackAbs < ack <= s.nextSeqno)
    ensures s.AckAt(ack, win) == s.(windowSize := win)
  {
    hide Suffix, Tiles, AllGenuine, Sender.FillWindow, Sender.Acknowledge;
  }

  /** What remains of the outstanding segments once numbers below `ack` are acknowledged: the logged ones that end beyond it. */
  predicate Remain(log: seq<Sent>, outstanding: seq<Segment>, ack: nat) {
    && |outstanding| <= |log|
    && var k := |log| - |outstanding|;
       && outstanding == Segs(log[k..])
       && (forall i :: 0 <= i < k ==> log[i].End() <= ack)
       && (forall i :: k <= i < |log| ==> ack < log[i].End())
  }

  lemma {:induction false} EndsGrow(log: seq<Sent>, i: nat, j: nat)
    requires (forall n :: 0 <= n < |log| ==> log[n].start == LogEnd(log[..n])) && i <= j < |log|
    ensures log[i].End() <= log[j].End()
    decreases j
  {
    if i < j {
      EndsGrow(log, i, j - 1);
      assert log[..j][j - 1] == log[j - 1];
    }
  }

  /** The deques of a sender that keeps its invariant are what remains of its log. */
  lemma OutstandingRemain(s: Sender)
    requires Inv(s)
    ensures Remain(s.log, s.outstanding, s.ackAbs)
  {
    var k := |s.log| - |s.outstanding|;
    assert s.outstanding == Segs(s.log[k..]);
    forall i | 0 <= i < k
      ensures s.log[i].End() <= s.ackAbs
    {
      EndsGrow(s.log, i, k - 1);
      assert s.log[..k][k - 1] == s.log[k - 1];
    }
    forall i | k <= i < |s.log|
      ensures s.ackAbs < s.log[i].End()
    {
      EndsGrow(s.log, k, i);
      assert s.seqnos[0] == s.log[k].End();
    }
  }

  lemma AcknowledgeIs(s: Sender, ack: nat)
    requires s.Shaped() && s.Accepts(ack) && ack < TWO_64
    ensures var a := s.Acknowledge(ack);
            && a.ackAbs == ack && a.currRto == s.initialRto == a.initialRto && a.consecRetrans == 0 && a.time == s.time
            && a.windowSize == s.windowSize && a.log == s.log && a.segmentsOut == s.segmentsOut
            && a.stream == s.stream && a.nextSeqno == s.nextSeqno && a.finSent == s.finSent
            && forall i :: 0 <= i < |a.timestamps| ==> a.timestamps[i] == s.time
  {
  }

  /** The sender after an acknowledgment, once it has sent what it may. */
  function Refilled(a: Sender): Sender
    requires a.Shaped()
  {
    if a.MayFill() then a.FillWindow() else a
  }

  lemma RefilledIs(a: Sender)
    requires a.Shaped() && Accounts(a) && a.nextSeqno > 0
    requires forall i :: 0 <= i < |a.timestamps| ==> a.timestamps[i] == a.time
    ensures var f := Refilled(a);
            && f.stream.Valid() && Appends(a, f) && Exhausted(f) && f.stream == a.stream.(read := f.stream.read)
            && forall i :: 0 <= i < |f.timestamps| ==> f.timestamps[i] == a.time
  {
    hide Sender.FillWindow;
    FillWindowAppends(a);
    SW.FillWindowSends(a);
    FillWindowExhausts(a);
    AppendsNothing(a);
  }

  lemma AckIsRefilled(s: Sender, ack: nat, win: Word16)
    requires Inv(s) && ack < TWO_64 && s.ackAbs < ack <= s.nextSeqno
    ensures var w := s.(windowSize := win);
            && w.Shaped() && w.Accepts(ack) && s.AckAt(ack, win) == Refilled(w.Acknowledge(ack))
            && Accounts(w.Acknowledge(ack))
  {
    hide Suffix, Tiles, AllGenuine, Sender.FillWindow;
  }

  /**
   * An acknowledgment of something new: the window and the acknowledged number are set, exactly
   * the segments it covers in full are released, the timer starts anew for all the others, and
   * everything that may be sent now is logged, queued and outstanding.
   */
  lemma NewAckEffect(s: Sender, ack: nat, win: Word16)
    requires Inv(s) && ack < TWO_64 && s.ackAbs < ack <= s.nextSeqno
    ensures var s' := s.AckAt(ack, win);
            && s'.ackAbs == ack && s'.windowSize == win
            && s'.currRto == s.initialRto && s'.consecRetrans == 0 && s'.time == s.time
            && s'.stream == s.stream.(read := s'.stream.read)
            && s.log <= s'.log && s'.segmentsOut == s.segmentsOut + NewSegs(s, s')
            && Remain(s'.log, s'.outstanding, ack)
            && (forall i :: 0 <= i < |s'.timestamps| ==> s'.timestamps[i] == s.time)
            && Exhausted(s')
  {
    hide Inv, Sender.FillWindow, Sender.Acknowledge, Remain, Exhausted, Accounts, Sender.AckAt, Refilled, Sender.Accepts;
    AckIsRefilled(s, ack, win);
    var a := s.(windowSize := win).Acknowledge(ack);
    AcknowledgeIs(s.(windowSize := win), ack);
    RefilledIs(a);
    AckKeepsInvIff(s, ack, win);
    OutstandingRemain(s.AckAt(ack, win));
    assert NewSegs(a, Refilled(a)) == NewSegs(s, Refilled(a));
  }

  // The clock

  /** Entry `i` of the log is the segment, and covers the first number that is not acknowledged. */
  predicate CoversNext(s: Sender, seg: Segment, i: nat) {
    i < |s.log| && s.log[i].seg == seg && s.log[i].start <= s.ackAbs < s.log[i].End()
  }

  lemma OldestCovers(s: Sender)
    requires Inv(s) && s.outstanding != []
    ensures CoversNext(s, s.outstanding[0], |s.log| - |s.outstanding|)
  {
    hide AllGenuine, Accounts;
  }

  /** The oldest outstanding segment has waited for the timeout when `ms` more have passed. */
  predicate Due(s: Sender, ms: nat) {
    s.timestamps != [] && s.time + ms >= s.timestamps[0] + s.currRto
  }

  /**
   * With nothing outstanding the clock stands still.  Otherwise it queues the oldest
   * outstanding segment - the one that covers the first unacknowledged number - once more
   * exactly if it is due, and counts and doubles the timeout exactly if it is and the window is open.
   */
  lemma TickEffect(s: Sender, ms: nat)
    requires Inv(s)
    ensures s.outstanding == [] ==> s.Tick(ms) == s
    ensures s.outstanding != [] ==>
              var s' := s.Tick(ms);
              && s' == s.(time := s.time + ms, segmentsOut := s'.segmentsOut, timestamps := s'.timestamps,
                          consecRetrans := s'.consecRetrans, currRto := s'.currRto)
              && s'.segmentsOut == s.segmentsOut + (if Due(s, ms) then [s.outstanding[0]] else [])
              && s'.timestamps == (if Due(s, ms) then [s.time + ms] + s.timestamps[1..] else s.timestamps)
              && s'.consecRetrans == s.consecRetrans + (if Due(s, ms) && s.windowSize > 0 then 1 else 0)
              && s'.currRto == (if Due(s, ms) && s.windowSize > 0 then 2 * s.currRto else s.currRto)
              && CoversNext(s, s.outstanding[0], |s.log| - |s.outstanding|)
  {
    hide Suffix, Tiles, AllGenuine;
    if s.outstanding != [] {
      OldestCovers(s);
      hide CoversNext;
      assert s.timestamps[0 := s.time + ms] == [s.time + ms] + s.timestamps[1..];
    }
  }

  /**
   * In every run: when something unacknowledged was sent and the timeout has passed, the next
   * tick queues the logged segment that covers the first unacknowledged number, and nothing else.
   */
  lemma EveryTimeoutRetransmits(isn: Word32, rto: nat, cap: nat, ops: seq<SR.Op>, ms: nat) returns (i: nat)
    requires SR.IsRun(isn, rto, cap, ops)
    requires var s := SR.After(isn, rto, cap, ops);
             s.ackAbs < s.nextSeqno && Due(s, ms)
    ensures var s, s' := SR.After(isn, rto, cap, ops), SR.After(isn, rto, cap, ops + [SR.Op.Tick(ms)]);
            i < |s.log| && CoversNext(s, s.log[i].seg, i) && s'.segmentsOut == s.segmentsOut + [s.log[i].seg]
  {
    hide SR.IsRun, Sender.Tick, CoversNext;
    SR.EveryRunIsGood(isn, rto, cap, ops);
    hide SR.Timed, SR.OnlyCopies, SR.After;
    var s := SR.After(isn, rto, cap, ops);
    AfterTick(isn, rto, cap, ops, ms);
    TickEffect(s, ms);
    i := |s.log| - |s.outstanding|;
    OldestCovers(s);
    CoveredSeg(s, s.outstanding[0], i);
  }

  lemma CoveredSeg(s: Sender, seg: Segment, i: nat)
    requires CoversNext(s, seg, i)
    ensures i < |s.log| && s.log[i].seg == seg
  {
  }

  lemma AfterTick(isn: Word32, rto: nat, cap: nat, ops: seq<SR.Op>, ms: nat)
    ensures SR.After(isn, rto, cap, ops + [SR.Op.Tick(ms)]) == SR.After(isn, rto, cap, ops).Tick(ms)
  {
    hide Sender.Tick;
    assert (ops + [SR.Op.Tick(ms)])[..|ops|] == ops;
  }

  /** In every run the timer runs exactly while something sent is not acknowledged. */
  lemma TimerRunsIff(isn: Word32, rto: nat, cap: nat, ops: seq<SR.Op>)
    requires SR.IsRun(isn, rto, cap, ops)
    ensures var s := SR.After(isn, rto, cap, ops);
            s.timestamps != [] <==> s.ackAbs < s.nextSeqno
  {
    hide SR.IsRun, SR.After, SR.Timed, SR.OnlyCopies, AllGenuine;
    SR.EveryRunIsGood(isn, rto, cap, ops);
    var s := SR.After(isn, rto, cap, ops);
    if s.timestamps == [] {
      assert s.log[..|s.log|] == s.log;
    } else {
      OldestCovers(s);
      EndsGrow(s.log, |s.log| - |s.outstanding|, |s.log| - 1);
    }
  }
}
