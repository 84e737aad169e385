/** The sender over whole runs: invariant, retransmission timer, and the order of its states. */
module SenderRuns {
  import opened Words
  import opened WrappingIntegers
  import opened ByteStreams
  import opened Segments
  import opened Sending
  import opened SenderInvariants

  // Retransmission timer

  /** The timeout after `k` doublings. */
  function Backoff(rto: nat, k: nat): nat {
    if k == 0 then rto else 2 * Backoff(rto, k - 1)
  }

  lemma {:induction false} BackoffGrows(rto: nat, j: nat, k: nat)
    requires j <= k
    ensures Backoff(rto, j) <= Backoff(rto, k)
  {
    if j < k {
      BackoffGrows(rto, j, k - 1);
    }
  }

  function Pow2(k: nat): nat {
    if k == 0 then 1 else 2 * Pow2(k - 1)
  }

  lemma {:induction false} BackoffIsPower(rto: nat, k: nat)
    ensures Backoff(rto, k) == Pow2(k) * rto
  {
    if k > 0 {
      BackoffIsPower(rto, k - 1);
      assert 2 * (Pow2(k - 1) * rto) == (2 * Pow2(k - 1)) * rto;
    }
  }

  /** The timeout is the initial one doubled per retransmission, and those timeouts were waited for. */
  predicate Timed(s: Sender) {
    && s.currRto == Backoff(s.initialRto, s.consecRetrans)
    && s.timerStart <= s.time
    && (forall i :: 0 <= i < |s.timestamps| ==> s.timestamps[i] <= s.time)
    && (s.timestamps == [] ==> s.consecRetrans == 0)
    && (s.timestamps != [] ==> s.timerStart + s.currRto - s.initialRto <= s.timestamps[0])
  }

  lemma EmitKeepsTimed(s: Sender, syn: bool, n: nat, fin: bool)
    requires Timed(s) && s.Shaped() && n <= |s.stream.Buffered()|
    ensures Timed(s.Emit(syn, n, fin))
  {
    hide Wrap;
  }

  lemma {:induction false} FillLoopKeepsTimed(s: Sender)
    requires Timed(s) && s.Shaped()
    ensures Timed(s.FillLoop())
    decreases |s.stream.Buffered()|
  {
    hide Timed, Wrap;
    if |s.stream.Buffered()| > 0 && s.windowSize > s.bytesFlying {
      var n := s.SegmentSize();
      EmitKeepsTimed(s, false, n, s.FinRides(n));
      FillLoopKeepsTimed(s.Emit(false, n, s.FinRides(n)));
    }
  }

  lemma FillWindowKeepsTimed(s: Sender)
    requires Timed(s) && s.Shaped()
    ensures Timed(s.FillWindow())
  {
    hide Timed, Wrap, Sender.FillLoop;
    EmitKeepsTimed(s, true, 0, false);
    EmitKeepsTimed(s, false, 0, true);
    if |s.stream.Buffered()| > 0 {
      EmitKeepsTimed(s, false, 1, false);
    }
    FillLoopKeepsTimed(s);
  }

  lemma AckKeepsTimed(s: Sender, ack: nat, win: Word16)
    requires Timed(s) && s.Shaped() && ack < TWO_64
    ensures Timed(s.AckAt(ack, win))
  {
    hide Sender.FillWindow;
    var w := s.(windowSize := win);
    if w.Accepts(ack) {
      FillWindowKeepsTimed(w.Acknowledge(ack));
    }
  }

  lemma TickKeepsTimed(s: Sender, ms: nat)
    requires Timed(s) && s.Shaped()
    ensures Timed(s.Tick(ms))
  {
  }

  /** Whoever gives up after more than eight retransmissions has waited 511 initial timeouts. */
  lemma GivingUpTakesTime(s: Sender)
    requires Timed(s) && s.consecRetrans > 8
    ensures s.timerStart + 511 * s.initialRto <= s.time
  {
    var r := s.initialRto;
    BackoffGrows(r, 9, s.consecRetrans);
    BackoffIsPower(r, 9);
    assert Pow2(9) == 512;
  }

  // Segments handed to the network

  predicate InLog(log: seq<Sent>, seg: Segment) {
    exists i :: 0 <= i < |log| && log[i].seg == seg
  }

  /** Every segment with content that is queued or on the network is a copy of an original transmission. */
  predicate OnlyCopies(log: seq<Sent>, segs: seq<Segment>) {
    forall seg :: seg in segs && seg.Length() > 0 ==> InLog(log, seg)
  }

  lemma OnlyCopiesGrows(log: seq<Sent>, log': seq<Sent>, segs: seq<Segment>)
    requires OnlyCopies(log, segs) && log <= log'
    ensures OnlyCopies(log', segs)
  {
    forall seg | seg in segs && seg.Length() > 0
      ensures InLog(log', seg)
    {
      var i :| 0 <= i < |log| && log[i].seg == seg;
      assert log'[i].seg == seg;
    }
  }

  lemma EmitCopies(s: Sender, syn: bool, n: nat, fin: bool)
    requires s.Shaped() && n <= |s.stream.Buffered()| && OnlyCopies(s.log, s.segmentsOut)
    ensures var s' := s.Emit(syn, n, fin);
            s.log <= s'.log && OnlyCopies(s'.log, s'.segmentsOut)
  {
    hide Wrap;
    var s' := s.Emit(syn, n, fin);
    OnlyCopiesGrows(s.log, s'.log, s.segmentsOut);
    assert s'.log[|s.log|].seg == s'.segmentsOut[|s.segmentsOut|];
  }

  lemma {:induction false} FillLoopCopies(s: Sender)
    requires s.Shaped() && OnlyCopies(s.log, s.segmentsOut)
    ensures var s' := s.FillLoop();
            s.log <= s'.log && OnlyCopies(s'.log, s'.segmentsOut)
    decreases |s.stream.Buffered()|
  {
    hide Wrap, OnlyCopies;
    if |s.stream.Buffered()| > 0 && s.windowSize > s.bytesFlying {
      var n := s.SegmentSize();
      EmitCopies(s, false, n, s.FinRides(n));
      FillLoopCopies(s.Emit(false, n, s.FinRides(n)));
    }
  }

  lemma FillWindowCopies(s: Sender)
    requires s.Shaped() && OnlyCopies(s.log, s.segmentsOut)
    ensures var s' := s.FillWindow();
            s.log <= s'.log && OnlyCopies(s'.log, s'.segmentsOut)
  {
    hide Wrap, OnlyCopies, Sender.FillLoop;
    EmitCopies(s, true, 0, false);
    EmitCopies(s, false, 0, true);
    if |s.stream.Buffered()| > 0 {
      EmitCopies(s, false, 1, false);
    }
    FillLoopCopies(s);
  }

  lemma AckCopies(s: Sender, ack: nat, win: Word16)
    requires s.Shaped() && OnlyCopies(s.log, s.segmentsOut) && ack < TWO_64
    ensures var s' := s.AckAt(ack, win);
            s.log <= s'.log && OnlyCopies(s'.log, s'.segmentsOut)
  {
    hide OnlyCopies, Sender.FillWindow;
    var w := s.(windowSize := win);
    if w.Accepts(ack) {
      FillWindowCopies(w.Acknowledge(ack));
    }
  }

  /** A retransmission repeats an original transmission: nothing new is queued by the clock. */
  lemma TickCopies(s: Sender, ms: nat)
    requires Inv(s) && OnlyCopies(s.log, s.segmentsOut)
    ensures var s' := s.Tick(ms);
            && s'.log == s.log && OnlyCopies(s'.log, s'.segmentsOut)
            && (s'.segmentsOut == s.segmentsOut || s'.segmentsOut == s.segmentsOut + [s.outstanding[0]])
  {
    hide Accounts, Tiles, AllGenuine, LogEnd;
    if s.outstanding != [] {
      assert s.log[|s.log| - |s.outstanding|].seg == s.outstanding[0];
    }
  }

  // Progress

  /** Nothing the sender has achieved is taken back. */
  predicate Progress(s: Sender, s': Sender) {
    && s'.isn == s.isn && s'.initialRto == s.initialRto
    && s.nextSeqno <= s'.nextSeqno && s.ackAbs <= s'.ackAbs && s.stream.read <= s'.stream.read
    && s.log <= s'.log && Grows(s.stream, s'.stream)
    && s'.stream.error == s.stream.error && s'.stream.cap == s.stream.cap
  }

  lemma EmitProgress(s: Sender, syn: bool, n: nat, fin: bool)
    requires s.Shaped() && n <= |s.stream.Buffered()|
    ensures Progress(s, s.Emit(syn, n, fin))
  {
    hide Wrap;
  }

  lemma {:induction false} FillLoopProgress(s: Sender)
    requires s.Shaped()
    ensures Progress(s, s.FillLoop())
    decreases |s.stream.Buffered()|
  {
    hide Sender.Emit;
    if |s.stream.Buffered()| > 0 && s.windowSize > s.bytesFlying {
      var n := s.SegmentSize();
      EmitProgress(s, false, n, s.FinRides(n));
      EmitConsumes(s, false, n, s.FinRides(n));
      FillLoopProgress(s.Emit(false, n, s.FinRides(n)));
    }
  }

  lemma EmitConsumes(s: Sender, syn: bool, n: nat, fin: bool)
    requires s.Shaped() && n <= |s.stream.Buffered()|
    ensures |s.Emit(syn, n, fin).stream.Buffered()| == |s.stream.Buffered()| - n
  {
  }

  lemma FillWindowProgress(s: Sender)
    requires s.Shaped()
    ensures Progress(s, s.FillWindow())
  {
    hide Progress, Sender.Emit, Sender.FillLoop;
    EmitProgress(s, true, 0, false);
    EmitProgress(s, false, 0, true);
    if |s.stream.Buffered()| > 0 {
      EmitProgress(s, false, 1, false);
    }
    FillLoopProgress(s);
  }

  lemma AckProgress(s: Sender, ack: nat, win: Word16)
    requires s.Shaped() && ack < TWO_64
    ensures Progress(s, s.AckAt(ack, win))
  {
    hide Sender.FillWindow;
    var w := s.(windowSize := win);
    if w.Accepts(ack) {
      FillWindowProgress(w.Acknowledge(ack));
    }
  }

  // Runs

  datatype Op =
    | Write(data: seq<Byte>) | End | Fill | Ack(ackno: Word32, win: Word16) | Tick(ms: nat) | Empty | Drain

  function Apply(s: Sender, op: Op): (s': Sender)
    requires s.Shaped()
    ensures s'.Shaped()
  {
    match op
    case Write(data) => s.Write(data)
    case End => s.EndInput()
    case Fill => s.FillWindow()
    case Ack(ackno, win) => s.AckReceived(ackno, win)
    case Tick(ms) => s.Tick(ms)
    case Empty => s.SendEmpty()
    case Drain => s.Drained()
  }

  /** What the code demands of its environment: no write after the end, no acknowledgment of a SYN not sent. */
  predicate Allowed(s: Sender, op: Op) {
    match op
    case Write(_) => !s.stream.ended
    case Ack(ackno, _) => !Premature(s, s.AckValue(ackno))
    case _ => true
  }

  /** Everything a step keeps. */
  predicate Good(s: Sender) {
    Inv(s) && Timed(s) && OnlyCopies(s.log, s.segmentsOut)
  }

  lemma FillKeepsGood(s: Sender)
    requires Good(s)
    ensures Good(s.FillWindow()) && Progress(s, s.FillWindow())
  {
    hide Timed, OnlyCopies, Progress, Accounts, AllGenuine, Tiles, Suffix, Sender.FillWindow;
    FillWindowKeepsInv(s);
    FillWindowKeepsTimed(s);
    FillWindowCopies(s);
    FillWindowProgress(s);
  }

  lemma AckKeepsGood(s: Sender, ackno: Word32, win: Word16)
    requires Good(s) && !Premature(s, s.AckValue(ackno))
    ensures var s' := s.AckReceived(ackno, win);
            Good(s') && Progress(s, s')
  {
    hide Timed, OnlyCopies, Progress, Accounts, AllGenuine, Tiles, Suffix, Sender.AckAt, Unwrap, Premature;
    var ack := s.AckValue(ackno);
    AckKeepsInvIff(s, ack, win);
    AckKeepsTimed(s, ack, win);
    AckCopies(s, ack, win);
    AckProgress(s, ack, win);
  }

  lemma TickKeepsGood(s: Sender, ms: nat)
    requires Good(s)
    ensures Good(s.Tick(ms)) && Progress(s, s.Tick(ms))
  {
    hide Timed, OnlyCopies, Accounts, AllGenuine, Tiles, Suffix;
    TickKeepsInv(s, ms);
    TickKeepsTimed(s, ms);
    TickCopies(s, ms);
  }

  lemma StepKeepsGood(s: Sender, op: Op)
    requires Good(s) && Allowed(s, op)
    ensures Good(Apply(s, op)) && Progress(s, Apply(s, op))
  {
    hide Inv, Sender.FillWindow, Sender.AckReceived, Sender.AckValue, Sender.Tick, Premature, Wrap;
    GoodShaped(s);
    match op
    case Write(data) => StreamInputKeepsInv(s, data);
    case End => StreamInputKeepsInv(s, []);
    case Fill => FillKeepsGood(s);
    case Ack(ackno, win) => AckKeepsGood(s, ackno, win);
    case Tick(ms) => TickKeepsGood(s, ms);
    case Empty => QueueIsFree(s, s.SendEmpty().segmentsOut);
    case Drain => QueueIsFree(s, []);
  }

  lemma GoodShaped(s: Sender)
    requires Good(s)
    ensures s.Shaped()
  {
  }

  function After(isn: Word32, rto: nat, cap: nat, ops: seq<Op>): (s: Sender)
    ensures s.Shaped()
  {
    if ops == [] then InitialSender(isn, rto, cap)
    else Apply(After(isn, rto, cap, ops[..|ops| - 1]), ops[|ops| - 1])
  }

  /** A run whose environment does at every step only what the code allows it. */
  predicate IsRun(isn: Word32, rto: nat, cap: nat, ops: seq<Op>) {
    forall k :: 0 <= k < |ops| ==> Allowed(After(isn, rto, cap, ops[..k]), ops[k])
  }

  lemma RunPrefix(isn: Word32, rto: nat, cap: nat, ops: seq<Op>, j: nat)
    requires IsRun(isn, rto, cap, ops) && j <= |ops|
    ensures IsRun(isn, rto, cap, ops[..j])
  {
    hide Allowed, After;
    forall k | 0 <= k < j
      ensures Allowed(After(isn, rto, cap, ops[..j][..k]), ops[..j][k])
    {
      assert ops[..j][..k] == ops[..k];
    }
  }

  /** In every run, every state satisfies the invariant, the timer law, and sends only copies of logged segments. */
  lemma {:induction false} EveryRunIsGood(isn: Word32, rto: nat, cap: nat, ops: seq<Op>)
    requires IsRun(isn, rto, cap, ops)
    ensures Good(After(isn, rto, cap, ops))
  {
    if ops == [] {
      InitialInv(isn, rto, cap);
    } else {
      hide Good, Allowed, Apply;
      var n := |ops| - 1;
      RunPrefix(isn, rto, cap, ops, n);
      EveryRunIsGood(isn, rto, cap, ops[..n]);
      StepKeepsGood(After(isn, rto, cap, ops[..n]), ops[n]);
    }
  }

  lemma ProgressReflexive(s: Sender)
    ensures Progress(s, s)
  {
  }

  lemma ProgressTransitive(a: Sender, b: Sender, c: Sender)
    requires Progress(a, b) && Progress(b, c)
    ensures Progress(a, c)
  {
  }

  /** In every run, no state takes back what an earlier one achieved. */
  lemma {:induction false} EveryRunProgresses(isn: Word32, rto: nat, cap: nat, ops: seq<Op>, j: nat)
    requires IsRun(isn, rto, cap, ops) && j <= |ops|
    ensures Progress(After(isn, rto, cap, ops[..j]), After(isn, rto, cap, ops))
  {
    hide Good, Allowed, Apply, Progress;
    if j == |ops| {
      assert ops[..j] == ops;
      ProgressReflexive(After(isn, rto, cap, ops));
    } else {
      var n := |ops| - 1;
      var a, b := After(isn, rto, cap, ops[..j]), After(isn, rto, cap, ops[..n]);
      RunPrefix(isn, rto, cap, ops, n);
      EveryRunIsGood(isn, rto, cap, ops[..n]);
      assert ops[..n][..j] == ops[..j];
      EveryRunProgresses(isn, rto, cap, ops[..n], j);
      StepKeepsGood(b, ops[n]);
      ProgressTransitive(a, b, After(isn, rto, cap, ops));
    }
  }
}
