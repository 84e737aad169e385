/**
 * If no acknowledgment older than the last accepted one reaches the sender, then the sender
 * respects the receiver's room, the receiver holds only whole segments, and the ring places
 * every payload that is delivered.
 */
module FreshAcks {
  import opened Words
  import opened WrappingIntegers
  import opened ByteStreams
  import opened Segments
  import opened Assembly
  import opened AssemblyRuns
  import opened Sending
  import opened SenderInvariants
  import opened SenderFacts
  import SR = SenderRuns
  import opened Receiving
  import opened Protocol
  import opened WholePieces

  /** The event does not deliver an acknowledgment that the sender has already gone beyond. */
  predicate NotStale(w: World, e: Event) {
    e.DeliverAck? ==> w.s.ackAbs <= w.s.AckValue(e.a.ackno)
  }

  /** First byte after the payload of entry `i`. */
  function LastByte(s: Sender, i: nat): nat
    requires i < |s.log|
  {
    FirstByte(s, i) + |s.log[i].seg.payload|
  }

  /** The payload of every segment ever sent is whole at the receiver and, if longer than a byte, within its room. */
  ghost predicate AllFit(s: Sender, a: Assembler) {
    forall i :: 0 <= i < |s.log| ==> Fitting(a, FirstByte(s, i), LastByte(s, i))
  }

  /** `ack` plus `win` leads no further than the receiver's edge; after the FIN that no longer matters. */
  predicate WithinEdge(s: Sender, a: Assembler, ack: nat, win: nat) {
    ack + win <= 1 + Edge(a) || (s.finSent && ack >= |s.stream.written| + 2)
  }

  ghost predicate AcksWithinEdge(w: World) {
    forall a :: a in w.acks ==> WithinEdge(w.s, w.r.asm, a.value, a.win)
  }

  /** The sender's window, counted from the last acknowledgment, leads no further than the receiver's edge. */
  predicate WindowWithinEdge(s: Sender, a: Assembler) {
    s.finSent || s.ackAbs + s.windowSize <= 1 + Edge(a)
  }

  ghost predicate FreshInv(w: World) {
    && Protocol.Inv(w)
    && AllFit(w.s, w.r.asm)
    && AcksWithinEdge(w)
    && WindowWithinEdge(w.s, w.r.asm)
  }

  /** New entries of the log that carry more than one byte end within the window. */
  predicate NewWithin(s: Sender, s': Sender, limit: nat) {
    && s.log <= s'.log
    && forall i :: |s.log| <= i < |s'.log| && |s'.log[i].seg.payload| >= 2 ==> s'.log[i].start + |s'.log[i].seg.payload| <= limit
  }

  lemma {:induction false} FillLoopWithin(s: Sender)
    requires s.Shaped() && s.nextSeqno == s.ackAbs + s.bytesFlying
    ensures NewWithin(s, s.FillLoop(), s.ackAbs + s.windowSize)
    decreases |s.stream.Buffered()|
  {
    hide Wrap;
    if |s.stream.Buffered()| > 0 && s.windowSize > s.bytesFlying {
      var n := s.SegmentSize();
      FillLoopWithin(s.Emit(false, n, s.FinRides(n)));
    }
  }

  /** What filling the window first sends ends within the window, except for single bytes. */
  lemma FillWindowWithin(s: Sender)
    requires s.Shaped() && s.nextSeqno == s.ackAbs + s.bytesFlying
    ensures NewWithin(s, s.FillWindow(), s.ackAbs + s.windowSize)
  {
    hide Wrap, Sender.FillLoop;
    FillLoopWithin(s);
  }

  lemma LogEndPrefix(log: seq<Sent>, log': seq<Sent>)
    requires log <= log'
    ensures LogEnd(log'[..|log|]) == LogEnd(log)
  {
    assert log'[..|log|] == log;
  }

  lemma InvTiles(s: Sender)
    requires SenderInvariants.Inv(s)
    ensures Tiles(s.log, s.nextSeqno)
  {
    hide AllGenuine, Accounts, Suffix;
  }

  lemma EntryAfter(s: Sender, s': Sender)
    requires SenderInvariants.Inv(s) && SenderInvariants.Inv(s') && s.log < s'.log
    requires LogEnd(s'.log[..|s.log|]) == LogEnd(s.log)
    ensures s'.log[|s.log|].start >= s.nextSeqno
  {
    hide AllGenuine, Accounts, Suffix, LogEnd;
  }

  /** What is sent later starts at or after what was the next number to send. */
  lemma {:induction false} NewEntryStart(s: Sender, s': Sender, i: nat)
    requires SenderInvariants.Inv(s) && SenderInvariants.Inv(s') && s.log <= s'.log && |s.log| <= i < |s'.log|
    ensures s'.log[i].start >= s.nextSeqno
    decreases i
  {
    hide SenderInvariants.Inv, Tiles, LogEnd;
    if i == |s.log| {
      LogEndPrefix(s.log, s'.log);
      EntryAfter(s, s');
    } else {
      NewEntryStart(s, s', i - 1);
      InvTiles(s');
      LogChain(s'.log, s'.nextSeqno, i - 1);
    }
  }

  /** The receiver holds nothing that was not sent. */
  ghost predicate HoldsSent(a: Assembler, read: nat) {
    a.Start() <= read && forall j :: j in a.known ==> j < read
  }

  lemma NewPieceFits(a: Assembler, read: nat, b: nat, e: nat)
    requires HoldsSent(a, read) && (read <= b || b == e) && (e - b >= 2 ==> e <= Edge(a))
    ensures Fitting(a, b, e)
  {
  }

  lemma NewEntryFits(s: Sender, s': Sender, a: Assembler, i: nat)
    requires SenderInvariants.Inv(s) && SenderInvariants.Inv(s') && NewWithin(s, s', 1 + Edge(a)) && HoldsSent(a, s.stream.read)
    requires |s.log| <= i < |s'.log|
    ensures Fitting(a, FirstByte(s', i), LastByte(s', i))
  {
    hide Tiles, Suffix, Fitting, HoldsSent;
    NewEntryStart(s, s', i);
    GenuineSizes(s'.log, s'.isn, s'.stream, i);
    NewPieceFits(a, s.stream.read, FirstByte(s', i), LastByte(s', i));
    hide AllGenuine;
  }

  lemma GrowthFits(s: Sender, s': Sender, a: Assembler)
    requires SenderInvariants.Inv(s) && SenderInvariants.Inv(s') && HoldsSent(a, s.stream.read) && AllFit(s, a)
    requires NewWithin(s, s', 1 + Edge(a))
    ensures AllFit(s', a)
  {
    hide SenderInvariants.Inv, Fitting, HoldsSent;
    forall i | 0 <= i < |s'.log|
      ensures Fitting(a, FirstByte(s', i), LastByte(s', i))
    {
      if i < |s.log| {
        assert Fitting(a, FirstByte(s, i), LastByte(s, i));
      } else {
        NewEntryFits(s, s', a, i);
      }
    }
  }

  /** Filling the window keeps everything within the receiver's room. */
  lemma FillKeepsFit(s: Sender, a: Assembler)
    requires SenderInvariants.Inv(s) && HoldsSent(a, s.stream.read) && AllFit(s, a) && WindowWithinEdge(s, a)
    ensures AllFit(s.FillWindow(), a) && WindowWithinEdge(s.FillWindow(), a)
  {
    hide AllFit, HoldsSent, Sender.FillWindow, AllGenuine, Tiles, Suffix;
    var s' := s.FillWindow();
    FillWindowKeepsInv(s);
    FillKeepsAck(s);
    FillWindowWithin(s);
    if s.finSent {
      FillAfterFin(s);
    } else {
      NewWithinMonotone(s, s', s.ackAbs + s.windowSize, 1 + Edge(a));
      GrowthFits(s, s', a);
    }
  }

  lemma NewWithinMonotone(s: Sender, s': Sender, x: nat, y: nat)
    requires NewWithin(s, s', x) && x <= y
    ensures NewWithin(s, s', y)
  {
  }

  lemma FillAfterFin(s: Sender)
    requires s.Shaped() && Accounts(s) && s.finSent
    ensures s.FillWindow() == s
  {
  }

  // Steps

  lemma ReceiverHoldsSent(w: World)
    requires Protocol.Inv(w)
    ensures HoldsSent(w.r.asm, w.s.stream.read)
  {
    hide HonestNet, SafeAcks, SR.Good, Assembler.Valid;
    FaithfulBound(w.r.asm, SentBytes(w.s));
  }

  lemma InvParts(w: World)
    requires Protocol.Inv(w)
    ensures SenderInvariants.Inv(w.s) && w.s.Shaped() && w.r.Valid()
  {
  }

  /** A sender step that sends nothing new and moves neither window nor acknowledgment. */
  predicate Quiet(s: Sender, s': Sender) {
    && s'.log == s.log && s'.windowSize == s.windowSize && s'.ackAbs == s.ackAbs && s'.finSent == s.finSent
    && s'.stream.read == s.stream.read
  }

  lemma OtherOpsAreQuiet(s: Sender, op: SR.Op)
    requires s.Shaped() && !op.Ack? && !op.Fill?
    ensures Quiet(s, SR.Apply(s, op))
  {
    hide Wrap;
  }

  lemma QuietKeepsFit(s: Sender, s': Sender, a: Assembler)
    requires Quiet(s, s') && AllFit(s, a) && WindowWithinEdge(s, a)
    ensures AllFit(s', a) && WindowWithinEdge(s', a)
  {
    hide Fitting;
    forall i | 0 <= i < |s'.log|
      ensures Fitting(a, FirstByte(s', i), LastByte(s', i))
    {
      assert Fitting(a, FirstByte(s, i), LastByte(s, i));
    }
  }

  lemma WithinEdgeSurvives(w: World, w': World)
    requires AcksWithinEdge(w) && w'.acks <= w.acks && Edge(w.r.asm) <= Edge(w'.r.asm)
    requires w.s.finSent ==> w'.s.finSent && w'.s.stream.written == w.s.stream.written
    ensures AcksWithinEdge(w')
  {
    forall a | a in w'.acks
      ensures WithinEdge(w'.s, w'.r.asm, a.value, a.win)
    {
      assert WithinEdge(w.s, w.r.asm, a.value, a.win);
    }
  }

  lemma FinSentStays(s: Sender, s': Sender)
    requires Accounts(s) && Accounts(s') && s.Shaped() && s'.Shaped() && SR.Progress(s, s') && s.finSent
    ensures s'.finSent && s'.stream.written == s.stream.written
  {
  }

  lemma SenderStepKeepsFresh(w: World, op: SR.Op)
    requires FreshInv(w) && Enabled(w, SenderStep(op))
    ensures FreshInv(Next(w, SenderStep(op)))
  {
    hide Protocol.Inv, AllFit, WindowWithinEdge, AcksWithinEdge, SR.Apply, SR.Good, SR.Progress, SR.Allowed,
         Sender.FillWindow, Accounts, HoldsSent, SenderInvariants.Inv, SR.OnlyCopies;
    InvParts(w);
    InvGood(w);
    SenderStepKeepsInv(w, op);
    var w' := Next(w, SenderStep(op));
    ReceiverHoldsSent(w);
    if op.Fill? {
      ApplyFill(w.s);
      FillKeepsFit(w.s, w.r.asm);
    } else {
      OtherOpsAreQuiet(w.s, op);
      QuietKeepsFit(w.s, w'.s, w.r.asm);
    }
    SR.StepKeepsGood(w.s, op);
    GoodAccounts(w.s);
    GoodAccounts(w'.s);
    if w.s.finSent {
      FinSentStays(w.s, w'.s);
    }
    WithinEdgeSurvives(w, w');
  }

  lemma InvGood(w: World)
    requires Protocol.Inv(w)
    ensures SR.Good(w.s)
  {
  }

  lemma ApplyFill(s: Sender)
    requires s.Shaped()
    ensures SR.Apply(s, SR.Fill) == s.FillWindow()
  {
    hide Sender.FillWindow;
  }

  lemma AssembledWithinSent(w: World)
    requires Protocol.Inv(w) && w.r.syn
    ensures w.r.Assembled() <= w.s.nextSeqno
  {
    hide HonestNet, SafeAcks, Assembler.Valid, Suffix, Tiles, AllGenuine, SR.Timed, SR.OnlyCopies;
    FaithfulBound(w.r.asm, SentBytes(w.s));
  }

  /** An acknowledgment that is not stale leaves the sender within the receiver's room. */
  lemma AckKeepsFit(s: Sender, a: Assembler, ack: nat, win: Word16)
    requires SenderInvariants.Inv(s) && HoldsSent(a, s.stream.read) && AllFit(s, a)
    requires s.nextSeqno > 0 && s.ackAbs <= ack <= s.nextSeqno && ack < TWO_64 && WithinEdge(s, a, ack, win)
    ensures AllFit(s.AckAt(ack, win), a) && WindowWithinEdge(s.AckAt(ack, win), a)
  {
    hide AllFit, HoldsSent, Sender.FillWindow, AllGenuine, Tiles, Suffix;
    var w := s.(windowSize := win);
    WindowIsFree(s, win);
    AcceptsIff(w, ack);
    SameLogFits(s, w, a);
    if w.Accepts(ack) {
      var s2 := w.Acknowledge(ack);
      AcknowledgeKeepsInv(w, ack);
      SameLogFits(s, s2, a);
      FillKeepsFit(s2, a);
    }
  }

  lemma SameLogFits(s: Sender, s': Sender, a: Assembler)
    requires AllFit(s, a) && s'.log == s.log && s'.stream.read == s.stream.read
    ensures AllFit(s', a)
  {
    hide Fitting;
    forall i | 0 <= i < |s'.log|
      ensures Fitting(a, FirstByte(s', i), LastByte(s', i))
    {
      assert Fitting(a, FirstByte(s, i), LastByte(s, i));
    }
  }

  lemma DeliverAckKeepsFresh(w: World, a: Ack)
    requires FreshInv(w) && Enabled(w, DeliverAck(a)) && NotStale(w, DeliverAck(a))
    ensures FreshInv(Next(w, DeliverAck(a)))
  {
    hide Protocol.Inv, AllFit, WindowWithinEdge, SR.Good, SR.Progress, Sender.AckAt, Accounts, HoldsSent, Unwrap, Wrap,
         SenderInvariants.Inv, SR.OnlyCopies, WithinEdge, Sender.AckValue;
    InvParts(w);
    InvGood(w);
    DeliverAckKeepsInv(w, a);
    ReceiverHoldsSent(w);
    AckFacts(w, a);
    AssembledWithinSent(w);
    assert WithinEdge(w.s, w.r.asm, a.value, a.win);
    AckKeepsFit(w.s, w.r.asm, a.value, a.win);
    var w' := Next(w, DeliverAck(a));
    SR.AckKeepsGood(w.s, a.ackno, a.win);
    GoodAccounts(w.s);
    GoodAccounts(w'.s);
    if w.s.finSent {
      FinSentStays(w.s, w'.s);
    }
    WithinEdgeSurvives(w, w');
  }

  lemma AckFacts(w: World, a: Ack)
    requires Protocol.Inv(w) && a in w.acks && AckNear(w, a)
    ensures w.s.AckValue(a.ackno) == a.value <= w.r.Assembled()
    ensures w.r.syn && w.s.nextSeqno > 0
  {
    hide HonestNet, SR.Good, Faithful, Assembler.Valid, Wrap, Unwrap;
    assert Acks(w, a);
    CkptBound(w);
    AckIsRead(w, a);
  }

  lemma EmitAckKeepsFresh(w: World)
    requires FreshInv(w) && Enabled(w, EmitAck)
    ensures FreshInv(Next(w, EmitAck))
  {
    hide AllFit, SR.Good, HonestNet, Faithful, Wrap, SafeAcks, Held;
    EmitAckKeepsInv(w);
    CkptBound(w);
    EdgeWithinWindow(w.r.asm);
    var w' := Next(w, EmitAck);
    forall a | a in w'.acks
      ensures WithinEdge(w'.s, w'.r.asm, a.value, a.win)
    {
      assert a in w.acks ==> WithinEdge(w.s, w.r.asm, a.value, a.win);
    }
  }

  lemma ReadKeepsFit(s: Sender, a: Assembler, n: nat)
    requires a.Valid() && AllFit(s, a) && WindowWithinEdge(s, a)
    ensures AllFit(s, a.Read(n)) && WindowWithinEdge(s, a.Read(n)) && Edge(a) <= Edge(a.Read(n))
  {
    forall i | 0 <= i < |s.log|
      ensures Fitting(a.Read(n), FirstByte(s, i), LastByte(s, i))
    {
      assert Fitting(a, FirstByte(s, i), LastByte(s, i));
    }
  }

  lemma ReadKeepsFresh(w: World, n: nat)
    requires FreshInv(w)
    ensures FreshInv(Next(w, Event.Read(n)))
  {
    hide Protocol.Inv, AllFit, WindowWithinEdge, AcksWithinEdge, Assembler.Valid, Edge;
    InvParts(w);
    ReadKeepsInv(w, n);
    ReadKeepsFit(w.s, w.r.asm, n);
    WithinEdgeSurvives(w, Next(w, Event.Read(n)));
  }

  /** Payloads of different entries do not overlap, and follow each other in order. */
  lemma {:induction false} PiecesOrdered(s: Sender, i: nat, j: nat)
    requires SenderInvariants.Inv(s) && i < j < |s.log|
    ensures LastByte(s, i) <= FirstByte(s, j)
    decreases j
  {
    hide SenderInvariants.Inv;
    if i + 1 == j {
      LogStep(s, i);
    } else {
      PiecesOrdered(s, i, j - 1);
      LogStep(s, j - 1);
    }
  }

  lemma EndKeepsFit(a: Assembler, b: nat, e: nat)
    requires Fitting(a, b, e)
    ensures Fitting(a.(out := a.out.End()), b, e)
  {
  }

  lemma EmptyFits(a: Assembler, b: nat)
    ensures Fitting(a, b, b)
  {
  }

  /** Taking a copy of a logged segment keeps every logged segment whole. */
  lemma TakeKeepsFit(s: Sender, r: Receiver, j: nat, index: Word64)
    requires SenderInvariants.Inv(s) && r.Valid() && AllFit(s, r.asm) && j < |s.log|
    requires s.log[j].seg.payload == [] || index == FirstByte(s, j)
    ensures AllFit(s, r.Take(s.log[j].seg, index).asm)
  {
    hide SenderInvariants.Inv, Assembler.Valid, Assembler.Push, Fitting, FirstByte, Wrap, Unwrap;
    var seg := s.log[j].seg;
    var eof := r.eof || seg.header.fin;
    var a := r.asm.Push(seg.payload, index, eof);
    assert Fitting(r.asm, index, index + |seg.payload|) by {
      EmptyFits(r.asm, index);
      assert Fitting(r.asm, FirstByte(s, j), LastByte(s, j));
    }
    forall i | 0 <= i < |s.log|
      ensures Fitting(r.Take(seg, index).asm, FirstByte(s, i), LastByte(s, i))
    {
      if i < j {
        PiecesOrdered(s, i, j);
      } else if j < i {
        PiecesOrdered(s, j, i);
      }
      assert Fitting(r.asm, FirstByte(s, i), LastByte(s, i));
      PushKeepsWhole(r.asm, seg.payload, index, eof, FirstByte(s, i), LastByte(s, i));
      EndKeepsFit(a, FirstByte(s, i), LastByte(s, i));
    }
  }

  lemma NearIndex(w: World, seg: Segment, i: nat)
    requires Protocol.Inv(w) && SentNear(w, seg, i) && w.r.Listens(seg)
    ensures seg.payload == [] || w.r.Index(seg) == FirstByte(w.s, i)
  {
    hide SenderInvariants.Inv, SR.Timed, SR.OnlyCopies, HonestNet, Faithful, SafeAcks, Receiver.Index, Receiver.IsnFor,
         Receiver.Valid, Genuine, Receiver.Listens;
    CkptBound(w);
    EntryIsGenuine(w.s, i);
    IndexIsRead(w.r, w.s.log[i], w.s.isn, w.s.stream);
  }

  lemma EntryIsPlaceable(s: Sender, a: Assembler, j: nat, index: Word64)
    requires a.Valid() && AllFit(s, a) && j < |s.log|
    requires s.log[j].seg.payload == [] || index == FirstByte(s, j)
    ensures a.Placeable(index, |s.log[j].seg.payload|)
  {
    hide Assembler.Valid, Assembler.Placeable, FirstByte, Fitting;
    EmptyFits(a, index);
    assert Fitting(a, FirstByte(s, j), LastByte(s, j));
    FittingIsPlaceable(a, index, index + |s.log[j].seg.payload|);
  }

  /** Without stale acknowledgments the ring can place whatever is delivered. */
  lemma DeliveryFits(w: World, seg: Segment)
    requires FreshInv(w) && Enabled(w, Deliver(seg)) && w.r.asm.cap > 0
    ensures Fits(w, Deliver(seg))
  {
    hide Protocol.Inv, Assembler.Valid, Receiver.Index, FirstByte, Assembler.Placeable, AllFit, AcksWithinEdge,
         WindowWithinEdge, SentNear, Receiver.Listens;
    InvParts(w);
    if w.r.Listens(seg) {
      var i :| SentNear(w, seg, i);
      NearEntry(w, seg, i);
      NearIndex(w, seg, i);
      EntryIsPlaceable(w.s, w.r.asm, i, w.r.Index(seg));
    }
  }

  lemma DeliverKeepsFresh(w: World, seg: Segment)
    requires FreshInv(w) && Enabled(w, Deliver(seg))
    ensures FreshInv(Next(w, Deliver(seg)))
  {
    hide Protocol.Inv, AllFit, AcksWithinEdge, Assembler.Valid, Receiver.Index, FirstByte, SentNear, Receiver.Take, Edge;
    InvParts(w);
    DeliverKeepsInv(w, seg);
    var w' := Next(w, Deliver(seg));
    if w.r.Listens(seg) {
      var i :| SentNear(w, seg, i);
      NearEntry(w, seg, i);
      NearIndex(w, seg, i);
      TakeKeepsFit(w.s, w.r, i, w.r.Index(seg));
      TakeKeepsEdge(w.r, seg, w.r.Index(seg));
    }
    WithinEdgeSurvives(w, w');
  }

  lemma NearEntry(w: World, seg: Segment, i: nat)
    requires SentNear(w, seg, i)
    ensures i < |w.s.log| && w.s.log[i].seg == seg
  {
  }

  lemma TakeKeepsEdge(r: Receiver, seg: Segment, index: Word64)
    requires r.Valid()
    ensures Edge(r.Take(seg, index).asm) == Edge(r.asm)
  {
    hide Assembler.Valid, Wrap, Unwrap, Assembler.Kept, Run, Held;
    StoreKeepsValid(r.asm, seg.payload, index, r.eof || seg.header.fin);
  }

  lemma StepKeepsFresh(w: World, e: Event)
    requires FreshInv(w) && Enabled(w, e) && NotStale(w, e)
    ensures FreshInv(Next(w, e))
  {
    hide FreshInv, Enabled, NotStale;
    FreshReady(w);
    hide Next;
    match e
    case SenderStep(op) => SenderStepKeepsFresh(w, op);
    case Deliver(seg) => DeliverKeepsFresh(w, seg);
    case EmitAck => EmitAckKeepsFresh(w);
    case DeliverAck(a) => DeliverAckKeepsFresh(w, a);
    case Read(n) => ReadKeepsFresh(w, n);
  }

  lemma FreshReady(w: World)
    requires FreshInv(w)
    ensures w.s.Shaped() && w.r.Valid() && w.r.asm.cap > 0
  {
    hide SR.Good, HonestNet, Faithful, SafeAcks;
  }

  lemma StartIsFresh(isn: Word32, rto: nat, sendCap: nat, recvCap: nat)
    requires recvCap > 0
    ensures FreshInv(Protocol.Start(isn, rto, sendCap, recvCap))
  {
    hide Protocol.Inv;
    StartInv(isn, rto, sendCap, recvCap);
  }
}
