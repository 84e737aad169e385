/**
 * One sender and one receiver over a network that may drop, repeat and reorder.  The network
 * is the set of everything ever sent: dropping is never delivering, repeating is delivering twice.
 */
module Protocol {
  import opened Words
  import opened WrappingIntegers
  import opened ByteStreams
  import opened Segments
  import opened Assembly
  import opened AssemblyRuns
  import opened Sending
  import opened SenderInvariants
  import opened SenderFacts
  import SR = SenderRuns
  import opened Receiving

  /** An acknowledgment on its way back; `value` is the absolute number that `ackno` was wrapped from. */
  datatype Ack = Ack(ackno: Word32, win: Word16, value: nat)

  datatype World = World(s: Sender, r: Receiver, net: set<Segment>, acks: set<Ack>)

  datatype Event =
    | SenderStep(op: SR.Op)    // the application or the clock at the sender
    | Deliver(seg: Segment)    // the network delivers a segment to the receiver
    | EmitAck                  // the receiver sends an acknowledgment
    | DeliverAck(a: Ack)       // the network delivers an acknowledgment to the sender
    | Read(n: nat)             // the application at the receiver reads

  /** Bytes of the stream that were sent at least once. */
  function SentBytes(s: Sender): seq<Byte>
    requires s.stream.Valid()
  {
    s.stream.written[..s.stream.read]
  }

  /** Entry `i` of the log is the segment, less than half a cycle from the receiver's checkpoint (the SYN may be anywhere). */
  predicate SentNear(w: World, seg: Segment, i: nat) {
    && i < |w.s.log| && w.s.log[i].seg == seg
    && (w.s.log[i].start == 0 || Abs(w.s.log[i].start - w.r.ckpt) < TWO_31)
  }

  /** The acknowledgment is for numbers the receiver has assembled. */
  predicate Acks(w: World, a: Ack) {
    1 <= a.value <= w.r.Assembled() && a.ackno == Wrap(a.value, w.s.isn)
  }

  /** It is less than half a cycle from what the sender has read off its stream. */
  predicate AckNear(w: World, a: Ack) {
    Abs(a.value - w.s.stream.read) < TWO_31
  }

  /** What is asked of the environment, except for how the ring places a payload. */
  ghost predicate Enabled(w: World, e: Event) {
    match e
    case SenderStep(op) =>
      && !op.Ack? && SR.Allowed(w.s, op)
      && (op.Write? ==> |w.s.stream.written| + |op.data| <= TWO_63)
    case Deliver(seg) => seg in w.net && seg.Length() > 0 && exists i :: SentNear(w, seg, i)
    case EmitAck => w.r.syn
    case DeliverAck(a) => a in w.acks && AckNear(w, a)
    case Read(_) => true
  }

  /** The ring can place the payload of a delivered segment. */
  predicate Fits(w: World, e: Event)
    requires w.r.asm.cap > 0
  {
    e.Deliver? ==> w.r.Placeable(e.seg)
  }

  /** The acknowledgment the connection puts on an outgoing segment. */
  function AckOf(r: Receiver): Ack
    requires r.asm.out.Valid()
  {
    Ack(r.ack, Min(r.WindowSize(), TWO_16 - 1), r.Assembled())
  }

  ghost function Next(w: World, e: Event): World
    requires w.s.Shaped() && w.r.Valid()
  {
    match e
    case SenderStep(op) =>
      w.(s := SR.Apply(w.s, op), net := if op.Drain? then w.net + (set seg | seg in w.s.segmentsOut) else w.net)
    case Deliver(seg) => w.(r := w.r.SegmentReceived(seg))
    case EmitAck => w.(acks := w.acks + {AckOf(w.r)})
    case DeliverAck(a) => w.(s := w.s.AckReceived(a.ackno, a.win))
    case Read(n) => w.(r := w.r.Read(n))
  }

  // What every step keeps

  /** The network carries only copies of what the sender's log holds. */
  predicate HonestNet(net: set<Segment>, log: seq<Sent>) {
    forall seg :: seg in net && seg.Length() > 0 ==> SR.InLog(log, seg)
  }

  /** The receiver knows only sent bytes, and knows them right; its view of the handshake and the end is the sender's. */
  ghost predicate Agrees(r: Receiver, s: Sender)
    requires s.stream.Valid()
  {
    && r.Valid() && Faithful(r.asm, SentBytes(s))
    && |s.stream.written| <= TWO_63
    && (r.syn ==> r.isn == s.isn && s.nextSeqno > 0 && r.ack == Wrap(r.Assembled(), s.isn))
    && (!r.syn ==> r.ckpt == 0)
    && (if r.eof then r.syn && s.finSent && r.lenStream == |s.stream.written| else r.lenStream == NO_END && Open(r.asm))
  }

  /** No end was seen. */
  predicate Open(a: Assembler) {
    !a.out.ended && a.endStream == NO_END
  }

  /** Every acknowledgment, on the way or processed, is for numbers the receiver has assembled. */
  ghost predicate SafeAcks(w: World) {
    && (forall a :: a in w.acks ==> Acks(w, a))
    && w.s.ackAbs <= w.r.Assembled()
  }

  ghost predicate Inv(w: World) {
    && SR.Good(w.s) && w.s.Shaped()
    && HonestNet(w.net, w.s.log)
    && Agrees(w.r, w.s)
    && SafeAcks(w)
  }

  function Start(isn: Word32, rto: nat, sendCap: nat, recvCap: nat): World {
    World(InitialSender(isn, rto, sendCap), InitialReceiver(recvCap), {}, {})
  }

  lemma StartInv(isn: Word32, rto: nat, sendCap: nat, recvCap: nat)
    requires recvCap > 0
    ensures Inv(Start(isn, rto, sendCap, recvCap))
  {
    var w := Start(isn, rto, sendCap, recvCap);
    SR.EveryRunIsGood(isn, rto, sendCap, []);
    FreshIsValid(recvCap);
    hide SR.Good, Assembler.Valid;
  }

  // Sender steps

  lemma HonestNetGrows(net: set<Segment>, log: seq<Sent>, log': seq<Sent>)
    requires HonestNet(net, log) && log <= log'
    ensures HonestNet(net, log')
  {
    forall seg | seg in net && seg.Length() > 0
      ensures SR.InLog(log', seg)
    {
      var i :| 0 <= i < |log| && log[i].seg == seg;
      assert log'[i].seg == seg;
    }
  }

  lemma FaithfulGrows(a: Assembler, t: seq<Byte>, t': seq<Byte>)
    requires Faithful(a, t) && t <= t'
    ensures Faithful(a, t')
  {
  }

  /** The sender's progress does not disturb the receiver's agreement with it. */
  lemma AgreementSurvives(r: Receiver, s: Sender, s': Sender)
    requires s.stream.Valid() && s'.stream.Valid() && Agrees(r, s) && SR.Progress(s, s')
    requires Accounts(s) && Accounts(s') && |s'.stream.written| <= TWO_63
    ensures Agrees(r, s')
  {
    hide Faithful, Receiver.Valid, Wrap;
    assert SentBytes(s) <= SentBytes(s');
    FaithfulGrows(r.asm, SentBytes(s), SentBytes(s'));
  }

  lemma ApplyFacts(s: Sender, op: SR.Op)
    requires s.Shaped() && !op.Ack?
    ensures SR.Apply(s, op).ackAbs == s.ackAbs
    ensures |SR.Apply(s, op).stream.written| <= |s.stream.written| + (if op.Write? then |op.data| else 0)
  {
    hide Wrap, Unwrap, Sender.FillWindow;
    FillKeepsAck(s);
  }

  lemma {:induction false} FillLoopKeepsAck(s: Sender)
    requires s.Shaped()
    ensures s.FillLoop().ackAbs == s.ackAbs && s.FillLoop().stream.written == s.stream.written
    ensures s.FillLoop().windowSize == s.windowSize && (s.finSent ==> s.FillLoop().finSent)
    decreases |s.stream.Buffered()|
  {
    hide Wrap;
    if |s.stream.Buffered()| > 0 && s.windowSize > s.bytesFlying {
      FillLoopKeepsAck(s.Emit(false, s.SegmentSize(), s.FinRides(s.SegmentSize())));
    }
  }

  lemma FillKeepsAck(s: Sender)
    requires s.Shaped()
    ensures s.FillWindow().ackAbs == s.ackAbs && s.FillWindow().stream.written == s.stream.written
    ensures s.FillWindow().windowSize == s.windowSize && (s.finSent ==> s.FillWindow().finSent)
  {
    hide Wrap, Sender.FillLoop;
    FillLoopKeepsAck(s);
  }

  lemma DrainIsHonest(net: set<Segment>, log: seq<Sent>, queue: seq<Segment>)
    requires HonestNet(net, log) && SR.OnlyCopies(log, queue)
    ensures HonestNet(net + (set seg | seg in queue), log)
  {
    hide SR.InLog;
  }

  lemma GoodAccounts(s: Sender)
    requires SR.Good(s)
    ensures Accounts(s) && s.Shaped() && SR.OnlyCopies(s.log, s.segmentsOut)
  {
  }

  lemma SenderStepKeepsInv(w: World, op: SR.Op)
    requires Inv(w) && Enabled(w, SenderStep(op))
    ensures Inv(Next(w, SenderStep(op)))
  {
    hide SR.Good, SR.Apply, SR.Progress, SR.OnlyCopies, Agrees, HonestNet, Accounts, SR.Allowed, Wrap;
    var s' := SR.Apply(w.s, op);
    SR.StepKeepsGood(w.s, op);
    GoodAccounts(w.s);
    GoodAccounts(s');
    ApplyFacts(w.s, op);
    AgreesBound(w.r, w.s);
    AgreementSurvives(w.r, w.s, s');
    ProgressLog(w.s, s');
    HonestNetGrows(w.net, w.s.log, s'.log);
    if op.Drain? {
      DrainLog(w.s);
      DrainIsHonest(w.net, s'.log, w.s.segmentsOut);
    }
    SafeAcksSurvive(w, Next(w, SenderStep(op)));
    hide SafeAcks;
  }

  lemma SafeAcksSurvive(w: World, w': World)
    requires SafeAcks(w) && w'.acks <= w.acks && w'.s.isn == w.s.isn
    requires w.r.Assembled() <= w'.r.Assembled() && w'.s.ackAbs <= w'.r.Assembled()
    ensures SafeAcks(w')
  {
    hide Wrap, Receiver.Assembled;
    forall a | a in w'.acks
      ensures Acks(w', a)
    {
      assert Acks(w, a);
    }
  }

  lemma AgreesBound(r: Receiver, s: Sender)
    requires s.stream.Valid() && Agrees(r, s)
    ensures |s.stream.written| <= TWO_63 && r.Valid()
  {
  }

  lemma ProgressLog(s: Sender, s': Sender)
    requires SR.Progress(s, s')
    ensures s.log <= s'.log && s'.isn == s.isn
  {
  }

  lemma DrainLog(s: Sender)
    requires s.Shaped()
    ensures SR.Apply(s, SR.Drain).log == s.log
  {
  }

  // Acknowledgments

  lemma EmitAckKeepsInv(w: World)
    requires Inv(w) && Enabled(w, EmitAck)
    ensures Inv(Next(w, EmitAck))
  {
    hide SR.Good, HonestNet, Wrap, Faithful, Assembler.Valid;
    var w' := Next(w, EmitAck);
    forall a | a in w'.acks
      ensures Acks(w', a)
    {
      assert a in w.acks ==> Acks(w, a);
    }
  }

  /** The sender reads a near acknowledgment as the number the receiver meant. */
  lemma AckIsRead(w: World, a: Ack)
    requires w.s.stream.read <= TWO_63 && Acks(w, a) && AckNear(w, a)
    ensures w.s.AckValue(a.ackno) == a.value
  {
    hide Unwrap, Wrap;
    UnwrapOfWrap(a.value, w.s.isn, w.s.stream.read);
  }

  lemma AckAtBound(s: Sender, ack: nat, win: Word16)
    requires s.Shaped() && ack < TWO_64
    ensures s.AckAt(ack, win).ackAbs <= Max(s.ackAbs, ack)
    ensures s.AckAt(ack, win).stream.written == s.stream.written
  {
    hide Sender.FillWindow;
    var w := s.(windowSize := win);
    if w.Accepts(ack) {
      FillKeepsAck(w.Acknowledge(ack));
    }
  }

  lemma DeliverAckKeepsInv(w: World, a: Ack)
    requires Inv(w) && Enabled(w, DeliverAck(a))
    ensures Inv(Next(w, DeliverAck(a)))
  {
    hide SR.Good, HonestNet, Wrap, Unwrap, Faithful, Receiver.Valid, Sender.AckAt, SR.Progress, Sender.AckValue, Accounts, SR.OnlyCopies;
    assert Acks(w, a);
    GoodAccounts(w.s);
    AckIsRead(w, a);
    AckAtBound(w.s, a.value, a.win);
    SR.AckKeepsGood(w.s, a.ackno, a.win);
    var s' := w.s.AckReceived(a.ackno, a.win);
    GoodAccounts(s');
    ProgressLog(w.s, s');
    AgreementSurvives(w.r, w.s, s');
    HonestNetGrows(w.net, w.s.log, s'.log);
    SafeAcksSurvive(w, Next(w, DeliverAck(a)));
    hide SafeAcks;
  }

  // Segments

  lemma PushGrows(a: Assembler, data: seq<Byte>, index: nat, eof: bool)
    requires a.Valid()
    ensures a.out.written <= a.Push(data, index, eof).out.written
  {
    StoreKeepsValid(a, data, index, eof);
    hide Assembler.Valid;
  }

  lemma EmptyPushAnywhere(a: Assembler, i: nat, j: nat, eof: bool)
    requires a.Valid()
    ensures a.Push([], i, eof) == a.Push([], j, eof)
  {
    hide Assembler.Valid, Assembler.Drain;
    StoreKeepsValid(a, [], i, eof);
  }

  lemma PushStaysFaithful(a: Assembler, data: seq<Byte>, index: nat, eof: bool, t: seq<Byte>)
    requires a.Valid() && Faithful(a, t) && (data == [] || PieceOf(data, index, t))
    ensures Faithful(a.Push(data, index, eof), t)
  {
    hide Assembler.Valid, Assembler.Push, Faithful;
    if data == [] {
      EmptyPushAnywhere(a, index, 0, eof);
      PushKeepsFaithful(a, [], 0, eof, t);
    } else {
      PushKeepsFaithful(a, data, index, eof, t);
    }
  }

  /** What a delivered copy of an original transmission tells the receiver is true of the sender's stream. */
  ghost predicate TrueSegment(s: Sender, seg: Segment, index: nat)
    requires s.stream.Valid()
  {
    && s.nextSeqno > 0
    && (seg.payload == [] || PieceOf(seg.payload, index, SentBytes(s)))
    && (seg.header.fin ==> s.finSent && index + |seg.payload| == |s.stream.written|)
  }

  lemma PushStaysOpen(a: Assembler, data: seq<Byte>, index: nat)
    requires a.Valid() && Open(a) && a.Push(data, index, false).Start() != NO_END
    ensures Open(a.Push(data, index, false))
  {
    StoreKeepsValid(a, data, index, false);
    hide Assembler.Valid;
  }

  /** Taking a true segment keeps the agreement, and never lowers what is assembled. */
  lemma TakeKeepsAgreement(r: Receiver, s: Sender, seg: Segment, index: Word64)
    requires s.stream.Valid() && Agrees(r, s) && r.Listens(seg) && r.IsnFor(seg) == s.isn && TrueSegment(s, seg, index)
    ensures var r' := r.Take(seg, index);
            Agrees(r', s) && r.Assembled() <= r'.Assembled()
  {
    hide Assembler.Valid, Assembler.Push, Wrap, Unwrap;
    var eof := r.eof || seg.header.fin;
    PushGrows(r.asm, seg.payload, index, eof);
    PushStaysFaithful(r.asm, seg.payload, index, eof, SentBytes(s));
    FaithfulBound(r.asm.Push(seg.payload, index, eof), SentBytes(s));
    if !eof {
      PushStaysOpen(r.asm, seg.payload, index);
    }
    TakeKeepsValid(r, seg, index);
  }

  /** Every entry of the log tells the truth about the sender's stream. */
  lemma LogIsTrue(s: Sender, i: nat)
    requires SenderInvariants.Inv(s) && i < |s.log|
    ensures s.stream.Valid() && TrueSegment(s, s.log[i].seg, FirstByte(s, i))
  {
    hide SenderInvariants.Inv;
    InvShaped(s);
    LogNonempty(s);
    LogStep(s, i);
    LogPayload(s, i);
    if s.log[i].seg.header.fin {
      LogFin(s, i);
    }
    SliceOfPrefix(s.stream.written, s.stream.read, FirstByte(s, i), s.log[i].seg.payload);
  }

  lemma SliceOfPrefix(w: seq<Byte>, read: nat, index: nat, data: seq<Byte>)
    requires index + |data| <= read <= |w| && data == w[index..index + |data|]
    ensures PieceOf(data, index, w[..read])
  {
  }

  lemma LogNonempty(s: Sender)
    requires SenderInvariants.Inv(s) && s.log != []
    ensures s.nextSeqno > 0
  {
    hide Accounts, Suffix;
    GenuineSizes(s.log, s.isn, s.stream, |s.log| - 1);
  }

  lemma LogFin(s: Sender, i: nat)
    requires SenderInvariants.Inv(s) && i < |s.log| && s.log[i].seg.header.fin
    ensures s.finSent && FirstByte(s, i) + |s.log[i].seg.payload| == |s.stream.written|
  {
    hide Tiles, AllGenuine, Suffix;
    GenuineSizes(s.log, s.isn, s.stream, i);
    LogChain(s.log, s.nextSeqno, i);
    if i + 1 < |s.log| {
      GenuineSizes(s.log, s.isn, s.stream, i + 1);
    }
  }

  /** The receiver reads the sequence number of a near copy as the number the sender meant. */
  lemma IndexIsRead(r: Receiver, t: Sent, isn: Word32, stream: StreamState)
    requires Genuine(t, isn, stream) && r.Listens(t.seg) && (r.syn ==> r.isn == isn)
    requires r.ckpt <= TWO_63 && (t.start == 0 || Abs(t.start - r.ckpt) < TWO_31)
    ensures r.IsnFor(t.seg) == isn
    ensures if t.start == 0 then t.seg.payload == [] && !t.seg.header.fin else r.Index(t.seg) == t.start - 1
  {
    hide Unwrap, Wrap;
    WrapIsMod32(0, isn);
    if t.start > 0 {
      UnwrapOfWrap(t.start, isn, r.ckpt);
    }
  }

  lemma CkptBound(w: World)
    requires Inv(w)
    ensures w.r.ckpt <= w.s.stream.read <= TWO_63
  {
    hide SafeAcks, HonestNet, SR.Good;
    FaithfulBound(w.r.asm, SentBytes(w.s));
  }

  lemma DeliverKeepsInv(w: World, seg: Segment)
    requires Inv(w) && Enabled(w, Deliver(seg))
    ensures Inv(Next(w, Deliver(seg)))
    ensures w.r.Assembled() <= Next(w, Deliver(seg)).r.Assembled()
  {
    hide SR.Good, HonestNet, Agrees, TrueSegment, Receiver.Take, Receiver.Index, Receiver.IsnFor, Receiver.Assembled, SafeAcks, SentNear;
    var i :| SentNear(w, seg, i);
    if w.r.Listens(seg) {
      NearIsTrue(w, seg, i);
      TakeKeepsAgreement(w.r, w.s, seg, w.r.Index(seg));
    }
    AckedBound(w);
    AgreesBound(w.r, w.s);
    SafeAcksSurvive(w, Next(w, Deliver(seg)));
  }

  lemma AckedBound(w: World)
    requires SafeAcks(w)
    ensures w.s.ackAbs <= w.r.Assembled()
  {
  }

  lemma NearIsTrue(w: World, seg: Segment, i: nat)
    requires Inv(w) && SentNear(w, seg, i) && w.r.Listens(seg)
    ensures w.r.IsnFor(seg) == w.s.isn && TrueSegment(w.s, seg, w.r.Index(seg))
  {
    hide SenderInvariants.Inv, SR.Timed, SR.OnlyCopies, HonestNet, Faithful, SafeAcks, Receiver.Index, Receiver.IsnFor,
         Receiver.Valid, Genuine, Receiver.Listens;
    CkptBound(w);
    EntryIsGenuine(w.s, i);
    IndexIsRead(w.r, w.s.log[i], w.s.isn, w.s.stream);
    LogIsTrue(w.s, i);
  }

  lemma EntryIsGenuine(s: Sender, i: nat)
    requires SenderInvariants.Inv(s) && i < |s.log|
    ensures Genuine(s.log[i], s.isn, s.stream)
  {
  }

  lemma ReadKeepsValid(a: Assembler, n: nat)
    requires a.Valid()
    ensures a.out.Valid() && a.Read(n).Valid() && a.Read(n).known == a.known && a.Read(n).out.written == a.out.written
    ensures a.Read(n).cap == a.cap && a.Read(n).out.ended == a.out.ended && a.Read(n).endStream == a.endStream
  {
  }

  lemma ReadKeepsAgreement(r: Receiver, s: Sender, n: nat)
    requires s.stream.Valid() && Agrees(r, s)
    ensures Agrees(r.Read(n), s) && r.Read(n).Assembled() == r.Assembled()
  {
    hide Wrap, Assembler.Valid, Assembler.Read;
    ReadKeepsValid(r.asm, n);
  }

  lemma ReadKeepsInv(w: World, n: nat)
    requires Inv(w)
    ensures Inv(Next(w, Event.Read(n)))
  {
    hide SR.Good, HonestNet, Agrees, Receiver.Assembled, SafeAcks, Assembler.Valid, Receiver.Read;
    AgreesBound(w.r, w.s);
    ReadKeepsValid(w.r.asm, n);
    ReadKeepsAgreement(w.r, w.s, n);
    AckedBound(w);
    SafeAcksSurvive(w, Next(w, Event.Read(n)));
  }

  lemma StepKeepsInv(w: World, e: Event)
    requires Inv(w) && Enabled(w, e)
    ensures Inv(Next(w, e))
  {
    hide Inv, Enabled;
    InvReady(w);
    hide Next;
    match e
    case SenderStep(op) => SenderStepKeepsInv(w, op);
    case Deliver(seg) => DeliverKeepsInv(w, seg);
    case EmitAck => EmitAckKeepsInv(w);
    case DeliverAck(a) => DeliverAckKeepsInv(w, a);
    case Read(n) => ReadKeepsInv(w, n);
  }

  lemma InvReady(w: World)
    requires Inv(w)
    ensures w.s.Shaped() && w.r.Valid() && w.r.asm.cap > 0
  {
  }
}
