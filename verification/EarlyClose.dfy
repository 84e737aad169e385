/**
 * A run of two endpoints in which one closes without a reset and without having received what
 * the other wrote: the FIN of the other overtakes its only byte.
 */
module EarlyClose {
  import opened Words
  import opened WrappingIntegers
  import opened ByteStreams
  import opened Segments
  import opened Assembly
  import opened Rings
  import opened Sending
  import opened SenderCases
  import opened Receiving
  import opened RingReceiving
  import C = Connecting
  import E = Endpoints
  import opened Links
  import opened Duplex
  import opened Pairs
  import opened DuplexRuns

  // What decides the steps at an endpoint whose receiver gets no data

  datatype Recv = Recv(syn: bool, isn: Word32, ack: Word32, ended: bool, eof: bool, len: nat)

  predicate RecvIs(r: Receiver, v: Recv) {
    && r.syn == v.syn && r.isn == v.isn && r.ack == v.ack && r.eof == v.eof && r.lenStream == v.len && r.ckpt == 0 && r.cap == 4
    && r.asm.cap == 4 && r.asm.known == map[] && r.asm.endStream == NO_END
    && r.asm.out == StreamState(4, [], 0, v.ended, false)
  }

  datatype Brief = Brief(core: Core, r: Recv, called: bool, linger: bool, queue: seq<Segment>)

  predicate ConnIs(c: C.Connection, b: Brief) {
    && c.s.Shaped() && CoreOf(c.s) == b.core && b.core.queue == [] && RecvIs(c.r, b.r)
    && c.connectCalled == b.called && c.linger == b.linger && c.segmentsOut == b.queue
    && !c.rstReceived && !c.rstToSend
  }

  ghost predicate EndIs(x: E.Endpoint, b: Brief) {
    x.Holds() && ConnIs(x.c, b)
  }

  /** A segment with acknowledgment and the full window. */
  function With(seg: Segment, ackno: Word32): Segment {
    seg.(header := seg.header.(ack := true, ackno := ackno, win := 4))
  }

  lemma DressedIs(c: C.Connection, b: Brief, seg: Segment)
    requires RecvIs(c.r, b.r) && !c.rstToSend
    ensures c.r.asm.out.Valid() && c.Dressed(seg) == if b.r.syn then With(seg, b.r.ack) else seg
  {
  }

  /** Handing over a queue of one segment. */
  lemma SendsOne(c: C.Connection, b: Brief, core: Core, seg: Segment)
    requires c.s.Shaped() && CoreOf(c.s) == core && core.queue == [seg] && RecvIs(c.r, b.r) && !c.rstToSend && !c.rstReceived
    requires b.core == core.(queue := []) && c.connectCalled == b.called && c.linger == b.linger
    requires b.queue == c.segmentsOut + [if b.r.syn then With(seg, b.r.ack) else seg]
    ensures c.r.asm.out.Valid() && ConnIs(c.SendSegments(), b)
  {
    hide C.Connection.Dressed;
    DressedIs(c, b, seg);
    assert c.DressedAll(c.s.segmentsOut) == [c.Dressed(seg)];
  }

  lemma SendsNone(c: C.Connection, b: Brief)
    requires ConnIs(c, b)
    ensures c.r.asm.out.Valid() && ConnIs(c.SendSegments(), b)
  {
    assert c.DressedAll([]) == [];
  }

  lemma ConnectIs(c: C.Connection, b: Brief)
    requires ConnIs(c, b) && b.core.next == 0 && b.core.stream == StreamState(4, [], 0, false, false)
    ensures c.r.asm.out.Valid()
    ensures var syn := MakeSegment(Wrap(0, b.core.isn), true, false, []);
            ConnIs(c.Connect(), b.(core := b.core.(next := 1, flying := b.core.flying + 1), called := true,
                                   queue := b.queue + [if b.r.syn then With(syn, b.r.ack) else syn]))
  {
    hide Wrap, C.Connection.SendSegments, Sender.FillWindow;
    FillSendsSyn(c.s);
    var syn := MakeSegment(Wrap(0, b.core.isn), true, false, []);
    var core := b.core.(next := 1, flying := b.core.flying + 1, queue := [syn]);
    assert b.core.stream.Buffered()[..0] == [];
    assert Sends(CoreOf(c.s), true, 0, false) == core;
    var b' := b.(core := core.(queue := []), called := true, queue := b.queue + [if b.r.syn then With(syn, b.r.ack) else syn]);
    SendsOne(c.(connectCalled := true, s := c.s.FillWindow()), b', core, syn);
  }

  /** The answer to a segment, once sender and receiver have seen it. */
  lemma ReplyIs(c: C.Connection, b: Brief, seg: Segment)
    requires ConnIs(c, b) && b.called && b.r.syn && !seg.header.rst
    ensures c.r.asm.out.Valid()
    ensures var linger := b.linger && !(seg.header.fin && !b.core.stream.Eof());
            var reply := With(MakeSegment(Wrap(b.core.next, b.core.isn), false, false, []), b.r.ack);
            var needed := seg.Length() > 0 || seg.header.seqno == U32(b.r.ack - 1);
            ConnIs(c.Respond(seg), b.(linger := linger, queue := b.queue + if needed then [reply] else []))
  {
    hide Wrap, C.Connection.SendSegments;
    var plain := MakeSegment(Wrap(b.core.next, b.core.isn), false, false, []);
    var needed := seg.Length() > 0 || seg.header.seqno == U32(b.r.ack - 1);
    var linger := b.linger && !(seg.header.fin && !b.core.stream.Eof());
    var d := c.Reset(seg).Reply(seg);
    assert c.Reset(seg) == c;
    if needed {
      SendsOne(d, b.(linger := linger, queue := b.queue + [With(plain, b.r.ack)]), b.core.(queue := [plain]), plain);
    } else {
      SendsNone(d, b.(linger := linger));
    }
  }

  lemma EmptyPushIs(a: Assembler, index: nat, eof: bool)
    requires a.Valid() && a.known == map[] && a.Start() != a.endStream
    ensures a.Push([], index, eof) == if eof then a.(out := a.out.End()) else a
  {
    StoreKeepsValid(a, [], index, eof);
    var s := a.Store([], index, eof);
    assert s.Ready() == 0;
    assert s.Drain().known == map[];
    assert s.out.written + [] == s.out.written;
  }

  /** A segment without payload at a receiver that got no data. */
  lemma EmptyReceiveIs(x: RingReceiver, v: Recv, seg: Segment, index: Word64)
    requires x.Holds() && RecvIs(x.r, v) && seg.payload == [] && x.r.Listens(seg) && x.r.Index(seg) == index
    ensures var total := if seg.header.fin then index else v.len;
            var isn := if seg.header.syn then seg.header.seqno else v.isn;
            var sticky := v.eof || seg.header.fin;
            RecvIs(x.SegmentReceived(seg).r,
                   Recv(true, isn, Wrap(if total == 0 then 2 else 1, isn), v.ended || sticky || total == 0, sticky, total))
  {
    hide Wrap, Unwrap, RingReceiver.Holds, RingReceiver.SegmentReceived, Assembler.Valid, Assembler.Push;
    ReceiverParts(x);
    ReceiveHolds(x, seg);
    EmptyPushIs(x.r.asm, index, x.r.Sticky(seg));
    var q := x.r.SegmentReceived(seg);
    NoBytes(x.SegmentReceived(seg).r, q);
  }

  lemma NoBytes(r: Receiver, q: Receiver)
    requires Alike(r, q) && q.asm.known == map[] && q.asm.out.written == []
    ensures r == q
  {
    assert r.asm.known.Keys == {};
    assert r.asm.known == map[];
  }

  /** An endpoint that received a segment, given what its sender and its receiver made of it. */
  lemma ReceiveIs(x: E.Endpoint, b: Brief, seg: Segment, core: Core, r: Recv)
    requires EndIs(x, b) && b.called && r.syn && !seg.header.rst && core.queue == []
    requires if seg.header.ack then CoreOf(x.c.s.AckReceived(seg.header.ackno, seg.header.win)) == core else core == b.core
    requires if seg.Length() != 0 then RecvIs(x.Inbound().SegmentReceived(seg).r, r) else r == b.r
    ensures var linger := b.linger && !(seg.header.fin && !core.stream.Eof());
            var reply := With(MakeSegment(Wrap(core.next, core.isn), false, false, []), r.ack);
            var needed := seg.Length() > 0 || seg.header.seqno == U32(r.ack - 1);
            EndIs(E.Next(x, C.Receive(seg)),
                  Brief(core, r, true, linger, b.queue + if needed then [reply] else []))
  {
    hide Wrap, C.Connection.Respond, Sender.AckReceived, RingReceiver.SegmentReceived, RingReceiver.Holds;
    E.AbsorbHolds(x, seg);
    E.NextHolds(x, C.Receive(seg));
    ReplyIs(x.Absorb(seg).c, b.(core := core, r := r), seg);
  }

  /** A new acknowledgment with nothing more to send. */
  lemma NewAckCore(s: Sender, ackno: Word32, win: Word16, v: nat)
    requires s.Shaped() && ackno == Wrap(v, s.isn) && 0 < v < TWO_31 && s.stream.read == 0 && s.stream.written == []
    requires s.ackAbs < v <= s.nextSeqno == s.ackAbs + s.bytesFlying
    requires s.nextSeqno == 1 + (if s.finSent then 1 else 0) && (s.stream.ended ==> s.finSent)
    ensures CoreOf(s.AckReceived(ackno, win)) == Acked(CoreOf(s), v, win)
  {
    hide Wrap, Sender.AckReceived, Sender.AckValue, Sender.Acknowledge;
    SenderCases.AckIsRead(s, ackno, v);
    NewAckIs(s, ackno, win, v);
    var t := s.(windowSize := win).Acknowledge(v);
    if t.MayFill() {
      FillSendsNothing(t);
    }
  }

  lemma OldAckCore(s: Sender, ackno: Word32, win: Word16, v: nat)
    requires s.Shaped() && ackno == Wrap(v, s.isn) && 0 < v <= s.ackAbs < TWO_31 - 9 && s.stream.read < 9
    ensures CoreOf(s.AckReceived(ackno, win)) == CoreOf(s).(win := win)
  {
    hide Wrap, Sender.AckReceived, Sender.AckValue;
    SenderCases.AckIsRead(s, ackno, v);
    OldAckIs(s, ackno, win, v);
  }

  // The two endpoints and their segments

  const OPEN: StreamState := StreamState(4, [], 0, false, false)

  const SYN_A: Segment := MakeSegment(10, true, false, [])
  const SYN_B: Segment := With(MakeSegment(20, true, false, []), 11)
  const ACK_A: Segment := With(MakeSegment(11, false, false, []), 21)
  const BYTE_B: Segment := With(MakeSegment(21, false, false, [7]), 11)
  const FIN_B: Segment := With(MakeSegment(22, false, true, []), 11)
  const FIN_A: Segment := With(MakeSegment(11, false, true, []), 21)
  const LAST_B: Segment := With(MakeSegment(23, false, false, []), 12)

  const A0: Brief := Brief(Core(10, OPEN, 0, 0, 0, 1, false, []), Recv(false, 0, 0, false, false, NO_END), false, true, [])
  const A1: Brief := A0.(core := A0.core.(next := 1, flying := 1), called := true, queue := [SYN_A])
  const A2: Brief := Brief(Core(10, OPEN, 1, 1, 0, 4, false, []), Recv(true, 20, 21, false, false, NO_END), true, true, [ACK_A])
  const A3: Brief := Brief(A2.core, Recv(true, 20, 21, true, true, 1), true, false, [ACK_A])
  const A4: Brief := A3.(core := A3.core.(stream := OPEN.End(), next := 2, flying := 1, fin := true), queue := [ACK_A, FIN_A])
  const A5: Brief := A4.(core := A4.core.(acked := 2, flying := 0), queue := [])

  const B0: Brief := A0.(core := A0.core.(isn := 20))
  const B1: Brief := Brief(Core(20, OPEN, 1, 0, 1, 1, false, []), Recv(true, 10, 11, false, false, NO_END), true, true, [SYN_B])
  const B2: Brief := B1.(core := B1.core.(acked := 1, flying := 0, win := 4), queue := [])
  const B3: Brief := B2.(core := B2.core.(stream := StreamState(4, [7], 1, false, false), next := 2, flying := 1), queue := [BYTE_B])
  const B4: Brief := B3.(core := B3.core.(stream := B3.core.stream.End(), next := 3, flying := 2, fin := true), queue := [BYTE_B, FIN_B])
  const B5: Brief := B4.(r := Recv(true, 10, 12, true, true, 0), queue := [LAST_B])

  lemma Numbers()
    ensures Wrap(0, 10) == 10 && Wrap(1, 10) == 11 && Wrap(2, 10) == 12
    ensures Wrap(0, 20) == 20 && Wrap(1, 20) == 21 && Wrap(2, 20) == 22 && Wrap(3, 20) == 23
  {
    hide Wrap;
    WrapIsMod32(0, 10);
    WrapIsMod32(1, 10);
    WrapIsMod32(2, 10);
    WrapIsMod32(0, 20);
    WrapIsMod32(1, 20);
    WrapIsMod32(2, 20);
    WrapIsMod32(3, 20);
  }

  /** The index of a segment at a receiver that got no data. */
  lemma IndexIs(r: Receiver, seg: Segment, v: nat)
    requires r.ckpt == 0 && seg.header.seqno == Wrap(v, r.IsnFor(seg)) && v < TWO_31 && r.IsnFor(seg) > 0
    requires seg.header.syn ==> v == 0
    requires !seg.header.syn ==> v > 0
    ensures r.Index(seg) == if seg.header.syn then 0 else v - 1
  {
    hide Wrap, Unwrap;
    UnwrapOfWrap(v, r.IsnFor(seg), 0);
  }

  // The steps, endpoint by endpoint

  lemma StepA1(x: E.Endpoint)
    requires EndIs(x, A0)
    ensures EndIs(E.Next(x, C.Connect), A1)
  {
    hide Wrap, C.Connection.Connect, E.Endpoint.Holds;
    Numbers();
    E.NextHolds(x, C.Connect);
    ConnectIs(x.c, A0);
  }

  lemma StepB1(x: E.Endpoint)
    requires EndIs(x, B0)
    ensures EndIs(E.Next(x, C.Receive(SYN_A)), B1)
  {
    hide Wrap, Unwrap, C.Connection.Connect, RingReceiver.Holds, RingReceiver.SegmentReceived, Receiver.Index;
    Numbers();
    IndexIs(x.c.r, SYN_A, 0);
    EmptyReceiveIs(x.Inbound(), B0.r, SYN_A, 0);
    E.AbsorbHolds(x, SYN_A);
    E.NextHolds(x, C.Receive(SYN_A));
    ConnectIs(x.Absorb(SYN_A).c, B0.(r := B1.r));
  }

  lemma StepA2(x: E.Endpoint)
    requires EndIs(x, A1.(queue := []))
    ensures EndIs(E.Next(x, C.Receive(SYN_B)), A2)
  {
    hide Wrap, Unwrap, RingReceiver.Holds, RingReceiver.SegmentReceived, Receiver.Index, E.Next, Sender.AckReceived;
    Numbers();
    NewAckCore(x.c.s, 11, 4, 1);
    IndexIs(x.c.r, SYN_B, 0);
    EmptyReceiveIs(x.Inbound(), A1.r, SYN_B, 0);
    ReceiveIs(x, A1.(queue := []), SYN_B, A2.core, A2.r);
  }

  lemma StepB2(x: E.Endpoint)
    requires EndIs(x, B1.(queue := []))
    ensures EndIs(E.Next(x, C.Receive(ACK_A)), B2)
  {
    hide Wrap, RingReceiver.Holds, E.Next, Sender.AckReceived;
    Numbers();
    NewAckCore(x.c.s, 21, 4, 1);
    ReceiveIs(x, B1.(queue := []), ACK_A, B2.core, B2.r);
  }

  lemma WriteCore(s: Sender)
    requires s.Shaped() && CoreOf(s) == B2.core
    ensures CoreOf(s.Write([7]).FillWindow()) == B3.core.(queue := [MakeSegment(21, false, false, [7])])
  {
    hide Wrap, Sender.FillWindow;
    Numbers();
    var t := s.Write([7]);
    assert t.stream == StreamState(4, [7], 0, false, false);
    assert t.stream.Buffered() == [7];
    FillSendsOne(t, 1);
  }

  lemma StepB3(x: E.Endpoint)
    requires EndIs(x, B2)
    ensures EndIs(E.Next(x, C.Event.Write([7])), B3)
  {
    hide Wrap, E.Endpoint.Holds, Sender.FillWindow, Sender.Write, C.Connection.SendSegments;
    E.NextHolds(x, C.Event.Write([7]));
    WriteCore(x.c.s);
    var s, plain := x.c.s.Write([7]).FillWindow(), MakeSegment(21, false, false, [7]);
    SendsOne(x.c.(s := s), B3, B3.core.(queue := [plain]), plain);
  }

  /** Ending a stream whose bytes are all sent sends the FIN. */
  lemma EndIsFin(x: E.Endpoint, b: Brief)
    requires EndIs(x, b) && b.r.syn && b.core.next > 0 && b.core.stream.Valid() && b.core.stream.read == |b.core.stream.written|
    requires !b.core.fin && b.core.win > b.core.flying
    ensures var fin := MakeSegment(Wrap(b.core.next, b.core.isn), false, true, []);
            EndIs(E.Next(x, C.EndInput),
                  b.(core := b.core.(stream := b.core.stream.End(), next := b.core.next + 1, flying := b.core.flying + 1, fin := true),
                     queue := b.queue + [With(fin, b.r.ack)]))
  {
    hide Wrap, E.Endpoint.Holds, Sender.FillWindow, C.Connection.SendSegments;
    E.NextHolds(x, C.EndInput);
    var s := x.c.s.EndInput();
    FillSendsFin(s);
    var fin := MakeSegment(Wrap(b.core.next, b.core.isn), false, true, []);
    assert s.stream.Buffered()[..0] == [];
    var core := b.core.(stream := b.core.stream.End(), next := b.core.next + 1, flying := b.core.flying + 1, fin := true, queue := [fin]);
    assert Sends(CoreOf(s), false, 0, true) == core;
    SendsOne(x.c.(s := s.FillWindow()), b.(core := core.(queue := []), queue := b.queue + [With(fin, b.r.ack)]), core, fin);
  }

  lemma StepB4(x: E.Endpoint)
    requires EndIs(x, B3)
    ensures EndIs(E.Next(x, C.EndInput), B4)
  {
    hide Wrap, E.Endpoint.Holds, E.Next;
    Numbers();
    EndIsFin(x, B3);
  }

  /** The FIN overtakes the byte: the output is ended, and lingering given up. */
  lemma StepA3(x: E.Endpoint)
    requires EndIs(x, A2.(queue := []))
    ensures EndIs(E.Next(x, C.Receive(FIN_B)), A3)
  {
    hide Wrap, Unwrap, RingReceiver.Holds, RingReceiver.SegmentReceived, Receiver.Index, E.Next, Sender.AckReceived;
    Numbers();
    OldAckCore(x.c.s, 11, 4, 1);
    IndexIs(x.c.r, FIN_B, 2);
    EmptyReceiveIs(x.Inbound(), A2.r, FIN_B, 1);
    ReceiveIs(x, A2.(queue := []), FIN_B, A3.core, A3.r);
  }

  lemma StepA4(x: E.Endpoint)
    requires EndIs(x, A3)
    ensures EndIs(E.Next(x, C.EndInput), A4)
  {
    hide Wrap, E.Endpoint.Holds, E.Next;
    Numbers();
    EndIsFin(x, A3);
  }

  lemma StepB5(x: E.Endpoint)
    requires EndIs(x, B4.(queue := []))
    ensures EndIs(E.Next(x, C.Receive(FIN_A)), B5)
  {
    hide Wrap, Unwrap, RingReceiver.Holds, RingReceiver.SegmentReceived, Receiver.Index, E.Next, Sender.AckReceived;
    Numbers();
    OldAckCore(x.c.s, 21, 4, 1);
    IndexIs(x.c.r, FIN_A, 1);
    EmptyReceiveIs(x.Inbound(), B4.r, FIN_A, 0);
    ReceiveIs(x, B4.(queue := []), FIN_A, B5.core, B5.r);
  }

  lemma StepA5(x: E.Endpoint)
    requires EndIs(x, A4.(queue := []))
    ensures EndIs(E.Next(x, C.Receive(LAST_B)), A5)
  {
    hide Wrap, RingReceiver.Holds, E.Next, Sender.AckReceived;
    Numbers();
    NewAckCore(x.c.s, 12, 4, 2);
    ReceiveIs(x, A4.(queue := []), LAST_B, A5.core, A5.r);
  }

  // The run

  const SETUP_A: Setup := Setup(10, 1000, 4, 4)
  const SETUP_B: Setup := Setup(20, 1000, 4, 4)

  /** A run that has led to these two ends, with these segments transmitted. */
  ghost predicate Reached(ds: seq<Pair>, ms: seq<Move>, a: Brief, b: Brief, fromA: set<Segment>, fromB: set<Segment>) {
    && IsRun(ds, ms, SETUP_A, SETUP_B)
    && var d := ds[|ms|];
       EndIs(d.a.x, a) && EndIs(d.b.x, b) && fromA <= d.a.net && fromB <= d.b.net
  }

  lemma RunGrows(ds: seq<Pair>, ms: seq<Move>, u: Setup, v: Setup, m: Move)
    requires IsRun(ds, ms, u, v) && ds[|ms|].a.x.Holds() && ds[|ms|].b.x.Holds() && CanMoveAt(ds[|ms|], m)
    ensures IsRun(ds + [Pairs.Next(ds[|ms|], m)], ms + [m], u, v)
  {
    hide CanMove, Pairs.Next, E.Endpoint.Holds, Step;
    var ds', ms' := ds + [Pairs.Next(ds[|ms|], m)], ms + [m];
    forall k | 0 <= k < |ms'|
      ensures Step(ds'[k], ms'[k], ds'[k + 1])
    {
      if k < |ms| {
        assert Step(ds[k], ms[k], ds[k + 1]);
      } else {
        StepIs(ds[|ms|], m);
      }
    }
  }

  lemma StepIs(d: Pair, m: Move)
    requires d.a.x.Holds() && d.b.x.Holds() && CanMoveAt(d, m)
    ensures Step(d, m, Pairs.Next(d, m))
  {
  }

  /** The left end moves on. */
  lemma GoesA(ds: seq<Pair>, ms: seq<Move>, a: Brief, b: Brief, fromA: set<Segment>, fromB: set<Segment>, e: C.Event, a': Brief)
    returns (ds': seq<Pair>, ms': seq<Move>)
    requires Reached(ds, ms, a, b, fromA, fromB) && !e.Transmit? && CanMove(ds[|ms|], e)
    requires EndIs(E.Next(ds[|ms|].a.x, e), a')
    ensures Reached(ds', ms', a', b, fromA, fromB)
  {
    hide CanMove, E.Next, ConnIs, E.Endpoint.Holds, Step, Handed;
    RunGrows(ds, ms, SETUP_A, SETUP_B, Move(true, e));
    ds', ms' := ds + [Pairs.Next(ds[|ms|], Move(true, e))], ms + [Move(true, e)];
  }

  lemma GoesB(ds: seq<Pair>, ms: seq<Move>, a: Brief, b: Brief, fromA: set<Segment>, fromB: set<Segment>, e: C.Event, b': Brief)
    returns (ds': seq<Pair>, ms': seq<Move>)
    requires Reached(ds, ms, a, b, fromA, fromB) && !e.Transmit? && CanMove(ds[|ms|].Swapped(), e)
    requires EndIs(E.Next(ds[|ms|].b.x, e), b')
    ensures Reached(ds', ms', a, b', fromA, fromB)
  {
    hide CanMove, E.Next, ConnIs, E.Endpoint.Holds, Step, Handed;
    RunGrows(ds, ms, SETUP_A, SETUP_B, Move(false, e));
    ds', ms' := ds + [Pairs.Next(ds[|ms|], Move(false, e))], ms + [Move(false, e)];
  }

  lemma TransmitIs(x: E.Endpoint, b: Brief)
    requires EndIs(x, b)
    ensures EndIs(E.Next(x, C.Transmit), b.(queue := []))
  {
    hide E.Endpoint.Holds;
    E.NextHolds(x, C.Transmit);
  }

  lemma TransmitsA(ds: seq<Pair>, ms: seq<Move>, a: Brief, b: Brief, fromA: set<Segment>, fromB: set<Segment>)
    returns (ds': seq<Pair>, ms': seq<Move>)
    requires Reached(ds, ms, a, b, fromA, fromB)
    ensures Reached(ds', ms', a.(queue := []), b, fromA + (set seg | seg in a.queue), fromB)
  {
    hide E.Next, E.Endpoint.Holds, Step, Handed;
    TransmitIs(ds[|ms|].a.x, a);
    RunGrows(ds, ms, SETUP_A, SETUP_B, Move(true, C.Transmit));
    ds', ms' := ds + [Pairs.Next(ds[|ms|], Move(true, C.Transmit))], ms + [Move(true, C.Transmit)];
  }

  lemma TransmitsB(ds: seq<Pair>, ms: seq<Move>, a: Brief, b: Brief, fromA: set<Segment>, fromB: set<Segment>)
    returns (ds': seq<Pair>, ms': seq<Move>)
    requires Reached(ds, ms, a, b, fromA, fromB)
    ensures Reached(ds', ms', a, b.(queue := []), fromA, fromB + (set seg | seg in b.queue))
  {
    hide E.Next, E.Endpoint.Holds, Step, Handed;
    TransmitIs(ds[|ms|].b.x, b);
    RunGrows(ds, ms, SETUP_A, SETUP_B, Move(false, C.Transmit));
    ds', ms' := ds + [Pairs.Next(ds[|ms|], Move(false, C.Transmit))], ms + [Move(false, C.Transmit)];
  }

  /** Whatever was transmitted may be delivered. */
  lemma MayDeliver(ds: seq<Pair>, ms: seq<Move>, a: Brief, b: Brief, fromA: set<Segment>, fromB: set<Segment>)
    requires Reached(ds, ms, a, b, fromA, fromB) && |a.core.stream.written| < 9 && |b.core.stream.written| < 9
    ensures forall seg :: seg in fromB ==> CanMove(ds[|ms|], C.Receive(seg))
    ensures forall seg :: seg in fromA ==> CanMove(ds[|ms|].Swapped(), C.Receive(seg))
  {
    hide Step, CanMove, E.Endpoint.Holds;
    forall seg | seg in fromB
      ensures CanMove(ds[|ms|], C.Receive(seg))
    {
      ShortStreamsAreFree(ds, ms, SETUP_A, SETUP_B, |ms|, true, seg);
    }
    forall seg | seg in fromA
      ensures CanMove(ds[|ms|].Swapped(), C.Receive(seg))
    {
      ShortStreamsAreFree(ds, ms, SETUP_A, SETUP_B, |ms|, false, seg);
    }
  }

  lemma NewEnds() returns (ds: seq<Pair>, ms: seq<Move>)
    ensures Reached(ds, ms, A0, B0, {}, {})
  {
    ds, ms := [Pair(Side(NewEnd(SETUP_A), {}, {}), Side(NewEnd(SETUP_B), {}, {}))], [];
    FreshReceiverHolds(4);
  }

  lemma Last(ds: seq<Pair>, ms: seq<Move>, a: Brief, b: Brief, fromA: set<Segment>, fromB: set<Segment>)
    requires Reached(ds, ms, a, b, fromA, fromB)
    ensures |ds| == |ms| + 1 && EndIs(ds[|ms|].a.x, a) && EndIs(ds[|ms|].b.x, b)
  {
  }

  lemma Opened() returns (ds: seq<Pair>, ms: seq<Move>)
    ensures Reached(ds, ms, A1.(queue := []), B1, {SYN_A}, {})
  {
    hide E.Next, E.Endpoint.Holds, Step, Reached, ConnIs, CanMove;
    ds, ms := NewEnds();
    Last(ds, ms, A0, B0, {}, {});
    StepA1(ds[|ms|].a.x);
    AlwaysMoves(ds[|ms|], C.Connect);
    ds, ms := GoesA(ds, ms, A0, B0, {}, {}, C.Connect, A1);
    ds, ms := TransmitsA(ds, ms, A1, B0, {}, {});
    assert {} + (set seg | seg in A1.queue) == {SYN_A};
    MayDeliver(ds, ms, A1.(queue := []), B0, {SYN_A}, {});
    Last(ds, ms, A1.(queue := []), B0, {SYN_A}, {});
    StepB1(ds[|ms|].b.x);
    ds, ms := GoesB(ds, ms, A1.(queue := []), B0, {SYN_A}, {}, C.Receive(SYN_A), B1);
  }

  lemma AlwaysMoves(d: Pair, e: C.Event)
    requires e.Connect? || e.EndInput? || e.Transmit?
    ensures CanMove(d, e)
  {
  }

  lemma Forget(ds: seq<Pair>, ms: seq<Move>, a: Brief, b: Brief, fromA: set<Segment>, fromB: set<Segment>, seg: Segment, left: bool)
    requires Reached(ds, ms, a, b, fromA, fromB)
    requires left ==> seg in fromA
    requires !left ==> seg in fromB
    ensures if left then Reached(ds, ms, a, b, {seg}, {}) else Reached(ds, ms, a, b, {}, {seg})
  {
  }

  /** Both ends are connected. */
  lemma Connected() returns (ds: seq<Pair>, ms: seq<Move>)
    ensures Reached(ds, ms, A2.(queue := []), B2, {ACK_A}, {})
  {
    hide E.Next, E.Endpoint.Holds, Step, Reached, ConnIs, CanMove;
    var a1, a2, b1 := A1.(queue := []), A2.(queue := []), B1.(queue := []);
    ds, ms := Opened();
    ds, ms := TransmitsB(ds, ms, a1, B1, {SYN_A}, {});
    Forget(ds, ms, a1, b1, {SYN_A}, {} + (set seg | seg in B1.queue), SYN_B, false);
    MayDeliver(ds, ms, a1, b1, {}, {SYN_B});
    Last(ds, ms, a1, b1, {}, {SYN_B});
    StepA2(ds[|ms|].a.x);
    ds, ms := GoesA(ds, ms, a1, b1, {}, {SYN_B}, C.Receive(SYN_B), A2);
    ds, ms := TransmitsA(ds, ms, A2, b1, {}, {SYN_B});
    Forget(ds, ms, a2, b1, {} + (set seg | seg in A2.queue), {SYN_B}, ACK_A, true);
    MayDeliver(ds, ms, a2, b1, {ACK_A}, {});
    Last(ds, ms, a2, b1, {ACK_A}, {});
    StepB2(ds[|ms|].b.x);
    ds, ms := GoesB(ds, ms, a2, b1, {ACK_A}, {}, C.Receive(ACK_A), B2);
  }

  /** The right end has sent a byte and its FIN; both are on the network. */
  lemma ByteAndFinSent() returns (ds: seq<Pair>, ms: seq<Move>)
    ensures Reached(ds, ms, A2.(queue := []), B4.(queue := []), {}, {FIN_B})
  {
    hide E.Next, E.Endpoint.Holds, Step, Reached, CanMove;
    var a2 := A2.(queue := []);
    ds, ms := Connected();
    Last(ds, ms, a2, B2, {ACK_A}, {});
    StepB3(ds[|ms|].b.x);
    MayWrite(ds[|ms|].Swapped(), [7]);
    ds, ms := GoesB(ds, ms, a2, B2, {ACK_A}, {}, C.Event.Write([7]), B3);
    Last(ds, ms, a2, B3, {ACK_A}, {});
    StepB4(ds[|ms|].b.x);
    AlwaysMoves(ds[|ms|].Swapped(), C.EndInput);
    ds, ms := GoesB(ds, ms, a2, B3, {ACK_A}, {}, C.EndInput, B4);
    ds, ms := TransmitsB(ds, ms, a2, B4, {ACK_A}, {});
    Forget(ds, ms, a2, B4.(queue := []), {ACK_A}, {} + (set seg | seg in B4.queue), FIN_B, false);
  }

  lemma MayWrite(d: Pair, data: seq<Byte>)
    requires !d.a.x.c.s.stream.ended && |d.a.x.c.s.stream.written| + |data| <= TWO_63
    ensures CanMove(d, C.Event.Write(data))
  {
  }

  /** The left end gets the FIN alone, and closes its own stream. */
  lemma BothClosing() returns (ds: seq<Pair>, ms: seq<Move>)
    ensures Reached(ds, ms, A4.(queue := []), B5, {FIN_A}, {})
  {
    hide E.Next, E.Endpoint.Holds, Step, Reached, ConnIs, CanMove;
    var a2, a4, b4 := A2.(queue := []), A4.(queue := []), B4.(queue := []);
    ds, ms := ByteAndFinSent();
    MayDeliver(ds, ms, a2, b4, {}, {FIN_B});
    Last(ds, ms, a2, b4, {}, {FIN_B});
    StepA3(ds[|ms|].a.x);
    ds, ms := GoesA(ds, ms, a2, b4, {}, {FIN_B}, C.Receive(FIN_B), A3);
    Last(ds, ms, A3, b4, {}, {FIN_B});
    StepA4(ds[|ms|].a.x);
    AlwaysMoves(ds[|ms|], C.EndInput);
    ds, ms := GoesA(ds, ms, A3, b4, {}, {FIN_B}, C.EndInput, A4);
    ds, ms := TransmitsA(ds, ms, A4, b4, {}, {FIN_B});
    Forget(ds, ms, a4, b4, {} + (set seg | seg in A4.queue), {FIN_B}, FIN_A, true);
    MayDeliver(ds, ms, a4, b4, {FIN_A}, {});
    Last(ds, ms, a4, b4, {FIN_A}, {});
    StepB5(ds[|ms|].b.x);
    ds, ms := GoesB(ds, ms, a4, b4, {FIN_A}, {}, C.Receive(FIN_A), B5);
  }

  /**
   * There is a run in which an endpoint becomes inactive without a reset, its output ended and
   * empty, although the other end wrote a byte.
   */
  lemma ClosesWithoutTheByte() returns (ds: seq<Pair>, ms: seq<Move>)
    ensures IsRun(ds, ms, SETUP_A, SETUP_B)
    ensures var d := ds[|ms|];
            && !d.a.x.c.Active() && !d.a.x.c.rstReceived && !d.a.x.c.rstToSend
            && d.a.x.c.r.asm.out.ended && d.a.x.c.r.asm.out.written == [] && d.b.x.c.s.stream.written == [7]
  {
    hide E.Next, E.Endpoint.Holds, Step, CanMove;
    var a4, b5 := A4.(queue := []), B5.(queue := []);
    ds, ms := BothClosing();
    ds, ms := TransmitsB(ds, ms, a4, B5, {FIN_A}, {});
    Forget(ds, ms, a4, b5, {FIN_A}, {} + (set seg | seg in B5.queue), LAST_B, false);
    MayDeliver(ds, ms, a4, b5, {}, {LAST_B});
    Last(ds, ms, a4, b5, {}, {LAST_B});
    StepA5(ds[|ms|].a.x);
    ds, ms := GoesA(ds, ms, a4, b5, {}, {LAST_B}, C.Receive(LAST_B), A5);
  }
}
