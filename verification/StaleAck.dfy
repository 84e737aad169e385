/**
 * A run of one sender and one receiver, a ring of three slots: a stale acknowledgment reopens
 * the window, a segment is cut while it straddles the ring end, and the output goes wrong.
 */
module StaleAck {
  import opened Words
  import opened WrappingIntegers
  import opened ByteStreams
  import opened Segments
  import opened Assembly
  import opened Ring
  import opened Rings
  import opened RingFaults
  import opened Sending
  import opened SenderCases
  import SR = SenderRuns
  import opened Receiving
  import opened RingReceiving
  import P = Protocol
  import PF = ProtocolFacts
  import FA = FreshAcks
  import opened ProtocolRuns

  // What decides the steps

  datatype Recv = Recv(syn: bool, ack: Word32, out: StreamState, m: Slots)

  ghost predicate RecvIs(x: RingReceiver, v: Recv) {
    && x.Holds() && x.m == v.m && x.r.syn == v.syn && x.r.ack == v.ack && (v.syn ==> x.r.isn == 10)
    && !x.r.eof && x.r.lenStream == NO_END && x.r.cap == 3 && x.r.ckpt == |v.out.written|
    && x.r.asm.cap == 3 && x.r.asm.endStream == NO_END && x.r.asm.out == v.out && v.out.cap == 3
  }

  /** A push into the ring, for given slots after the copy and given ends of the scans. */
  lemma PushIs(x: Ringed, data: seq<Byte>, index: nat, m: Slots, p: nat, end1: nat, end2: nat)
    requires x.Holds() && data != [] && x.a.Touches(index, |data|) && x.a.endStream == NO_END
    requires x.a.cap == |x.m.empty| <= |x.m.aux|
    requires m == CopiedSlots(x.m, data, index, Max(x.a.Start(), index), Min(x.a.WindowEnd(), index + |data|))
    requires p == Slot(x.a.Start(), x.a.cap) && Scanned(m.empty, p, end1, end2) && |m.aux| >= x.a.cap
    requires x.a.WindowEnd() < NO_END
    ensures x.a.out.Valid() && p <= end1 <= |m.aux| && end2 <= |m.aux|
    ensures var y := x.Push(data, index, false);
            && y.a.out == x.a.out.Write(m.aux[p..end1] + m.aux[..end2]) && y.a.endStream == NO_END && y.a.cap == x.a.cap
            && y.m == Slots(m.aux, EmptiedSlots(m.empty, p, Min(x.a.out.Room(), end1 - p), end1 == x.a.cap))
  {
    hide Ringed.Holds, Ringed.Store, Ringed.Drain, CopiedSlots, Slot, Scanned, EmptiedSlots;
    HoldsParts(x);
    StoreHolds(x, data, index, false);
    StoreCopies(x, data, index);
    DrainWrites(x.Store(data, index, false), p, end1, end2);
  }

  /** A push without payload into a ring that holds nothing changes nothing. */
  lemma EmptyPushIs(x: Ringed)
    requires x.Holds() && x.a.endStream == NO_END && x.a.WindowEnd() < NO_END && forall k :: 0 <= k < |x.m.empty| ==> x.m.empty[k]
    ensures forall index :: x.Push([], index, false).a.out == x.a.out && x.Push([], index, false).m == x.m
    ensures forall index :: x.Push([], index, false).a.endStream == NO_END && x.Push([], index, false).a.cap == x.a.cap
  {
    hide Ringed.Holds, Ringed.Drain;
    HoldsParts(x);
    var p := Slot(x.a.Start(), x.a.cap);
    DrainWrites(x, p, p, 0);
    WriteNothing(x.a.out);
    assert x.m.aux[p..p] + x.m.aux[..0] == [];
    assert EmptiedSlots(x.m.empty, p, 0, p == x.a.cap) == x.m.empty;
  }

  /** A segment without flags, at the receiver past the handshake. */
  lemma DataReceiveIs(x: RingReceiver, v: Recv, seg: Segment, out: StreamState, m: Slots)
    requires RecvIs(x, v) && v.syn && !seg.header.syn && !seg.header.fin
    requires x.r.Index(seg) < TWO_31
    requires var y := x.Buffer().Push(seg.payload, x.r.Index(seg), false);
             y.a.out == out && y.m == m && y.a.endStream == NO_END && y.a.cap == 3
    requires out.cap == 3 && |out.written| < TWO_31
    ensures RecvIs(x.SegmentReceived(seg), Recv(true, Wrap(|out.written| + 1, 10), out, m))
  {
    hide Wrap, Unwrap, Ringed.Push, RingReceiver.Holds;
    BufferHolds(x);
    ReceiveHolds(x, seg);
  }

  lemma IndexIs(x: RingReceiver, v: Recv, seg: Segment, n: nat)
    requires RecvIs(x, v) && v.syn && !seg.header.syn && seg.header.seqno == Wrap(n + 1, 10) && n < 9 && |v.out.written| < 9
    ensures x.r.Index(seg) == n
  {
    hide Wrap, Unwrap, RingReceiver.Holds;
    UnwrapOfWrap(n + 1, 10, |v.out.written|);
  }

  // The slots along the run

  const BLANK: Slots := Slots([32, 32, 32], [true, true, true])

  lemma Copy1()
    ensures CopiedSlots(BLANK, [0, 1, 2], 0, 0, 3) == Slots([0, 1, 2], [false, false, false])
  {
    var m := CopiedSlots(BLANK, [0, 1, 2], 0, 0, 3);
    assert m.aux == [0, 1, 2];
    assert m.empty == [false, false, false];
  }

  lemma Copy2()
    ensures CopiedSlots(Slots([0, 1, 2], [true, true, true]), [3], 3, 3, 4) == Slots([3, 1, 2], [false, true, true])
  {
    var m := CopiedSlots(Slots([0, 1, 2], [true, true, true]), [3], 3, 3, 4);
    assert m.aux == [3, 1, 2];
    assert m.empty == [false, true, true];
  }

  lemma Copy3()
    ensures CopiedSlots(Slots([3, 1, 2], [true, true, true]), [4, 5, 6], 4, 4, 7) == Slots([6, 4, 5], [false, false, false])
  {
    var m := CopiedSlots(Slots([3, 1, 2], [true, true, true]), [4, 5, 6], 4, 4, 7);
    assert Substr([4, 5, 6], 0, 2) == [4, 5] && Substr([4, 5, 6], 2, 3) == [6];
    assert Replace([3, 1, 2], 1, 2, [4, 5]) == [3, 4, 5];
    assert Replace([3, 4, 5], 0, 1, [6]) == [6, 4, 5];
    assert m.aux == [6, 4, 5];
    assert m.empty == [false, false, false];
  }

  /** The repeated segment is cut at 5 and straddles 6: the ring string grows, and byte 4 slips back. */
  lemma Copy4()
    ensures CopiedSlots(Slots([6, 4, 5], [true, true, false]), [4, 5, 6], 4, 5, 7) == Slots([5, 6, 4, 5], [false, true, false])
  {
    var m := CopiedSlots(Slots([6, 4, 5], [true, true, false]), [4, 5, 6], 4, 5, 7);
    assert Substr([4, 5, 6], 1, 1) == [5] && Substr([4, 5, 6], 1, 2) == [5, 6];
    assert Replace([6, 4, 5], 2, 1, [5]) == [6, 4, 5];
    assert Replace([6, 4, 5], 0, 1, [5, 6]) == [5, 6, 4, 5];
    assert m.aux == [5, 6, 4, 5];
    assert m.empty == [false, true, false];
  }

  // The receiver along the run

  function Out(written: seq<Byte>, read: nat): StreamState {
    StreamState(3, written, read, false, false)
  }

  const V0: Recv := Recv(false, 0, Out([], 0), BLANK)
  const V1: Recv := Recv(true, 11, Out([], 0), BLANK)
  const V2: Recv := Recv(true, 14, Out([0, 1, 2], 0), Slots([0, 1, 2], [true, true, true]))
  const V3: Recv := Recv(true, 15, Out([0, 1, 2, 3], 2), Slots([3, 1, 2], [true, true, true]))
  const V4: Recv := Recv(true, 16, Out([0, 1, 2, 3, 4], 2), Slots([6, 4, 5], [true, true, false]))
  const V5: Recv := Recv(true, 18, Out([0, 1, 2, 3, 4, 4, 5], 4), Slots([5, 6, 4, 5], [true, true, true]))

  const SYN: Segment := MakeSegment(10, true, false, [])
  const D1: Segment := MakeSegment(11, false, false, [0, 1, 2])
  const D2: Segment := MakeSegment(14, false, false, [3])
  const D3: Segment := MakeSegment(15, false, false, [4, 5, 6])

  lemma Numbers()
    ensures Wrap(0, 10) == 10 && Wrap(1, 10) == 11 && Wrap(4, 10) == 14 && Wrap(5, 10) == 15
    ensures Wrap(6, 10) == 16 && Wrap(8, 10) == 18
  {
    hide Wrap;
    WrapIsMod32(0, 10);
    WrapIsMod32(1, 10);
    WrapIsMod32(4, 10);
    WrapIsMod32(5, 10);
    WrapIsMod32(6, 10);
    WrapIsMod32(8, 10);
  }

  lemma TakesSyn(x: RingReceiver)
    requires RecvIs(x, V0)
    ensures RecvIs(x.SegmentReceived(SYN), V1)
  {
    hide Wrap, Unwrap, Ringed.Push, RingReceiver.Holds;
    Numbers();
    BufferHolds(x);
    ReceiveHolds(x, SYN);
    EmptyPushIs(x.Buffer());
  }

  lemma Takes1(x: RingReceiver)
    requires RecvIs(x, V1)
    ensures RecvIs(x.SegmentReceived(D1), V2)
  {
    hide Wrap, Receiver.Index, Ringed.Push, RingReceiver.Holds, RingReceiver.SegmentReceived, CopiedSlots, Slot;
    Numbers();
    BufferHolds(x);
    IndexIs(x, V1, D1, 0);
    Copy1();
    SlotsAt();
    var m := Slots([0, 1, 2], [false, false, false]);
    PushIs(x.Buffer(), [0, 1, 2], 0, m, 0, 3, 0);
    assert m.aux[0..3] + m.aux[..0] == [0, 1, 2];
    assert EmptiedSlots(m.empty, 0, 3, true) == [true, true, true];
    DataReceiveIs(x, V1, D1, V2.out, V2.m);
  }

  lemma SlotsAt()
    ensures Slot(0, 3) == 0 && Slot(3, 3) == 0 && Slot(4, 3) == 1 && Slot(5, 3) == 2
  {
  }

  lemma Takes2(x: RingReceiver)
    requires RecvIs(x, V2.(out := Out([0, 1, 2], 2)))
    ensures RecvIs(x.SegmentReceived(D2), V3)
  {
    hide Wrap, Receiver.Index, Ringed.Push, RingReceiver.Holds, RingReceiver.SegmentReceived, CopiedSlots, Slot;
    Numbers();
    BufferHolds(x);
    IndexIs(x, V2.(out := Out([0, 1, 2], 2)), D2, 3);
    Copy2();
    SlotsAt();
    var m := Slots([3, 1, 2], [false, true, true]);
    PushIs(x.Buffer(), [3], 3, m, 0, 1, 0);
    assert m.aux[0..1] + m.aux[..0] == [3];
    assert EmptiedSlots(m.empty, 0, 1, false) == [true, true, true];
    DataReceiveIs(x, V2.(out := Out([0, 1, 2], 2)), D2, V3.out, V3.m);
  }

  lemma Takes3(x: RingReceiver)
    requires RecvIs(x, V3)
    ensures RecvIs(x.SegmentReceived(D3), V4)
  {
    hide Wrap, Receiver.Index, Ringed.Push, RingReceiver.Holds, RingReceiver.SegmentReceived, CopiedSlots, Slot;
    Numbers();
    BufferHolds(x);
    IndexIs(x, V3, D3, 4);
    Copy3();
    SlotsAt();
    var m := Slots([6, 4, 5], [false, false, false]);
    PushIs(x.Buffer(), [4, 5, 6], 4, m, 1, 3, 1);
    assert m.aux[1..3] + m.aux[..1] == [4, 5, 6];
    assert EmptiedSlots(m.empty, 1, 1, true) == [true, true, false];
    DataReceiveIs(x, V3, D3, V4.out, V4.m);
  }

  lemma Takes4(x: RingReceiver)
    requires RecvIs(x, V4.(out := Out([0, 1, 2, 3, 4], 4)))
    ensures RecvIs(x.SegmentReceived(D3), V5)
  {
    hide Wrap, Receiver.Index, Ringed.Push, RingReceiver.Holds, RingReceiver.SegmentReceived, CopiedSlots, Slot;
    Numbers();
    BufferHolds(x);
    IndexIs(x, V4.(out := Out([0, 1, 2, 3, 4], 4)), D3, 4);
    Copy4();
    SlotsAt();
    var m := Slots([5, 6, 4, 5], [false, true, false]);
    PushIs(x.Buffer(), [4, 5, 6], 4, m, 2, 3, 1);
    assert m.aux[2..3] + m.aux[..1] == [4, 5];
    assert EmptiedSlots(m.empty, 2, 1, true) == [true, true, true];
    DataReceiveIs(x, V4.(out := Out([0, 1, 2, 3, 4], 4)), D3, V5.out, V5.m);
  }

  // The sender along the run

  function In(written: seq<Byte>, read: nat): StreamState {
    StreamState(8, written, read, false, false)
  }

  const C1: Core := Core(10, In([0, 1, 2, 3], 0), 0, 0, 0, 1, false, [])
  const C2: Core := C1.(next := 1, flying := 1, queue := [SYN])
  const C3: Core := Core(10, In([0, 1, 2, 3], 3), 4, 1, 3, 3, false, [D1])
  const C4: Core := Core(10, In([0, 1, 2, 3], 4), 5, 4, 1, 2, false, [D2])
  const C5: Core := Core(10, In([0, 1, 2, 3], 4), 5, 5, 0, 1, false, [])
  const C7: Core := Core(10, In([0, 1, 2, 3, 4, 5, 6], 4), 5, 5, 0, 3, false, [])
  const C8: Core := Core(10, In([0, 1, 2, 3, 4, 5, 6], 7), 8, 5, 3, 3, false, [D3])

  lemma Sends2(s: Sender)
    requires s.Shaped() && CoreOf(s) == C1
    ensures CoreOf(s.FillWindow()) == C2
  {
    hide Wrap, Sender.FillWindow;
    Numbers();
    FillSendsSyn(s);
    assert C1.stream.Buffered()[..0] == [];
  }

  /** A new acknowledgment, after which one segment goes out. */
  lemma AckSends(s: Sender, ackno: Word32, win: Word16, v: nat, n: nat)
    requires s.Shaped() && ackno == Wrap(v, s.isn) && 0 < v < 9 && s.stream.read < 9 && !s.stream.ended && !s.finSent
    requires s.ackAbs < v <= s.nextSeqno == s.ackAbs + s.bytesFlying && s.nextSeqno == 1 + s.stream.read
    requires var c := Acked(CoreOf(s), v, win);
             win > c.flying && n == Min(|s.stream.Buffered()|, win - c.flying) <= 1000
    ensures CoreOf(s.AckReceived(ackno, win))
            == if n == 0 then Acked(CoreOf(s), v, win) else Sends(Acked(CoreOf(s), v, win), false, n, false)
  {
    hide Wrap, Sender.AckReceived, Sender.AckValue, Sender.Acknowledge, Sender.FillWindow, Sends;
    SenderCases.AckIsRead(s, ackno, v);
    NewAckIs(s, ackno, win, v);
    var t := s.(windowSize := win).Acknowledge(v);
    if n == 0 {
      FillSendsNothing(t);
    } else {
      FillSendsOne(t, n);
    }
  }

  lemma Sends3(s: Sender)
    requires s.Shaped() && CoreOf(s) == C2.(queue := [])
    ensures CoreOf(s.AckReceived(11, 3)) == C3
  {
    hide Wrap, Sender.AckReceived;
    Numbers();
    assert C2.stream.Buffered()[..3] == [0, 1, 2];
    AckSends(s, 11, 3, 1, 3);
  }

  lemma Sends4(s: Sender)
    requires s.Shaped() && CoreOf(s) == C3.(queue := [])
    ensures CoreOf(s.AckReceived(14, 2)) == C4 && s.AckValue(14) == 4
  {
    hide Wrap, Sender.AckReceived, Sender.AckValue;
    Numbers();
    SenderCases.AckIsRead(s, 14, 4);
    assert C3.stream.Buffered()[..1] == [3];
    AckSends(s, 14, 2, 4, 1);
  }

  lemma Sends5(s: Sender)
    requires s.Shaped() && CoreOf(s) == C4.(queue := [])
    ensures CoreOf(s.AckReceived(15, 1)) == C5 && s.AckValue(15) == 5
  {
    hide Wrap, Sender.AckReceived, Sender.AckValue;
    Numbers();
    SenderCases.AckIsRead(s, 15, 5);
    AckSends(s, 15, 1, 5, 0);
  }

  /** The stale acknowledgment reopens the window. */
  lemma Sends6(s: Sender)
    requires s.Shaped() && CoreOf(s) == C5
    ensures CoreOf(s.AckReceived(11, 3)) == C5.(win := 3) && s.AckValue(11) == 1
  {
    hide Wrap, Sender.AckReceived, Sender.AckValue;
    Numbers();
    SenderCases.AckIsRead(s, 11, 1);
    OldAckIs(s, 11, 3, 1);
  }

  lemma Sends8(s: Sender)
    requires s.Shaped() && CoreOf(s) == C7
    ensures CoreOf(s.FillWindow()) == C8
  {
    hide Wrap, Sender.FillWindow;
    Numbers();
    assert C7.stream.Buffered() == [4, 5, 6];
    FillSendsOne(s, 3);
    assert C7.stream.Buffered()[..3] == [4, 5, 6];
  }

  // The run

  ghost predicate StateIs(x: RingWorld, core: Core, v: Recv, net: set<Segment>, acks: set<P.Ack>) {
    && x.w.s.Shaped() && CoreOf(x.w.s) == core && RecvIs(x.Inbound(), v)
    && net <= x.w.net && acks <= x.w.acks
  }

  /** A run that has led to such a state, with no stale acknowledgment but perhaps in event `odd`. */
  ghost predicate Reached(xs: seq<RingWorld>, es: seq<P.Event>, core: Core, v: Recv, net: set<Segment>, acks: set<P.Ack>, odd: int) {
    && IsRun(xs, es, 10, 1000, 8, 3)
    && StateIs(xs[|es|], core, v, net, acks)
    && forall j :: 0 <= j < |es| && j != odd ==> FreshAt(xs, es, j)
  }

  lemma RunGrows(xs: seq<RingWorld>, es: seq<P.Event>, e: P.Event)
    requires IsRun(xs, es, 10, 1000, 8, 3) && xs[|es|].Holds() && P.Enabled(xs[|es|].w, e)
    ensures IsRun(xs + [Next(xs[|es|], e)], es + [e], 10, 1000, 8, 3)
  {
    hide P.Enabled, Next, RingWorld.Holds, Step;
    var xs', es' := xs + [Next(xs[|es|], e)], es + [e];
    forall k | 0 <= k < |es'|
      ensures Step(xs'[k], es'[k], xs'[k + 1])
    {
      if k < |es| {
        assert Step(xs[k], es[k], xs[k + 1]);
      } else {
        StepIs(xs[|es|], e);
      }
    }
  }

  lemma StepIs(x: RingWorld, e: P.Event)
    requires x.Holds() && P.Enabled(x.w, e)
    ensures Step(x, e, Next(x, e))
  {
  }

  lemma Goes(xs: seq<RingWorld>, es: seq<P.Event>, core: Core, v: Recv, net: set<Segment>, acks: set<P.Ack>, odd: int, e: P.Event,
             core': Core, v': Recv, net': set<Segment>, acks': set<P.Ack>, odd': int)
    returns (xs': seq<RingWorld>, es': seq<P.Event>)
    requires Reached(xs, es, core, v, net, acks, odd) && xs[|es|].Holds() && P.Enabled(xs[|es|].w, e)
    requires StateIs(Next(xs[|es|], e), core', v', net', acks')
    requires if FA.NotStale(xs[|es|].w, e) then odd' == odd else odd == -1 && odd' == |es|
    ensures Reached(xs', es', core', v', net', acks', odd') && es' == es + [e] && xs' == xs + [Next(xs[|es|], e)]
  {
    hide P.Enabled, Next, RingWorld.Holds, Step, StateIs, FA.NotStale;
    RunGrows(xs, es, e);
    xs', es' := xs + [Next(xs[|es|], e)], es + [e];
    forall j | 0 <= j < |es'| && j != odd'
      ensures FreshAt(xs', es', j)
    {
      if j < |es| {
        assert FreshAt(xs, es, j);
      }
    }
  }

  lemma Last(xs: seq<RingWorld>, es: seq<P.Event>, core: Core, v: Recv, net: set<Segment>, acks: set<P.Ack>, odd: int)
    requires Reached(xs, es, core, v, net, acks, odd)
    ensures |xs| == |es| + 1 && StateIs(xs[|es|], core, v, net, acks) && xs[|es|].Holds()
  {
    hide Step, RingReceiver.Holds;
  }

  // Events of the sender

  lemma SenderGoes(xs: seq<RingWorld>, es: seq<P.Event>, core: Core, v: Recv, net: set<Segment>, acks: set<P.Ack>, odd: int, op: SR.Op,
                   core': Core)
    returns (xs': seq<RingWorld>, es': seq<P.Event>)
    requires Reached(xs, es, core, v, net, acks, odd) && xs[|es|].w.s.Shaped()
    requires !op.Ack? && !op.Drain? && !core.stream.ended
    requires op.Write? ==> |core.stream.written| + |op.data| < 9
    requires CoreOf(SR.Apply(xs[|es|].w.s, op)) == core'
    ensures Reached(xs', es', core', v, net, acks, odd) && |es'| == |es| + 1
  {
    hide Step, RingReceiver.Holds, SR.Apply, Reached;
    Last(xs, es, core, v, net, acks, odd);
    xs', es' := Goes(xs, es, core, v, net, acks, odd, P.SenderStep(op), core', v, net, acks, odd);
  }

  lemma Drains(xs: seq<RingWorld>, es: seq<P.Event>, core: Core, v: Recv, net: set<Segment>, acks: set<P.Ack>, odd: int)
    returns (xs': seq<RingWorld>, es': seq<P.Event>)
    requires Reached(xs, es, core, v, net, acks, odd)
    ensures Reached(xs', es', core.(queue := []), v, net + (set seg | seg in core.queue), acks, odd) && |es'| == |es| + 1
  {
    hide Step, RingReceiver.Holds, Reached;
    Last(xs, es, core, v, net, acks, odd);
    var net' := net + (set seg | seg in core.queue);
    xs', es' := Goes(xs, es, core, v, net, acks, odd, P.SenderStep(SR.Drain), core.(queue := []), v, net', acks, odd);
  }

  /** An acknowledgment reaches the sender. */
  lemma AckGoes(xs: seq<RingWorld>, es: seq<P.Event>, core: Core, v: Recv, net: set<Segment>, acks: set<P.Ack>, odd: int, a: P.Ack,
                core': Core, odd': int)
    returns (xs': seq<RingWorld>, es': seq<P.Event>)
    requires Reached(xs, es, core, v, net, acks, odd) && a in acks && a.value < 9 && core.stream.read < 9 && xs[|es|].w.s.Shaped()
    requires CoreOf(xs[|es|].w.s.AckReceived(a.ackno, a.win)) == core'
    requires if xs[|es|].w.s.ackAbs <= xs[|es|].w.s.AckValue(a.ackno) then odd' == odd else odd == -1 && odd' == |es|
    ensures Reached(xs', es', core', v, net, acks, odd') && |es'| == |es| + 1
  {
    hide Step, RingReceiver.Holds, Reached, Sender.AckReceived, Sender.AckValue;
    Last(xs, es, core, v, net, acks, odd);
    xs', es' := Goes(xs, es, core, v, net, acks, odd, P.DeliverAck(a), core', v, net, acks, odd');
  }

  // Events of the receiver

  lemma ReadGoes(xs: seq<RingWorld>, es: seq<P.Event>, core: Core, v: Recv, net: set<Segment>, acks: set<P.Ack>, odd: int, n: nat)
    returns (xs': seq<RingWorld>, es': seq<P.Event>)
    requires Reached(xs, es, core, v, net, acks, odd) && v.out.Valid()
    ensures Reached(xs', es', core, v.(out := v.out.Pop(n)), net, acks, odd) && |es'| == |es| + 1
  {
    hide Step, Reached;
    Last(xs, es, core, v, net, acks, odd);
    hide RingReceiver.Holds;
    NextHolds(xs[|es|], P.Event.Read(n));
    xs', es' := Goes(xs, es, core, v, net, acks, odd, P.Event.Read(n), core, v.(out := v.out.Pop(n)), net, acks, odd);
  }

  lemma EmitGoes(xs: seq<RingWorld>, es: seq<P.Event>, core: Core, v: Recv, net: set<Segment>, acks: set<P.Ack>, odd: int)
    returns (xs': seq<RingWorld>, es': seq<P.Event>)
    requires Reached(xs, es, core, v, net, acks, odd) && v.syn && v.out.Valid() && |v.out.written| < 9
    ensures Reached(xs', es', core, v, net, acks + {P.Ack(v.ack, v.out.Room(), |v.out.written| + 1)}, odd) && |es'| == |es| + 1
  {
    hide Step, Reached, RingReceiver.Holds;
    Last(xs, es, core, v, net, acks, odd);
    var a := P.Ack(v.ack, v.out.Room(), |v.out.written| + 1);
    assert P.AckOf(xs[|es|].w.r) == a;
    xs', es' := Goes(xs, es, core, v, net, acks, odd, P.EmitAck, core, v, net, acks + {a}, odd);
  }

  /** Whatever is on the network may be delivered. */
  lemma MayDeliver(xs: seq<RingWorld>, es: seq<P.Event>, core: Core, v: Recv, net: set<Segment>, acks: set<P.Ack>, odd: int, seg: Segment)
    requires Reached(xs, es, core, v, net, acks, odd) && seg in net && seg.Length() > 0 && |core.stream.written| < 9
    ensures P.Enabled(xs[|es|].w, P.Deliver(seg))
  {
    hide Step, RingReceiver.Holds, P.Inv, FA.FreshInv, AllFit, AllFresh;
    var w := EveryRunFollows(xs, es, 10, 1000, 8, 3, |es|);
    PF.ShortStreamIsNear(w, seg, P.Ack(0, 0, 0));
    var i :| P.SentNear(w, seg, i);
    assert P.SentNear(xs[|es|].w, seg, i);
  }

  lemma DeliverGoes(xs: seq<RingWorld>, es: seq<P.Event>, core: Core, v: Recv, net: set<Segment>, acks: set<P.Ack>, odd: int, seg: Segment,
                    v': Recv)
    returns (xs': seq<RingWorld>, es': seq<P.Event>)
    requires Reached(xs, es, core, v, net, acks, odd) && seg in net && seg.Length() > 0 && |core.stream.written| < 9
    requires xs[|es|].Holds() && RecvIs(xs[|es|].Inbound().SegmentReceived(seg), v')
    ensures Reached(xs', es', core, v', net, acks, odd) && es' == es + [P.Deliver(seg)] && xs' == xs + [Next(xs[|es|], P.Deliver(seg))]
  {
    hide Step, Reached, RingReceiver.Holds, RingReceiver.SegmentReceived, P.Enabled;
    Last(xs, es, core, v, net, acks, odd);
    MayDeliver(xs, es, core, v, net, acks, odd, seg);
    xs', es' := Goes(xs, es, core, v, net, acks, odd, P.Deliver(seg), core, v', net, acks, odd);
  }

  const ACK1: P.Ack := P.Ack(11, 3, 1)
  const ACK2: P.Ack := P.Ack(14, 2, 4)
  const ACK3: P.Ack := P.Ack(15, 1, 5)

  lemma Begin() returns (xs: seq<RingWorld>, es: seq<P.Event>)
    ensures Reached(xs, es, C1.(stream := In([], 0)), V0, {}, {}, -1) && es == []
  {
    xs, es := [Start(10, 1000, 8, 3)], [];
    FreshReceiverHolds(3);
    assert FreshReceiver(3).m == BLANK;
  }

  lemma SynSent() returns (xs: seq<RingWorld>, es: seq<P.Event>)
    ensures Reached(xs, es, C2.(queue := []), V0, {SYN}, {}, -1) && |es| == 3
  {
    hide Step, Reached, RingReceiver.Holds;
    xs, es := Begin();
    var c0 := C1.(stream := In([], 0));
    Last(xs, es, c0, V0, {}, {}, -1);
    assert xs[|es|].w.s.Write([0, 1, 2, 3]).stream.written == [0, 1, 2, 3];
    xs, es := SenderGoes(xs, es, c0, V0, {}, {}, -1, SR.Op.Write([0, 1, 2, 3]), C1);
    Last(xs, es, C1, V0, {}, {}, -1);
    Sends2(xs[|es|].w.s);
    xs, es := SenderGoes(xs, es, C1, V0, {}, {}, -1, SR.Fill, C2);
    xs, es := Drains(xs, es, C2, V0, {}, {}, -1);
    assert {} + (set seg | seg in C2.queue) == {SYN};
  }

  lemma FirstSent() returns (xs: seq<RingWorld>, es: seq<P.Event>)
    ensures Reached(xs, es, C3.(queue := []), V1, {SYN, D1}, {ACK1}, -1) && |es| == 7
  {
    hide Step, Reached, RingReceiver.Holds, RingReceiver.SegmentReceived, Sender.AckReceived, Sender.AckValue;
    xs, es := SynSent();
    var c2 := C2.(queue := []);
    Last(xs, es, c2, V0, {SYN}, {}, -1);
    TakesSyn(xs[|es|].Inbound());
    xs, es := DeliverGoes(xs, es, c2, V0, {SYN}, {}, -1, SYN, V1);
    xs, es := EmitGoes(xs, es, c2, V1, {SYN}, {}, -1);
    assert {} + {ACK1} == {ACK1};
    Last(xs, es, c2, V1, {SYN}, {ACK1}, -1);
    Sends3(xs[|es|].w.s);
    xs, es := AckGoes(xs, es, c2, V1, {SYN}, {ACK1}, -1, ACK1, C3, -1);
    xs, es := Drains(xs, es, C3, V1, {SYN}, {ACK1}, -1);
    assert {SYN} + (set seg | seg in C3.queue) == {SYN, D1};
  }

  lemma SecondSent() returns (xs: seq<RingWorld>, es: seq<P.Event>)
    ensures Reached(xs, es, C4.(queue := []), V2.(out := Out([0, 1, 2], 2)), {SYN, D1, D2}, {ACK1, ACK2}, -1) && |es| == 12
  {
    hide Step, Reached, RingReceiver.Holds, RingReceiver.SegmentReceived, Sender.AckReceived, Sender.AckValue;
    xs, es := FirstSent();
    var c3, v2 := C3.(queue := []), V2.(out := Out([0, 1, 2], 2));
    Last(xs, es, c3, V1, {SYN, D1}, {ACK1}, -1);
    Takes1(xs[|es|].Inbound());
    xs, es := DeliverGoes(xs, es, c3, V1, {SYN, D1}, {ACK1}, -1, D1, V2);
    xs, es := ReadGoes(xs, es, c3, V2, {SYN, D1}, {ACK1}, -1, 2);
    xs, es := EmitGoes(xs, es, c3, v2, {SYN, D1}, {ACK1}, -1);
    assert {ACK1} + {ACK2} == {ACK1, ACK2};
    Last(xs, es, c3, v2, {SYN, D1}, {ACK1, ACK2}, -1);
    Sends4(xs[|es|].w.s);
    xs, es := AckGoes(xs, es, c3, v2, {SYN, D1}, {ACK1, ACK2}, -1, ACK2, C4, -1);
    xs, es := Drains(xs, es, C4, v2, {SYN, D1}, {ACK1, ACK2}, -1);
    assert {SYN, D1} + (set seg | seg in C4.queue) == {SYN, D1, D2};
  }

  /** Four bytes are acknowledged; then the first acknowledgment comes again. */
  lemma WindowReopened() returns (xs: seq<RingWorld>, es: seq<P.Event>)
    ensures Reached(xs, es, C5.(win := 3), V3, {}, {}, 15) && |es| == 16
  {
    hide Step, Reached, RingReceiver.Holds, RingReceiver.SegmentReceived, Sender.AckReceived, Sender.AckValue;
    xs, es := SecondSent();
    var c4, v2, net := C4.(queue := []), V2.(out := Out([0, 1, 2], 2)), {SYN, D1, D2};
    Last(xs, es, c4, v2, net, {ACK1, ACK2}, -1);
    Takes2(xs[|es|].Inbound());
    xs, es := DeliverGoes(xs, es, c4, v2, net, {ACK1, ACK2}, -1, D2, V3);
    xs, es := EmitGoes(xs, es, c4, V3, net, {ACK1, ACK2}, -1);
    var acks := {ACK1, ACK2, ACK3};
    assert {ACK1, ACK2} + {ACK3} == acks;
    Last(xs, es, c4, V3, net, acks, -1);
    Sends5(xs[|es|].w.s);
    xs, es := AckGoes(xs, es, c4, V3, net, acks, -1, ACK3, C5, -1);
    Last(xs, es, C5, V3, net, acks, -1);
    Sends6(xs[|es|].w.s);
    xs, es := AckGoes(xs, es, C5, V3, net, acks, -1, ACK1, C5.(win := 3), 15);
    Forget(xs, es, C5.(win := 3), V3, net, acks, 15);
  }

  lemma Forget(xs: seq<RingWorld>, es: seq<P.Event>, core: Core, v: Recv, net: set<Segment>, acks: set<P.Ack>, odd: int)
    requires Reached(xs, es, core, v, net, acks, odd)
    ensures Reached(xs, es, core, v, {}, {}, odd)
  {
  }

  lemma ThirdSent() returns (xs: seq<RingWorld>, es: seq<P.Event>)
    ensures Reached(xs, es, C8.(queue := []), V3, {D3}, {}, 15) && |es| == 19
  {
    hide Step, Reached, RingReceiver.Holds;
    xs, es := WindowReopened();
    Last(xs, es, C5.(win := 3), V3, {}, {}, 15);
    WriteMore(xs[|es|].w.s);
    xs, es := SenderGoes(xs, es, C5.(win := 3), V3, {}, {}, 15, SR.Op.Write([4, 5, 6]), C7);
    Last(xs, es, C7, V3, {}, {}, 15);
    Sends8(xs[|es|].w.s);
    xs, es := SenderGoes(xs, es, C7, V3, {}, {}, 15, SR.Fill, C8);
    xs, es := Drains(xs, es, C8, V3, {}, {}, 15);
    assert {} + (set seg | seg in C8.queue) == {D3};
  }

  lemma WriteMore(s: Sender)
    requires s.Shaped() && CoreOf(s) == C5.(win := 3)
    ensures CoreOf(s.Write([4, 5, 6])) == C7
  {
    assert s.stream.Write([4, 5, 6]).written == [0, 1, 2, 3, 4, 5, 6];
  }

  /**
   * There is a run with a single stale acknowledgment in which a delivered segment cannot be
   * placed, and in which the receiver's output is not what the sender was given.
   */
  lemma OutputGoesWrong() returns (xs: seq<RingWorld>, es: seq<P.Event>)
    ensures IsRun(xs, es, 10, 1000, 8, 3) && |es| == 22
    ensures forall j :: 0 <= j < |es| && j != 15 ==> FreshAt(xs, es, j)
    ensures !FitsAt(xs, es, 21)
    ensures var w := xs[22].w;
            w.s.stream.written == [0, 1, 2, 3, 4, 5, 6] && w.r.asm.out.written == [0, 1, 2, 3, 4, 4, 5]
  {
    hide Step, RingReceiver.Holds, RingReceiver.SegmentReceived, FA.NotStale;
    xs, es := ThirdSent();
    var c8, v4 := C8.(queue := []), V4.(out := Out([0, 1, 2, 3, 4], 4));
    Last(xs, es, c8, V3, {D3}, {}, 15);
    Takes3(xs[|es|].Inbound());
    xs, es := DeliverGoes(xs, es, c8, V3, {D3}, {}, 15, D3, V4);
    xs, es := ReadGoes(xs, es, c8, V4, {D3}, {}, 15, 2);
    Last(xs, es, c8, v4, {D3}, {}, 15);
    Takes4(xs[|es|].Inbound());
    NextHolds(xs[|es|], P.Deliver(D3));
    xs, es := DeliverGoes(xs, es, c8, v4, {D3}, {}, 15, D3, V5);
  }
}
