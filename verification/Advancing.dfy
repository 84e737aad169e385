/**
 * What gets through has an effect.  A delivered segment leaves the receiver with what it
 * carries, as far as there is room; a segment that covers the first unacknowledged number
 * moves the receiver beyond it; and an acknowledgment of that moves the sender.
 */
module Advancing {
  import opened Words
  import opened WrappingIntegers
  import opened ByteStreams
  import opened Segments
  import opened Assembly
  import opened AssemblyRuns
  import opened Sending
  import SI = SenderInvariants
  import SR = SenderRuns
  import SE = SenderEffects
  import opened Receiving
  import opened Protocol

  // One delivery

  lemma StoreKnowsStart(a: Assembler, data: seq<Byte>, index: nat, eof: bool)
    requires a.Valid() && index <= a.Start() < index + |data|
    ensures var s := a.Store(data, index, eof);
            s.Valid() && a.Start() in s.known && s.Start() == a.Start() && s.out == a.out
  {
    StoreKeepsValid(a, data, index, eof);
    hide Held;
  }

  /** With room in the output, a push that has the next byte writes it. */
  lemma PushAdvances(a: Assembler, data: seq<Byte>, index: nat, eof: bool)
    requires a.Valid() && index <= a.Start() < index + |data| && a.out.Room() > 0
    ensures a.Start() < a.Push(data, index, eof).Start()
  {
    hide Assembler.Store, Held;
    StoreKnowsStart(a, data, index, eof);
    hide Assembler.Valid;
  }

  /** Where the payload of an original transmission belongs in the stream. */
  function IndexOf(t: Sent): nat {
    if t.start == 0 then 0 else t.start - 1
  }

  /** A segment without content but its flags says nothing about where it is put. */
  lemma TakeIs(w: World, seg: Segment, i: nat)
    requires Inv(w) && SentNear(w, seg, i) && w.r.Listens(seg)
    ensures w.r.Valid() && w.r.IsnFor(seg) == w.s.isn
    ensures var t := w.s.log[i];
            if t.start == 0 then seg.payload == [] && !seg.header.fin else w.r.Index(seg) == IndexOf(t)
    ensures w.s.log[i].start == 0 <==> seg.header.syn
  {
    hide SI.Inv, SR.Timed, SR.OnlyCopies, HonestNet, Faithful, SafeAcks, Receiver.Index, Receiver.IsnFor, Receiver.Valid, SI.Genuine,
         Receiver.Listens;
    CkptBound(w);
    EntryIsGenuine(w.s, i);
    IndexIsRead(w.r, w.s.log[i], w.s.isn, w.s.stream);
    SynIsFirst(w.s.log[i], w.s.isn, w.s.stream);
  }

  lemma SynIsFirst(t: Sent, isn: Word32, stream: StreamState)
    requires SI.Genuine(t, isn, stream)
    ensures t.start == 0 <==> t.seg.header.syn
  {
    hide Wrap;
  }

  /**
   * Before the SYN a segment is ignored.  Otherwise, exactly what the receiver had and what the
   * segment carries within the window is held or written afterwards, less what the drain clears.
   */
  lemma DeliveryEffect(w: World, seg: Segment, i: nat, j: nat)
    requires Inv(w) && SentNear(w, seg, i)
    ensures w.r.Valid()
    ensures !w.r.syn && !seg.header.syn ==> w.r.SegmentReceived(seg) == w.r
    ensures w.r.syn || seg.header.syn ==>
              var r, r', at := w.r, w.r.SegmentReceived(seg), IndexOf(w.s.log[i]);
              && r'.syn && r'.eof == (r.eof || seg.header.fin)
              && (Has(r'.asm, j) <==>
                    && (Has(r.asm, j) || (at <= j < at + |seg.payload| && j < |r.asm.out.written| + r.asm.cap))
                    && !Clears(r.asm.Store(seg.payload, at, r'.eof), j))
  {
    hide Inv, Receiver.Index, Receiver.IsnFor, Assembler.Push, Assembler.Store, Clears, Receiver.Valid, Wrap;
    InvReady(w);
    if w.r.Listens(seg) {
      TakeIs(w, seg, i);
      var at := IndexOf(w.s.log[i]);
      TakeHas(w.r, seg, w.r.Index(seg), j);
      if w.s.log[i].start == 0 {
        EmptyStore(w.r.asm, w.r.Index(seg), at, w.r.Sticky(seg));
      }
    }
  }

  lemma EmptyStore(a: Assembler, i: nat, j: nat, eof: bool)
    ensures a.Store([], i, eof) == a.Store([], j, eof)
  {
  }

  lemma TakeHas(r: Receiver, seg: Segment, index: Word64, j: nat)
    requires r.Valid()
    ensures var r' := r.Take(seg, index);
            && r'.syn && r'.eof == (r.eof || seg.header.fin)
            && (Has(r'.asm, j) <==>
                  && (Has(r.asm, j) || (index <= j < index + |seg.payload| && j < r.asm.WindowEnd()))
                  && !Clears(r.asm.Store(seg.payload, index, r'.eof), j))
  {
    hide Assembler.Push, Assembler.Store, Clears, Assembler.Valid, Wrap;
    PushHasIff(r.asm, Op.Push(seg.payload, index, r.Sticky(seg)), j);
  }

  /** The next number the receiver waits for is not a byte, or there is room for a byte. */
  predicate CanAdvance(w: World) {
    var out := w.r.asm.out;
    |out.written| < out.cap + out.read || w.s.ackAbs == 0 || w.s.ackAbs == |w.s.stream.written| + 1
  }

  /** Taking a segment at its place moves the checkpoint to or beyond its end, or beyond where it was. */
  lemma TakeAdvances(r: Receiver, seg: Segment, index: Word64)
    requires r.Valid() && r.asm.out.Valid()
    requires index <= r.ckpt < index + |seg.payload| ==> r.asm.out.Room() > 0
    ensures var r' := r.Take(seg, index);
            && r.ckpt <= r'.ckpt && (index <= r.ckpt < index + |seg.payload| ==> r.ckpt < r'.ckpt)
            && r'.syn && r'.lenStream == r.Total(seg, index)
  {
    hide Assembler.Push, Assembler.Valid, Wrap;
    PushGrows(r.asm, seg.payload, index, r.Sticky(seg));
    if index <= r.ckpt < index + |seg.payload| {
      PushAdvances(r.asm, seg.payload, index, r.Sticky(seg));
    }
  }

  lemma EntryEnds(s: Sender, i: nat)
    requires SI.Inv(s) && i < |s.log|
    ensures var t := s.log[i];
            && t.End() <= s.nextSeqno && IndexOf(t) + |t.seg.payload| <= |s.stream.written|
            && (t.start == 0 ==> t.End() == 1)
            && (t.start > 0 ==> t.End() == t.start + |t.seg.payload| + (if t.seg.header.fin then 1 else 0))
            && (t.seg.header.fin ==> IndexOf(t) + |t.seg.payload| == |s.stream.written|)
  {
    hide Wrap, SI.Suffix, SI.Accounts;
    assert SI.Genuine(s.log[i], s.isn, s.stream);
    SE.EndsGrow(s.log, i, |s.log| - 1);
  }

  lemma AgreedCkpt(r: Receiver, s: Sender)
    requires s.Shaped() && Agrees(r, s)
    ensures r.Valid() && r.asm.out.Valid() && r.ckpt <= s.stream.read <= |s.stream.written|
  {
    hide Assembler.Valid;
    FaithfulBound(r.asm, SentBytes(s));
    ValidOut(r.asm);
  }

  /** What the receiver has assembled was sent. */
  lemma AssembledIsSent(w: World)
    requires Inv(w)
    ensures w.s.ackAbs <= w.r.Assembled() <= w.s.nextSeqno && w.r.asm.out.Valid()
    ensures w.r.Valid() && w.r.ckpt <= |w.s.stream.written|
    ensures w.r.syn && w.r.ckpt == w.r.lenStream ==> w.s.nextSeqno == |w.s.stream.written| + 2 == w.r.ckpt + 2
    ensures w.r.syn || w.r.Assembled() == 0
  {
    hide HonestNet, SR.Timed, SR.OnlyCopies, SI.AllGenuine, SI.Tiles, SI.Suffix, Wrap, Faithful;
    AgreedCkpt(w.r, w.s);
  }

  /** The step from a receiver that waits for the next number to one beyond it. */
  lemma TakeReaches(w: World, seg: Segment, i: nat)
    requires Inv(w) && SentNear(w, seg, i) && SE.CoversNext(w.s, seg, i) && w.r.Listens(seg)
    requires CanAdvance(w) && w.r.Assembled() == w.s.ackAbs
    ensures w.r.Valid() && w.s.ackAbs < w.r.Take(seg, w.r.Index(seg)).Assembled()
  {
    hide SI.Inv, SR.Timed, SR.OnlyCopies, HonestNet, SafeAcks, Receiver.Index, Receiver.IsnFor, Receiver.Valid, TrueSegment,
         Receiver.Take, Agrees, SI.Accounts;
    AssembledIsSent(w);
    TakeIs(w, seg, i);
    EntryEnds(w.s, i);
    NearIsTrue(w, seg, i);
    var index := w.r.Index(seg);
    TakeKeepsAgreement(w.r, w.s, seg, index);
    AgreedCkpt(w.r.Take(seg, index), w.s);
    TakeAdvances(w.r, seg, index);
    AgreesBound(w.r, w.s);
    if w.r.syn {
      assert w.s.ackAbs == w.r.ckpt + 1 && w.s.log[i].start > 0 && index <= w.r.ckpt;
      if w.r.ckpt == index + |seg.payload| {
        assert seg.header.fin && w.r.Take(seg, index).lenStream == w.r.ckpt;
      }
    }
  }

  /**
   * Delivering a segment that covers the first unacknowledged number takes the receiver beyond
   * that number, if it has room for a byte or no byte is needed.
   */
  lemma DeliveryReaches(w: World, seg: Segment, i: nat)
    requires Inv(w) && SentNear(w, seg, i) && SE.CoversNext(w.s, seg, i)
    ensures w.r.Valid() && w.r.asm.out.Valid()
    ensures CanAdvance(w) ==> w.s.ackAbs < w.r.SegmentReceived(seg).Assembled()
  {
    hide Inv, Receiver.Index, Receiver.IsnFor, Receiver.Take, Receiver.Valid, Receiver.Assembled, CanAdvance, SentNear;
    AssembledIsSent(w);
    ListensForNext(w, seg, i);
    if CanAdvance(w) {
      if w.r.Assembled() == w.s.ackAbs {
        TakeReaches(w, seg, i);
      } else {
        TakeGrows(w, seg, i);
      }
    }
  }

  lemma TakeGrows(w: World, seg: Segment, i: nat)
    requires Inv(w) && SentNear(w, seg, i) && w.r.Listens(seg)
    ensures w.r.Valid() && w.r.Assembled() <= w.r.Take(seg, w.r.Index(seg)).Assembled()
  {
    hide SR.Good, HonestNet, SafeAcks, Receiver.Index, Receiver.IsnFor, TrueSegment, Receiver.Take, Agrees, SentNear, Receiver.Assembled;
    NearIsTrue(w, seg, i);
    AgreesBound(w.r, w.s);
    TakeKeepsAgreement(w.r, w.s, seg, w.r.Index(seg));
  }

  lemma ListensForNext(w: World, seg: Segment, i: nat)
    requires Inv(w) && SE.CoversNext(w.s, seg, i)
    ensures w.r.Listens(seg)
  {
    hide SI.Inv, SR.Timed, SR.OnlyCopies, HonestNet, Agrees, SI.Genuine;
    AssembledIsSent(w);
    EntryIsGenuine(w.s, i);
    SynIsFirst(w.s.log[i], w.s.isn, w.s.stream);
  }

  /** A near acknowledgment of something new is taken for exactly what it says. */
  lemma AckReaches(w: World, a: Ack)
    requires Inv(w) && Enabled(w, DeliverAck(a))
    ensures w.s.Shaped() && w.r.Valid() && Next(w, DeliverAck(a)).s.ackAbs == Max(w.s.ackAbs, a.value)
  {
    hide SI.Inv, SR.Timed, SR.OnlyCopies, HonestNet, Agrees, Receiver.Assembled, Sender.AckAt, Sender.AckValue, Wrap, Receiver.Valid;
    assert Acks(w, a);
    AssembledIsSent(w);
    CkptBound(w);
    AckIsRead(w, a);
    var win := a.win;
    if w.s.ackAbs < a.value {
      AckKeepsShape(w.s, a.value, win);
      SE.NewAckEffect(w.s, a.value, win);
    } else {
      SE.OldAckEffect(w.s, a.value, win);
    }
  }

  lemma AckKeepsShape(s: Sender, ack: nat, win: Word16)
    requires SI.Inv(s) && ack < TWO_64
    ensures s.AckAt(ack, win).stream.Valid()
  {
    hide SI.Suffix, SI.Tiles, SI.AllGenuine;
  }

  // Every step

  /** Nothing assembled or acknowledged is taken back. */
  lemma StepGrows(w: World, e: Event)
    requires Inv(w) && Enabled(w, e)
    ensures w.s.Shaped() && w.r.Valid()
    ensures w.r.Assembled() <= Next(w, e).r.Assembled() && w.s.ackAbs <= Next(w, e).s.ackAbs
  {
    hide Agrees, HonestNet, SafeAcks, SI.Inv, SR.Timed, SR.OnlyCopies, SR.Apply, Sender.AckReceived, Receiver.SegmentReceived,
         Receiver.Assembled, Receiver.Read, Receiver.Valid, Sender.AckValue, Wrap;
    InvReady(w);
    match e
    case SenderStep(op) => SR.StepKeepsGood(w.s, op);
    case Deliver(seg) => DeliverKeepsInv(w, seg);
    case DeliverAck(a) => AckReaches(w, a);
    case Read(n) => ReadKeepsAgreement(w.r, w.s, n);
    case EmitAck =>
  }
}
