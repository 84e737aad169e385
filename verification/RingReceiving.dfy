/** The receiver with its ring, as a value. */
module RingReceiving {
  import opened Words
  import opened WrappingIntegers
  import opened ByteStreams
  import opened Segments
  import opened Assembly
  import opened Ring
  import opened Rings
  import opened Receiving

  datatype RingReceiver = RingReceiver(r: Receiver, m: Slots) {

    function Buffer(): Ringed {
      Ringed(r.asm, m)
    }

    ghost predicate Holds() {
      r.Valid() && Buffer().Holds()
    }

    ghost function SegmentReceived(seg: Segment): RingReceiver
      requires Holds()
    {
      if r.Listens(seg) then
        var x := Buffer().Push(seg.payload, r.Index(seg), r.Sticky(seg));
        RingReceiver(r.Settle(seg, r.Index(seg), x.a), x.m)
      else
        this
    }
  }

  ghost function FreshReceiver(cap: nat): RingReceiver {
    RingReceiver(InitialReceiver(cap), FreshRing(cap).m)
  }

  lemma FreshReceiverHolds(cap: nat)
    requires cap > 0
    ensures FreshReceiver(cap).Holds()
  {
    FreshHolds(cap);
  }

  /** Ending the output does not touch the ring. */
  lemma OutputIsApart(x: Ringed, out: StreamState)
    requires x.Holds() && out.Valid() && out.cap == x.a.cap && |out.written| == x.a.Start()
    ensures x.(a := x.a.(out := out)).Holds()
  {
    hide Known;
  }

  lemma SettleHolds(r: Receiver, seg: Segment, index: Word64, x: Ringed)
    requires x.Holds() && x.a.cap == r.cap
    ensures RingReceiver(r.Settle(seg, index, x.a), x.m).Holds()
  {
    hide Wrap, Ringed.Holds, Assembler.Valid;
    HoldsParts(x);
    SettleKeepsValid(r, seg, index, x.a);
    OutputIsApart(x, x.a.out.End());
  }

  /**
   * A segment at the receiver with a ring: as at the receiver with a partial map, if the ring
   * can place the payload; exactly then the ring string keeps its length; and always as there
   * but for byte values.
   */
  lemma ReceiveHolds(x: RingReceiver, seg: Segment)
    requires x.Holds()
    ensures x.SegmentReceived(seg).Holds() && x.r.asm.cap > 0
    ensures var y, q := x.SegmentReceived(seg), x.r.SegmentReceived(seg);
            && Alike(y.r, q) && (x.r.Placeable(seg) ==> y.r == q)
            && |y.m.aux| >= |x.m.aux| && (|y.m.aux| == |x.m.aux| <==> x.r.Placeable(seg))
  {
    hide Unwrap, Wrap, Receiver.Settle, Assembler.Push, Ringed.Push, Ringed.Holds, Assembler.Valid, Assembler.Placeable;
    HoldsParts(x.Buffer());
    if x.r.Listens(seg) {
      var i := x.r.Index(seg);
      var b := x.Buffer().Push(seg.payload, i, x.r.Sticky(seg));
      PushHolds(x.Buffer(), seg.payload, i, x.r.Sticky(seg));
      ShapeCap(b.a, x.r.asm.Push(seg.payload, i, x.r.Sticky(seg)));
      PushCap(x.r.asm, seg.payload, i, x.r.Sticky(seg));
      SettleHolds(x.r, seg, i, b);
      SettlesAlike(x.r, x.r, seg, i, b.a, x.r.asm.Push(seg.payload, i, x.r.Sticky(seg)));
    }
  }

  lemma ShapeCap(a: Assembler, b: Assembler)
    requires SameShape(a, b)
    ensures a.cap == b.cap
  {
  }

  lemma ReceiverParts(x: RingReceiver)
    requires x.Holds()
    ensures x.r.Valid() && x.r.asm.out.Valid() && x.r.asm.cap > 0 && |x.m.aux| >= x.r.asm.cap
  {
    hide Known;
  }

  lemma ReceiveCap(x: RingReceiver, seg: Segment)
    requires x.Holds()
    ensures x.SegmentReceived(seg).r.asm.cap == x.r.asm.cap
  {
    hide Unwrap, Wrap, Ringed.Push, Ringed.Holds, Assembler.Push, Assembler.Valid;
    HoldsParts(x.Buffer());
    if x.r.Listens(seg) {
      var i := x.r.Index(seg);
      PushHolds(x.Buffer(), seg.payload, i, x.r.Sticky(seg));
      ShapeCap(x.Buffer().Push(seg.payload, i, x.r.Sticky(seg)).a, x.r.asm.Push(seg.payload, i, x.r.Sticky(seg)));
      PushCap(x.r.asm, seg.payload, i, x.r.Sticky(seg));
    }
  }
}
