/** The receiver as a value: the fields of the code, and what a segment does to them. */
module Receiving {
  import opened Words
  import opened WrappingIntegers
  import opened ByteStreams
  import opened Segments
  import opened Assembly

  datatype Receiver = Receiver(cap: nat, asm: Assembler, ckpt: nat, isn: Word32, ack: Word32,
                               syn: bool, eof: bool, lenStream: nat)
  {
    ghost predicate Valid() {
      asm.Valid() && asm.cap == cap && ckpt == asm.Start()
    }

    /** Segments are ignored until the first SYN. */
    predicate Listens(seg: Segment) {
      syn || seg.header.syn
    }

    /** The sequence number of the SYN, which a segment with SYN sets. */
    function IsnFor(seg: Segment): Word32 {
      if seg.header.syn then seg.header.seqno else isn
    }

    /** Stream index at which the code places the payload. */
    function Index(seg: Segment): Word64 {
      var abs := Unwrap(seg.header.seqno, IsnFor(seg), U64(ckpt));
      if seg.header.syn then abs else U64(abs - 1)
    }

    /** The end flag passed on with a payload: once a FIN was seen it sticks. */
    predicate Sticky(seg: Segment) {
      eof || seg.header.fin
    }

    /** Length of the stream as far as it is known with this segment. */
    function Total(seg: Segment, index: Word64): nat {
      if seg.header.fin then U64(index + |seg.payload|) else lenStream
    }

    /** The rest of the work once pushing the payload has left `a`: checkpoint, acknowledgment, end of output. */
    function Settle(seg: Segment, index: Word64, a: Assembler): Receiver {
      var reached := a.Start() == Total(seg, index);
      this.(asm := if reached then a.(out := a.out.End()) else a,
            ckpt := a.Start(),
            isn := IsnFor(seg),
            ack := Wrap(a.Start() + (if reached then 2 else 1), IsnFor(seg)),
            syn := true,
            eof := Sticky(seg),
            lenStream := Total(seg, index))
    }

    /** The segment's payload, placed at `index`, is assembled and the acknowledgment recomputed. */
    ghost function Take(seg: Segment, index: Word64): Receiver
      requires Valid()
    {
      Settle(seg, index, asm.Push(seg.payload, index, Sticky(seg)))
    }

    ghost function SegmentReceived(seg: Segment): Receiver
      requires Valid()
    {
      if Listens(seg) then Take(seg, Index(seg)) else this
    }

    /** The ring code can place the payload of this segment. */
    predicate Placeable(seg: Segment)
      requires asm.cap > 0
    {
      Listens(seg) ==> asm.Placeable(Index(seg), |seg.payload|)
    }

    function Ackno(): Option<Word32> {
      if syn then Some(ack) else None
    }

    function WindowSize(): nat
      requires asm.out.Valid()
    {
      asm.out.Room()
    }

    function Read(n: nat): Receiver
      requires asm.out.Valid()
    {
      this.(asm := asm.Read(n))
    }

    /** Sequence numbers assembled so far: the SYN, the bytes written, and the FIN once it is reached. */
    function Assembled(): nat {
      if !syn then 0 else ckpt + (if ckpt == lenStream then 2 else 1)
    }
  }

  function InitialReceiver(cap: nat): Receiver {
    Receiver(cap, Assembler(cap, map[], 0, NO_END, StreamState(cap, [], 0, false, false)), 0, 0, 0, false, false, TWO_64 - 1)
  }

  /** Equal but for the values of bytes held or written. */
  ghost predicate Alike(r: Receiver, q: Receiver) {
    r == q.(asm := r.asm) && SameShape(r.asm, q.asm)
  }

  lemma SettlesAlike(r: Receiver, q: Receiver, seg: Segment, index: Word64, a: Assembler, b: Assembler)
    requires Alike(r, q) && SameShape(a, b)
    ensures Alike(r.Settle(seg, index, a), q.Settle(seg, index, b))
  {
    hide Wrap;
  }

  /** What a segment does, but for byte values, does not depend on byte values. */
  lemma ReceivesAlike(r: Receiver, q: Receiver, seg: Segment)
    requires r.Valid() && q.Valid() && Alike(r, q)
    ensures Alike(r.SegmentReceived(seg), q.SegmentReceived(seg))
  {
    hide Unwrap, Wrap, Receiver.Settle, Assembler.Push, Assembler.Valid;
    if r.Listens(seg) {
      var i := r.Index(seg);
      PushSameShape(r.asm, q.asm, seg.payload, i, r.Sticky(seg));
      SettlesAlike(r, q, seg, i, r.asm.Push(seg.payload, i, r.Sticky(seg)), q.asm.Push(seg.payload, i, r.Sticky(seg)));
    }
  }

  lemma AlikeTransitive(p: Receiver, q: Receiver, r: Receiver)
    requires Alike(p, q) && Alike(q, r)
    ensures Alike(p, r)
  {
  }

  lemma SettleKeepsValid(r: Receiver, seg: Segment, index: Word64, a: Assembler)
    requires a.Valid() && a.cap == r.cap
    ensures r.Settle(seg, index, a).Valid()
  {
    hide Assembler.Valid, Wrap;
    EndKeepsValid(a);
  }

  lemma TakeKeepsValid(r: Receiver, seg: Segment, index: Word64)
    requires r.Valid()
    ensures r.Take(seg, index).Valid()
  {
    hide Assembler.Valid, Assembler.Push, Unwrap, Wrap;
    PushKeepsValid(r.asm, seg.payload, index, r.eof || seg.header.fin);
    PushCap(r.asm, seg.payload, index, r.eof || seg.header.fin);
    EndKeepsValid(r.asm.Push(seg.payload, index, r.eof || seg.header.fin));
  }

  lemma PushCap(a: Assembler, data: seq<Byte>, index: nat, eof: bool)
    requires a.Valid()
    ensures a.Push(data, index, eof).cap == a.cap
  {
    StoreKeepsValid(a, data, index, eof);
  }

  lemma EndKeepsValid(a: Assembler)
    requires a.Valid()
    ensures a.(out := a.out.End()).Valid()
  {
  }
}
