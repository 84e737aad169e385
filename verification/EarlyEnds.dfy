/** Exactly which segments end the output while bytes are missing. */
module EarlyEnds {
  import opened Words
  import opened WrappingIntegers
  import opened ByteStreams
  import opened Segments
  import opened Assembly
  import opened AssemblyRuns
  import opened Rings
  import opened Sending
  import SI = SenderInvariants
  import SR = SenderRuns
  import opened Receiving
  import opened RingReceiving
  import P = Protocol
  import C = Connecting
  import opened Links
  import opened Duplex
  import E = Endpoints
  import opened Pairs
  import opened DuplexRuns

  /** Index `i` is held, or in the piece of `size` bytes at `index`. */
  predicate Available(a: Assembler, index: nat, size: nat, i: nat) {
    i in a.known || index <= i < index + size
  }

  /** Writing stops at `n` once the piece is there: at the end of the room or at the first byte not available. */
  ghost predicate StopsAt(a: Assembler, index: nat, size: nat, n: nat)
    requires a.out.Valid()
  {
    && a.Start() <= n <= a.Start() + a.out.Room()
    && (forall i :: a.Start() <= i < n ==> Available(a, index, size, i))
    && (n < a.Start() + a.out.Room() ==> !Available(a, index, size, n))
  }

  lemma StopsOnce(a: Assembler, index: nat, size: nat, n: nat, n': nat)
    requires a.out.Valid() && StopsAt(a, index, size, n) && StopsAt(a, index, size, n')
    ensures n == n'
  {
    assert n < n' ==> Available(a, index, size, n);
    assert n' < n ==> Available(a, index, size, n');
  }

  lemma StoreAvailable(a: Assembler, data: seq<Byte>, index: nat, eof: bool, i: nat)
    requires a.Start() <= i < a.WindowEnd()
    ensures i in a.Store(data, index, eof).known <==> Available(a, index, |data|, i)
  {
  }

  lemma PushStops(a: Assembler, data: seq<Byte>, index: nat, eof: bool)
    requires a.Valid()
    ensures a.out.Valid() && StopsAt(a, index, |data|, a.Push(data, index, eof).Start())
  {
    hide Available, Assembler.Store, Held, Assembler.Kept, Assembler.ReadyBytes;
    StoreKeepsValid(a, data, index, eof);
    ValidOut(a);
    StoreFrame(a, data, index, eof);
    var s := a.Store(data, index, eof);
    forall i | a.Start() <= i < a.WindowEnd()
      ensures i in s.known <==> Available(a, index, |data|, i)
    {
      StoreAvailable(a, data, index, eof, i);
    }
  }

  lemma StoreFrame(a: Assembler, data: seq<Byte>, index: nat, eof: bool)
    ensures var s := a.Store(data, index, eof);
            s.cap == a.cap && s.out.written == a.out.written && s.out.read == a.out.read && s.out.cap == a.out.cap
  {
  }

  /** Where the output would be ended: at the end of a payload that carries the flag and touches the window, or where it was. */
  function EndMark(r: Receiver, seg: Segment, index: nat): nat {
    if r.Sticky(seg) && seg.payload != [] && r.asm.Touches(index, |seg.payload|) then index + |seg.payload| else r.asm.endStream
  }

  lemma PushMarks(a: Assembler, data: seq<Byte>, index: nat, eof: bool)
    requires a.Valid()
    ensures var p := a.Push(data, index, eof);
            && p.endStream == (if eof && data != [] && a.Touches(index, |data|) then index + |data| else a.endStream)
            && (p.out.ended <==> a.out.ended || (eof && data == []) || p.Start() == p.endStream)
  {
    StoreKeepsValid(a, data, index, eof);
    hide Assembler.Valid;
  }

  /**
   * A segment leaves an ended output exactly if it was ended, or the FIN was seen and the
   * payload is empty, or writing stops at the end mark or at the end of the stream.
   */
  lemma TakeEndsIff(r: Receiver, seg: Segment, index: Word64, n: nat)
    requires r.Valid() && r.asm.out.Valid() && StopsAt(r.asm, index, |seg.payload|, n)
    ensures var r' := r.Take(seg, index);
            && r'.ckpt == n == |r'.asm.out.written|
            && (r'.asm.out.ended <==> || r.asm.out.ended
                                      || (r.Sticky(seg) && seg.payload == [])
                                      || n == EndMark(r, seg, index)
                                      || n == r.Total(seg, index))
  {
    hide Assembler.Push, Assembler.Valid, StopsAt, Wrap;
    PushStops(r.asm, seg.payload, index, r.Sticky(seg));
    PushMarks(r.asm, seg.payload, index, r.Sticky(seg));
    StopsOnce(r.asm, index, |seg.payload|, n, r.asm.Push(seg.payload, index, r.Sticky(seg)).Start());
  }

  /** The segment ends the output before the end of the stream. */
  ghost predicate EndsEarly(r: Receiver, seg: Segment, index: Word64)
    requires r.asm.out.Valid()
  {
    exists n: nat ::
                && StopsAt(r.asm, index, |seg.payload|, n) && n < r.Total(seg, index)
                && ((r.Sticky(seg) && seg.payload == []) || n == EndMark(r, seg, index))
  }

  /** If the output is not ended early yet, it is after a true segment exactly if that ends it early. */
  lemma EndsEarlyIff(w: P.World, seg: Segment, index: Word64)
    requires P.Inv(w) && w.r.Valid() && P.Inv(w.(r := w.r.Take(seg, index)))
    requires w.r.asm.out.ended ==> |w.r.asm.out.written| == |w.s.stream.written|
    ensures w.r.asm.out.Valid()
    ensures var out := w.r.Take(seg, index).asm.out;
            (out.ended ==> |out.written| == |w.s.stream.written|) <==> !EndsEarly(w.r, seg, index)
  {
    hide P.Inv, Receiver.Valid, StopsAt, Receiver.Take, EndMark;
    PushStopsAt(w.r, seg, index);
    var n := w.r.Take(seg, index).ckpt;
    TakeEndsIff(w.r, seg, index, n);
    AgreedLength(w);
    AgreedLength(w.(r := w.r.Take(seg, index)));
    TakenFlags(w.r, seg, index);
    OpenMark(w, seg, index);
    if EndsEarly(w.r, seg, index) {
      var n': nat :| StopsAt(w.r.asm, index, |seg.payload|, n') && n' < w.r.Total(seg, index)
                && ((w.r.Sticky(seg) && seg.payload == []) || n' == EndMark(w.r, seg, index));
      StopsOnce(w.r.asm, index, |seg.payload|, n, n');
    }
  }

  lemma PushStopsAt(r: Receiver, seg: Segment, index: Word64)
    requires r.Valid()
    ensures r.asm.out.Valid() && StopsAt(r.asm, index, |seg.payload|, r.Take(seg, index).ckpt)
    ensures |r.asm.out.written| <= r.Take(seg, index).ckpt
  {
    hide Assembler.Push, Wrap;
    PushStops(r.asm, seg.payload, index, r.Sticky(seg));
    hide Assembler.Valid;
  }

  lemma TakenFlags(r: Receiver, seg: Segment, index: Word64)
    requires r.Valid()
    ensures var r' := r.Take(seg, index);
            r'.eof == r.Sticky(seg) && r'.lenStream == r.Total(seg, index) && r'.ckpt == |r'.asm.out.written|
  {
    hide Assembler.Push, Wrap, Assembler.Valid;
  }

  /** Sender and receiver agree on the length once a FIN was seen, and no more is written than that. */
  lemma AgreedLength(w: P.World)
    requires P.Inv(w)
    ensures |w.r.asm.out.written| <= |w.s.stream.written| <= TWO_63
    ensures if w.r.eof then w.r.lenStream == |w.s.stream.written|
            else w.r.lenStream == NO_END && w.r.asm.endStream == NO_END && !w.r.asm.out.ended
  {
    hide SR.Good, P.HonestNet, P.SafeAcks, Receiver.Valid;
    FaithfulBound(w.r.asm, P.SentBytes(w.s));
  }

  lemma OpenMark(w: P.World, seg: Segment, index: Word64)
    requires P.Inv(w)
    ensures !w.r.Sticky(seg) ==> EndMark(w.r, seg, index) == NO_END
  {
    hide P.Inv;
    AgreedLength(w);
  }

  /** Byte values have no part in it. */
  lemma EndsEarlyAlike(r: Receiver, q: Receiver, seg: Segment, index: Word64)
    requires Alike(r, q) && r.asm.out.Valid() && q.asm.out.Valid()
    ensures EndsEarly(r, seg, index) == EndsEarly(q, seg, index)
  {
    forall n: nat
      ensures StopsAt(r.asm, index, |seg.payload|, n) == StopsAt(q.asm, index, |seg.payload|, n)
    {
      StopsAlike(r.asm, q.asm, index, |seg.payload|, n);
    }
    hide StopsAt;
  }

  lemma StopsAlike(a: Assembler, b: Assembler, index: nat, size: nat, n: nat)
    requires SameShape(a, b) && a.out.Valid() && b.out.Valid()
    ensures StopsAt(a, index, size, n) == StopsAt(b, index, size, n)
  {
    forall i: nat
      ensures Available(a, index, size, i) == Available(b, index, size, i)
    {
      assert i in a.known <==> i in b.known.Keys;
    }
  }

  // Over runs

  /** Move `j` delivers to this end a segment that ends its output early. */
  ghost predicate EarlyAt(ds: seq<Pair>, ms: seq<Move>, j: nat, left: bool)
    requires j < |ds| && j < |ms|
  {
    var r := Facing(ds[j], left).a.x.c.r;
    && ms[j].left == left && ms[j].e.Receive? && ms[j].e.seg.Length() != 0 && r.Listens(ms[j].e.seg)
    && r.asm.out.Valid() && EndsEarly(r, ms[j].e.seg, r.Index(ms[j].e.seg))
  }

  /** If the output of this end has ended, everything the other end wrote came out. */
  predicate Complete(d: Pair) {
    d.a.x.c.r.asm.out.ended ==> |d.a.x.c.r.asm.out.written| == |d.b.x.c.s.stream.written|
  }

  /** A stream that has ended does not change any more. */
  lemma WrittenStays(c: C.Connection, e: C.Event)
    requires c.Valid() && c.s.stream.ended && !e.Write?
    ensures C.Next(c, e).s.stream.written == c.s.stream.written
  {
    hide Sender.FillWindow, Sender.AckReceived, Receiver.SegmentReceived, Receiver.Valid, C.Connection.DressedAll, C.Connection.Active,
         C.Connection.NeedsReply;
    match e
    case Receive(seg) =>
      C.AbsorbKeepsValid(c, seg);
      AckKeepsWritten(c.s, seg.header.ackno, seg.header.win);
      P.FillKeepsAck(c.Absorb(seg).s);
    case EndInput => P.FillKeepsAck(c.s.EndInput());
    case Connect => P.FillKeepsAck(c.s);
    case _ =>
  }

  lemma AckKeepsWritten(s: Sender, ackno: Word32, win: Word16)
    requires s.Shaped()
    ensures s.AckReceived(ackno, win).stream.written == s.stream.written
  {
    hide Sender.AckAt, Unwrap;
    P.AckAtBound(s, s.AckValue(ackno), win);
  }

  /** An ended output means that the other end's stream has ended. */
  lemma EndedMeansFin(w: P.World)
    requires P.Inv(w) && w.r.asm.out.ended
    ensures w.s.stream.ended
  {
    hide P.HonestNet, P.SafeAcks, Receiver.Valid, Faithful, SI.AllGenuine, SI.Tiles, SI.Suffix, SR.Timed, SR.OnlyCopies;
  }

  /** A move of the other end leaves completeness as it is. */
  lemma OtherMove(d: Pair, c: C.Connection, p: C.Connection, l: Luck, l': Luck, e: C.Event)
    requires Inv(d, c, p, l, l') && CanMove(d, e) && Complete(d.Swapped())
    ensures d.a.x.Holds() && Complete(Moved(d, e).Swapped())
  {
    hide Inv, P.Inv, C.Inv, CanMove, E.Next, C.Next, E.Endpoint.Holds, E.Fits, C.Connection.Valid, Handed;
    InvReady(d, c, p, l, l');
    MovedKeepsInv(d, c, p, l, l', e);
    ForwardInv(d, c, p, l, l');
    ForwardInv(Moved(d, e), C.Next(c, e), p, LuckAfter(l, d.a.x, e), l');
    if p.r.asm.out.ended {
      EndedMeansFin(View(c.s, p.r, d.b.sent));
      NoWriteAfterEnd(d, e);
      WrittenStays(c, e);
    }
  }

  lemma NoWriteAfterEnd(d: Pair, e: C.Event)
    requires CanMove(d, e) && d.a.x.c.s.stream.ended
    ensures !e.Write?
  {
  }

  /** A move that delivers nothing to the receiver leaves its output as it is. */
  predicate Untouched(r: Receiver, e: C.Event) {
    e.Receive? ==> e.seg.Length() == 0 || !r.Listens(e.seg)
  }

  lemma UntouchedOutput(c: C.Connection, e: C.Event)
    requires c.Valid() && Untouched(c.r, e)
    ensures var out, out' := c.r.asm.out, C.Next(c, e).r.asm.out;
            out'.ended == out.ended && out'.written == out.written
  {
    hide C.Next, C.Connection.Respond, E.OnlyOutput, Sender.AckReceived, Receiver.Take, Receiver.Valid;
    match e
    case Receive(seg) =>
      C.AbsorbKeepsValid(c, seg);
      C.OutIsValid(c.Absorb(seg));
      E.RespondOnlyOutput(c.Absorb(seg), seg);
      SameOutput(c.Absorb(seg).r, c.Absorb(seg).Respond(seg).r);
      NextIsRespond(c, seg);
    case _ =>
      E.NextOnlyOutput(c, e);
      SameOutput(c.r, C.Next(c, e).r);
  }

  lemma SameOutput(r: Receiver, r': Receiver)
    requires E.OnlyOutput(r, r')
    ensures r'.asm.out.ended == r.asm.out.ended && r'.asm.out.written == r.asm.out.written
  {
  }

  lemma NextIsRespond(c: C.Connection, seg: Segment)
    requires c.Valid()
    ensures c.Absorb(seg).s.Shaped() && c.Absorb(seg).r.asm.out.Valid()
    ensures C.Next(c, C.Receive(seg)) == c.Absorb(seg).Respond(seg)
  {
    C.AbsorbKeepsValid(c, seg);
    C.OutIsValid(c.Absorb(seg));
  }

  lemma AbsorbedReceiver(c: C.Connection, seg: Segment)
    requires c.Valid() && seg.Length() != 0 && c.r.Listens(seg)
    ensures c.Absorb(seg).r == c.r.Take(seg, c.r.Index(seg))
  {
    hide Sender.AckReceived, Receiver.Take;
  }

  /** A segment taken by the shadow ends its output early exactly as said. */
  lemma TakenEarly(c: C.Connection, sent: set<Packet>, q: Peer, here: bool, there: bool, seg: Segment, inbound: set<Segment>)
    requires Faces(c, sent, q, here, there) && Enabled(c, C.Receive(seg), q, inbound)
    requires seg.Length() != 0 && c.r.Listens(seg)
    requires c.r.asm.out.ended ==> |c.r.asm.out.written| == |q.s.stream.written|
    ensures c.Valid() && c.r.asm.out.Valid()
    ensures var out := C.Next(c, C.Receive(seg)).r.asm.out;
            (out.ended ==> |out.written| == |q.s.stream.written|) <==> !EndsEarly(c.r, seg, c.r.Index(seg))
  {
    hide Faces, Enabled, P.Inv, EndsEarly, Receiver.Take, C.Next, C.Connection.Respond, Receiver.Index, E.OnlyOutput, C.Connection.Absorb;
    FacesReady(c, sent, q, here, there);
    AbsorbFaces(c, sent, q, here, there, seg, inbound);
    BackInv(c, sent, q, here, there);
    BackInv(c.Absorb(seg), sent, q, here && NotStale(c.s, seg), there);
    AbsorbedReceiver(c, seg);
    EndsEarlyIff(View(q.s, c.r, sent), seg, c.r.Index(seg));
    NextIsRespond(c, seg);
    E.RespondOnlyOutput(c.Absorb(seg), seg);
    SameOutput(c.Absorb(seg).r, c.Absorb(seg).Respond(seg).r);
  }

  lemma BackInv(c: C.Connection, sent: set<Packet>, q: Peer, here: bool, there: bool)
    requires Faces(c, sent, q, here, there)
    ensures P.Inv(View(q.s, c.r, sent)) && c.r.Valid()
  {
    hide P.Inv, Honest, Bare, AcksOf;
    P.InvReady(View(q.s, c.r, sent));
  }

  /** A move of this end keeps a complete output complete exactly if it does not end it early. */
  lemma OwnMove(d: Pair, c: C.Connection, p: C.Connection, l: Luck, l': Luck, e: C.Event)
    requires Inv(d, c, p, l, l') && CanMove(d, e) && Complete(d)
    ensures d.a.x.Holds()
    ensures var r := d.a.x.c.r;
            Complete(Moved(d, e))
            <==> !(e.Receive? && e.seg.Length() != 0 && r.Listens(e.seg)
                   && r.asm.out.Valid() && EndsEarly(r, e.seg, r.Index(e.seg)))
  {
    hide P.Inv, C.Inv, E.Next, C.Next, E.Endpoint.Holds, E.Fits, C.Connection.Valid, Handed, Faces, EndsEarly,
         Receiver.Index, OnRecord, Enabled;
    InvReady(d, c, p, l, l');
    MovedKeepsInv(d, c, p, l, l', e);
    EndOut(d.a.x);
    C.OutIsValid(c);
    var q := PeerOf(p, d.b.sent);
    EnabledAlike(d.a.x.c, c, d.b.x.c, p, e, d.b.sent, d.b.net);
    if Untouched(c.r, e) {
      UntouchedOutput(c, e);
    } else {
      TakenEarly(c, d.a.sent, q, l.timely, l'.timely, e.seg, d.b.net);
      SameIndexAlike(d.a.x.c.r, c.r, e.seg);
      EndsEarlyAlike(d.a.x.c.r, c.r, e.seg, c.r.Index(e.seg));
    }
  }

  lemma EndOut(x: E.Endpoint)
    requires x.Holds()
    ensures x.c.r.asm.out.Valid()
  {
    hide RingReceiver.Holds;
    ReceiverParts(x.Inbound());
  }

  lemma SameIndexAlike(r: Receiver, q: Receiver, seg: Segment)
    requires Alike(r, q)
    ensures r.Index(seg) == q.Index(seg) && r.Listens(seg) == q.Listens(seg)
  {
    hide Unwrap;
  }

  lemma CompleteStep(ds: seq<Pair>, ms: seq<Move>, u: Setup, v: Setup, j: nat, left: bool)
    requires IsRun(ds, ms, u, v) && j < |ms| && Complete(Facing(ds[j], left))
    ensures Complete(Facing(ds[j + 1], left)) <==> !EarlyAt(ds, ms, j, left)
  {
    hide Inv, CanMove, LuckAt, E.Endpoint.Holds, Complete, MovedSide, EndsEarly, Receiver.Index;
    assert Step(ds[j], ms[j], ds[j + 1]);
    var m := ms[j];
    var c, p := FacingInv(ds, ms, u, v, j, m.left);
    var d, l, l' := Facing(ds[j], m.left), LuckAt(ds, ms, j, m.left), LuckAt(ds, ms, j, !m.left);
    if m.left == left {
      OwnMove(d, c, p, l, l', m.e);
    } else {
      OtherMove(d, c, p, l, l', m.e);
    }
  }

  /**
   * In every run, at either end: whenever the output has ended, everything the other end wrote
   * has come out - exactly if no segment delivered so far ended the output early.
   */
  lemma {:induction false} EndsCompleteIff(ds: seq<Pair>, ms: seq<Move>, u: Setup, v: Setup, k: nat, left: bool)
    requires IsRun(ds, ms, u, v) && k <= |ms|
    ensures (forall j :: 0 <= j <= k ==> Complete(Facing(ds[j], left))) <==> (forall j :: 0 <= j < k ==> !EarlyAt(ds, ms, j, left))
  {
    hide Step, EarlyAt, Complete;
    if k == 0 {
      NewIsOpen(u, v);
    } else {
      EndsCompleteIff(ds, ms, u, v, k - 1, left);
      if Complete(Facing(ds[k - 1], left)) {
        CompleteStep(ds, ms, u, v, k - 1, left);
      }
    }
  }

  lemma NewIsOpen(u: Setup, v: Setup)
    ensures var d := Pair(Side(NewEnd(u), {}, {}), Side(NewEnd(v), {}, {}));
            Complete(d) && Complete(d.Swapped())
  {
  }

  /**
   * In every run, an endpoint that has become inactive without a reset has received all that
   * the other end wrote, if no segment delivered to it ended its output early.
   */
  lemma DoneHasReceived(ds: seq<Pair>, ms: seq<Move>, u: Setup, v: Setup, k: nat, left: bool)
    requires IsRun(ds, ms, u, v) && k <= |ms| && forall j :: 0 <= j < k ==> !EarlyAt(ds, ms, j, left)
    requires var c := Facing(ds[k], left).a.x.c;
             !c.Active() && !c.rstReceived && !c.rstToSend
    ensures var d := Facing(ds[k], left);
            && |d.a.x.c.r.asm.out.written| == |d.b.x.c.s.stream.written|
            && (AllFit(ds, ms, k, left) ==> d.a.x.c.r.asm.out.written == d.b.x.c.s.stream.written)
  {
    hide Step, EarlyAt, AllFit, AllTimely;
    EndsCompleteIff(ds, ms, u, v, k, left);
    assert Complete(Facing(ds[k], left));
    if AllFit(ds, ms, k, left) {
      DeliveredIsPrefix(ds, ms, u, v, k, !left);
    }
  }
}
