/** One endpoint of a connection as a value: sender, receiver and the connection's own flags. */
module Connecting {
  import opened Words
  import opened WrappingIntegers
  import opened ByteStreams
  import opened Segments
  import opened Assembly
  import opened Sending
  import SI = SenderInvariants
  import SF = SenderFacts
  import SR = SenderRuns
  import SW = SenderWindow
  import opened Receiving

  const MAX_RETX_ATTEMPTS: nat := 8

  datatype Connection = Connection(rtTimeout: nat, s: Sender, r: Receiver, segmentsOut: seq<Segment>, linger: bool,
                                   lastReceived: nat, time: nat, rstReceived: bool, rstToSend: bool, connectCalled: bool)
  {
    ghost predicate Valid() {
      s.Shaped() && r.Valid()
    }

    /** An outgoing segment with the receiver's acknowledgment and window, and RST if the connection was given up. */
    function Dressed(seg: Segment): Segment
      requires r.asm.out.Valid()
    {
      var h := if r.syn then seg.header.(ack := true, ackno := r.ack, win := Min(r.WindowSize(), TWO_16 - 1)) else seg.header;
      seg.(header := if rstToSend then h.(rst := true) else h)
    }

    function DressedAll(segs: seq<Segment>): seq<Segment>
      requires r.asm.out.Valid()
    {
      seq(|segs|, i requires 0 <= i < |segs| => Dressed(segs[i]))
    }

    /** Moves the sender's queue to the connection's queue. */
    function SendSegments(): Connection
      requires r.asm.out.Valid()
    {
      this.(segmentsOut := segmentsOut + DressedAll(s.segmentsOut), s := s.Drained())
    }

    function Failed(): Connection {
      this.(s := s.(stream := s.stream.Fail()), r := r.(asm := r.asm.(out := r.asm.out.Fail())))
    }

    /** Both streams are at their end and nothing is in flight. */
    predicate StreamsFinished() {
      r.asm.out.Eof() && s.bytesFlying == 0 && s.stream.Eof()
    }

    predicate Active() {
      && !rstReceived && !rstToSend
      && (StreamsFinished() ==> linger && time - lastReceived < 10 * rtTimeout)
    }

    function Connect(): Connection
      requires s.Shaped() && r.asm.out.Valid()
    {
      this.(connectCalled := true, s := s.FillWindow()).SendSegments()
    }

    /** First the sender sees the acknowledgment, then the receiver the rest. */
    ghost function Absorb(seg: Segment): Connection
      requires Valid()
    {
      this.(s := if seg.header.ack then s.AckReceived(seg.header.ackno, seg.header.win) else s,
            r := if seg.Length() != 0 then r.SegmentReceived(seg) else r)
    }

    function Reset(seg: Segment): Connection {
      if seg.header.rst && connectCalled && Active() then this.(rstReceived := true).Failed() else this
    }

    /** A segment that occupies sequence numbers, or a keep-alive, is answered. */
    predicate NeedsReply(seg: Segment) {
      seg.Length() > 0 || (r.syn && seg.header.seqno == U32(r.ack - 1))
    }

    function Reply(seg: Segment): Connection {
      this.(lastReceived := time,
            s := if NeedsReply(seg) then s.SendEmpty() else s,
            linger := linger && !(seg.header.fin && !s.stream.Eof()))
    }

    /** What the connection does about a segment that sender and receiver have seen. */
    function Respond(seg: Segment): Connection
      requires s.Shaped() && r.asm.out.Valid()
    {
      if seg.header.syn && !seg.header.ack && !connectCalled then Connect()
      else Reset(seg).Reply(seg).SendSegments()
    }

    ghost function SegmentReceived(seg: Segment): Connection
      requires Valid()
    {
      AbsorbKeepsValid(this, seg);
      Absorb(seg).Respond(seg)
    }

    function Write(data: seq<Byte>): Connection
      requires s.Shaped() && r.asm.out.Valid()
    {
      this.(s := s.Write(data).FillWindow()).SendSegments()
    }

    function EndInputStream(): Connection
      requires s.Shaped() && r.asm.out.Valid()
    {
      this.(s := s.EndInput().FillWindow()).SendSegments()
    }

    function Tick(ms: nat): Connection
      requires s.Shaped() && r.asm.out.Valid()
    {
      var c := this.(time := time + ms, s := s.Tick(ms));
      (if c.s.consecRetrans > MAX_RETX_ATTEMPTS then c.(rstToSend := true).Failed() else c).SendSegments()
    }

    function ReadInbound(n: nat): Connection
      requires r.asm.out.Valid()
    {
      this.(r := r.Read(n))
    }
  }

  lemma OutIsValid(c: Connection)
    requires c.Valid()
    ensures c.r.asm.out.Valid()
  {
  }

  lemma AbsorbKeepsValid(c: Connection, seg: Segment)
    requires c.Valid()
    ensures c.Absorb(seg).Valid()
  {
    hide Wrap, Unwrap, Assembler.Push, Assembler.Valid, Sender.AckReceived, Receiver.Take;
    TakeKeepsValid(c.r, seg, c.r.Index(seg));
  }

  // What does not depend on the values of received bytes

  /** Equal but for the values of bytes held or written by the receiver. */
  ghost predicate AlikeEnds(c: Connection, d: Connection) {
    c == d.(r := c.r) && Alike(c.r, d.r)
  }

  lemma DressedAlike(c: Connection, d: Connection, segs: seq<Segment>)
    requires AlikeEnds(c, d) && c.r.asm.out.Valid() && d.r.asm.out.Valid()
    ensures c.DressedAll(segs) == d.DressedAll(segs)
  {
    forall i | 0 <= i < |segs|
      ensures c.DressedAll(segs)[i] == d.DressedAll(segs)[i]
    {
      assert c.Dressed(segs[i]) == d.Dressed(segs[i]);
    }
  }

  lemma SendsAlike(c: Connection, d: Connection)
    requires AlikeEnds(c, d) && c.r.asm.out.Valid() && d.r.asm.out.Valid()
    ensures AlikeEnds(c.SendSegments(), d.SendSegments())
  {
    hide Connection.DressedAll, Alike;
    DressedAlike(c, d, c.s.segmentsOut);
  }

  lemma ResetsAlike(c: Connection, d: Connection, seg: Segment)
    requires AlikeEnds(c, d) && c.r.asm.out.Valid() && d.r.asm.out.Valid()
    ensures AlikeEnds(c.Reset(seg).Reply(seg), d.Reset(seg).Reply(seg))
    ensures c.Reset(seg).Reply(seg).r.asm.out.Valid() && d.Reset(seg).Reply(seg).r.asm.out.Valid()
  {
    hide Sender.SendEmpty;
  }

  /** Flags, acknowledgments, windows and replies do not depend on the values of received bytes. */
  lemma RespondsAlike(c: Connection, d: Connection, seg: Segment)
    requires AlikeEnds(c, d) && c.Valid() && d.Valid()
    ensures c.r.asm.out.Valid() && d.r.asm.out.Valid()
    ensures AlikeEnds(c.Respond(seg), d.Respond(seg))
  {
    hide Connection.SendSegments, Connection.Reset, Connection.Reply, Sender.FillWindow;
    ResetsAlike(c, d, seg);
    SendsAlike(c.Reset(seg).Reply(seg), d.Reset(seg).Reply(seg));
    SendsAlike(c.(connectCalled := true, s := c.s.FillWindow()), d.(connectCalled := true, s := d.s.FillWindow()));
  }

  function InitialConnection(isn: Word32, rto: nat, sendCap: nat, recvCap: nat): Connection {
    Connection(rto, InitialSender(isn, rto, sendCap), InitialReceiver(recvCap), [], true, 0, 0, false, false, false)
  }

  /** A sender whose stream is exhausted and has nothing in flight has sent its FIN. */
  predicate FinFollows(s: Sender) {
    s.stream.Eof() && s.bytesFlying == 0 ==> s.finSent
  }

  ghost predicate Inv(c: Connection) {
    SR.Good(c.s) && c.Valid() && FinFollows(c.s) && c.s.initialRto == c.rtTimeout
  }

  /** Everything the application wrote, and the FIN, was sent and acknowledged. */
  predicate FullyAcknowledged(s: Sender) {
    && s.finSent && s.stream.Eof() && s.outstanding == []
    && s.ackAbs == s.nextSeqno == |s.stream.written| + 2
  }

  lemma FinishedMeansAcknowledged(s: Sender)
    requires SI.Inv(s) && FinFollows(s) && s.stream.Eof() && s.bytesFlying == 0
    ensures FullyAcknowledged(s)
  {
    hide SI.Suffix, SI.Tiles, SI.AllGenuine;
    SF.OutstandingIffFlying(s);
  }

  /** After filling the window nothing is left unsent with nothing in flight. */
  lemma FillLeavesFinFollowing(s: Sender)
    requires s.Shaped() && SI.Accounts(s)
    ensures FinFollows(s.FillWindow())
  {
    if s.nextSeqno > 0 {
      hide Sender.FillWindow;
      SW.FillWindowSends(s);
    }
  }

  lemma AckLeavesFinFollowing(s: Sender, ack: nat, win: Word16)
    requires SI.Inv(s) && FinFollows(s) && ack < TWO_64 && !SI.Premature(s, ack)
    ensures FinFollows(s.AckAt(ack, win))
  {
    hide Sender.FillWindow, SI.Suffix, SI.Tiles, SI.AllGenuine;
    var w := s.(windowSize := win);
    if w.Accepts(ack) {
      SI.WindowIsFree(s, win);
      SI.AcknowledgeKeepsInv(w, ack);
      FillLeavesFinFollowing(w.Acknowledge(ack));
    }
  }

  // Steps

  datatype Event =
    | Receive(seg: Segment) | Write(data: seq<Byte>) | EndInput | Tick(ms: nat) | Connect | ReadInbound(n: nat) | Transmit

  ghost function Next(c: Connection, e: Event): Connection
    requires c.Valid()
  {
    match e
    case Receive(seg) => c.SegmentReceived(seg)
    case Write(data) => c.Write(data)
    case EndInput => c.EndInputStream()
    case Tick(ms) => c.Tick(ms)
    case Connect => c.Connect()
    case ReadInbound(n) => c.ReadInbound(n)
    case Transmit => c.(segmentsOut := [])
  }

  /** No write after the end, and no acknowledgment of a SYN that was not sent. */
  predicate Allowed(c: Connection, e: Event) {
    match e
    case Receive(seg) => seg.header.ack ==> !SI.Premature(c.s, c.s.AckValue(seg.header.ackno))
    case Write(_) => !c.s.stream.ended
    case _ => true
  }

  /** The sender's part of the invariant. */
  predicate SenderPart(s: Sender) {
    SR.Good(s) && FinFollows(s)
  }

  lemma FillKeepsPart(s: Sender)
    requires SR.Good(s)
    ensures SenderPart(s.FillWindow()) && s.FillWindow().initialRto == s.initialRto
  {
    hide Sender.FillWindow, SR.Timed, SR.OnlyCopies, SI.AllGenuine, SI.Tiles, SI.Suffix;
    SR.FillKeepsGood(s);
    FillLeavesFinFollowing(s);
  }

  lemma QueueKeepsPart(s: Sender, op: SR.Op)
    requires SenderPart(s) && (op.Empty? || op.Drain?)
    ensures SenderPart(SR.Apply(s, op)) && SR.Apply(s, op).initialRto == s.initialRto
  {
    hide SR.Good;
    SR.StepKeepsGood(s, op);
  }

  lemma FailKeepsGood(s: Sender)
    requires SR.Good(s)
    ensures SR.Good(s.(stream := s.stream.Fail()))
  {
    hide SI.Tiles, SI.Suffix, SR.OnlyCopies, SR.Timed;
    SI.GenuineGrows(s.log, s.isn, s.stream, s.stream.Fail());
    TimedIgnoresError(s);
    hide SI.AllGenuine;
  }

  lemma FailKeepsPart(s: Sender)
    requires SenderPart(s)
    ensures SenderPart(s.(stream := s.stream.Fail()))
  {
    hide SR.Good;
    FailKeepsGood(s);
  }

  lemma TimedIgnoresError(s: Sender)
    requires SR.Timed(s)
    ensures SR.Timed(s.(stream := s.stream.Fail()))
  {
  }

  lemma AckKeepsPart(s: Sender, ackno: Word32, win: Word16)
    requires SenderPart(s) && !SI.Premature(s, s.AckValue(ackno))
    ensures var s' := s.AckReceived(ackno, win);
            SenderPart(s') && s'.initialRto == s.initialRto
  {
    hide Sender.AckAt, SR.Timed, SR.OnlyCopies, SI.AllGenuine, SI.Tiles, SI.Suffix, Unwrap, SI.Premature, SI.Accounts;
    SR.AckKeepsGood(s, ackno, win);
    AckLeavesFinFollowing(s, s.AckValue(ackno), win);
  }

  lemma TickKeepsPart(s: Sender, ms: nat)
    requires SenderPart(s)
    ensures SenderPart(s.Tick(ms)) && s.Tick(ms).initialRto == s.initialRto && SR.Timed(s.Tick(ms))
  {
    hide SR.Timed, SR.OnlyCopies, SI.Inv;
    SR.TickKeepsGood(s, ms);
  }

  lemma InvSender(c: Connection)
    requires Inv(c)
    ensures SenderPart(c.s) && c.Valid()
  {
  }

  lemma ReceiverFailValid(r: Receiver)
    requires r.Valid()
    ensures r.(asm := r.asm.(out := r.asm.out.Fail())).Valid()
  {
  }

  lemma SendKeepsInv(c: Connection)
    requires Inv(c)
    ensures Inv(c.SendSegments())
  {
    hide SR.Good, Receiver.Valid;
    QueueKeepsPart(c.s, SR.Drain);
  }

  lemma FailKeepsInv(c: Connection)
    requires Inv(c)
    ensures Inv(c.Failed())
  {
    hide SR.Good, Receiver.Valid;
    FailKeepsPart(c.s);
    ReceiverFailValid(c.r);
  }

  lemma ReplyKeepsInv(c: Connection, seg: Segment)
    requires Inv(c)
    ensures Inv(c.Reply(seg))
  {
    hide SR.Good, Receiver.Valid;
    QueueKeepsPart(c.s, SR.Empty);
  }

  lemma AbsorbKeepsInv(c: Connection, seg: Segment)
    requires Inv(c) && Allowed(c, Receive(seg))
    ensures Inv(c.Absorb(seg))
  {
    hide SR.Good, Receiver.Valid, Receiver.SegmentReceived, Sender.AckReceived, SI.Premature, FinFollows;
    AbsorbKeepsValid(c, seg);
    if seg.header.ack {
      AckKeepsPart(c.s, seg.header.ackno, seg.header.win);
    }
  }

  lemma ConnectKeepsInv(c: Connection)
    requires Inv(c)
    ensures Inv(c.Connect())
  {
    hide SR.Good, Receiver.Valid, Sender.FillWindow, FinFollows, Connection.SendSegments;
    FillKeepsPart(c.s);
    SendKeepsInv(c.(connectCalled := true, s := c.s.FillWindow()));
  }

  lemma ReceiveKeepsInv(c: Connection, seg: Segment)
    requires Inv(c) && Allowed(c, Receive(seg))
    ensures Inv(c.SegmentReceived(seg))
  {
    hide Inv, Allowed, Connection.Absorb, Connection.Valid, Connection.Connect, Connection.SendSegments, Connection.Reply,
         Connection.Failed, Connection.Active;
    InvSender(c);
    AbsorbKeepsInv(c, seg);
    var d := c.Absorb(seg);
    InvSender(d);
    ConnectKeepsInv(d);
    ResetKeepsInv(d, seg);
    ReplyKeepsInv(d.Reset(seg), seg);
    SendKeepsInv(d.Reset(seg).Reply(seg));
    AbsorbFlags(c, seg);
  }

  lemma AbsorbFlags(c: Connection, seg: Segment)
    requires c.Valid()
    ensures c.Absorb(seg).connectCalled == c.connectCalled
  {
  }

  lemma ResetKeepsInv(c: Connection, seg: Segment)
    requires Inv(c)
    ensures Inv(c.Reset(seg))
  {
    hide Connection.Failed, SR.Good, Receiver.Valid, FinFollows;
    FailKeepsInv(c.(rstReceived := true));
  }

  lemma WriteKeepsInv(c: Connection, data: seq<Byte>)
    requires Inv(c) && !c.s.stream.ended
    ensures Inv(c.Write(data))
  {
    hide SR.Good, Receiver.Valid, Sender.FillWindow, FinFollows, Connection.SendSegments, SR.Progress;
    SR.StepKeepsGood(c.s, SR.Op.Write(data));
    FillKeepsPart(c.s.Write(data));
    SendKeepsInv(c.(s := c.s.Write(data).FillWindow()));
  }

  lemma EndKeepsInv(c: Connection)
    requires Inv(c)
    ensures Inv(c.EndInputStream())
  {
    hide SR.Good, Receiver.Valid, Sender.FillWindow, FinFollows, Connection.SendSegments, SR.Progress;
    SR.StepKeepsGood(c.s, SR.End);
    FillKeepsPart(c.s.EndInput());
    SendKeepsInv(c.(s := c.s.EndInput().FillWindow()));
  }

  lemma TickKeepsInv(c: Connection, ms: nat)
    requires Inv(c)
    ensures Inv(c.Tick(ms))
  {
    hide SR.Good, Receiver.Valid, Sender.Tick, FinFollows, Connection.SendSegments, Connection.Failed;
    TickKeepsPart(c.s, ms);
    var d := c.(time := c.time + ms, s := c.s.Tick(ms));
    FailKeepsInv(d.(rstToSend := true));
    SendKeepsInv(d);
    SendKeepsInv(d.(rstToSend := true).Failed());
  }

  lemma StepKeepsInv(c: Connection, e: Event)
    requires Inv(c) && Allowed(c, e)
    ensures Inv(Next(c, e))
  {
    hide SR.Good, Connection.SegmentReceived, Connection.Write, Connection.EndInputStream, Connection.Tick, Connection.Connect, Held;
    match e
    case Receive(seg) => ReceiveKeepsInv(c, seg);
    case Write(data) => WriteKeepsInv(c, data);
    case EndInput => EndKeepsInv(c);
    case Tick(ms) => TickKeepsInv(c, ms);
    case Connect => ConnectKeepsInv(c);
    case ReadInbound(n) =>
    case Transmit =>
  }
}
