/** What a connection is bound to do: what it hands over, when it resets, gives up, answers and lingers. */
module ConnectionEffects {
  import opened Words
  import opened WrappingIntegers
  import opened ByteStreams
  import opened Segments
  import opened Assembly
  import opened Sending
  import SI = SenderInvariants
  import SR = SenderRuns
  import SW = SenderWindow
  import SE = SenderEffects
  import opened Receiving
  import opened Connecting
  import opened ConnectionRuns

  // What a received segment does to the flags

  /** The sender once it has seen the acknowledgment, if there is one. */
  function SenderAfter(c: Connection, seg: Segment): Sender
    requires c.s.Shaped()
  {
    if seg.header.ack then c.s.AckReceived(seg.header.ackno, seg.header.win) else c.s
  }

  /** The receiver once it has seen the segment, if it occupies sequence numbers. */
  ghost function ReceiverAfter(c: Connection, seg: Segment): Receiver
    requires c.r.Valid()
  {
    if seg.Length() > 0 then c.r.SegmentReceived(seg) else c.r
  }

  /** The segment opens a connection that was not opened. */
  predicate Opens(c: Connection, seg: Segment) {
    seg.header.syn && !seg.header.ack && !c.connectCalled
  }

  /** The segment resets the connection: it was opened, and still is active once sender and receiver have seen the segment. */
  ghost predicate Resets(c: Connection, seg: Segment)
    requires c.Valid()
  {
    seg.header.rst && c.connectCalled && c.(s := SenderAfter(c, seg), r := ReceiverAfter(c, seg)).Active()
  }

  lemma {:induction false} PushKeepsError(a: Assembler, data: seq<Byte>, index: nat, eof: bool)
    requires a.Valid()
    ensures a.Push(data, index, eof).out.error == a.out.error
  {
    StoreKeepsValid(a, data, index, eof);
  }

  lemma ReceiveKeepsError(r: Receiver, seg: Segment)
    requires r.Valid()
    ensures r.SegmentReceived(seg).asm.out.error == r.asm.out.error
  {
    hide Wrap, Unwrap, Assembler.Push, Assembler.Valid;
    if r.Listens(seg) {
      PushKeepsError(r.asm, seg.payload, r.Index(seg), r.Sticky(seg));
    }
  }

  lemma AckKeepsError(c: Connection, seg: Segment)
    requires c.s.Shaped()
    ensures SenderAfter(c, seg).stream.error == c.s.stream.error
  {
    hide Sender.AckAt;
    SR.AckProgress(c.s, c.s.AckValue(seg.header.ackno), seg.header.win);
  }

  /**
   * A reset is honoured exactly when it should be, and then ends the connection with both
   * streams in error.  Apart from that, a segment that does not open the connection only
   * marks the time, and ends lingering exactly if it is a FIN before the own stream is at its end.
   */
  lemma ReceiveEffect(c: Connection, seg: Segment)
    requires c.Valid() && !Opens(c, seg)
    ensures var c', reset := c.SegmentReceived(seg), Resets(c, seg);
            && (c'.rstReceived <==> c.rstReceived || reset)
            && (c'.s.stream.error <==> c.s.stream.error || reset)
            && (c'.r.asm.out.error <==> c.r.asm.out.error || reset)
            && (reset ==> !c'.Active())
            && c'.lastReceived == c.time == c'.time
            && (c'.linger <==> c.linger && !(seg.header.fin && !SenderAfter(c, seg).stream.Eof()))
            && c'.connectCalled == c.connectCalled && c'.rstToSend == c.rstToSend && c'.rtTimeout == c.rtTimeout
            && c'.r == ReceiverAfter(c, seg).(asm := c'.r.asm)
            && c'.r.asm == ReceiverAfter(c, seg).asm.(out := ReceiverAfter(c, seg).asm.out.(error := c'.r.asm.out.error))
  {
    AckKeepsError(c, seg);
    ReceiveKeepsError(c.r, seg);
    AbsorbKeepsValid(c, seg);
    assert c.Absorb(seg) == c.(s := SenderAfter(c, seg), r := ReceiverAfter(c, seg));
    hide Sender.AckReceived, Receiver.SegmentReceived, Sender.SendEmpty, Connection.DressedAll, Receiver.Valid;
  }

  /** The SYN that opens a connection makes it send its own, and does nothing else but reach the receiver. */
  lemma OpenEffect(c: Connection, seg: Segment)
    requires c.Valid() && Opens(c, seg)
    ensures var c' := c.SegmentReceived(seg);
            && c'.connectCalled && c'.r == ReceiverAfter(c, seg) && c'.s == c.s.FillWindow().Drained()
            && c' == c.(connectCalled := true, r := c'.r, s := c'.s, segmentsOut := c'.segmentsOut)
  {
    AbsorbKeepsValid(c, seg);
    assert c.Absorb(seg) == c.(r := ReceiverAfter(c, seg));
    hide Sender.FillWindow, Receiver.SegmentReceived, Connection.DressedAll, Receiver.Valid;
  }

  /** The clock gives a connection up exactly if a ninth retransmission in a row is due or was made; both streams then are in error. */
  lemma TickEffect(c: Connection, ms: nat)
    requires Inv(c)
    ensures c.r.asm.out.Valid()
    ensures var c', count := c.Tick(ms), c.s.consecRetrans + (if SE.Due(c.s, ms) && c.s.windowSize > 0 then 1 else 0);
            && (c'.rstToSend <==> c.rstToSend || count > 8)
            && (c'.s.stream.error <==> c.s.stream.error || count > 8)
            && (c'.r.asm.out.error <==> c.r.asm.out.error || count > 8)
            && c'.time == c.time + ms && c'.s.consecRetrans == count && c'.s.log == c.s.log
            && c'.r == c.r.(asm := c.r.asm.(out := c.r.asm.out.(error := c'.r.asm.out.error)))
            && c'.rstReceived == c.rstReceived && c'.linger == c.linger && c'.lastReceived == c.lastReceived
            && c'.connectCalled == c.connectCalled && c'.rtTimeout == c.rtTimeout
  {
    OutIsValid(c);
    GoodParts(c.s);
    SE.TickEffect(c.s, ms);
    TimedWithout(c.s);
    hide Sender.Tick, Inv, Connection.DressedAll, SI.Inv, SE.CoversNext, SR.Timed;
  }

  lemma GoodParts(s: Sender)
    requires SR.Good(s)
    ensures SI.Inv(s) && SR.Timed(s)
  {
  }

  lemma TimedWithout(s: Sender)
    requires SR.Good(s)
    ensures s.timestamps == [] <==> s.outstanding == []
  {
  }

  /**
   * What the application gives is appended as far as it fits, the end is noted, and then
   * everything is sent that may be; before that, the SYN alone.
   */
  lemma InputEffect(c: Connection, e: Event)
    requires c.Valid() && (e.Write? || e.EndInput? || e.Connect?)
    ensures var c', was := Next(c, e), c.s.stream;
            var data := if e.Write? then e.data else [];
            && c'.s.stream == was.(written := was.written + data[..Min(|data|, was.cap + was.read - |was.written|)],
                                   read := c'.s.stream.read, ended := was.ended || e.EndInput?)
            && (c'.connectCalled <==> c.connectCalled || e.Connect?)
            && c' == c.(s := c'.s, segmentsOut := c'.segmentsOut, connectCalled := c'.connectCalled)
            && c'.s.ackAbs == c.s.ackAbs && c'.s.windowSize == c.s.windowSize && c.s.timestamps <= c'.s.timestamps
            && (if c.s.nextSeqno > 0 then SE.Exhausted(c'.s) else c'.s.nextSeqno == 1)
  {
    hide Sender.FillWindow, Connection.DressedAll, Receiver.Valid;
    var s := if e.Write? then c.s.Write(e.data) else if e.EndInput? then c.s.EndInput() else c.s;
    SE.FillWindowExhausts(s);
    SE.FillWindowAppends(s);
    SR.FillWindowProgress(s);
    FillKeepsStream(s);
  }

  lemma FillKeepsStream(s: Sender)
    requires s.Shaped()
    ensures s.FillWindow().stream == s.stream.(read := s.FillWindow().stream.read)
  {
    if s.nextSeqno > 0 {
      hide Sender.FillWindow;
      SW.FillWindowSends(s);
    } else {
      hide Wrap;
    }
  }

  // What is handed over

  /** The segment with the acknowledgment and window of the receiver once there is one, and RST if the connection was given up. */
  predicate Carries(c: Connection, plain: Segment, seg: Segment) {
    var out := c.r.asm.out;
    && seg.payload == plain.payload
    && seg.header == plain.header.(ack := seg.header.ack, ackno := seg.header.ackno, win := seg.header.win, rst := seg.header.rst)
    && (c.r.syn ==> seg.header.ack && seg.header.ackno == c.r.ack && seg.header.win == Min(out.cap + out.read - |out.written|, 65535))
    && (!c.r.syn ==> seg.header.ack == plain.header.ack && seg.header.ackno == plain.header.ackno && seg.header.win == plain.header.win)
    && (seg.header.rst <==> plain.header.rst || c.rstToSend)
  }

  /** Exactly these segments join the queue of the connection, in order, and none is left with the sender. */
  predicate HandsOver(c: Connection, c': Connection, plain: seq<Segment>) {
    && c.segmentsOut <= c'.segmentsOut && |c'.segmentsOut| == |c.segmentsOut| + |plain|
    && (forall i :: 0 <= i < |plain| ==> Carries(c', plain[i], c'.segmentsOut[|c.segmentsOut| + i]))
    && c'.s.segmentsOut == []
  }

  lemma SendHandsOver(c: Connection)
    requires c.r.asm.out.Valid()
    ensures HandsOver(c, c.SendSegments(), c.s.segmentsOut)
  {
    var c' := c.SendSegments();
    forall i | 0 <= i < |c.s.segmentsOut|
      ensures Carries(c', c.s.segmentsOut[i], c'.segmentsOut[|c.segmentsOut| + i])
    {
      assert c'.segmentsOut[|c.segmentsOut| + i] == c.Dressed(c.s.segmentsOut[i]);
    }
  }

  /** The same, from a connection that differs only in what does not matter here. */
  lemma HandsOverFrom(c: Connection, d: Connection, plain: seq<Segment>)
    requires d.r.asm.out.Valid() && d.segmentsOut == c.segmentsOut && d.s.segmentsOut == plain
    ensures HandsOver(c, d.SendSegments(), plain) && d.SendSegments().s == d.s.Drained()
  {
    hide Carries, Connection.DressedAll;
    SendHandsOver(d);
  }

  /** What the clock sends again. */
  function Again(c: Connection, e: Event): seq<Segment> {
    if e.Tick? && SE.Due(c.s, e.ms) && c.s.outstanding != [] then [c.s.outstanding[0]] else []
  }

  /** A segment that occupies sequence numbers is answered, and one without that is one number behind what is expected. */
  ghost predicate Answers(c: Connection, e: Event)
    requires c.r.Valid()
  {
    && e.Receive? && !Opens(c, e.seg)
    && var r := ReceiverAfter(c, e.seg);
       e.seg.Length() > 0 || (r.syn && e.seg.header.seqno == (if r.ack == 0 then TWO_32 - 1 else r.ack - 1))
  }

  /** The empty segment that answers, at the next sequence number. */
  ghost function Answer(c: Connection, e: Event, s: Sender): seq<Segment>
    requires c.r.Valid()
  {
    if Answers(c, e) then [Segment(BLANK_HEADER.(seqno := Wrap(s.nextSeqno, s.isn)), [])] else []
  }

  /** What event `e` makes the connection hand over: everything sent for the first time, what the clock sends again, and an answer. */
  ghost predicate Hands(c: Connection, e: Event, c': Connection)
    requires c.r.Valid()
  {
    c.s.log <= c'.s.log && HandsOver(c, c', SE.NewSegs(c.s, c'.s) + Again(c, e) + Answer(c, e, c'.s))
  }

  lemma NothingElse(x: seq<Segment>)
    ensures x + [] + [] == x && [] + x + [] == x
  {
  }

  /** The application's input: filling the window, then handing over. */
  lemma FilledHands(c: Connection, e: Event, s: Sender, d: Connection)
    requires c.Valid() && c.s.segmentsOut == [] && s.Shaped() && !e.Tick? && !Answers(c, e)
    requires s.log == c.s.log && s.segmentsOut == []
    requires d.r.asm.out.Valid() && d.segmentsOut == c.segmentsOut && d.s == s.FillWindow()
    ensures Hands(c, e, d.SendSegments())
  {
    hide Answers, HandsOver, Sender.FillWindow, Receiver.Valid, Connection.SendSegments;
    SE.FillWindowAppends(s);
    var more := SE.NewSegs(s, d.s);
    assert d.s.segmentsOut == more;
    HandsOverFrom(c, d, more);
    NothingElse(more);
  }

  lemma InvParts(c: Connection)
    requires Inv(c)
    ensures SR.Good(c.s) && c.Valid() && c.r.Valid() && c.s.Shaped() && c.r.asm.out.Valid()
  {
    hide SR.Good;
  }

  lemma TickQueues(s: Sender, ms: nat)
    requires SR.Good(s) && s.segmentsOut == []
    ensures s.Tick(ms).segmentsOut == (if SE.Due(s, ms) && s.outstanding != [] then [s.outstanding[0]] else [])
    ensures s.Tick(ms).log == s.log
  {
    GoodParts(s);
    SE.TickEffect(s, ms);
    TimedWithout(s);
    hide SR.Good, Sender.Tick, SI.Inv, SE.CoversNext, SR.Timed;
  }

  lemma TickHands(c: Connection, ms: nat)
    requires Inv(c) && c.s.segmentsOut == []
    ensures c.r.Valid() && c.s.Shaped() && c.r.asm.out.Valid() && Hands(c, Tick(ms), c.Tick(ms))
  {
    hide Sender.Tick, Inv, HandsOver, SR.Good, SE.Due, Receiver.Valid, Connection.SendSegments;
    InvParts(c);
    TickQueues(c.s, ms);
    var d := c.(time := c.time + ms, s := c.s.Tick(ms));
    var f := if d.s.consecRetrans > MAX_RETX_ATTEMPTS then d.(rstToSend := true).Failed() else d;
    HandsOverFrom(c, f, Again(c, Tick(ms)));
    assert SE.NewSegs(c.s, f.s) == [];
    NothingElse(Again(c, Tick(ms)));
  }

  lemma AckAppends(s: Sender, ack: nat, win: Word16)
    requires SI.Inv(s) && ack < TWO_64 && !SI.Premature(s, ack)
    ensures var s' := s.AckAt(ack, win);
            s.log <= s'.log && s'.segmentsOut == s.segmentsOut + SE.NewSegs(s, s')
  {
    hide SI.Inv, Sender.AckAt, SE.Exhausted, SE.Remain;
    if s.ackAbs < ack <= s.nextSeqno {
      AckShaped(s, ack, win);
      SE.NewAckEffect(s, ack, win);
    } else {
      SE.OldAckEffect(s, ack, win);
      assert SE.NewSegs(s, s.(windowSize := win)) == [];
    }
  }

  lemma AckShaped(s: Sender, ack: nat, win: Word16)
    requires SI.Inv(s) && ack < TWO_64
    ensures s.AckAt(ack, win).stream.Valid()
  {
    hide SI.Suffix, SI.Tiles, SI.AllGenuine;
  }

  lemma AckQueues(c: Connection, seg: Segment)
    requires SR.Good(c.s) && c.s.Shaped() && Allowed(c, Receive(seg)) && c.s.segmentsOut == []
    ensures var s := SenderAfter(c, seg);
            c.s.log <= s.log && s.segmentsOut == SE.NewSegs(c.s, s) && s.isn == c.s.isn
  {
    hide SI.Inv, SR.Timed, SR.OnlyCopies, Sender.AckAt, Unwrap;
    if seg.header.ack {
      AckAppends(c.s, c.s.AckValue(seg.header.ackno), seg.header.win);
      SR.AckProgress(c.s, c.s.AckValue(seg.header.ackno), seg.header.win);
    } else {
      assert SE.NewSegs(c.s, c.s) == [];
    }
  }

  /** Once sender and receiver have seen a segment, only an answer is added. */
  lemma ReplyQueues(a: Connection, seg: Segment)
    requires a.r.asm.out.Valid()
    ensures var d, answers := a.Reset(seg).Reply(seg), a.NeedsReply(seg);
            && d.r.asm.out.Valid() && d.segmentsOut == a.segmentsOut
            && d.s.log == a.s.log && d.s.nextSeqno == a.s.nextSeqno && d.s.isn == a.s.isn
            && d.s.segmentsOut
               == a.s.segmentsOut + if answers then [Segment(BLANK_HEADER.(seqno := Wrap(a.s.nextSeqno, a.s.isn)), [])] else []
  {
    hide Wrap, Connection.Active;
  }

  lemma AnswersIff(c: Connection, seg: Segment)
    requires c.Valid() && !Opens(c, seg)
    ensures Answers(c, Receive(seg)) <==> c.Absorb(seg).NeedsReply(seg)
  {
    hide Receiver.SegmentReceived, Sender.AckReceived, Receiver.Valid;
  }

  lemma ReceiveHands(c: Connection, seg: Segment)
    requires Inv(c) && Allowed(c, Receive(seg)) && c.s.segmentsOut == [] && !Opens(c, seg)
    ensures c.Valid() && Hands(c, Receive(seg), c.SegmentReceived(seg))
  {
    hide Inv, Allowed, SR.Good, Receiver.Valid, Receiver.SegmentReceived, Sender.AckReceived, Wrap, HandsOver, Answers,
         Connection.SendSegments, Connection.Reset, Connection.Reply, Connection.NeedsReply, Connection.Valid;
    InvParts(c);
    AbsorbKeepsValid(c, seg);
    AckQueues(c, seg);
    var a := c.Absorb(seg);
    assert a.s == SenderAfter(c, seg) && a.segmentsOut == c.segmentsOut && a.connectCalled == c.connectCalled;
    OutIsValid(a);
    ReplyQueues(a, seg);
    AnswersIff(c, seg);
    var d := a.Reset(seg).Reply(seg);
    var plain := SE.NewSegs(c.s, a.s) + [] + Answer(c, Receive(seg), a.s);
    assert d.s.segmentsOut == plain;
    HandsOverFrom(c, d, plain);
  }

  lemma OpenHands(c: Connection, seg: Segment)
    requires Inv(c) && c.s.segmentsOut == [] && Opens(c, seg)
    ensures c.Valid() && Hands(c, Receive(seg), c.SegmentReceived(seg))
  {
    hide Inv, SR.Good, Receiver.Valid, Receiver.SegmentReceived, Sender.FillWindow, Hands, Connection.SendSegments, Connection.Valid;
    InvParts(c);
    AbsorbKeepsValid(c, seg);
    var a := c.Absorb(seg);
    assert a == c.(r := ReceiverAfter(c, seg));
    OutIsValid(a);
    FilledHands(c, Receive(seg), c.s, a.(connectCalled := true, s := c.s.FillWindow()));
  }

  lemma InputHands(c: Connection, e: Event)
    requires Inv(c) && c.s.segmentsOut == [] && (e.Write? || e.EndInput? || e.Connect?)
    ensures c.Valid() && Hands(c, e, Next(c, e))
  {
    hide Inv, SR.Good, Receiver.Valid, Sender.FillWindow, Hands, Connection.SendSegments;
    InvParts(c);
    match e
    case Write(data) => FilledHands(c, e, c.s.Write(data), c.(s := c.s.Write(data).FillWindow()));
    case EndInput => FilledHands(c, e, c.s.EndInput(), c.(s := c.s.EndInput().FillWindow()));
    case Connect => FilledHands(c, e, c.s, c.(connectCalled := true, s := c.s.FillWindow()));
  }

  /**
   * Whatever happens, a connection hands over exactly what its sender sends for the first
   * time, what the clock has it send again, and an answer where one is due, in this order,
   * each with the acknowledgment and window of the moment.
   */
  lemma StepHandsOver(c: Connection, e: Event)
    requires Inv(c) && Allowed(c, e) && c.s.segmentsOut == [] && !e.Transmit?
    ensures c.Valid() && Hands(c, e, Next(c, e))
  {
    hide Inv, Allowed, Connection.SegmentReceived, Connection.Tick, Connection.Valid;
    InvParts(c);
    if e.Receive? {
      if Opens(c, e.seg) {
        OpenHands(c, e.seg);
      } else {
        ReceiveHands(c, e.seg);
      }
    } else if e.Tick? {
      TickHands(c, e.ms);
    } else if e.ReadInbound? {
      ReadHands(c, e.n);
    } else {
      InputHands(c, e);
    }
  }

  lemma ReadHands(c: Connection, n: nat)
    requires c.Valid() && c.s.segmentsOut == []
    ensures Hands(c, ReadInbound(n), Next(c, ReadInbound(n)))
  {
    hide Carries;
    var d := Next(c, ReadInbound(n));
    assert SE.NewSegs(c.s, d.s) == [];
  }

  // Runs

  lemma {:induction false} NothingStaysBehind(cs: seq<Connection>, es: seq<Event>, isn: Word32, rto: nat, sendCap: nat,
                                              recvCap: nat, k: nat)
    requires IsRun(cs, es, isn, rto, sendCap, recvCap) && recvCap > 0 && k < |cs|
    ensures cs[k].s.segmentsOut == []
  {
    hide Inv, Allowed, Next, Connection.Valid;
    if k > 0 {
      assert Step(cs[k - 1], es[k - 1], cs[k]);
      NothingStaysBehind(cs, es, isn, rto, sendCap, recvCap, k - 1);
      EveryRunKeepsInv(cs, es, isn, rto, sendCap, recvCap, k - 1);
      if es[k - 1].Transmit? {
        TransmitKeeps(cs[k - 1]);
      } else {
        StepHandsOver(cs[k - 1], es[k - 1]);
      }
    }
  }

  lemma TransmitKeeps(c: Connection)
    requires c.Valid()
    ensures Next(c, Transmit).s == c.s
  {
  }

  /** In every run, every event but taking the queue hands over exactly that. */
  lemma EveryRunHandsOver(cs: seq<Connection>, es: seq<Event>, isn: Word32, rto: nat, sendCap: nat, recvCap: nat, k: nat)
    requires IsRun(cs, es, isn, rto, sendCap, recvCap) && recvCap > 0 && k < |es| && !es[k].Transmit?
    ensures cs[k].Valid() && Hands(cs[k], es[k], cs[k + 1])
  {
    hide Inv, Allowed, Next, Connection.Valid, Hands;
    assert Step(cs[k], es[k], cs[k + 1]);
    EveryRunKeepsInv(cs, es, isn, rto, sendCap, recvCap, k);
    NothingStaysBehind(cs, es, isn, rto, sendCap, recvCap, k);
    StepHandsOver(cs[k], es[k]);
  }

  /** Reset or given up, or not: both streams are in error exactly then. */
  predicate ErrorsTell(c: Connection) {
    c.s.stream.error == c.r.asm.out.error == (c.rstReceived || c.rstToSend)
  }

  /** Reading takes bytes off the front of the inbound stream, as many as asked for and there are, and does nothing else. */
  lemma ReadEffect(c: Connection, n: nat)
    requires c.Valid()
    ensures var c', out := Next(c, ReadInbound(n)), c.r.asm.out;
            c' == c.(r := c.r.(asm := c.r.asm.(out := out.(read := Min(out.read + n, |out.written|)))))
  {
  }

  /** No reset comes from the application or the queue. */
  lemma QuietEvents(c: Connection, e: Event)
    requires c.Valid() && !e.Receive? && !e.Tick?
    ensures var c' := Next(c, e);
            && c'.rstReceived == c.rstReceived && c'.rstToSend == c.rstToSend
            && c'.s.stream.error == c.s.stream.error && c'.r.asm.out.error == c.r.asm.out.error
  {
    hide Sender.FillWindow, Connection.DressedAll, Receiver.Valid;
    SR.FillWindowProgress(c.s);
    match e
    case Write(data) => SR.FillWindowProgress(c.s.Write(data));
    case EndInput => SR.FillWindowProgress(c.s.EndInput());
    case _ =>
  }

  lemma OpenKeepsErrors(c: Connection, seg: Segment)
    requires c.Valid() && Opens(c, seg)
    ensures var c' := c.SegmentReceived(seg);
            && c'.rstReceived == c.rstReceived && c'.rstToSend == c.rstToSend
            && c'.s.stream.error == c.s.stream.error && c'.r.asm.out.error == c.r.asm.out.error
  {
    hide Sender.FillWindow, Receiver.SegmentReceived, Connection.SegmentReceived, Receiver.Valid;
    OpenEffect(c, seg);
    SR.FillWindowProgress(c.s);
    ReceiveKeepsError(c.r, seg);
  }

  lemma StepKeepsErrors(c: Connection, e: Event)
    requires Inv(c) && c.Valid() && ErrorsTell(c)
    ensures ErrorsTell(Next(c, e))
    ensures c.rstReceived ==> Next(c, e).rstReceived
    ensures c.rstToSend ==> Next(c, e).rstToSend
  {
    hide Inv, Connection.SegmentReceived, Connection.Tick, Connection.Valid, Resets;
    match e
    case Receive(seg) =>
      if Opens(c, seg) {
        OpenKeepsErrors(c, seg);
      } else {
        ReceiveEffect(c, seg);
      }
    case Tick(ms) => TickEffect(c, ms);
    case _ => QuietEvents(c, e);
  }

  /** In every run, both streams are in error exactly if the connection was reset or given up. */
  lemma {:induction false} ErrorsTellOfReset(cs: seq<Connection>, es: seq<Event>, isn: Word32, rto: nat, sendCap: nat,
                                              recvCap: nat, k: nat)
    requires IsRun(cs, es, isn, rto, sendCap, recvCap) && recvCap > 0 && k < |cs|
    ensures ErrorsTell(cs[k])
  {
    hide Inv, Allowed, Next, Connection.Valid;
    if k > 0 {
      assert Step(cs[k - 1], es[k - 1], cs[k]);
      ErrorsTellOfReset(cs, es, isn, rto, sendCap, recvCap, k - 1);
      EveryRunKeepsInv(cs, es, isn, rto, sendCap, recvCap, k - 1);
      hide ErrorsTell;
      StepKeepsErrors(cs[k - 1], es[k - 1]);
    }
  }

  /** In every run, a connection once reset or given up stays so, and is never active again. */
  lemma {:induction false} ResetIsFinal(cs: seq<Connection>, es: seq<Event>, isn: Word32, rto: nat, sendCap: nat, recvCap: nat,
                                        j: nat, k: nat)
    requires IsRun(cs, es, isn, rto, sendCap, recvCap) && recvCap > 0 && j <= k < |cs|
    requires cs[j].rstReceived || cs[j].rstToSend
    ensures (cs[j].rstReceived ==> cs[k].rstReceived) && (cs[j].rstToSend ==> cs[k].rstToSend) && !cs[k].Active()
    decreases k
  {
    hide Inv, Allowed, Next, Connection.Valid, ErrorsTell;
    if j < k {
      ResetIsFinal(cs, es, isn, rto, sendCap, recvCap, j, k - 1);
      assert Step(cs[k - 1], es[k - 1], cs[k]);
      EveryRunKeepsInv(cs, es, isn, rto, sendCap, recvCap, k - 1);
      ErrorsTellOfReset(cs, es, isn, rto, sendCap, recvCap, k - 1);
      StepKeepsErrors(cs[k - 1], es[k - 1]);
    }
  }

  /**
   * In every run: exactly a segment with RST resets, on a connection that was opened and was
   * active once sender and receiver had seen it; it then is inactive with both streams in error.
   */
  lemma ResetIff(cs: seq<Connection>, es: seq<Event>, isn: Word32, rto: nat, sendCap: nat, recvCap: nat, k: nat)
    requires IsRun(cs, es, isn, rto, sendCap, recvCap) && recvCap > 0 && k < |es| && !cs[k].rstReceived
    ensures cs[k].Valid() && (cs[k + 1].rstReceived <==> es[k].Receive? && Resets(cs[k], es[k].seg))
    ensures cs[k + 1].rstReceived ==> cs[k + 1].s.stream.error && cs[k + 1].r.asm.out.error && !cs[k + 1].Active()
  {
    hide Inv, Allowed, Connection.SegmentReceived, Connection.Tick, Connection.Valid, SenderAfter, ReceiverAfter, Connection.Active;
    assert Step(cs[k], es[k], cs[k + 1]);
    EveryRunKeepsInv(cs, es, isn, rto, sendCap, recvCap, k);
    ErrorsTellOfReset(cs, es, isn, rto, sendCap, recvCap, k + 1);
    match es[k]
    case Receive(seg) =>
      if Opens(cs[k], seg) {
        OpenKeepsErrors(cs[k], seg);
      } else {
        ReceiveEffect(cs[k], seg);
      }
    case Tick(ms) => TickEffect(cs[k], ms);
    case _ => QuietEvents(cs[k], es[k]);
  }

  lemma FillCounts(s: Sender)
    requires s.Shaped()
    ensures s.FillWindow().consecRetrans == s.consecRetrans
  {
    hide Sender.FillWindow;
    SE.FillWindowAppends(s);
  }

  lemma AckCounts(s: Sender, ack: nat, win: Word16)
    requires s.Shaped() && ack < TWO_64
    ensures s.AckAt(ack, win).consecRetrans <= s.consecRetrans
  {
    hide Sender.FillWindow;
    var w := s.(windowSize := win);
    if w.Accepts(ack) {
      FillCounts(w.Acknowledge(ack));
    }
  }

  lemma OnlyTheClockCounts(c: Connection, e: Event)
    requires c.Valid() && !e.Tick?
    ensures Next(c, e).s.consecRetrans <= c.s.consecRetrans
  {
    hide Sender.FillWindow, Sender.AckAt, Receiver.SegmentReceived, Connection.DressedAll, Connection.Active, Wrap, Unwrap;
    FillCounts(c.s);
    match e
    case Receive(seg) =>
      AbsorbKeepsValid(c, seg);
      AckCounts(c.s, c.s.AckValue(seg.header.ackno), seg.header.win);
    case Write(data) => FillCounts(c.s.Write(data));
    case EndInput => FillCounts(c.s.EndInput());
    case _ =>
  }

  lemma {:induction false} FewRetransmissions(cs: seq<Connection>, es: seq<Event>, isn: Word32, rto: nat, sendCap: nat,
                                              recvCap: nat, k: nat)
    requires IsRun(cs, es, isn, rto, sendCap, recvCap) && recvCap > 0 && k < |cs|
    ensures cs[k].rstToSend || cs[k].s.consecRetrans <= 8
  {
    hide Inv, Allowed, Next, Connection.Valid, SE.Due;
    if k > 0 {
      assert Step(cs[k - 1], es[k - 1], cs[k]);
      FewRetransmissions(cs, es, isn, rto, sendCap, recvCap, k - 1);
      EveryRunKeepsInv(cs, es, isn, rto, sendCap, recvCap, k - 1);
      ErrorsTellOfReset(cs, es, isn, rto, sendCap, recvCap, k - 1);
      hide ErrorsTell;
      StepKeepsErrors(cs[k - 1], es[k - 1]);
      if es[k - 1].Tick? {
        NextTick(cs[k - 1], es[k - 1].ms);
      } else {
        OnlyTheClockCounts(cs[k - 1], es[k - 1]);
      }
    }
  }

  /** A tick that is due hands over one segment, the oldest outstanding one. */
  lemma TickHandsOne(c: Connection, ms: nat, c': Connection)
    requires c.r.Valid() && Hands(c, Tick(ms), c') && SE.Due(c.s, ms) && c.s.outstanding != [] && c'.s.log == c.s.log
    ensures |c'.segmentsOut| == |c.segmentsOut| + 1 && Carries(c', c.s.outstanding[0], c'.segmentsOut[|c.segmentsOut|])
  {
    hide Carries, SE.Due, Receiver.Valid;
    assert SE.NewSegs(c.s, c'.s) == [];
    var plain := [c.s.outstanding[0]];
    NothingElse(plain);
    assert HandsOver(c, c', plain);
    assert Carries(c', plain[0], c'.segmentsOut[|c.segmentsOut| + 0]);
  }

  /** The tick that makes the ninth retransmission in a row gives the connection up. */
  predicate GivesUp(c: Connection, e: Event) {
    e.Tick? && c.s.consecRetrans == 8 && SE.Due(c.s, e.ms) && c.s.windowSize > 0
  }

  /** The oldest outstanding segment went out once more, with RST. */
  predicate SentReset(c: Connection, c': Connection) {
    && c.s.outstanding != [] && |c'.segmentsOut| == |c.segmentsOut| + 1
    && var oldest, seg := c.s.outstanding[0], c'.segmentsOut[|c.segmentsOut|];
       && seg.payload == oldest.payload && seg.header.rst
       && seg.header.seqno == oldest.header.seqno && seg.header.syn == oldest.header.syn && seg.header.fin == oldest.header.fin
  }

  lemma GivingUpSendsReset(c: Connection, e: Event)
    requires Inv(c) && c.Valid() && c.s.segmentsOut == [] && GivesUp(c, e) && Next(c, e).rstToSend
    ensures SentReset(c, Next(c, e))
  {
    hide Inv, Next, Connection.Valid, Hands, SE.Due, SR.Good;
    InvParts(c);
    TimedWithout(c.s);
    DueMeansStamped(c.s, e.ms);
    NextTick(c, e.ms);
    StepHandsOver(c, e);
    TickHandsOne(c, e.ms, Next(c, e));
  }

  /** In every run: a connection is given up exactly by the tick that makes the ninth retransmission in a row, which goes out with RST. */
  lemma GivesUpIff(cs: seq<Connection>, es: seq<Event>, isn: Word32, rto: nat, sendCap: nat, recvCap: nat, k: nat)
    requires IsRun(cs, es, isn, rto, sendCap, recvCap) && recvCap > 0 && k < |es| && !cs[k].rstToSend
    ensures cs[k + 1].rstToSend <==> GivesUp(cs[k], es[k])
    ensures cs[k + 1].rstToSend ==>
              cs[k + 1].s.stream.error && cs[k + 1].r.asm.out.error && !cs[k + 1].Active() && SentReset(cs[k], cs[k + 1])
  {
    hide Inv, Allowed, Next, Connection.Valid, SE.Due, SentReset;
    assert Step(cs[k], es[k], cs[k + 1]);
    EveryRunKeepsInv(cs, es, isn, rto, sendCap, recvCap, k);
    FewRetransmissions(cs, es, isn, rto, sendCap, recvCap, k);
    ErrorsTellOfReset(cs, es, isn, rto, sendCap, recvCap, k + 1);
    NothingStaysBehind(cs, es, isn, rto, sendCap, recvCap, k);
    if es[k].Tick? {
      NextTick(cs[k], es[k].ms);
    } else if cs[k + 1].rstToSend {
      OnlyTheClockGivesUp(cs[k], es[k]);
    }
    if cs[k + 1].rstToSend {
      GivingUpSendsReset(cs[k], es[k]);
    }
  }

  lemma DueMeansStamped(s: Sender, ms: nat)
    requires SE.Due(s, ms)
    ensures s.timestamps != []
  {
  }

  lemma NextTick(c: Connection, ms: nat)
    requires Inv(c) && c.Valid()
    ensures Next(c, Tick(ms)).rstToSend
            <==> c.rstToSend || c.s.consecRetrans + (if SE.Due(c.s, ms) && c.s.windowSize > 0 then 1 else 0) > 8
    ensures Next(c, Tick(ms)).s.log == c.s.log
    ensures Next(c, Tick(ms)).s.consecRetrans == c.s.consecRetrans + (if SE.Due(c.s, ms) && c.s.windowSize > 0 then 1 else 0)
  {
    hide Inv, Connection.Tick;
    TickEffect(c, ms);
  }
}
