/** What the sender does in the plain cases, in terms of the fields that decide it. */
module SenderCases {
  import opened Words
  import opened WrappingIntegers
  import opened ByteStreams
  import opened Segments
  import opened Sending

  /** The fields that decide what is sent next. */
  datatype Core = Core(isn: Word32, stream: StreamState, next: nat, acked: nat, flying: nat, win: nat, fin: bool, queue: seq<Segment>)

  function CoreOf(s: Sender): Core {
    Core(s.isn, s.stream, s.nextSeqno, s.ackAbs, s.bytesFlying, s.windowSize, s.finSent, s.segmentsOut)
  }

  /** The core after a segment with `n` bytes of the stream went out. */
  function Sends(c: Core, syn: bool, n: nat, fin: bool): Core
    requires c.stream.Valid() && n <= |c.stream.Buffered()|
  {
    var seg := MakeSegment(Wrap(c.next, c.isn), syn, fin, c.stream.Buffered()[..n]);
    c.(stream := c.stream.Pop(n), next := c.next + seg.Length(), flying := c.flying + seg.Length(), fin := c.fin || fin,
       queue := c.queue + [seg])
  }

  lemma EmitIs(s: Sender, syn: bool, n: nat, fin: bool)
    requires s.Shaped() && n <= |s.stream.Buffered()|
    ensures CoreOf(s.Emit(syn, n, fin)) == Sends(CoreOf(s), syn, n, fin)
  {
    hide Wrap;
  }

  lemma FillSendsSyn(s: Sender)
    requires s.Shaped() && s.nextSeqno == 0
    ensures CoreOf(s.FillWindow()) == Sends(CoreOf(s), true, 0, false)
  {
    hide Sender.Emit, Sends;
    EmitIs(s, true, 0, false);
  }

  lemma FillSendsNothing(s: Sender)
    requires s.Shaped() && s.nextSeqno > 0 && s.stream.Buffered() == [] && !s.stream.ended
    ensures s.FillWindow() == s
  {
  }

  lemma FillSendsFin(s: Sender)
    requires s.Shaped() && s.nextSeqno > 0 && s.stream.Eof() && !s.finSent && s.windowSize > s.bytesFlying
    ensures CoreOf(s.FillWindow()) == Sends(CoreOf(s), false, 0, true)
  {
    hide Sender.Emit, Sends;
    EmitIs(s, false, 0, true);
  }

  /** One segment takes all that is buffered, or all the window allows. */
  lemma FillSendsOne(s: Sender, n: nat)
    requires s.Shaped() && s.nextSeqno > 0 && !s.stream.ended && s.windowSize > s.bytesFlying
    requires 0 < n == Min(|s.stream.Buffered()|, s.windowSize - s.bytesFlying) <= MAX_PAYLOAD_SIZE
    ensures CoreOf(s.FillWindow()) == Sends(CoreOf(s), false, n, false)
  {
    hide Sender.Emit, Sends;
    EmitIs(s, false, n, false);
    var t := s.Emit(false, n, false);
    SentCore(CoreOf(s), n);
    assert t.FillLoop() == t;
  }

  lemma SentCore(c: Core, n: nat)
    requires c.stream.Valid() && n <= |c.stream.Buffered()|
    ensures var d := Sends(c, false, n, false);
            && d.stream.Valid() && |d.stream.Buffered()| == |c.stream.Buffered()| - n
            && d.flying == c.flying + n && d.win == c.win && d.fin == c.fin
  {
    hide Wrap;
  }

  /** An acknowledgment that the sender reads as `v`: the core before new segments go out. */
  function Acked(c: Core, v: nat, win: Word16): Core
    requires v <= c.acked + c.flying
  {
    if v <= c.acked then c.(win := win) else c.(win := win, acked := v, flying := c.flying - (v - c.acked))
  }

  lemma AckIsRead(s: Sender, ackno: Word32, v: nat)
    requires ackno == Wrap(v, s.isn) && 0 < v && s.stream.read <= TWO_63 && Abs(v - s.stream.read) < TWO_31
    ensures s.AckValue(ackno) == v
  {
    hide Wrap, Unwrap;
    UnwrapOfWrap(v, s.isn, s.stream.read);
  }

  /** An old acknowledgment only sets the window. */
  lemma OldAckIs(s: Sender, ackno: Word32, win: Word16, v: nat)
    requires s.Shaped() && s.AckValue(ackno) == v <= s.ackAbs
    ensures s.AckReceived(ackno, win) == s.(windowSize := win)
  {
    hide Unwrap;
  }

  /** A new one releases what it covers, and the window is filled unless the FIN was sent. */
  lemma NewAckIs(s: Sender, ackno: Word32, win: Word16, v: nat)
    requires s.Shaped() && s.AckValue(ackno) == v && s.ackAbs < v <= s.nextSeqno == s.ackAbs + s.bytesFlying
    requires s.nextSeqno == 1 + s.stream.read + (if s.finSent then 1 else 0)
    ensures var t := s.(windowSize := win).Acknowledge(v);
            && t.Shaped() && CoreOf(t) == Acked(CoreOf(s), v, win)
            && s.AckReceived(ackno, win) == if t.MayFill() then t.FillWindow() else t
  {
    hide Unwrap, Sender.FillWindow;
  }
}
