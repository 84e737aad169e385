/** What every operation of the sender keeps. */
module SenderInvariants {
  import opened Words
  import opened WrappingIntegers
  import opened ByteStreams
  import opened Segments
  import opened Sending

  /** Sequence numbers sent are those acknowledged plus those in flight; each byte, SYN and FIN has one. */
  predicate Accounts(s: Sender) {
    && s.nextSeqno == s.ackAbs + s.bytesFlying
    && (s.nextSeqno == 0 ==> s.stream.read == 0 && !s.finSent)
    && (s.nextSeqno > 0 ==> s.nextSeqno == 1 + s.stream.read + (if s.finSent then 1 else 0))
    && (s.finSent ==> s.stream.Eof())
  }

  /** The segment is the SYN, or carries the bytes of the stream that its number stands for, and a FIN only at the very end. */
  predicate Genuine(t: Sent, isn: Word32, stream: StreamState) {
    var fin, payload := t.seg.header.fin, t.seg.payload;
    && t.seg == MakeSegment(Wrap(t.start, isn), t.start == 0, fin, payload)
    && t.seg.Length() > 0
    && (t.start == 0 ==> !fin && payload == [])
    && (t.start > 0 ==>
          && t.start - 1 + |payload| <= |stream.written|
          && payload == stream.written[t.start - 1..t.start - 1 + |payload|]
          && (fin ==> stream.ended && t.start - 1 + |payload| == |stream.written|))
  }

  predicate AllGenuine(log: seq<Sent>, isn: Word32, stream: StreamState) {
    forall i :: 0 <= i < |log| ==> Genuine(log[i], isn, stream)
  }

  function LogEnd(log: seq<Sent>): nat {
    if log == [] then 0 else log[|log| - 1].End()
  }

  /** Original transmissions follow each other without gap or overlap, from number zero up to `end`. */
  predicate Tiles(log: seq<Sent>, end: nat) {
    && (forall i :: 0 <= i < |log| ==> log[i].start == LogEnd(log[..i]))
    && end == LogEnd(log)
  }

  /** The deques hold exactly the original transmissions from the first not fully acknowledged one on. */
  predicate Suffix(log: seq<Sent>, outstanding: seq<Segment>, seqnos: seq<nat>, ackAbs: nat) {
    && |outstanding| == |seqnos| <= |log|
    && var k := |log| - |outstanding|;
       && (forall i :: 0 <= i < |outstanding| ==> outstanding[i] == log[k + i].seg && seqnos[i] == log[k + i].End())
       && LogEnd(log[..k]) <= ackAbs
       && (outstanding != [] ==> ackAbs < seqnos[0])
  }

  /** The sender's invariant. */
  predicate Inv(s: Sender) {
    && s.Shaped() && Accounts(s)
    && AllGenuine(s.log, s.isn, s.stream)
    && Tiles(s.log, s.nextSeqno)
    && Suffix(s.log, s.outstanding, s.seqnos, s.ackAbs)
  }

  lemma InitialInv(isn: Word32, rto: nat, cap: nat)
    ensures Inv(InitialSender(isn, rto, cap))
  {
  }

  // Emitting a segment

  /** What the code guarantees of the flags and the size whenever it emits a segment. */
  predicate EmitOk(s: Sender, syn: bool, n: nat, fin: bool) {
    && s.Shaped() && n <= |s.stream.Buffered()|
    && (if s.nextSeqno == 0 then syn && n == 0 && !fin
        else !syn && !s.finSent && (n > 0 || fin) && (fin ==> s.stream.ended && n == |s.stream.Buffered()|))
  }

  lemma EmitGenuine(s: Sender, syn: bool, n: nat, fin: bool)
    requires Accounts(s) && EmitOk(s, syn, n, fin)
    ensures var s' := s.Emit(syn, n, fin);
            Genuine(s'.log[|s.log|], s'.isn, s'.stream)
  {
    hide Wrap;
    if s.nextSeqno > 0 {
      assert s.stream.Buffered()[..n] == s.stream.written[s.stream.read..s.stream.read + n];
    }
  }

  lemma EmitAccounts(s: Sender, syn: bool, n: nat, fin: bool)
    requires Accounts(s) && EmitOk(s, syn, n, fin)
    ensures Accounts(s.Emit(syn, n, fin))
  {
    hide Wrap;
  }

  lemma TilesSnoc(log: seq<Sent>, end: nat, t: Sent)
    requires Tiles(log, end) && t.start == end
    ensures Tiles(log + [t], t.End())
  {
    forall i | 0 <= i < |log + [t]|
      ensures (log + [t])[i].start == LogEnd((log + [t])[..i])
    {
      assert (log + [t])[..i] == log[..i];
      assert i == |log| ==> log[..i] == log;
    }
  }

  lemma SuffixSnoc(log: seq<Sent>, outstanding: seq<Segment>, seqnos: seq<nat>, ackAbs: nat, t: Sent)
    requires Suffix(log, outstanding, seqnos, ackAbs)
    requires ackAbs <= LogEnd(log) && ackAbs < t.End()
    ensures Suffix(log + [t], outstanding + [t.seg], seqnos + [t.End()], ackAbs)
  {
    var k := |log| - |outstanding|;
    assert (log + [t])[..k] == log[..k];
  }

  /** The stream only grows, and not at all once it ended. */
  predicate Grows(s: StreamState, s': StreamState) {
    s.written <= s'.written && (s.ended ==> s'.ended && s.written == s'.written)
  }

  lemma GenuineGrows(log: seq<Sent>, isn: Word32, stream: StreamState, stream': StreamState)
    requires AllGenuine(log, isn, stream) && Grows(stream, stream')
    ensures AllGenuine(log, isn, stream')
  {
    hide Wrap;
    forall i | 0 <= i < |log|
      ensures Genuine(log[i], isn, stream')
    {
      assert Genuine(log[i], isn, stream);
    }
  }

  lemma GenuineSnoc(log: seq<Sent>, isn: Word32, stream: StreamState, t: Sent)
    requires AllGenuine(log, isn, stream) && Genuine(t, isn, stream)
    ensures AllGenuine(log + [t], isn, stream)
  {
    hide Genuine;
  }

  lemma EmitKeepsInv(s: Sender, syn: bool, n: nat, fin: bool)
    requires Inv(s) && EmitOk(s, syn, n, fin)
    ensures Inv(s.Emit(syn, n, fin))
  {
    hide Genuine, AllGenuine, Tiles, Suffix, Wrap;
    var s' := s.Emit(syn, n, fin);
    var t := s'.log[|s.log|];
    TilesEnd(s.log, s.nextSeqno);
    SuffixSnoc(s.log, s.outstanding, s.seqnos, s.ackAbs, t);
    EmitGenuine(s, syn, n, fin);
    EmitAccounts(s, syn, n, fin);
    TilesSnoc(s.log, s.nextSeqno, t);
    GenuineGrows(s.log, s.isn, s.stream, s'.stream);
    GenuineSnoc(s.log, s.isn, s'.stream, t);
  }

  lemma TilesEnd(log: seq<Sent>, end: nat)
    requires Tiles(log, end)
    ensures end == LogEnd(log)
  {
  }

  // Filling the window

  lemma {:induction false} FillLoopKeepsInv(s: Sender)
    requires Inv(s) && s.nextSeqno > 0
    ensures Inv(s.FillLoop())
    decreases |s.stream.Buffered()|
  {
    if |s.stream.Buffered()| > 0 && s.windowSize > s.bytesFlying {
      var n := s.SegmentSize();
      var s' := s.Emit(false, n, s.FinRides(n));
      EmitKeepsInv(s, false, n, s.FinRides(n));
      hide Inv, Wrap;
      FillLoopKeepsInv(s');
    }
  }

  lemma FillWindowKeepsInv(s: Sender)
    requires Inv(s)
    ensures Inv(s.FillWindow())
  {
    var s' := s.FillWindow();
    if s.nextSeqno == 0 {
      EmitKeepsInv(s, true, 0, false);
    } else if s' == s.FillLoop() {
      FillLoopKeepsInv(s);
    } else if s.stream.Eof() {
      EmitKeepsInv(s, false, 0, true);
    } else {
      EmitKeepsInv(s, false, 1, false);
    }
  }

  // Acknowledgments

  /** After the SYN an acknowledgment is accepted exactly if it lies between the last one and the next number to send. */
  lemma AcceptsIff(s: Sender, ack: nat)
    requires Accounts(s) && s.nextSeqno > 0
    ensures s.Accepts(ack) <==> s.ackAbs < ack <= s.nextSeqno
  {
  }

  lemma SuffixRelease(log: seq<Sent>, outstanding: seq<Segment>, seqnos: seq<nat>, ackAbs: nat, ack: nat, r: nat)
    requires Suffix(log, outstanding, seqnos, ackAbs) && ackAbs <= ack && r <= |seqnos|
    requires r > 0 ==> seqnos[r - 1] <= ack
    requires r < |seqnos| ==> ack < seqnos[r]
    ensures Suffix(log, outstanding[r..], seqnos[r..], ack)
  {
    var k := |log| - |outstanding|;
    if r > 0 {
      assert LogEnd(log[..k + r]) == log[k + r - 1].End() == seqnos[r - 1];
    }
  }

  lemma AcknowledgeKeepsInv(s: Sender, ack: nat)
    requires Inv(s) && s.Accepts(ack) && ack < TWO_64 && s.nextSeqno > 0
    ensures Inv(s.Acknowledge(ack))
  {
    AcceptsIff(s, ack);
    SuffixRelease(s.log, s.outstanding, s.seqnos, s.ackAbs, ack, s.Released(ack));
    hide Suffix, Tiles, AllGenuine;
  }

  /** The one acknowledgment the code should not take: number one, before the SYN went out. */
  predicate Premature(s: Sender, ack: nat) {
    s.nextSeqno == 0 && ack == 1
  }

  lemma WindowIsFree(s: Sender, win: nat)
    requires Inv(s)
    ensures Inv(s.(windowSize := win))
  {
    hide Suffix, Tiles, AllGenuine;
  }

  /** Processing an acknowledgment keeps the invariant exactly if it is not premature. */
  lemma AckKeepsInvIff(s: Sender, ack: nat, win: Word16)
    requires Inv(s) && ack < TWO_64
    ensures Inv(s.AckAt(ack, win)) <==> !Premature(s, ack)
  {
    var w := s.(windowSize := win);
    WindowIsFree(s, win);
    hide Suffix, Tiles, AllGenuine;
    if w.Accepts(ack) {
      if s.nextSeqno == 0 {
        PrematureBreaks(w, ack);
      } else {
        AcknowledgeKeepsInv(w, ack);
        FillWindowKeepsInv(w.Acknowledge(ack));
      }
    }
  }

  lemma PrematureBreaks(s: Sender, ack: nat)
    requires Inv(s) && s.Accepts(ack) && s.nextSeqno == 0 && ack < TWO_64 && s.windowSize < TWO_16
    ensures Premature(s, ack) && !s.Acknowledge(ack).MayFill() && !Inv(s.Acknowledge(ack))
  {
  }

  // Other operations

  lemma TickKeepsInv(s: Sender, ms: nat)
    requires Inv(s)
    ensures Inv(s.Tick(ms))
  {
    hide Suffix, Tiles, AllGenuine;
  }

  lemma QueueIsFree(s: Sender, queue: seq<Segment>)
    requires Inv(s)
    ensures Inv(s.(segmentsOut := queue))
  {
    hide Suffix, Tiles, AllGenuine;
  }

  /** The application may write until it has ended the stream, and may end it. */
  lemma StreamInputKeepsInv(s: Sender, data: seq<Byte>)
    requires Inv(s)
    ensures !s.stream.ended ==> Inv(s.Write(data))
    ensures Inv(s.EndInput())
  {
    hide Suffix, Tiles;
    if !s.stream.ended {
      GenuineGrows(s.log, s.isn, s.stream, s.Write(data).stream);
    }
    GenuineGrows(s.log, s.isn, s.stream, s.EndInput().stream);
    hide AllGenuine;
  }
}
