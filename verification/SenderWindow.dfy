/** How much filling the window sends, and that it sends nothing twice. */
module SenderWindow {
  import opened Words
  import opened WrappingIntegers
  import opened ByteStreams
  import opened Segments
  import opened Sending

  /** Sequence numbers waiting to be sent: buffered bytes, and the FIN once the stream has ended. */
  function Pending(s: Sender): nat
    requires s.stream.Valid()
  {
    |s.stream.Buffered()| + (if s.stream.ended && !s.finSent then 1 else 0)
  }

  /** Sequence numbers the window lets through; a closed window counts as one. */
  function Allowance(s: Sender): nat {
    Max(0, Max(1, s.windowSize) - s.bytesFlying)
  }

  /** `s'` is `s` after sending `n` more sequence numbers. */
  predicate SentMore(s: Sender, s': Sender, n: nat)
    requires s.stream.Valid()
  {
    && s'.stream.Valid()
    && s'.nextSeqno == s.nextSeqno + n && s'.bytesFlying == s.bytesFlying + n
    && Pending(s') + n == Pending(s)
    && s'.windowSize == s.windowSize && s'.ackAbs == s.ackAbs && s'.isn == s.isn
    && s'.stream == s.stream.(read := s'.stream.read)
    && (n == 0 ==> s' == s)
  }

  lemma EmitSends(s: Sender, n: nat, fin: bool)
    requires s.Shaped() && n <= |s.stream.Buffered()|
    requires n > 0 || fin
    requires fin ==> s.stream.ended && !s.finSent
    ensures SentMore(s, s.Emit(false, n, fin), n + if fin then 1 else 0)
    ensures |s.Emit(false, n, fin).stream.Buffered()| == |s.stream.Buffered()| - n
  {
    hide Wrap;
  }

  lemma {:induction false} FillLoopSends(s: Sender)
    requires s.Shaped() && s.windowSize > s.bytesFlying && |s.stream.Buffered()| > 0
    ensures SentMore(s, s.FillLoop(), Min(Pending(s), s.windowSize - s.bytesFlying))
    decreases |s.stream.Buffered()|
  {
    hide Wrap, Sender.Emit;
    var n := s.SegmentSize();
    var s' := s.Emit(false, n, s.FinRides(n));
    EmitSends(s, n, s.FinRides(n));
    if s'.windowSize > s'.bytesFlying && |s'.stream.Buffered()| > 0 {
      FillLoopSends(s');
    }
  }

  /** After the SYN, filling the window sends everything pending up to what the window lets through. */
  lemma FillWindowSends(s: Sender)
    requires s.Shaped() && s.nextSeqno > 0
    ensures SentMore(s, s.FillWindow(), Min(Pending(s), Allowance(s)))
  {
    hide Wrap, Sender.Emit;
    if s.stream.Eof() && !s.finSent {
      EmitSends(s, 0, true);
    }
    if |s.stream.Buffered()| > 0 {
      EmitSends(s, 1, false);
      if s.windowSize > s.bytesFlying {
        FillLoopSends(s);
      }
    }
  }

  /** Filling the window stays within the window, with one number allowed through a closed one. */
  lemma FillWindowRespectsWindow(s: Sender)
    requires s.Shaped() && s.nextSeqno > 0
    ensures s.FillWindow() == s || s.FillWindow().bytesFlying <= Max(1, s.windowSize)
  {
    hide Sender.FillWindow;
    FillWindowSends(s);
  }

  /** Filling the window is a fixpoint: at once again, it sends nothing. */
  lemma FillWindowTwice(s: Sender)
    requires s.Shaped() && s.nextSeqno > 0
    ensures s.FillWindow().FillWindow() == s.FillWindow()
  {
    hide Sender.FillWindow;
    FillWindowSends(s);
    FillWindowSends(s.FillWindow());
  }

  /** Segments first sent on the way from `s` to `s'` carry at most 1000 bytes, and all but the last exactly that. */
  predicate Chunked(s: Sender, s': Sender) {
    && s.log <= s'.log
    && (forall i :: |s.log| <= i < |s'.log| ==> |s'.log[i].seg.payload| <= 1000)
    && (forall i :: |s.log| <= i < |s'.log| - 1 ==> |s'.log[i].seg.payload| == 1000)
  }

  lemma {:induction false} FillLoopChunks(s: Sender)
    requires s.Shaped()
    ensures Chunked(s, s.FillLoop())
    decreases |s.stream.Buffered()|
  {
    hide Wrap;
    if |s.stream.Buffered()| > 0 && s.windowSize > s.bytesFlying {
      var n := s.SegmentSize();
      var s' := s.Emit(false, n, s.FinRides(n));
      FillLoopChunks(s');
    }
  }

  /** Payloads are capped, and no segment is cut short while more could be sent. */
  lemma FillWindowChunks(s: Sender)
    requires s.Shaped()
    ensures Chunked(s, s.FillWindow())
  {
    hide Wrap, Sender.FillLoop;
    FillLoopChunks(s);
  }
}
