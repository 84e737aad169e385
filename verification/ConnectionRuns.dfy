/** What every run of a connection keeps: when it may end, and how long it takes to give up. */
module ConnectionRuns {
  import opened Words
  import opened ByteStreams
  import opened Segments
  import opened Assembly
  import opened Sending
  import SI = SenderInvariants
  import SR = SenderRuns
  import opened Receiving
  import opened Connecting

  ghost predicate Step(c: Connection, e: Event, c': Connection) {
    c.Valid() && Allowed(c, e) && c' == Next(c, e)
  }

  /** A run from a new connection: event `es[k]` leads from `cs[k]` to `cs[k + 1]`. */
  ghost predicate IsRun(cs: seq<Connection>, es: seq<Event>, isn: Word32, rto: nat, sendCap: nat, recvCap: nat) {
    && |cs| == |es| + 1
    && cs[0] == InitialConnection(isn, rto, sendCap, recvCap)
    && forall k :: 0 <= k < |es| ==> Step(cs[k], es[k], cs[k + 1])
  }

  lemma InitialInv(isn: Word32, rto: nat, sendCap: nat, recvCap: nat)
    requires recvCap > 0
    ensures Inv(InitialConnection(isn, rto, sendCap, recvCap))
  {
    hide SR.Good;
    SR.EveryRunIsGood(isn, rto, sendCap, []);
    HeldAll(map[], 0, recvCap);
  }

  lemma {:induction false} EveryRunKeepsInv(cs: seq<Connection>, es: seq<Event>, isn: Word32, rto: nat, sendCap: nat, recvCap: nat, k: nat)
    requires IsRun(cs, es, isn, rto, sendCap, recvCap) && recvCap > 0 && k < |cs|
    ensures Inv(cs[k]) && cs[k].rtTimeout == rto
  {
    hide Inv, Allowed, Next;
    if k == 0 {
      InitialInv(isn, rto, sendCap, recvCap);
    } else {
      EveryRunKeepsInv(cs, es, isn, rto, sendCap, recvCap, k - 1);
      assert Step(cs[k - 1], es[k - 1], cs[k]);
      StepKeepsInv(cs[k - 1], es[k - 1]);
      TimeoutIsFixed(cs[k - 1], es[k - 1]);
    }
  }

  lemma TimeoutIsFixed(c: Connection, e: Event)
    requires c.Valid()
    ensures Next(c, e).rtTimeout == c.rtTimeout
  {
    hide Sender.FillWindow, Sender.AckReceived, Receiver.SegmentReceived, Sender.Tick;
    match e
    case Receive(seg) =>
      AbsorbKeepsValid(c, seg);
    case _ =>
  }

  /**
   * In every run, a connection that is not reset is inactive exactly when the inbound stream
   * was read to its end, everything written and the FIN are acknowledged, and it need not
   * linger any more - although the code tests only three flags.
   */
  lemma InactiveMeansAcknowledged(cs: seq<Connection>, es: seq<Event>, isn: Word32, rto: nat, sendCap: nat, recvCap: nat, k: nat)
    requires IsRun(cs, es, isn, rto, sendCap, recvCap) && recvCap > 0 && k < |cs|
    requires !cs[k].rstReceived && !cs[k].rstToSend
    ensures var c := cs[k];
            !c.Active() <==> && FullyAcknowledged(c.s) && c.r.asm.out.Eof()
                             && (!c.linger || c.time - c.lastReceived >= 10 * rto)
  {
    hide IsRun;
    EveryRunKeepsInv(cs, es, isn, rto, sendCap, recvCap, k);
    FinishedIff(cs[k]);
    hide Inv, FullyAcknowledged;
  }

  lemma FinishedIff(c: Connection)
    requires Inv(c)
    ensures c.StreamsFinished() <==> FullyAcknowledged(c.s) && c.r.asm.out.Eof()
  {
    hide SR.Timed, SR.OnlyCopies, SI.AllGenuine, SI.Tiles, SI.Suffix, Assembler.Valid;
    if c.StreamsFinished() {
      FinishedMeansAcknowledged(c.s);
    }
  }

  /** In every run, the timeout is the initial one times two to the number of consecutive retransmissions. */
  lemma TimeoutDoubles(cs: seq<Connection>, es: seq<Event>, isn: Word32, rto: nat, sendCap: nat, recvCap: nat, k: nat)
    requires IsRun(cs, es, isn, rto, sendCap, recvCap) && recvCap > 0 && k < |cs|
    ensures cs[k].s.currRto == SR.Pow2(cs[k].s.consecRetrans) * rto
  {
    hide IsRun, SI.Inv, SR.OnlyCopies;
    EveryRunKeepsInv(cs, es, isn, rto, sendCap, recvCap, k);
    SR.BackoffIsPower(rto, cs[k].s.consecRetrans);
  }

  /**
   * In every run, a connection given up for lack of acknowledgment has by its sender's clock
   * waited 511 timeouts since the last accepted acknowledgment or the first outstanding send.
   */
  lemma GivingUpTakesTime(cs: seq<Connection>, es: seq<Event>, isn: Word32, rto: nat, sendCap: nat, recvCap: nat, k: nat)
    requires IsRun(cs, es, isn, rto, sendCap, recvCap) && recvCap > 0 && k < |es|
    requires cs[k + 1].rstToSend && !cs[k].rstToSend
    ensures es[k].Tick? && cs[k + 1].s.timerStart + 511 * rto <= cs[k + 1].s.time
  {
    hide Inv, Allowed, Next;
    EveryRunKeepsInv(cs, es, isn, rto, sendCap, recvCap, k);
    EveryRunKeepsInv(cs, es, isn, rto, sendCap, recvCap, k + 1);
    assert Step(cs[k], es[k], cs[k + 1]);
    OnlyTheClockGivesUp(cs[k], es[k]);
    WaitedLong(cs[k + 1]);
  }

  lemma WaitedLong(c: Connection)
    requires Inv(c) && c.s.consecRetrans > MAX_RETX_ATTEMPTS
    ensures c.s.timerStart + 511 * c.rtTimeout <= c.s.time
  {
    hide SI.Inv, SR.OnlyCopies, Assembler.Valid;
    SR.GivingUpTakesTime(c.s);
  }

  lemma OnlyTheClockGivesUp(c: Connection, e: Event)
    requires c.Valid() && !c.rstToSend && Next(c, e).rstToSend
    ensures e.Tick? && Next(c, e).s.consecRetrans > MAX_RETX_ATTEMPTS
  {
    hide Sender.FillWindow, Sender.AckReceived, Receiver.SegmentReceived, Sender.Tick;
    match e
    case Receive(seg) =>
      AbsorbKeepsValid(c, seg);
    case _ =>
  }
}
