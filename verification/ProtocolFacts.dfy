/** What follows from the invariant of one sender and one receiver. */
module ProtocolFacts {
  import opened Words
  import opened ByteStreams
  import opened Segments
  import opened Assembly
  import opened AssemblyRuns
  import opened Sending
  import opened SenderInvariants
  import SF = SenderFacts
  import SR = SenderRuns
  import opened Receiving
  import opened Protocol

  lemma WorldIsSafe(w: World)
    requires Protocol.Inv(w)
    ensures w.s.ackAbs <= w.r.Assembled()
    ensures w.s.stream.written[..Min(Max(w.s.ackAbs - 1, 0), |w.s.stream.written|)] <= w.r.asm.out.written
    ensures w.s.ackAbs == |w.s.stream.written| + 2 ==> w.r.asm.out.written == w.s.stream.written
  {
    hide HonestNet, SR.Timed, SR.OnlyCopies, AllGenuine, Tiles, Suffix;
    FaithfulBound(w.r.asm, SentBytes(w.s));
  }

  // When the conditions on the environment hold by themselves

  /** For a stream shorter than half a cycle, every segment and acknowledgment on the network is near. */
  lemma ShortStreamIsNear(w: World, seg: Segment, a: Ack)
    requires Protocol.Inv(w) && |w.s.stream.written| + 2 < TWO_31
    ensures seg in w.net && seg.Length() > 0 ==> Enabled(w, Deliver(seg))
    ensures a in w.acks ==> Enabled(w, DeliverAck(a))
  {
    hide SR.Good, Agrees, SafeAcks, SR.Allowed;
    CkptBound(w);
    if seg in w.net && seg.Length() > 0 {
      var i :| 0 <= i < |w.s.log| && w.s.log[i].seg == seg;
      EntryStart(w, i);
      assert SentNear(w, seg, i);
    }
    if a in w.acks {
      AckBound(w, a);
    }
  }

  lemma EntryStart(w: World, i: nat)
    requires Protocol.Inv(w) && i < |w.s.log|
    ensures w.s.log[i].start <= |w.s.stream.written| + 1
  {
    hide HonestNet, Agrees, SafeAcks, SR.Timed, SR.OnlyCopies, Tiles, Suffix, Accounts;
    SF.GenuineSizes(w.s.log, w.s.isn, w.s.stream, i);
  }

  lemma AckBound(w: World, a: Ack)
    requires Protocol.Inv(w) && a in w.acks
    ensures a.value <= |w.s.stream.written| + 2 && w.s.stream.read <= |w.s.stream.written|
  {
    hide HonestNet, SR.Good;
    assert Acks(w, a);
    FaithfulBound(w.r.asm, SentBytes(w.s));
  }

  /** For a stream no longer than the receiver's capacity, no payload straddles the ring end. */
  lemma SmallStreamFits(w: World, seg: Segment)
    requires Protocol.Inv(w) && Enabled(w, Deliver(seg)) && |w.s.stream.written| <= w.r.asm.cap && w.r.asm.cap > 0
    ensures Fits(w, Deliver(seg))
  {
    hide SR.Good, HonestNet, Agrees, SafeAcks, Receiver.Index, SentNear, SR.Allowed;
    if w.r.Listens(seg) {
      var i :| SentNear(w, seg, i);
      NearIsTrue(w, seg, i);
      RingEndAboveCap(w.r.asm);
    }
  }

  lemma RingEndAboveCap(a: Assembler)
    requires a.cap > 0
    ensures a.RingEnd() >= a.cap
  {
  }
}
