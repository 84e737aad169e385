/** Consequences of the sender's invariant, and what filling the window achieves. */
module SenderFacts {
  import opened Words
  import opened WrappingIntegers
  import opened ByteStreams
  import opened Segments
  import opened Sending
  import opened SenderInvariants

  lemma InvShaped(s: Sender)
    requires Inv(s)
    ensures s.Shaped()
  {
  }

  /** The payloads of some segments, one after the other. */
  function Payloads(segs: seq<Segment>): seq<Byte> {
    if segs == [] then [] else segs[0].payload + Payloads(segs[1..])
  }

  /** Stream index of the first byte at or after entry `i` of the log. */
  function FirstByte(s: Sender, i: nat): nat
    requires i <= |s.log|
  {
    if i == |s.log| then s.stream.read else if s.log[i].start == 0 then 0 else s.log[i].start - 1
  }

  /** Nothing is outstanding exactly when nothing is in flight. */
  lemma OutstandingIffFlying(s: Sender)
    requires Inv(s)
    ensures s.outstanding == [] <==> s.bytesFlying == 0
  {
    var k := |s.log| - |s.outstanding|;
    if s.outstanding == [] {
      assert s.log[..k] == s.log;
    } else {
      LastSeqno(s);
      SeqnosIncrease(s, 0, |s.seqnos| - 1);
    }
  }

  /** The last outstanding segment ends at the next number to send. */
  lemma LastSeqno(s: Sender)
    requires Inv(s) && s.seqnos != []
    ensures s.seqnos[|s.seqnos| - 1] == s.nextSeqno
  {
    hide AllGenuine, Accounts;
  }

  /** Sizes of a genuine transmission. */
  lemma GenuineSizes(log: seq<Sent>, isn: Word32, stream: StreamState, i: nat)
    requires AllGenuine(log, isn, stream) && i < |log|
    ensures var t := log[i];
            var n, fin := |t.seg.payload|, if t.seg.header.fin then 1 else 0;
            && t.End() == (if t.start == 0 then 1 else t.start + n + fin) > t.start
            && (t.start == 0 ==> n == 0 && fin == 0)
            && (t.start > 0 ==> t.start - 1 + n <= |stream.written|)
            && (fin == 1 ==> t.start - 1 + n == |stream.written|)
  {
    hide Wrap;
    assert Genuine(log[i], isn, stream);
  }

  lemma LogChain(log: seq<Sent>, end: nat, i: nat)
    requires Tiles(log, end) && i < |log|
    ensures log[i].End() == if i + 1 < |log| then log[i + 1].start else end
    ensures i == 0 ==> log[i].start == 0
  {
    if i + 1 < |log| {
      assert log[i + 1].start == LogEnd(log[..i + 1]);
    }
  }

  /** Outstanding segments tile the sequence space: each starts where the one before ends. */
  lemma SeqnosTile(s: Sender, i: nat)
    requires Inv(s) && 0 < i < |s.seqnos|
    ensures s.seqnos[i] == s.seqnos[i - 1] + s.outstanding[i].Length() > s.seqnos[i - 1]
  {
    hide Accounts, Tiles, AllGenuine;
    var k := |s.log| - |s.outstanding|;
    GenuineSizes(s.log, s.isn, s.stream, k + i);
    LogChain(s.log, s.nextSeqno, k + i - 1);
    assert s.outstanding[i - 1] == s.log[k + i - 1].seg;
  }

  lemma SeqnosIncrease(s: Sender, i: nat, j: nat)
    requires Inv(s) && i <= j < |s.seqnos|
    ensures s.seqnos[i] <= s.seqnos[j]
    decreases j
  {
    hide Inv;
    if i < j {
      SeqnosIncrease(s, i, j - 1);
      SeqnosTile(s, j);
    }
  }

  lemma LogStep(s: Sender, i: nat)
    requires Inv(s) && i < |s.log|
    ensures FirstByte(s, i + 1) == FirstByte(s, i) + |s.log[i].seg.payload| <= s.stream.read
    decreases |s.log| - i
  {
    hide Tiles, AllGenuine, Suffix;
    GenuineSizes(s.log, s.isn, s.stream, i);
    LogChain(s.log, s.nextSeqno, i);
    if i + 1 < |s.log| {
      GenuineSizes(s.log, s.isn, s.stream, i + 1);
      LogStep(s, i + 1);
    }
  }

  lemma LogPayload(s: Sender, i: nat)
    requires Inv(s) && i < |s.log|
    ensures FirstByte(s, i) + |s.log[i].seg.payload| <= |s.stream.written|
    ensures s.log[i].seg.payload == s.stream.written[FirstByte(s, i)..FirstByte(s, i) + |s.log[i].seg.payload|]
  {
    hide Wrap, Tiles, Suffix, Accounts;
    assert Genuine(s.log[i], s.isn, s.stream);
  }

  /** Segments of the log from entry `i` on. */
  function SegmentsFrom(log: seq<Sent>, i: nat): (segs: seq<Segment>)
    requires i <= |log|
    ensures |segs| == |log| - i && forall j :: 0 <= j < |segs| ==> segs[j] == log[i + j].seg
    decreases |log| - i
  {
    if i == |log| then [] else [log[i].seg] + SegmentsFrom(log, i + 1)
  }

  lemma JoinSlices(w: seq<Byte>, a: nat, b: nat, c: nat)
    requires a <= b <= c <= |w|
    ensures w[a..b] + w[b..c] == w[a..c]
  {
  }

  lemma {:induction false} LogPayloads(s: Sender, i: nat)
    requires Inv(s) && i <= |s.log|
    ensures FirstByte(s, i) <= s.stream.read
    ensures Payloads(SegmentsFrom(s.log, i)) == s.stream.written[FirstByte(s, i)..s.stream.read]
    decreases |s.log| - i
  {
    hide Inv;
    InvShaped(s);
    if i < |s.log| {
      LogStep(s, i);
      LogPayload(s, i);
      LogPayloads(s, i + 1);
      var segs := SegmentsFrom(s.log, i);
      assert segs[0] == s.log[i].seg && segs[1..] == SegmentsFrom(s.log, i + 1);
      JoinSlices(s.stream.written, FirstByte(s, i), FirstByte(s, i + 1), s.stream.read);
    }
  }

  lemma OutstandingIsSuffix(s: Sender)
    requires Inv(s)
    ensures SegmentsFrom(s.log, |s.log| - |s.outstanding|) == s.outstanding
  {
    hide Tiles, AllGenuine, Accounts, LogEnd;
  }

  /** Stream index of the first byte of the first outstanding segment. */
  function FirstOutstanding(s: Sender): nat {
    if s.outstanding == [] || s.seqnos == [] then s.stream.read
    else Max(0, s.seqnos[0] - s.outstanding[0].Length() - 1)
  }

  lemma FirstOutstandingByte(s: Sender)
    requires Inv(s)
    ensures |s.outstanding| <= |s.log| && FirstOutstanding(s) == FirstByte(s, |s.log| - |s.outstanding|)
  {
    hide Tiles, AllGenuine, Accounts, LogEnd;
  }

  /**
   * Nothing is lost: the bytes accepted from the application, from the first outstanding
   * segment on, are the outstanding payloads in order followed by the unsent buffer.
   */
  lemma NothingLost(s: Sender)
    requires Inv(s)
    ensures s.stream.Valid() && FirstOutstanding(s) <= s.stream.read
    ensures s.stream.written[FirstOutstanding(s)..] == Payloads(s.outstanding) + s.stream.Buffered()
  {
    hide Inv, SegmentsFrom, FirstByte, Payloads, FirstOutstanding;
    InvShaped(s);
    FirstOutstandingByte(s);
    OutstandingIsSuffix(s);
    LogPayloads(s, |s.log| - |s.outstanding|);
    JoinSlices(s.stream.written, FirstOutstanding(s), s.stream.read, |s.stream.written|);
  }

  /** Everything ever sent, in order of first transmission, is the part of the stream read so far. */
  lemma AllSentBytes(s: Sender)
    requires Inv(s)
    ensures Payloads(SegmentsFrom(s.log, 0)) == s.stream.written[..s.stream.read]
  {
    hide AllGenuine, Suffix, SegmentsFrom;
    LogPayloads(s, 0);
    assert s.log != [] ==> s.log[0].start == LogEnd(s.log[..0]) == 0;
    assert FirstByte(s, 0) == 0;
  }
}
