/** The sender as an object with the fields of the code, each method proved against `Sending`. */
module TcpSenders {
  import opened Words
  import opened WrappingIntegers
  import opened ByteStreams
  import opened Segments
  import opened Sending

  class TCPSender {
    const isn: Word32
    const initialRto: nat
    const stream: ByteStream
    var nextSeqno: nat
    var currRto: nat
    var outstanding: seq<Segment>
    var seqnos: seq<nat>
    var timestamps: seq<nat>
    var bytesFlying: nat
    var windowSize: nat
    var consecRetrans: nat
    var ackAbs: nat
    var time: nat
    var finSent: bool
    var segmentsOut: seq<Segment>
    ghost var log: seq<Sent>
    ghost var timerStart: nat

    ghost predicate Valid()
      reads this, stream
    {
      stream.Valid() && |outstanding| == |seqnos| == |timestamps|
    }

    ghost function State(): (s: Sender)
      reads this, stream
      requires Valid()
      ensures s.Shaped()
    {
      Sender(isn, initialRto, stream.State(), nextSeqno, currRto, outstanding, seqnos, timestamps, bytesFlying,
             windowSize, consecRetrans, ackAbs, time, finSent, segmentsOut, log, timerStart)
    }

    constructor (capacity: nat, retxTimeout: Word16, fixedIsn: Word32)
      ensures Valid() && fresh(stream)
      ensures State() == InitialSender(fixedIsn, retxTimeout, capacity)
    {
      isn, initialRto, currRto := fixedIsn, retxTimeout, retxTimeout;
      stream := new ByteStream(capacity);
      nextSeqno, bytesFlying, windowSize, consecRetrans, ackAbs, time := 0, 0, 1, 0, 0, 0;
      outstanding, seqnos, timestamps, segmentsOut := [], [], [], [];
      finSent := false;
      log, timerStart := [], 0;
    }

    /** Pushes a segment that ends at `end` on the queue to send and on the three deques. */
    method PushOutstanding(seg: Segment, end: nat)
      modifies `segmentsOut, `outstanding, `seqnos, `timestamps
      ensures segmentsOut == old(segmentsOut) + [seg] && outstanding == old(outstanding) + [seg]
      ensures seqnos == old(seqnos) + [end] && timestamps == old(timestamps) + [time]
    {
      segmentsOut := segmentsOut + [seg];
      outstanding := outstanding + [seg];
      seqnos := seqnos + [end];
      timestamps := timestamps + [time];
    }

    /** Queues a new segment and records it as outstanding since now. */
    method Enqueue(seg: Segment)
      modifies `segmentsOut, `outstanding, `seqnos, `timestamps, `bytesFlying, `nextSeqno, `finSent, `log, `timerStart
      ensures segmentsOut == old(segmentsOut) + [seg] && outstanding == old(outstanding) + [seg]
      ensures seqnos == old(seqnos) + [nextSeqno] && timestamps == old(timestamps) + [time]
      ensures bytesFlying == old(bytesFlying) + seg.Length() && nextSeqno == old(nextSeqno) + seg.Length()
      ensures finSent == (old(finSent) || seg.header.fin)
      ensures log == old(log) + [Sent(old(nextSeqno), seg)]
      ensures timerStart == if old(outstanding) == [] then time else old(timerStart)
    {
      log := log + [Sent(nextSeqno, seg)];
      timerStart := if outstanding == [] then time else timerStart;
      PushOutstanding(seg, nextSeqno + seg.Length());
      bytesFlying := bytesFlying + seg.Length();
      nextSeqno := nextSeqno + seg.Length();
      finSent := finSent || seg.header.fin;
    }

    /** Builds a segment from `size` bytes of the stream; the FIN is set if `fin` or if it can ride along. */
    method Transmit(syn: bool, size: nat, fin: bool, mayRide: bool)
      requires Valid() && size <= |State().stream.Buffered()|
      modifies this, stream
      ensures Valid()
      ensures State() == old(State()).Emit(syn, size, fin || (mayRide && old(State()).FinRides(size)))
    {
      hide Wrap;
      var seqno := Wrap(nextSeqno, isn);
      ghost var bytes := State().stream.Buffered()[..size];
      var payload := stream.Read(size);
      assert payload == bytes;
      var finHere := fin || (mayRide && stream.Eof() && !finSent && windowSize > bytesFlying + size);
      Enqueue(MakeSegment(seqno, syn, finHere, payload));
    }

    method FillWindow()
      requires Valid()
      modifies this, stream
      ensures Valid() && State() == old(State()).FillWindow()
    {
      if nextSeqno == 0 {
        Transmit(true, 0, false, false);
      } else if stream.Eof() && !finSent && (windowSize > bytesFlying || (windowSize == 0 && bytesFlying == 0)) {
        Transmit(false, 0, true, false);
      } else if |stream.deq| > 0 && windowSize == 0 && bytesFlying == 0 {
        Transmit(false, 1, false, false);
      } else {
        FillOpenWindow();
      }
    }

    method FillOpenWindow()
      requires Valid()
      modifies this, stream
      ensures Valid() && State() == old(State()).FillLoop()
    {
      ghost var s := State();
      while |stream.deq| > 0 && windowSize > bytesFlying
        invariant Valid() && State().FillLoop() == s.FillLoop()
        decreases |stream.deq|
      {
        var size := Min(Min(|stream.deq|, windowSize - bytesFlying), MAX_PAYLOAD_SIZE);
        Transmit(false, size, false, true);
      }
    }

    /** Pops the outstanding segments that end at or before the acknowledgment. */
    method PopAcknowledged()
      requires |outstanding| == |seqnos| == |timestamps|
      modifies `outstanding, `seqnos, `timestamps
      ensures var k := Leading(old(seqnos), ackAbs);
              && outstanding == old(outstanding)[k..] && seqnos == old(seqnos)[k..] && timestamps == old(timestamps)[k..]
    {
      ghost var k := 0;
      while |seqnos| > 0 && ackAbs >= seqnos[0]
        invariant k <= |old(seqnos)| && Leading(old(seqnos), ackAbs) == k + Leading(old(seqnos)[k..], ackAbs)
        invariant outstanding == old(outstanding)[k..] && seqnos == old(seqnos)[k..] && timestamps == old(timestamps)[k..]
        decreases |seqnos|
      {
        seqnos := seqnos[1..];
        outstanding := outstanding[1..];
        timestamps := timestamps[1..];
        k := k + 1;
      }
    }

    /** Restarts the clock of every segment still outstanding. */
    method ResetTimestamps()
      modifies `timestamps
      ensures |timestamps| == |old(timestamps)| && forall i :: 0 <= i < |timestamps| ==> timestamps[i] == time
    {
      for i := 0 to |timestamps|
        invariant |timestamps| == |old(timestamps)|
        invariant forall j :: 0 <= j < i ==> timestamps[j] == time
      {
        timestamps := timestamps[i := time];
      }
    }

    /** Takes note of a new acknowledgment and restarts the retransmission timer. */
    method RestartTimer(ack: nat)
      requires ackAbs <= ack < TWO_64
      modifies `currRto, `bytesFlying, `ackAbs, `consecRetrans, `timerStart
      ensures currRto == initialRto && consecRetrans == 0 && timerStart == time
      ensures bytesFlying == Minus64(old(bytesFlying), ack - old(ackAbs)) && ackAbs == ack
    {
      currRto := initialRto;
      bytesFlying := Minus64(bytesFlying, ack - ackAbs);
      ackAbs := ack;
      consecRetrans := 0;
      timerStart := time;
    }

    method Acknowledge(ack: nat)
      requires Valid() && State().Accepts(ack) && ack < TWO_64
      modifies this
      ensures Valid() && State() == old(State()).Acknowledge(ack)
    {
      RestartTimer(ack);
      PopAcknowledged();
      ResetTimestamps();
    }

    method AckReceived(ackno: Word32, win: Word16)
      requires Valid()
      modifies this, stream
      ensures Valid() && State() == old(State()).AckReceived(ackno, win)
    {
      hide Unwrap;
      var ack := Unwrap(ackno, isn, U64(stream.bytesRead));
      windowSize := win;
      if ack > stream.bytesRead + 2 || ack <= ackAbs || (!finSent && ack > stream.bytesRead + 1) {
        return;
      }
      Acknowledge(ack);
      if (windowSize > bytesFlying || (windowSize == 0 && bytesFlying == 0)) && !finSent {
        FillWindow();
      }
    }

    /** Sends the oldest outstanding segment again and backs off if the window is open. */
    method Retransmit()
      requires outstanding != [] && timestamps != []
      modifies `segmentsOut, `timestamps, `consecRetrans, `currRto
      ensures segmentsOut == old(segmentsOut) + [outstanding[0]] && timestamps == old(timestamps)[0 := time]
      ensures consecRetrans == old(consecRetrans) + (if windowSize != 0 then 1 else 0)
      ensures currRto == if windowSize != 0 then old(currRto) * 2 else old(currRto)
    {
      segmentsOut := segmentsOut + [outstanding[0]];
      timestamps := timestamps[0 := time];
      if windowSize != 0 {
        consecRetrans := consecRetrans + 1;
        currRto := currRto * 2;
      }
    }

    method Tick(ms: nat)
      requires Valid()
      modifies this
      ensures Valid() && State() == old(State()).Tick(ms)
    {
      if timestamps == [] {
        return;
      }
      time := time + ms;
      if time - timestamps[0] >= currRto {
        Retransmit();
      }
    }

    method SendEmptySegment()
      requires Valid()
      modifies `segmentsOut
      ensures Valid() && State() == old(State()).SendEmpty()
    {
      segmentsOut := segmentsOut + [MakeSegment(Wrap(nextSeqno, isn), false, false, [])];
    }
  }
}
