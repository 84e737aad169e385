/** The sender as a value: the fields of the code, and what each operation does to them. */
module Sending {
  import opened Words
  import opened WrappingIntegers
  import opened ByteStreams
  import opened Segments

  const MAX_PAYLOAD_SIZE: nat := 1000

  /** One original transmission: a segment and the absolute number of its first sequence number. */
  datatype Sent = Sent(start: nat, seg: Segment) {
    function End(): nat {
      start + seg.Length()
    }
  }

  /** 64-bit subtraction. */
  function Minus64(x: nat, y: nat): nat
    requires y < TWO_64 + x
  {
    if y <= x then x - y else x - y + TWO_64
  }

  /**
   * The fields of the sender.  `log` and `timerStart` are history: all original
   * transmissions in order, and the time of the last accepted acknowledgment or of the
   * first transmission after nothing was outstanding, whichever is later.
   */
  datatype Sender = Sender(
    isn: Word32, initialRto: nat, stream: StreamState, nextSeqno: nat, currRto: nat,
    outstanding: seq<Segment>, seqnos: seq<nat>, timestamps: seq<nat>,
    bytesFlying: nat, windowSize: nat, consecRetrans: nat, ackAbs: nat, time: nat, finSent: bool,
    segmentsOut: seq<Segment>, log: seq<Sent>, timerStart: nat)
  {
    /** The three deques run in parallel. */
    predicate Shaped() {
      stream.Valid() && |outstanding| == |seqnos| == |timestamps|
    }

    /** A new segment is queued, and outstanding since now. */
    function Recorded(seg: Segment): (s: Sender)
      requires Shaped()
      ensures s.Shaped()
    {
      this.(nextSeqno := nextSeqno + seg.Length(),
            outstanding := outstanding + [seg],
            seqnos := seqnos + [nextSeqno + seg.Length()],
            timestamps := timestamps + [time],
            bytesFlying := bytesFlying + seg.Length(),
            finSent := finSent || seg.header.fin,
            segmentsOut := segmentsOut + [seg],
            log := log + [Sent(nextSeqno, seg)],
            timerStart := if outstanding == [] then time else timerStart)
    }

    /** Builds the next segment from `n` buffered bytes and the flags, and sends it. */
    function Emit(syn: bool, n: nat, fin: bool): (s: Sender)
      requires Shaped() && n <= |stream.Buffered()|
      ensures s.Shaped()
    {
      var seg := MakeSegment(Wrap(nextSeqno, isn), syn, fin, stream.Buffered()[..n]);
      this.(stream := stream.Pop(n)).Recorded(seg)
    }

    /** Payload size of the next segment when the window is open. */
    function SegmentSize(): nat
      requires stream.Valid() && windowSize >= bytesFlying
    {
      Min(Min(|stream.Buffered()|, windowSize - bytesFlying), MAX_PAYLOAD_SIZE)
    }

    /** The FIN rides on a segment that takes the last `n` bytes and leaves room in the window. */
    predicate FinRides(n: nat)
      requires stream.Valid()
    {
      stream.ended && n == |stream.Buffered()| && !finSent && windowSize > bytesFlying + n
    }

    function FillLoop(): (s: Sender)
      requires Shaped()
      ensures s.Shaped()
      decreases |stream.Buffered()|
    {
      if |stream.Buffered()| > 0 && windowSize > bytesFlying then
        Emit(false, SegmentSize(), FinRides(SegmentSize())).FillLoop()
      else
        this
    }

    function FillWindow(): (s: Sender)
      requires Shaped()
      ensures s.Shaped()
    {
      if nextSeqno == 0 then
        Emit(true, 0, false)
      else if stream.Eof() && !finSent && (windowSize > bytesFlying || (windowSize == 0 && bytesFlying == 0)) then
        Emit(false, 0, true)
      else if |stream.Buffered()| > 0 && windowSize == 0 && bytesFlying == 0 then
        Emit(false, 1, false)
      else
        FillLoop()
    }

    /** An acknowledgment is dropped if it is beyond what was sent or not beyond the last one. */
    predicate Accepts(ack: nat) {
      ack <= stream.read + 2 && ack > ackAbs && (finSent || ack <= stream.read + 1)
    }

    /** Outstanding segments that end at or before `ack`. */
    function Released(ack: nat): nat {
      Leading(seqnos, ack)
    }

    /** The state once `ack` was accepted and its segments released, before new segments go out. */
    function Acknowledge(ack: nat): (s: Sender)
      requires Shaped() && Accepts(ack) && ack < TWO_64
      ensures s.Shaped()
    {
      var k := Released(ack);
      this.(currRto := initialRto,
            bytesFlying := Minus64(bytesFlying, ack - ackAbs),
            ackAbs := ack,
            consecRetrans := 0,
            outstanding := outstanding[k..],
            seqnos := seqnos[k..],
            timestamps := seq(|timestamps| - k, _ => time),
            timerStart := time)
    }

    predicate MayFill() {
      (windowSize > bytesFlying || (windowSize == 0 && bytesFlying == 0)) && !finSent
    }

    function AckAt(ack: nat, win: Word16): (s: Sender)
      requires Shaped() && ack < TWO_64
      ensures s.Shaped()
    {
      var s := this.(windowSize := win);
      if !Accepts(ack) then s
      else if s.Acknowledge(ack).MayFill() then s.Acknowledge(ack).FillWindow()
      else s.Acknowledge(ack)
    }

    /** The absolute number the sender reads out of a 32-bit acknowledgment number. */
    function AckValue(ackno: Word32): Word64 {
      Unwrap(ackno, isn, U64(stream.read))
    }

    function AckReceived(ackno: Word32, win: Word16): (s: Sender)
      requires Shaped()
      ensures s.Shaped()
    {
      AckAt(AckValue(ackno), win)
    }

    predicate Expired(now: nat)
      requires timestamps != []
    {
      now - timestamps[0] >= currRto
    }

    function Tick(ms: nat): (s: Sender)
      requires Shaped()
      ensures s.Shaped()
    {
      if timestamps == [] then
        this
      else if Expired(time + ms) then
        this.(time := time + ms,
              segmentsOut := segmentsOut + [outstanding[0]],
              timestamps := timestamps[0 := time + ms],
              consecRetrans := if windowSize != 0 then consecRetrans + 1 else consecRetrans,
              currRto := if windowSize != 0 then currRto * 2 else currRto)
      else
        this.(time := time + ms)
    }

    function SendEmpty(): Sender {
      this.(segmentsOut := segmentsOut + [MakeSegment(Wrap(nextSeqno, isn), false, false, [])])
    }

    function Write(data: seq<Byte>): (s: Sender)
      requires Shaped()
      ensures s.Shaped()
    {
      this.(stream := stream.Write(data))
    }

    function EndInput(): Sender {
      this.(stream := stream.End())
    }

    /** The queue of segments to send was handed to the network. */
    function Drained(): Sender {
      this.(segmentsOut := [])
    }
  }

  /** How many leading entries of `seqnos` are at most `ack`. */
  function Leading(seqnos: seq<nat>, ack: nat): (k: nat)
    ensures k <= |seqnos|
    ensures forall i :: 0 <= i < k ==> seqnos[i] <= ack
    ensures k < |seqnos| ==> ack < seqnos[k]
  {
    if seqnos != [] && seqnos[0] <= ack then 1 + Leading(seqnos[1..], ack) else 0
  }

  function InitialSender(isn: Word32, rto: nat, cap: nat): Sender {
    Sender(isn, rto, StreamState(cap, [], 0, false, false), 0, rto, [], [], [], 0, 1, 0, 0, 0, false, [], [], 0)
  }
}
