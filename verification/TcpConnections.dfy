/** The connection as an object that owns a sender and a receiver, proved against `Connecting`. */
module TcpConnections {
  import opened Words
  import opened WrappingIntegers
  import opened ByteStreams
  import opened Segments
  import opened Assembly
  import opened Ring
  import opened Sending
  import opened TcpSenders
  import opened Receiving
  import opened TcpReceivers
  import opened Connecting
  import opened Rings
  import opened RingReceiving
  import opened Endpoints

  class TCPConnection {
    const rtTimeout: Word16
    const sender: TCPSender
    const receiver: TCPReceiver
    var segmentsOut: seq<Segment>
    var linger: bool
    var lastReceived: nat
    var time: nat
    var rstReceived: bool
    var rstToSend: bool
    var connectCalled: bool

    ghost function Repr(): set<object> {
      {this, sender, sender.stream} + receiver.Repr()
    }

    ghost predicate Valid()
      reads this, sender, sender.stream, receiver, receiver.reassembler, receiver.reassembler.output, receiver.reassembler.empty
    {
      sender.Valid() && receiver.Valid() && sender.stream != receiver.reassembler.output
    }

    ghost function State(): (c: Connection)
      reads this, sender, sender.stream, receiver, receiver.reassembler, receiver.reassembler.output, receiver.reassembler.empty
      requires Valid()
      ensures c.Valid()
    {
      Connection(rtTimeout, sender.State(), receiver.State(), segmentsOut, linger, lastReceived, time,
                 rstReceived, rstToSend, connectCalled)
    }

    /** The whole state, with the ring of the receiver. */
    ghost function End(): (x: Endpoint)
      reads this, sender, sender.stream, receiver, receiver.reassembler, receiver.reassembler.output, receiver.reassembler.empty
      requires Valid()
      ensures x.Holds()
    {
      Endpoint(State(), receiver.Ring().m)
    }

    constructor (timeout: Word16, isn: Word32, sendCap: nat, recvCap: nat)
      ensures fresh(Repr()) && (recvCap > 0 ==> Valid() && End() == FreshEndpoint(isn, timeout, sendCap, recvCap))
    {
      rtTimeout := timeout;
      sender := new TCPSender(sendCap, timeout, isn);
      receiver := new TCPReceiver(recvCap);
      segmentsOut, linger, lastReceived, time := [], true, 0, 0;
      rstReceived, rstToSend, connectCalled := false, false, false;
    }

    /** One outgoing segment, with the fields the receiver and the connection set. */
    method Dress(seg: Segment) returns (r: Segment)
      requires Valid()
      ensures r == State().Dressed(seg)
    {
      r := seg;
      if receiver.syn {
        var win := receiver.WindowSize();
        r := r.(header := r.header.(ack := true, ackno := receiver.ack, win := Min(win, TWO_16 - 1)));
      }
      if rstToSend {
        r := r.(header := r.header.(rst := true));
      }
    }

    /** Dresses a queue of segments, first in, first out. */
    method DressQueue(queue: seq<Segment>) returns (dressed: seq<Segment>)
      requires Valid()
      ensures dressed == State().DressedAll(queue)
    {
      hide Connection.Dressed, Assembler.Valid, Known;
      dressed := [];
      var rest := queue;
      while |rest| > 0
        invariant |dressed| + |rest| == |queue| && rest == queue[|dressed|..]
        invariant forall i :: 0 <= i < |dressed| ==> dressed[i] == State().Dressed(queue[i])
      {
        var seg := Dress(rest[0]);
        dressed := dressed + [seg];
        rest := rest[1..];
      }
    }

    method SendSegments()
      requires Valid()
      modifies `segmentsOut, sender`segmentsOut
      ensures Valid() && State() == old(State()).SendSegments()
    {
      hide Connection.DressedAll, TCPReceiver.Valid, TCPReceiver.State, ByteStream.Valid, ByteStream.State;
      var dressed := DressQueue(sender.segmentsOut);
      segmentsOut := segmentsOut + dressed;
      sender.segmentsOut := [];
    }

    predicate Active()
      reads this, sender, sender.stream, receiver, receiver.reassembler, receiver.reassembler.output, receiver.reassembler.empty
      requires Valid()
      ensures Active() == State().Active()
    {
      && !rstReceived && !rstToSend
      && (receiver.reassembler.output.Eof() && sender.bytesFlying == 0 && sender.stream.Eof() ==>
            linger && time - lastReceived < 10 * rtTimeout)
    }

    method Connect()
      requires Valid()
      modifies this, sender, sender.stream
      ensures Valid() && State() == old(State()).Connect()
    {
      hide TCPReceiver.Valid, TCPReceiver.State, Sender.FillWindow, Connection.SendSegments, Receiver.Valid;
      connectCalled := true;
      sender.FillWindow();
      OutIsValid(State());
      SendSegments();
    }

    method Write(data: seq<Byte>) returns (size: nat)
      requires Valid()
      modifies this, sender, sender.stream
      ensures Valid() && State() == old(State()).Write(data)
      ensures size == Min(|data|, old(State()).s.stream.Room())
    {
      hide TCPReceiver.Valid, TCPReceiver.State, Sender.FillWindow, Connection.SendSegments, Receiver.Valid;
      size := sender.stream.Write(data);
      sender.FillWindow();
      OutIsValid(State());
      SendSegments();
    }

    method EndInputStream()
      requires Valid()
      modifies this, sender, sender.stream
      ensures Valid() && State() == old(State()).EndInputStream()
    {
      hide TCPReceiver.Valid, TCPReceiver.State, Sender.FillWindow, Connection.SendSegments, Receiver.Valid;
      sender.stream.EndInput();
      sender.FillWindow();
      OutIsValid(State());
      SendSegments();
    }

    /** Marks both streams as failed. */
    method SetErrors()
      requires Valid()
      modifies sender.stream, receiver.reassembler.output
      ensures Valid() && State() == old(State()).Failed()
    {
      ReceiverFailValid(receiver.State());
      sender.stream.SetError();
      receiver.reassembler.output.SetError();
    }

    method Tick(ms: nat)
      requires Valid()
      modifies this, sender, sender.stream, receiver.reassembler.output
      ensures Valid() && State() == old(State()).Tick(ms)
    {
      hide TCPReceiver.Valid, TCPReceiver.State, Sender.Tick, Connection.SendSegments, Receiver.Valid, Connection.Failed;
      time := time + ms;
      sender.Tick(ms);
      if sender.consecRetrans > MAX_RETX_ATTEMPTS {
        rstToSend := true;
        SetErrors();
      }
      OutIsValid(State());
      SendSegments();
    }

    /** The sender sees the acknowledgment, then the receiver the rest of the segment. */
    method Absorb(seg: Segment)
      requires Valid()
      modifies Repr()
      ensures Valid() && unchanged(this)
      ensures End() == old(End()).Absorb(seg)
    {
      hide Sender.AckReceived, RingReceiver.SegmentReceived, Receiver.Valid, TCPReceiver.State, TCPReceiver.Valid,
           RingReceiver.Holds;
      if seg.header.ack {
        sender.AckReceived(seg.header.ackno, seg.header.win);
      }
      if seg.Length() != 0 {
        receiver.SegmentReceived(seg);
      }
    }

    /** A reset is honoured on a connection that was opened and is still active. */
    method HandleReset(seg: Segment)
      requires Valid()
      modifies this, sender.stream, receiver.reassembler.output
      ensures Valid() && State() == old(State()).Reset(seg)
    {
      hide TCPReceiver.Valid, TCPReceiver.State, Receiver.Valid, Connection.Failed, Connection.Active;
      if seg.header.rst && connectCalled && Active() {
        rstReceived := true;
        SetErrors();
      }
    }

    method HandleReply(seg: Segment)
      requires Valid()
      modifies this, sender
      ensures Valid() && State() == old(State()).Reply(seg)
    {
      hide Wrap;
      var eof := sender.stream.Eof();
      lastReceived := time;
      if seg.Length() > 0 || (receiver.syn && seg.header.seqno == U32(receiver.ack - 1)) {
        sender.SendEmptySegment();
      }
      if seg.header.fin && !eof {
        linger := false;
      }
    }

    method SegmentReceived(seg: Segment)
      requires Valid()
      modifies Repr()
      ensures Valid() && End() == old(End()).SegmentReceived(seg)
    {
      hide TCPReceiver.Valid, TCPReceiver.State, TCPSender.Valid, TCPSender.State, Receiver.Valid, RingReceiver.Holds,
           Endpoint.Absorb, Connection.Connect, Connection.Reset, Connection.Reply, Connection.SendSegments;
      AbsorbHolds(End(), seg);
      Absorb(seg);
      if seg.header.syn && !seg.header.ack && !connectCalled {
        Connect();
        return;
      }
      HandleReset(seg);
      HandleReply(seg);
      SendSegments();
    }
  }
}
