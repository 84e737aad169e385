/** The receiver as an object with the fields of the code, proved against `Receiving`. */
module TcpReceivers {
  import opened Words
  import opened WrappingIntegers
  import opened ByteStreams
  import opened Segments
  import opened Assembly
  import opened Ring
  import opened StreamReassemblers
  import opened Receiving
  import opened Rings
  import opened RingReceiving

  class TCPReceiver {
    const reassembler: StreamReassembler
    const capacity: nat
    var ckpt: nat
    var isn: Word32
    var ack: Word32
    var syn: bool
    var eof: bool
    var lenStream: nat

    /** The receiver and the objects it consists of. */
    ghost function Repr(): set<object> {
      {this, reassembler, reassembler.output, reassembler.empty}
    }

    ghost predicate Valid()
      reads this, reassembler, reassembler.output, reassembler.empty
    {
      && reassembler.Valid() && reassembler.capacity == capacity
      && ckpt == reassembler.startAux
    }

    ghost function State(): (r: Receiver)
      reads this, reassembler, reassembler.output, reassembler.empty
      requires Valid()
      ensures r.Valid()
    {
      Receiver(capacity, reassembler.State(), ckpt, isn, ack, syn, eof, lenStream)
    }

    /** The whole state, with the ring. */
    ghost function Ring(): (x: RingReceiver)
      reads this, reassembler, reassembler.output, reassembler.empty
      requires Valid()
      ensures x.Holds()
    {
      RingReceiver(State(), Slots(reassembler.aux, reassembler.empty[..]))
    }

    constructor (cap: nat)
      ensures fresh(Repr()) && (cap > 0 ==> Valid() && Ring() == FreshReceiver(cap))
    {
      reassembler := new StreamReassembler(cap);
      capacity := cap;
      ckpt, isn, ack, lenStream := 0, 0, 0, TWO_64 - 1;
      syn, eof := false, false;
    }

    /** Places the payload at `index` and recomputes checkpoint and acknowledgment. */
    method Assemble(payload: seq<Byte>, index: Word64)
      requires Valid()
      modifies Repr()
      ensures Valid() && unchanged(`isn, `syn, `eof, `lenStream)
      ensures var x := old(reassembler.Ring()).Push(payload, index, eof);
              && reassembler.Ring() == (if x.a.Start() == lenStream then x.(a := x.a.(out := x.a.out.End())) else x)
              && ack == Wrap(x.a.Start() + (if x.a.Start() == lenStream then 2 else 1), isn)
    {
      hide Wrap, Known, Assembler.Valid, Ringed.Push;
      reassembler.PushSubstring(payload, index, eof);
      ckpt := reassembler.output.bytesWrote;
      if ckpt == lenStream {
        ack := Wrap(ckpt + 2, isn);
        EndKeepsValid(reassembler.State());
        reassembler.output.EndInput();
      } else {
        ack := Wrap(ckpt + 1, isn);
      }
    }

    method SegmentReceived(seg: Segment)
      requires Valid()
      modifies Repr()
      ensures Valid() && Ring() == old(Ring()).SegmentReceived(seg)
    {
      hide Wrap, Unwrap, Known, Assembler.Valid, Ringed.Push;
      if !syn && !seg.header.syn {
        return;
      }
      if seg.header.syn {
        syn := true;
        isn := seg.header.seqno;
      }
      var startPayload := Unwrap(seg.header.seqno, isn, U64(ckpt));
      if !seg.header.syn {
        startPayload := U64(startPayload - 1);
      }
      if seg.header.fin {
        lenStream := U64(startPayload + |seg.payload|);
        eof := true;
      }
      Assemble(seg.payload, startPayload);
    }

    method WindowSize() returns (n: nat)
      requires Valid()
      ensures n == State().WindowSize()
    {
      n := capacity - |reassembler.output.deq|;
    }
  }
}
