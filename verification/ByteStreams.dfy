/** A bounded in-order byte stream: a full history of accepted bytes and a read cursor. */
module ByteStreams {
  import opened Words

  datatype StreamState = StreamState(cap: nat, written: seq<Byte>, read: nat, ended: bool, error: bool) {

    predicate Valid() {
      read <= |written| <= read + cap
    }

    /** Bytes accepted and not yet read. */
    function Buffered(): seq<Byte>
      requires Valid()
    {
      written[read..]
    }

    function Room(): nat
      requires Valid()
    {
      cap - (|written| - read)
    }

    predicate Eof() {
      ended && read == |written|
    }

    /** Accepts the longest prefix of `data` that fits. */
    function Write(data: seq<Byte>): (s: StreamState)
      requires Valid()
      ensures s.Valid()
    {
      this.(written := written + data[..Min(|data|, Room())])
    }

    function Pop(n: nat): (s: StreamState)
      requires Valid()
      ensures s.Valid() && Buffered() == Buffered()[..Min(n, |Buffered()|)] + s.Buffered()
    {
      this.(read := read + Min(n, |Buffered()|))
    }

    function End(): StreamState {
      this.(ended := true)
    }

    function Fail(): StreamState {
      this.(error := true)
    }
  }

  class ByteStream {
    const cap: nat
    var deq: seq<Byte>
    var bytesWrote: nat
    var bytesRead: nat
    var ended: bool
    var error: bool
    ghost var written: seq<Byte>

    ghost predicate Valid()
      reads this
    {
      && bytesRead <= bytesWrote == |written|
      && deq == written[bytesRead..]
      && |deq| <= cap
    }

    ghost function State(): (s: StreamState)
      reads this
      requires Valid()
      ensures s.Valid() && s.Buffered() == deq
    {
      StreamState(cap, written, bytesRead, ended, error)
    }

    constructor (capacity: nat)
      ensures Valid() && State() == StreamState(capacity, [], 0, false, false)
    {
      cap := capacity;
      deq, written := [], [];
      bytesWrote, bytesRead := 0, 0;
      ended, error := false, false;
    }

    method Write(data: seq<Byte>) returns (size: nat)
      requires Valid()
      modifies this
      ensures Valid() && State() == old(State()).Write(data)
      ensures size == Min(|data|, old(State()).Room())
    {
      size := Min(|data|, RemainingCapacity());
      bytesWrote := bytesWrote + size;
      for i := 0 to size
        invariant deq == old(deq) + data[..i]
        invariant unchanged(`written, `bytesRead, `ended, `error)
        invariant bytesWrote == old(bytesWrote) + size
      {
        deq := deq + [data[i]];
      }
      written := written + data[..size];
    }

    method PeekOutput(len: nat) returns (peeked: seq<Byte>)
      requires Valid()
      ensures peeked == deq[..Min(len, |deq|)]
    {
      peeked := [];
      for i := 0 to Min(len, |deq|)
        invariant peeked == deq[..i]
      {
        peeked := peeked + [deq[i]];
      }
    }

    method PopOutput(len: nat)
      requires Valid()
      modifies this
      ensures Valid() && State() == old(State()).Pop(len)
    {
      var size := Min(len, |deq|);
      for i := 0 to size
        invariant deq == old(deq)[i..]
        invariant unchanged(`written, `bytesRead, `bytesWrote, `ended, `error)
      {
        deq := deq[1..];
      }
      bytesRead := bytesRead + size;
    }

    method Read(len: nat) returns (bytes: seq<Byte>)
      requires Valid()
      modifies this
      ensures Valid() && State() == old(State()).Pop(len)
      ensures old(State().Buffered()) == bytes + State().Buffered()
      ensures |bytes| == Min(len, old(|deq|))
    {
      bytes := PeekOutput(len);
      PopOutput(len);
    }

    method EndInput()
      requires Valid()
      modifies this
      ensures Valid() && State() == old(State()).End()
    {
      ended := true;
    }

    method SetError()
      requires Valid()
      modifies this
      ensures Valid() && State() == old(State()).Fail()
    {
      error := true;
    }

    function RemainingCapacity(): (n: nat)
      reads this
      requires Valid()
      ensures n == State().Room()
    {
      cap - |deq|
    }

    predicate Eof()
      reads this
      requires Valid()
      ensures Eof() == State().Eof()
    {
      |deq| == 0 && ended
    }
  }
}
