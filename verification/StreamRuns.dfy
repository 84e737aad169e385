/** The byte stream over whole runs: first in, first out, never more than fits. */
module StreamRuns {
  import opened Words
  import opened ByteStreams

  datatype Op = Write(data: seq<Byte>) | Read(n: nat) | End

  function Apply(s: StreamState, op: Op): (s': StreamState)
    requires s.Valid()
    ensures s'.Valid()
  {
    match op
    case Write(data) => s.Write(data)
    case Read(n) => s.Pop(n)
    case End => s.End()
  }

  function After(cap: nat, ops: seq<Op>): (s: StreamState)
    ensures s.Valid()
  {
    if ops == [] then StreamState(cap, [], 0, false, false) else Apply(After(cap, ops[..|ops| - 1]), ops[|ops| - 1])
  }

  /** What a read returns of the bytes that wait. */
  function Returned(op: Op, waiting: seq<Byte>): seq<Byte> {
    if op.Read? then waiting[..Min(op.n, |waiting|)] else []
  }

  /** What a write is cut off to, when so many bytes wait. */
  function Taken(op: Op, cap: nat, waiting: int): seq<Byte> {
    if op.Write? then op.data[..Max(0, Min(|op.data|, cap - waiting))] else []
  }

  /** All bytes that reads have returned, in order. */
  function Output(cap: nat, ops: seq<Op>): seq<Byte> {
    if ops == [] then []
    else Output(cap, ops[..|ops| - 1]) + Returned(ops[|ops| - 1], After(cap, ops[..|ops| - 1]).Buffered())
  }

  /** All bytes that writes were given, cut off where the stream was full. */
  function Input(cap: nat, ops: seq<Op>): seq<Byte> {
    if ops == [] then []
    else
      var before := ops[..|ops| - 1];
      Input(cap, before) + Taken(ops[|ops| - 1], cap, |Input(cap, before)| - |Output(cap, before)|)
  }

  /** One step of a stream from which `output` came out and into which `input` went. */
  lemma Passes(s: StreamState, op: Op, output: seq<Byte>, input: seq<Byte>)
    requires s.Valid() && output == s.written[..s.read] && input == s.written
    ensures var s' := Apply(s, op);
            && output + Returned(op, s.Buffered()) == s'.written[..s'.read]
            && input + Taken(op, s.cap, |input| - |output|) == s'.written
            && s'.cap == s.cap && s'.error == s.error && (s'.ended <==> s.ended || op.End?)
  {
    match op
    case Write(data) =>
      assert (s.written + data[..Min(|data|, s.Room())])[..s.read] == s.written[..s.read];
    case Read(n) =>
      var k := Min(n, |s.Buffered()|);
      assert s.written[..s.read] + s.written[s.read..][..k] == s.written[..s.read + k];
    case End =>
  }

  lemma {:induction false} Keeps(cap: nat, ops: seq<Op>)
    ensures var s := After(cap, ops);
            && s.cap == cap && !s.error && (s.ended <==> End in ops)
            && Output(cap, ops) == s.written[..s.read] && Input(cap, ops) == s.written
  {
    hide Apply, Returned, Taken;
    if ops != [] {
      var before, op := ops[..|ops| - 1], ops[|ops| - 1];
      Keeps(cap, before);
      Passes(After(cap, before), op, Output(cap, before), Input(cap, before));
      assert ops == before + [op];
    }
  }

  /** In every run: what came out, followed by what waits, is what went in; and at most the capacity waits. */
  lemma FirstInFirstOut(cap: nat, ops: seq<Op>)
    ensures var s := After(cap, ops);
            && Output(cap, ops) + s.Buffered() == Input(cap, ops) == s.written
            && |s.Buffered()| <= cap && |Output(cap, ops)| == s.read
  {
    hide After, Output, Input;
    Keeps(cap, ops);
  }

  /** In every run: the stream is at its end exactly if it was ended and everything that went in came out. */
  lemma EofIff(cap: nat, ops: seq<Op>)
    ensures After(cap, ops).Eof() <==> End in ops && Output(cap, ops) == Input(cap, ops)
  {
    hide After, Output, Input;
    Keeps(cap, ops);
  }
}
