/**
 * Reassembly as a partial map from stream index to byte.  This is the reference model
 * that the ring buffer of `StreamReassembler` refines; the properties of every sequence
 * of pushes are proved here.
 */
module Assembly {
  import opened Words
  import opened ByteStreams

  /** Value of the end-of-stream index before any end was seen: all 64 bits set. */
  const NO_END: nat := TWO_64 - 1

  /** Length of the unbroken stretch of known indices that starts at `lo`, up to `hi`. */
  function Run(known: map<nat, Byte>, lo: nat, hi: nat): (n: nat)
    requires lo <= hi
    ensures n <= hi - lo
    ensures forall i :: lo <= i < lo + n ==> i in known
    ensures n < hi - lo ==> lo + n !in known
    decreases hi - lo
  {
    if lo < hi && lo in known then 1 + Run(known, lo + 1, hi) else 0
  }

  /** How many indices of [lo, hi) are known. */
  function Held(known: map<nat, Byte>, lo: nat, hi: nat): nat
    requires lo <= hi
    decreases hi - lo
  {
    if lo == hi then 0 else Held(known, lo, hi - 1) + (if hi - 1 in known then 1 else 0)
  }

  function ByteAt(data: seq<Byte>, index: nat, i: nat): Byte
    requires index <= i < index + |data|
  {
    data[i - index]
  }

  /** The bytes of [lo, hi) that `data`, placed at `index`, makes known. */
  function Stretch(data: seq<Byte>, index: nat, lo: nat, hi: nat): map<nat, Byte>
    requires index <= lo && hi <= index + |data|
  {
    map i: nat | lo <= i < hi :: ByteAt(data, index, i)
  }

  datatype Assembler = Assembler(cap: nat, known: map<nat, Byte>, unassembled: int, endStream: nat, out: StreamState) {

    /** Index of the first byte not yet written to the output. */
    function Start(): nat {
      |out.written|
    }

    function WindowEnd(): nat {
      Start() + cap
    }

    ghost predicate Valid() {
      && cap > 0
      && out.Valid() && out.cap == cap
      && (forall i :: i in known ==> Start() <= i < WindowEnd())
      && Held(known, Start(), WindowEnd()) <= unassembled
    }

    /** The first index above the start that is stored at slot zero of a ring of `cap` slots. */
    function RingEnd(): (e: nat)
      requires cap > 0
      ensures Start() < e <= WindowEnd()
    {
      Start() - Start() % cap + cap
    }

    /** A push is looked at only if it touches the closed window [Start, WindowEnd]. */
    predicate Touches(index: nat, size: nat) {
      index <= WindowEnd() && Start() <= index + size
    }

    /** The part of a push inside the window straddles the ring end. */
    predicate Crosses(index: nat, size: nat)
      requires cap > 0
    {
      Max(Start(), index) < RingEnd() < Min(WindowEnd(), index + size)
    }

    /** No part of a push lies outside the window. */
    predicate Unclipped(index: nat, size: nat) {
      Start() <= index && index + size <= WindowEnd()
    }

    /** The ring code puts every byte of a push where it belongs: it does not straddle, or is unclipped. */
    predicate Placeable(index: nat, size: nat)
      requires cap > 0
    {
      Crosses(index, size) ==> Unclipped(index, size)
    }

    /** Remembers the part of `data` inside the window. */
    ghost function Store(data: seq<Byte>, index: nat, eof: bool): Assembler {
      if data == [] then
        if eof then this.(out := out.End()) else this
      else if !Touches(index, |data|) then
        this
      else
        var lo, hi := Max(Start(), index), Min(WindowEnd(), index + |data|);
        this.(known := known + Stretch(data, index, lo, hi),
              unassembled := unassembled + (hi - lo) - Held(known, lo, hi),
              endStream := if eof then index + |data| else endStream)
    }

    /** Length of the unbroken stretch of bytes waiting to be written. */
    function Ready(): nat {
      Run(known, Start(), WindowEnd())
    }

    /** Bytes that go to the output next. */
    function ReadyBytes(): (bytes: seq<Byte>)
      ensures |bytes| == Ready()
    {
      seq(Ready(), j requires 0 <= j < Ready() => known[Start() + j])
    }

    /** The ready stretch reaches the ring end, which makes the code clear every slot below the start slot. */
    predicate ReachesRingEnd()
      requires cap > 0
    {
      Start() + Ready() >= RingEnd()
    }

    /** Known bytes still kept after the first `n` ready ones were written. */
    ghost function Kept(n: nat): map<nat, Byte>
      requires cap > 0
    {
      map i | i in known && Start() + n <= i && (ReachesRingEnd() ==> i < RingEnd()) :: known[i]
    }

    /** Writes ready bytes while the output has room. */
    ghost function Drain(): Assembler
      requires Valid()
    {
      var n := Min(out.Room(), Ready());
      this.(known := Kept(n), unassembled := unassembled - n, out := out.Write(ReadyBytes()))
    }

    /** Ends the output once everything up to the recorded end has been written. */
    function Close(): Assembler {
      if Start() == endStream then this.(out := out.End()) else this
    }

    ghost function Push(data: seq<Byte>, index: nat, eof: bool): Assembler
      requires Valid()
    {
      StoreKeepsValid(this, data, index, eof);
      Store(data, index, eof).Drain().Close()
    }

    function Read(n: nat): Assembler
      requires out.Valid()
    {
      this.(out := out.Pop(n))
    }
  }

  // Counting

  lemma HeldMonotone(k1: map<nat, Byte>, k2: map<nat, Byte>, lo: nat, hi: nat)
    requires lo <= hi
    requires forall i :: lo <= i < hi && i in k1 ==> i in k2
    ensures Held(k1, lo, hi) <= Held(k2, lo, hi)
    decreases hi
  {
    if lo < hi {
      HeldMonotone(k1, k2, lo, hi - 1);
    }
  }

  lemma HeldSplit(known: map<nat, Byte>, lo: nat, mid: nat, hi: nat)
    requires lo <= mid <= hi
    ensures Held(known, lo, hi) == Held(known, lo, mid) + Held(known, mid, hi)
    decreases hi
  {
    if mid < hi {
      HeldSplit(known, lo, mid, hi - 1);
    }
  }

  lemma HeldAll(known: map<nat, Byte>, lo: nat, hi: nat)
    requires lo <= hi
    ensures (forall i :: lo <= i < hi ==> i in known) ==> Held(known, lo, hi) == hi - lo
    ensures (forall i :: lo <= i < hi ==> i !in known) <==> Held(known, lo, hi) == 0
    decreases hi
  {
    if lo < hi {
      HeldAll(known, lo, hi - 1);
      assert Held(known, lo, hi) == 0 ==> hi - 1 !in known;
    }
  }

  lemma HeldSame(k1: map<nat, Byte>, k2: map<nat, Byte>, lo: nat, hi: nat)
    requires lo <= hi
    requires forall i :: lo <= i < hi ==> (i in k1 <==> i in k2)
    ensures Held(k1, lo, hi) == Held(k2, lo, hi)
  {
    HeldMonotone(k1, k2, lo, hi);
    HeldMonotone(k2, k1, lo, hi);
  }

  lemma HeldOfUnion(known: map<nat, Byte>, more: map<nat, Byte>, lo: nat, a: nat, b: nat, hi: nat)
    requires lo <= a <= b <= hi
    requires forall i: nat :: i in more <==> a <= i < b
    ensures Held(known + more, lo, hi) == Held(known, lo, hi) + (b - a) - Held(known, a, b)
  {
    var both := known + more;
    HeldSplit(both, lo, a, hi);
    HeldSplit(both, a, b, hi);
    HeldSplit(known, lo, a, hi);
    HeldSplit(known, a, b, hi);
    HeldSame(both, known, lo, a);
    HeldAll(both, a, b);
    HeldSame(both, known, b, hi);
  }

  // What each operation keeps

  lemma StoreKeepsValid(a: Assembler, data: seq<Byte>, index: nat, eof: bool)
    requires a.Valid()
    ensures a.Store(data, index, eof).Valid()
  {
    if data != [] && a.Touches(index, |data|) {
      var lo, hi := Max(a.Start(), index), Min(a.WindowEnd(), index + |data|);
      HeldOfUnion(a.known, Stretch(data, index, lo, hi), a.Start(), lo, hi, a.WindowEnd());
    }
  }

  /** How many known bytes a drain forgets without writing them. */
  ghost function Forgotten(a: Assembler): nat
    requires a.Valid()
  {
    if a.ReachesRingEnd() then
      Held(a.known, Max(a.Start() + Min(a.out.Room(), a.Ready()), a.RingEnd()), a.WindowEnd())
    else
      0
  }

  lemma KeptHeld(a: Assembler)
    requires a.Valid()
    ensures var s' := a.Start() + Min(a.out.Room(), a.Ready());
            Held(a.known, s', a.WindowEnd()) == Held(a.Drain().known, s', a.WindowEnd()) + Forgotten(a)
  {
    var d := a.Drain().known;
    var s', e := a.Start() + Min(a.out.Room(), a.Ready()), a.WindowEnd();
    if a.ReachesRingEnd() {
      var m := Max(s', a.RingEnd());
      HeldSplit(a.known, s', m, e);
      HeldSplit(d, s', m, e);
      HeldSame(d, a.known, s', m);
      HeldAll(d, m, e);
    } else {
      HeldSame(d, a.known, s', e);
    }
  }

  /** A drain keeps the assembler valid; the count of unassembled bytes drifts by what it forgets. */
  lemma DrainCounts(a: Assembler)
    requires a.Valid()
    ensures a.Drain().Valid()
    ensures var d := a.Drain();
            d.unassembled - Held(d.known, d.Start(), d.WindowEnd())
            == a.unassembled - Held(a.known, a.Start(), a.WindowEnd()) + Forgotten(a)
  {
    var d := a.Drain();
    var s, e, s', e' := a.Start(), a.WindowEnd(), d.Start(), d.WindowEnd();
    HeldSplit(a.known, s, s', e);
    HeldAll(a.known, s, s');
    HeldSplit(d.known, s', e, e');
    HeldAll(d.known, e, e');
    KeptHeld(a);
  }

  lemma PushKeepsValid(a: Assembler, data: seq<Byte>, index: nat, eof: bool)
    requires a.Valid()
    ensures a.Push(data, index, eof).Valid()
  {
    StoreKeepsValid(a, data, index, eof);
    DrainCounts(a.Store(data, index, eof));
    CloseKeepsValid(a.Store(data, index, eof).Drain());
    hide Assembler.Store, Assembler.Drain, Assembler.Close, Assembler.Valid;
  }

  lemma CloseKeepsValid(a: Assembler)
    requires a.Valid()
    ensures a.Close().Valid()
  {
  }

  // What does not depend on the values of bytes

  /** Equal but for the values of bytes: same indices known and written, same counts, same end. */
  ghost predicate SameShape(a: Assembler, b: Assembler) {
    && a.known.Keys == b.known.Keys && |a.out.written| == |b.out.written|
    && b == a.(known := b.known, out := a.out.(written := b.out.written))
  }

  lemma StoreSameShape(a: Assembler, b: Assembler, data: seq<Byte>, index: nat, eof: bool)
    requires SameShape(a, b) && a.cap > 0
    ensures SameShape(a.Store(data, index, eof), b.Store(data, index, eof))
  {
    if data != [] && a.Touches(index, |data|) {
      var lo, hi := Max(a.Start(), index), Min(a.WindowEnd(), index + |data|);
      assert forall i :: i in a.known <==> i in b.known.Keys;
      HeldSame(a.known, b.known, lo, hi);
      var x, y := a.Store(data, index, eof), b.Store(data, index, eof);
      assert x.known.Keys == y.known.Keys;
    }
  }

  lemma PushSameShape(a: Assembler, b: Assembler, data: seq<Byte>, index: nat, eof: bool)
    requires a.Valid() && b.Valid() && SameShape(a, b)
    ensures SameShape(a.Push(data, index, eof), b.Push(data, index, eof))
  {
    hide Assembler.Store, Assembler.Drain, Assembler.Valid;
    ValidOut(a);
    StoreKeepsValid(a, data, index, eof);
    StoreKeepsValid(b, data, index, eof);
    StoreSameShape(a, b, data, index, eof);
    DrainSameShape(a.Store(data, index, eof), b.Store(data, index, eof));
  }

  lemma {:induction false} RunSameKeys(k1: map<nat, Byte>, k2: map<nat, Byte>, lo: nat, hi: nat)
    requires lo <= hi && k1.Keys == k2.Keys
    ensures Run(k1, lo, hi) == Run(k2, lo, hi)
    decreases hi - lo
  {
    assert lo in k1 <==> lo in k2.Keys;
    if lo < hi && lo in k1 {
      RunSameKeys(k1, k2, lo + 1, hi);
    }
  }

  lemma DrainSameShape(a: Assembler, b: Assembler)
    requires a.Valid() && b.Valid() && SameShape(a, b)
    ensures SameShape(a.Drain(), b.Drain())
  {
    hide Assembler.Valid, Run, Assembler.RingEnd, Assembler.Kept;
    ValidOut(a);
    ValidOut(b);
    RunSameKeys(a.known, b.known, a.Start(), a.WindowEnd());
    KeptSameKeys(a, b, Min(a.out.Room(), a.Ready()));
  }

  lemma KeptSameKeys(a: Assembler, b: Assembler, n: nat)
    requires SameShape(a, b) && a.cap > 0 && a.Ready() == b.Ready()
    ensures a.Kept(n).Keys == b.Kept(n).Keys
  {
    hide Run, Assembler.RingEnd;
    SameRingEnd(a, b);
    forall i
      ensures i in a.Kept(n).Keys <==> i in b.Kept(n).Keys
    {
      assert i in a.known <==> i in b.known.Keys;
    }
  }

  lemma ValidOut(a: Assembler)
    requires a.Valid()
    ensures a.out.Valid() && a.cap > 0
  {
  }

  lemma SameRingEnd(a: Assembler, b: Assembler)
    requires SameShape(a, b) && a.cap > 0
    ensures a.RingEnd() == b.RingEnd()
  {
  }
}
