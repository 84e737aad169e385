/**
 * The ring buffer as a value: a ring string with a vector of empty slots, beside the counters
 * and the output stream.  Every operation is that of the code, whether or not it puts the
 * bytes where they belong.
 */
module Rings {
  import opened Words
  import opened ByteStreams
  import opened Assembly
  import opened Ring

  /** The ring string and which of its slots are empty. */
  datatype Slots = Slots(aux: seq<Byte>, empty: seq<bool>)

  function Marked(e: seq<bool>, from: nat, to: nat, value: bool): (r: seq<bool>)
    ensures |r| == |e|
  {
    seq(|e|, k requires 0 <= k < |e| => if from <= k < to then value else e[k])
  }

  /** The slots after [lo, hi) of `data` was copied, in one replacement or in two. */
  function CopiedSlots(m: Slots, data: seq<Byte>, index: nat, lo: nat, hi: nat): (r: Slots)
    requires 0 < |m.empty| <= |m.aux| && index <= lo <= hi <= index + |data| && hi - lo <= |m.empty|
    ensures |r.empty| == |m.empty|
  {
    var cap, at, size := |m.empty|, Slot(lo, |m.empty|), hi - lo;
    if at + size <= cap then
      Slots(Replace(m.aux, at, size, Substr(data, lo - index, size)), Marked(m.empty, at, at + size, false))
    else
      Slots(TwoReplacements(m.aux, cap, data, lo - index, at, size),
            Marked(Marked(m.empty, at, cap, false), 0, at + size - cap, false))
  }

  /** How many of the slots that [lo, hi) is copied to were empty. */
  function NewlyTaken(m: Slots, lo: nat, hi: nat): nat
    requires 0 < |m.empty| && lo <= hi && hi - lo <= |m.empty|
  {
    var cap, at, size := |m.empty|, Slot(lo, |m.empty|), hi - lo;
    if at + size <= cap then CountTrue(m.empty, at, at + size)
    else CountTrue(m.empty, at, cap) + CountTrue(m.empty, 0, at + size - cap)
  }

  /** The slots after a drain: those written are empty, and all below the start slot if the ring end was reached. */
  function EmptiedSlots(e: seq<bool>, p: nat, n: nat, reaches: bool): (r: seq<bool>)
    ensures |r| == |e|
  {
    seq(|e|, k requires 0 <= k < |e| => e[k] || p <= k < p + n || (reaches && k < p))
  }

  /** An assembler whose known bytes are those in its slots. */
  datatype Ringed = Ringed(a: Assembler, m: Slots) {

    ghost predicate Holds() {
      a.Valid() && a.cap == |m.empty| <= |m.aux| && a.known == Known(a.cap, m.aux, m.empty, a.Start())
    }

    /** The first scan goes from the start slot to the ring end. */
    ghost function End1(): nat
      requires Holds()
    {
      FirstEmpty(m.empty, Slot(a.Start(), a.cap), a.cap)
    }

    /** The second goes on from slot zero, if the first found no empty slot. */
    ghost function End2(): nat
      requires Holds()
    {
      if End1() == a.cap then FirstEmpty(m.empty, 0, Slot(a.Start(), a.cap)) else 0
    }

    ghost function Store(data: seq<Byte>, index: nat, eof: bool): Ringed
      requires Holds()
    {
      if data == [] then
        if eof then this.(a := a.(out := a.out.End())) else this
      else if !a.Touches(index, |data|) then
        this
      else
        var lo, hi := Max(a.Start(), index), Min(a.WindowEnd(), index + |data|);
        var m' := CopiedSlots(m, data, index, lo, hi);
        CopiedSlotsGrow(m, data, index, lo, hi);
        Ringed(a.(known := Known(a.cap, m'.aux, m'.empty, a.Start()),
                  unassembled := a.unassembled + NewlyTaken(m, lo, hi),
                  endStream := if eof then index + |data| else a.endStream), m')
    }

    ghost function Drain(): Ringed
      requires Holds()
    {
      var p := Slot(a.Start(), a.cap);
      var n := Min(a.out.Room(), End1() - p + End2());
      var e := EmptiedSlots(m.empty, p, Min(a.out.Room(), End1() - p), End1() == a.cap);
      Ringed(a.(known := Known(a.cap, m.aux, e, a.Start() + n),
                unassembled := a.unassembled - n,
                out := a.out.Write(m.aux[p..End1()]).Write(m.aux[..End2()])), m.(empty := e))
    }

    ghost function Push(data: seq<Byte>, index: nat, eof: bool): Ringed
      requires Holds()
    {
      StoreHolds(this, data, index, eof);
      var d := Store(data, index, eof).Drain();
      d.(a := d.a.Close())
    }
  }

  lemma CopiedSlotsGrow(m: Slots, data: seq<Byte>, index: nat, lo: nat, hi: nat)
    requires 0 < |m.empty| <= |m.aux| && index <= lo <= hi <= index + |data| && hi - lo <= |m.empty|
    ensures |CopiedSlots(m, data, index, lo, hi).aux| >= |m.aux|
  {
    hide Slot;
  }

  lemma CopiedSlotsAre(m: Slots, start: nat, data: seq<Byte>, index: nat, lo: nat, hi: nat)
    requires 0 < |m.empty| <= |m.aux| && start <= lo <= hi <= start + |m.empty| && index <= lo && hi <= index + |data|
    ensures var m' := CopiedSlots(m, data, index, lo, hi);
            Copied(m.aux, m'.aux, m.empty, m'.empty, start, data, index, lo, hi, NewlyTaken(m, lo, hi))
  {
    hide Slot, Copied, CountTrue, TwoReplacements, Replace, Substr;
    var cap, at, size := |m.empty|, Slot(lo, |m.empty|), hi - lo;
    if at + size <= cap {
      OneArcCopies(m.aux, m.empty, Marked(m.empty, at, at + size, false), start, data, index, lo, hi, at);
    } else {
      var e1 := Marked(m.empty, at, cap, false);
      TwoArcsCopy(m.aux, m.empty, e1, Marked(e1, 0, at + size - cap, false), start, data, index, lo, hi, at);
    }
  }

  /** Storing keeps the ring whole in shape always, and stores the right bytes if it can place the piece. */
  lemma StoreHolds(x: Ringed, data: seq<Byte>, index: nat, eof: bool)
    requires x.Holds()
    ensures x.Store(data, index, eof).Holds()
    ensures var y, s := x.Store(data, index, eof), x.a.Store(data, index, eof);
            && SameShape(y.a, s) && (x.a.Placeable(index, |data|) ==> y.a == s)
            && |y.m.aux| >= |x.m.aux| && (|y.m.aux| == |x.m.aux| <==> x.a.Placeable(index, |data|))
  {
    hide Known, Assembler.Valid, Assembler.Placeable, CopiedSlots, NewlyTaken, SameShape;
    HoldsParts(x);
    EasilyPlaceable(x.a, index, |data|);
    if data != [] && x.a.Touches(index, |data|) {
      TouchingStore(x, data, index, eof);
    } else {
      EndKeepsShape(x.a);
      OutputEnds(x);
    }
  }

  lemma EndKeepsShape(a: Assembler)
    ensures SameShape(a, a) && SameShape(a.(out := a.out.End()), a.(out := a.out.End()))
    ensures a.Valid() ==> a.(out := a.out.End()).Valid()
  {
  }

  lemma OutputEnds(x: Ringed)
    requires x.Holds()
    ensures x.(a := x.a.(out := x.a.out.End())).Holds()
  {
    hide Known;
    EndKeepsShape(x.a);
  }

  lemma TouchingStore(x: Ringed, data: seq<Byte>, index: nat, eof: bool)
    requires x.Holds() && data != [] && x.a.Touches(index, |data|)
    ensures x.Store(data, index, eof).Holds()
    ensures var y, s := x.Store(data, index, eof), x.a.Store(data, index, eof);
            && SameShape(y.a, s) && (x.a.Placeable(index, |data|) ==> y.a == s)
            && |y.m.aux| >= |x.m.aux| && (|y.m.aux| == |x.m.aux| <==> x.a.Placeable(index, |data|))
  {
    hide Known, Copied, Assembler.Valid, Assembler.Store, Assembler.Placeable, CopiedSlots, NewlyTaken, SameShape;
    var a := x.a;
    var lo, hi := Max(a.Start(), index), Min(a.WindowEnd(), index + |data|);
    HoldsParts(x);
    CopiedSlotsAre(x.m, a.Start(), data, index, lo, hi);
    CopiedSlotsGrow(x.m, data, index, lo, hi);
    var y := x.Store(data, index, eof);
    RingStoreIs(a, x.m.aux, y.m.aux, x.m.empty, y.m.empty, data, index, eof, y.a);
  }

  /** A drain of the ring is a drain of the bytes it holds. */
  lemma DrainHolds(x: Ringed)
    requires x.Holds()
    ensures x.Drain().Holds() && x.Drain().a == x.a.Drain() && x.Drain().m.aux == x.m.aux
  {
    hide Known, Assembler.Valid, Assembler.Drain, StreamState.Write;
    ValidOut(x.a);
    var p := Slot(x.a.Start(), x.a.cap);
    RingDrainIs(x.a, x.m.aux, x.m.empty, x.Drain().m.empty, p, x.End1(), x.End2(), x.Drain().a);
    DrainedStart(x.a);
    ScansFind(x);
  }

  lemma ScansFind(x: Ringed)
    requires x.Holds()
    ensures x.a.Ready() == x.End1() - Slot(x.a.Start(), x.a.cap) + x.End2()
  {
    hide Assembler.Valid;
    ValidOut(x.a);
    ScanReady(x.a, x.m.aux, x.m.empty, x.End1(), x.End2());
  }

  lemma DrainedStart(a: Assembler)
    requires a.Valid()
    ensures a.Drain().Start() == a.Start() + Min(a.out.Room(), a.Ready())
  {
  }

  lemma CloseHolds(x: Ringed)
    requires x.Holds()
    ensures x.(a := x.a.Close()).Holds()
  {
    hide Known;
    CloseKeepsValid(x.a);
  }

  /** A push into the ring, against a push into the partial map. */
  lemma PushHolds(x: Ringed, data: seq<Byte>, index: nat, eof: bool)
    requires x.Holds()
    ensures x.Push(data, index, eof).Holds()
    ensures var y, s := x.Push(data, index, eof), x.a.Push(data, index, eof);
            && SameShape(y.a, s) && (x.a.Placeable(index, |data|) ==> y.a == s)
            && |y.m.aux| >= |x.m.aux| && (|y.m.aux| == |x.m.aux| <==> x.a.Placeable(index, |data|))
  {
    hide Ringed.Store, Ringed.Drain, Assembler.Valid, Assembler.Store, Assembler.Drain, Assembler.Placeable;
    StoreHolds(x, data, index, eof);
    StoreKeepsValid(x.a, data, index, eof);
    var y := x.Store(data, index, eof);
    DrainHolds(y);
    HoldsParts(y);
    DrainSameShape(y.a, x.a.Store(data, index, eof));
    CloseHolds(y.Drain());
  }

  lemma HoldsParts(x: Ringed)
    requires x.Holds()
    ensures x.a.Valid() && x.a.out.Valid() && x.a.out.cap == x.a.cap > 0 && |x.m.empty| == x.a.cap <= |x.m.aux|
  {
    hide Known;
  }

  /** What a drain writes is counted as unassembled before. */
  lemma DrainIsCounted(x: Ringed)
    requires x.Holds()
    ensures Scanned(x.m.empty, Slot(x.a.Start(), x.a.cap), x.End1(), x.End2())
    ensures Min(x.a.out.Room(), x.End1() - Slot(x.a.Start(), x.a.cap) + x.End2()) <= x.a.unassembled
  {
    ScansFind(x);
    DrainCounts(x.a);
    hide Known, Run, Held;
  }

  /** A ring of blanks. */
  ghost function FreshRing(cap: nat): Ringed {
    Ringed(Assembler(cap, map[], 0, NO_END, StreamState(cap, [], 0, false, false)),
           Slots(seq(cap, _ => 32), seq(cap, _ => true)))
  }

  lemma FreshHolds(cap: nat)
    requires cap > 0
    ensures FreshRing(cap).Holds()
  {
    HeldAll(map[], 0, cap);
  }
}
