/** Where the ring goes wrong: exactly which pieces it misplaces, and runs that show it. */
module RingFaults {
  import opened Words
  import opened ByteStreams
  import opened Assembly
  import opened AssemblyRuns
  import opened Ring
  import opened Rings
  import opened RingRuns

  // Misplaced bytes

  function ZeroBytes(n: nat): (r: seq<Byte>)
    ensures |r| == n && forall i :: 0 <= i < n ==> r[i] == 0
  {
    seq(n, _ => 0)
  }

  /** A ring of zeros from which `start` bytes were written and read. */
  ghost function BlankRing(cap: nat, start: nat): Ringed {
    Ringed(Assembler(cap, map[], 0, NO_END, StreamState(cap, ZeroBytes(start), start, false, false)),
           Slots(ZeroBytes(cap), seq(cap, _ => true)))
  }

  lemma BlankHolds(cap: nat, start: nat)
    requires cap > 0
    ensures BlankRing(cap, start).Holds()
  {
    HeldAll(map[], start, start + cap);
  }

  /** Data with a single one at position `k`. */
  function OneAt(size: nat, k: nat): (r: seq<Byte>)
    ensures |r| == size && forall i :: 0 <= i < size ==> r[i] == if i == k then 1 else 0
  {
    seq(size, i => if i == k then 1 else 0)
  }

  /** A straddling piece cut in front: slot zero gets a byte that belongs further down. */
  lemma FrontCutMisplaces(aux: seq<Byte>, cap: nat, size: nat, loc: nat, at: nat, n: nat)
    requires |aux| == cap && at < cap < at + n && n <= cap && 0 < loc && loc + n <= size
    ensures TwoReplacements(aux, cap, OneAt(size, loc + cap - at), loc, at, n)[0] == 0
  {
  }

  /** A straddling piece cut only at its end: the ring string is shifted, and its first byte lost from its slot. */
  lemma EndCutMisplaces(cap: nat, size: nat, at: nat, n: nat)
    requires at < cap < at + n && n <= cap && n < size
    ensures TwoReplacements(ZeroBytes(cap), cap, OneAt(size, 0), 0, at, n)[at] == 0
  {
  }

  /** Storing is wrong if a slot of the piece holds another byte than the piece has there. */
  lemma WrongSlotIsWrong(x: Ringed, data: seq<Byte>, index: nat, i: nat)
    requires x.Holds() && data != [] && x.a.Touches(index, |data|)
    requires Max(x.a.Start(), index) <= i < Min(x.a.WindowEnd(), index + |data|)
    requires var y := x.Store(data, index, false);
             Slot(i, x.a.cap) < |y.m.aux| && y.m.aux[Slot(i, x.a.cap)] != data[i - index]
    ensures x.Store(data, index, false).a != x.a.Store(data, index, false)
  {
    hide Slot, CopiedSlots, NewlyTaken, Assembler.Valid, Held;
    var y, s := x.Store(data, index, false), x.a.Store(data, index, false);
    assert i in s.known && s.known[i] == data[i - index];
    assert i in y.a.known ==> y.a.known[i] == y.m.aux[Slot(i, x.a.cap)];
  }

  lemma StraddleIsTwoReplacements(x: Ringed, data: seq<Byte>, index: nat, lo: nat, hi: nat)
    requires x.Holds() && data != [] && x.a.Touches(index, |data|)
    requires lo == Max(x.a.Start(), index) && hi == Min(x.a.WindowEnd(), index + |data|)
    requires Slot(lo, x.a.cap) + (hi - lo) > x.a.cap
    ensures x.Store(data, index, false).m.aux
            == TwoReplacements(x.m.aux, x.a.cap, data, lo - index, Slot(lo, x.a.cap), hi - lo)
  {
    hide Slot, TwoReplacements, Assembler.Valid, Known;
  }

  /** For every piece that straddles and is cut there are bytes that the ring gets wrong. */
  lemma UnplaceableMisplaces(cap: nat, start: nat, index: nat, size: nat) returns (data: seq<Byte>)
    requires cap > 0 && !BlankRing(cap, start).a.Placeable(index, size)
    ensures |data| == size && BlankRing(cap, start).Holds()
    ensures BlankRing(cap, start).Store(data, index, false).a != BlankRing(cap, start).a.Store(data, index, false)
  {
    hide Slot, TwoReplacements, Ringed.Holds, Ringed.Store, Assembler.Store;
    BlankHolds(cap, start);
    var x := BlankRing(cap, start);
    var lo, hi := Max(start, index), Min(start + cap, index + size);
    CrossesBySlot(x.a, index, size, lo, hi);
    TwoArcs(start, cap, lo, hi);
    var at, mid := Slot(lo, cap), lo + cap - Slot(lo, cap);
    if index < start {
      data := OneAt(size, mid - index);
      StraddleIsTwoReplacements(x, data, index, lo, hi);
      FrontCutMisplaces(x.m.aux, cap, size, lo - index, at, hi - lo);
      WrongSlotIsWrong(x, data, index, mid);
    } else {
      data := OneAt(size, 0);
      StraddleIsTwoReplacements(x, data, index, lo, hi);
      EndCutMisplaces(cap, size, at, hi - lo);
      WrongSlotIsWrong(x, data, index, lo);
    }
  }

  /** The ring stores a piece right whatever it holds and whatever the bytes, exactly if it is placeable. */
  lemma AlwaysRightIffPlaceable(cap: nat, start: nat, index: nat, size: nat)
    requires cap > 0
    ensures (forall x: Ringed, data: seq<Byte> ::
               x.Holds() && x.a.cap == cap && x.a.Start() == start && |data| == size ==>
                 x.Store(data, index, false).a == x.a.Store(data, index, false))
            <==> BlankRing(cap, start).a.Placeable(index, size)
  {
    hide Ringed.Holds, Ringed.Store, Assembler.Store;
    if BlankRing(cap, start).a.Placeable(index, size) {
      forall x: Ringed, data: seq<Byte> | x.Holds() && x.a.cap == cap && x.a.Start() == start && |data| == size
        ensures x.Store(data, index, false).a == x.a.Store(data, index, false)
      {
        StoreHolds(x, data, index, false);
      }
    } else {
      var data := UnplaceableMisplaces(cap, start, index, size);
      var x := BlankRing(cap, start);
      assert x.Store(data, index, false).a != x.a.Store(data, index, false);
    }
  }

  // A run with a wrong output

  lemma RingAfterNext(cap: nat, ops: seq<Op>, op: Op)
    requires cap > 0
    ensures RingAfter(cap, ops + [op]) == ApplyRing(RingAfter(cap, ops), op)
  {
    assert (ops + [op])[..|ops|] == ops;
  }

  /** What a drain does, for given ends of the two scans. */
  lemma DrainWrites(x: Ringed, p: nat, end1: nat, end2: nat)
    requires x.Holds() && p == Slot(x.a.Start(), x.a.cap) && Scanned(x.m.empty, p, end1, end2)
    ensures p <= end1 <= |x.m.aux| && end2 <= |x.m.aux| && x.a.out.Valid()
    ensures var d, ready := x.Drain(), x.m.aux[p..end1] + x.m.aux[..end2];
            && d.a.out == x.a.out.Write(ready) && d.a.endStream == x.a.endStream && d.a.cap == x.a.cap
            && d.m == Slots(x.m.aux, EmptiedSlots(x.m.empty, p, Min(x.a.out.Room(), end1 - p), end1 == x.a.cap))
  {
    hide Known, Assembler.Valid, Slot;
    HoldsParts(x);
    assert x.End1() == end1;
    assert x.End2() == end2;
    WriteTwice(x.a.out, x.m.aux[p..end1], x.m.aux[..end2]);
  }

  /** What a store does when the piece is not out of the window. */
  lemma StoreCopies(x: Ringed, data: seq<Byte>, index: nat)
    requires x.Holds() && data != [] && x.a.Touches(index, |data|)
    ensures var lo, hi := Max(x.a.Start(), index), Min(x.a.WindowEnd(), index + |data|);
            && x.a.cap == |x.m.empty| <= |x.m.aux|
            && x.Store(data, index, false).m == CopiedSlots(x.m, data, index, lo, hi)
            && x.Store(data, index, false).a.out == x.a.out && x.Store(data, index, false).a.endStream == x.a.endStream
            && x.Store(data, index, false).a.cap == x.a.cap
  {
    hide Known, Assembler.Valid, CopiedSlots, NewlyTaken;
  }

  lemma FirstSlots()
    ensures CopiedSlots(Slots([32, 32, 32, 32], [true, true, true, true]), [0, 1, 2], 0, 0, 3)
            == Slots([0, 1, 2, 32], [false, false, false, true])
  {
    var m := CopiedSlots(Slots([32, 32, 32, 32], [true, true, true, true]), [0, 1, 2], 0, 0, 3);
    assert m.aux == [0, 1, 2, 32];
    assert m.empty == [false, false, false, true];
  }

  lemma FirstPush(x: Ringed)
    requires x.Holds() && x.a.cap == 4 && x.a.out.written == [] && x.a.out.read == 0 && x.a.out.cap == 4 && x.a.endStream == NO_END
    requires x.m == Slots([32, 32, 32, 32], [true, true, true, true])
    ensures var y := x.Push([0, 1, 2], 0, false);
            && y.a.out == x.a.out.(written := [0, 1, 2]) && y.a.cap == 4
            && y.m == Slots([0, 1, 2, 32], [true, true, true, true])
  {
    hide Ringed.Holds, Ringed.Store, Ringed.Drain, CopiedSlots;
    StoreHolds(x, [0, 1, 2], 0, false);
    StoreCopies(x, [0, 1, 2], 0);
    FirstSlots();
    var s := x.Store([0, 1, 2], 0, false);
    DrainWrites(s, 0, 3, 0);
    assert s.m.aux[0..3] + s.m.aux[..0] == [0, 1, 2];
    assert s.Drain().m.empty == [true, true, true, true];
  }

  lemma CutSlots()
    ensures CopiedSlots(Slots([0, 1, 2, 32], [true, true, true, true]), [2, 3, 4], 2, 3, 5)
            == Slots([3, 4, 1, 2, 3], [false, true, true, false])
  {
    var m := CopiedSlots(Slots([0, 1, 2, 32], [true, true, true, true]), [2, 3, 4], 2, 3, 5);
    assert Substr([2, 3, 4], 1, 1) == [3] && Substr([2, 3, 4], 1, 2) == [3, 4];
    assert Replace([0, 1, 2, 32], 3, 1, [3]) == [0, 1, 2, 3];
    assert Replace([0, 1, 2, 3], 0, 1, [3, 4]) == [3, 4, 1, 2, 3];
    assert m.aux == [3, 4, 1, 2, 3];
    assert m.empty == [false, true, true, false];
  }

  lemma CutPush(x: Ringed)
    requires x.Holds() && x.a.cap == 4 && x.a.out.written == [0, 1, 2] && x.a.out.read == 3 && x.a.out.cap == 4
    requires x.m == Slots([0, 1, 2, 32], [true, true, true, true])
    ensures x.Push([2, 3, 4], 2, false).a.out.written == [0, 1, 2, 2, 3]
  {
    hide Ringed.Holds, Ringed.Store, Ringed.Drain, CopiedSlots;
    StoreHolds(x, [2, 3, 4], 2, false);
    StoreCopies(x, [2, 3, 4], 2);
    CutSlots();
    var s := x.Store([2, 3, 4], 2, false);
    DrainWrites(s, 3, 4, 1);
    assert s.m.aux[3..4] + s.m.aux[..1] == [2, 3];
  }

  /** Pieces of 0, 1, 2, 3, 4, a ring of four slots: the third byte comes out twice. */
  lemma OutputGoesWrong()
    ensures var stream: seq<Byte> := [0, 1, 2, 3, 4];
            var ops := [Op.Push([0, 1, 2], 0, false), Op.Read(3), Op.Push([2, 3, 4], 2, false)];
            && (forall op :: op in ops ==> Truthful(op, stream))
            && RingAfter(4, ops).a.out.written == [0, 1, 2, 2, 3]
  {
    hide Ringed.Push, Ringed.Holds;
    var p1, p2, p3 := Op.Push([0, 1, 2], 0, false), Op.Read(3), Op.Push([2, 3, 4], 2, false);
    FreshHolds(4);
    RingAfterNext(4, [], p1);
    RingAfterNext(4, [p1], p2);
    RingAfterNext(4, [p1, p2], p3);
    assert [] + [p1] == [p1] && [p1] + [p2] == [p1, p2] && [p1, p2] + [p3] == [p1, p2, p3];
    FirstPush(FreshRing(4));
    CutPush(RingAfter(4, [p1, p2]));
  }

  // A run that forgets a byte

  lemma AfterNext(cap: nat, ops: seq<Op>, op: Op)
    requires cap > 0
    ensures After(cap, ops + [op]) == Apply(After(cap, ops), op)
  {
    assert (ops + [op])[..|ops|] == ops;
  }

  /** What a push does, for a given number of ready bytes after the store. */
  lemma PushWrites(a: Assembler, data: seq<Byte>, index: nat, n: nat)
    requires a.Valid() && data != [] && a.Touches(index, |data|) && a.endStream == NO_END && index + |data| < NO_END
    requires var s := a.Store(data, index, false);
             && n <= a.out.Room() && a.Start() + n < NO_END
             && (forall i :: a.Start() <= i < a.Start() + n ==> i in s.known)
             && (n < a.cap ==> a.Start() + n !in s.known)
    ensures var s := a.Store(data, index, false);
            && s.Valid() && s.Ready() == n
            && a.Push(data, index, false)
               == s.(known := s.Kept(n), unassembled := s.unassembled - n,
                     out := a.out.(written := a.out.written + s.ReadyBytes()))
  {
    StoreKeepsValid(a, data, index, false);
    var s := a.Store(data, index, false);
    RunIs(s.known, s.Start(), s.WindowEnd(), n);
    assert s.ReadyBytes()[..n] == s.ReadyBytes();
    hide Assembler.Valid, Run, Held, Assembler.Kept, Assembler.ReadyBytes;
  }

  /** A four-slot assembler fed with zeros, `n` of them written and `read` of those read. */
  function Zeroed(known: map<nat, Byte>, unassembled: int, n: nat, read: nat): Assembler {
    Assembler(4, known, unassembled, NO_END, StreamState(4, ZeroBytes(n), read, false, false))
  }

  lemma FirstZeros()
    ensures Zeroed(map[], 0, 0, 0).Valid() && Zeroed(map[], 0, 0, 0).Push([0, 0], 0, false) == Zeroed(map[], 0, 2, 0)
  {
    hide Run, Assembler.Push, Assembler.Drain;
    var a := Zeroed(map[], 0, 0, 0);
    HeldAll(map[], 0, 4);
    HeldAll(map[], 0, 2);
    PushWrites(a, [0, 0], 0, 2);
    var s := a.Store([0, 0], 0, false);
    assert s.Kept(2) == map[];
    assert a.out.written + s.ReadyBytes() == ZeroBytes(2);
  }

  lemma ZeroAhead()
    ensures Zeroed(map[], 0, 2, 2).Valid() && Zeroed(map[], 0, 2, 2).Push([0], 5, false) == Zeroed(map[5 := 0], 1, 2, 2)
  {
    hide Run, Assembler.Push, Assembler.Drain;
    var a := Zeroed(map[], 0, 2, 2);
    HeldAll(map[], 2, 6);
    HeldAll(map[], 5, 6);
    PushWrites(a, [0], 5, 0);
    var s := a.Store([0], 5, false);
    assert s.Kept(0) == map[5 := 0];
    assert a.out.written + s.ReadyBytes() == ZeroBytes(2);
  }

  lemma ForgettingPush()
    ensures Zeroed(map[5 := 0], 1, 2, 2).Valid() && Zeroed(map[5 := 0], 1, 2, 2).Push([0, 0], 2, false) == Zeroed(map[], 1, 4, 2)
  {
    hide Run, Assembler.Push, Assembler.Drain;
    var a := Zeroed(map[5 := 0], 1, 2, 2);
    HeldAll(map[5 := 0], 2, 5);
    HeldAll(map[5 := 0], 2, 4);
    PushWrites(a, [0, 0], 2, 2);
    var s := a.Store([0, 0], 2, false);
    assert s.Kept(2) == map[];
    assert a.out.written + s.ReadyBytes() == ZeroBytes(4);
  }

  /**
   * Four slots, pieces of a stream of zeros: index 5 is pushed and held, then forgotten when the
   * bytes up to the ring end are written, and the count of unassembled bytes stays at one.
   */
  lemma ByteIsForgotten()
    ensures var ops := [Op.Push([0, 0], 0, false), Op.Read(2), Op.Push([0], 5, false), Op.Push([0, 0], 2, false)];
            && 5 in After(4, ops[..3]).known
            && var a := After(4, ops);
               Covered(ops, 5) && !Has(a, 5) && a.Start() == 4 && a.unassembled == 1 && Held(a.known, 4, 8) == 0
  {
    hide Assembler.Valid, Assembler.Push, Run;
    var ops := [Op.Push([0, 0], 0, false), Op.Read(2), Op.Push([0], 5, false), Op.Push([0, 0], 2, false)];
    AfterNext(4, [], ops[0]);
    AfterNext(4, ops[..1], ops[1]);
    AfterNext(4, ops[..2], ops[2]);
    AfterNext(4, ops[..3], ops[3]);
    assert [] + [ops[0]] == ops[..1] && ops[..1] + [ops[1]] == ops[..2];
    assert ops[..2] + [ops[2]] == ops[..3] && ops[..3] + [ops[3]] == ops;
    FirstZeros();
    ZeroAhead();
    assert After(4, []) == Zeroed(map[], 0, 0, 0) && After(4, ops[..2]) == Zeroed(map[], 0, 2, 2);
    ForgettingPush();
    assert Covers(ops[2], 5);
    HeldAll(map[], 4, 8);
  }
}
