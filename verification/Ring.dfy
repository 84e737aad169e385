/** A ring of slots as a partial map from stream index to byte. */
module Ring {
  import opened Words
  import opened ByteStreams
  import opened Assembly

  function Slot(i: nat, cap: nat): (k: nat)
    requires cap > 0
    ensures k < cap
  {
    i % cap
  }

  /** The slot of an index at most one turn above `s`, counted from the slot of `s`. */
  lemma SlotFrom(s: nat, i: nat, cap: nat)
    requires cap > 0 && s <= i <= s + cap
    ensures Slot(i, cap) == if Slot(s, cap) + (i - s) < cap then Slot(s, cap) + (i - s)
                            else Slot(s, cap) + (i - s) - cap
  {
    var q, p := s / cap, s % cap;
    var x := p + (i - s);
    assert i == q * cap + x;
    if x < cap {
      DivMod(i, cap, q, x);
    } else {
      assert i == (q + 1) * cap + (x - cap);
      DivMod(i, cap, q + 1, x - cap);
    }
  }

  /** What a ring holds: the bytes at occupied slots, at the indices of the window that starts at `start`. */
  ghost function Known(cap: nat, aux: seq<Byte>, empty: seq<bool>, start: nat): map<nat, Byte>
    requires 0 < cap == |empty| <= |aux|
  {
    map i: nat | start <= i < start + cap && !empty[Slot(i, cap)] :: aux[Slot(i, cap)]
  }

  function CountTrue(e: seq<bool>, a: nat, b: nat): nat
    requires a <= b <= |e|
    decreases b
  {
    if a == b then 0 else CountTrue(e, a, b - 1) + (if e[b - 1] then 1 else 0)
  }

  /** Counting empty slots of an arc counts the unknown indices it stands for. */
  lemma {:induction false} ArcCount(cap: nat, aux: seq<Byte>, e: seq<bool>, start: nat, lo: nat, hi: nat, a: nat)
    requires 0 < cap == |e| <= |aux|
    requires start <= lo <= hi <= start + cap && a + (hi - lo) <= cap
    requires forall i :: lo <= i < hi ==> Slot(i, cap) == a + (i - lo)
    ensures CountTrue(e, a, a + (hi - lo)) == (hi - lo) - Held(Known(cap, aux, e, start), lo, hi)
    decreases hi
  {
    if lo < hi {
      ArcCount(cap, aux, e, start, lo, hi - 1, a);
      assert Slot(hi - 1, cap) == a + (hi - 1 - lo);
    }
  }

  /** The stretch of occupied slots found by a scan is the ready stretch. */
  lemma {:induction false} RunIs(known: map<nat, Byte>, lo: nat, hi: nat, n: nat)
    requires lo + n <= hi
    requires forall i :: lo <= i < lo + n ==> i in known
    requires lo + n == hi || lo + n !in known
    ensures Run(known, lo, hi) == n
    decreases n
  {
    if n > 0 {
      RunIs(known, lo + 1, hi, n - 1);
    }
  }

  /** A ring whose slots changed exactly where [lo, hi) is stored. */
  ghost predicate Filled(cap: nat, e: seq<bool>, e': seq<bool>, start: nat, lo: nat, hi: nat)
    requires 0 < cap == |e| == |e'|
  {
    forall i: nat :: start <= i < start + cap ==>
      e'[Slot(i, cap)] == (if lo <= i < hi then false else e[Slot(i, cap)])
  }

  /** The bytes of `data` are in the slots of [lo, hi) and no other slot changed. */
  ghost predicate Placed(cap: nat, aux: seq<Byte>, aux': seq<Byte>, start: nat, data: seq<Byte>, index: nat, lo: nat, hi: nat)
    requires 0 < cap <= |aux| && cap <= |aux'| && index <= lo && hi <= index + |data|
  {
    forall i: nat :: start <= i < start + cap ==>
      aux'[Slot(i, cap)] == if lo <= i < hi then ByteAt(data, index, i) else aux[Slot(i, cap)]
  }

  /** Filling the slots of [lo, hi) with the right bytes adds exactly those indices to what is known. */
  lemma KnownAfterFill(cap: nat, aux: seq<Byte>, aux': seq<Byte>, e: seq<bool>, e': seq<bool>, start: nat,
                       data: seq<Byte>, index: nat, lo: nat, hi: nat)
    requires 0 < cap == |e| == |e'| && cap <= |aux| && cap <= |aux'|
    requires start <= lo && hi <= start + cap && index <= lo && hi <= index + |data|
    requires Filled(cap, e, e', start, lo, hi)
    ensures Known(cap, aux', e', start).Keys == (Known(cap, aux, e, start) + Stretch(data, index, lo, hi)).Keys
    ensures Placed(cap, aux, aux', start, data, index, lo, hi)
            ==> Known(cap, aux', e', start) == Known(cap, aux, e, start) + Stretch(data, index, lo, hi)
  {
    hide Slot;
  }

  /** Slots emptied by a drain that wrote `n` bytes from slot `p` on and cleared [0, p) if `reaches`. */
  ghost predicate Cleared(cap: nat, e: seq<bool>, e': seq<bool>, p: nat, n: nat, reaches: bool)
    requires 0 < cap == |e| == |e'|
  {
    forall k :: 0 <= k < cap ==> e'[k] == (e[k] || p <= k < p + n || (reaches && k < p))
  }

  /** After a drain the ring, read from the new start, holds what the reference model keeps. */
  lemma KnownAfterDrain(cap: nat, aux: seq<Byte>, e: seq<bool>, e': seq<bool>, start: nat, n: nat, reaches: bool, i: nat)
    requires 0 < cap == |e| == |e'| && cap <= |aux| && n <= cap
    requires Cleared(cap, e, e', Slot(start, cap), n, reaches)
    requires n > cap - Slot(start, cap) ==> reaches
    ensures i in Known(cap, aux, e', start + n)
            <==> i in Known(cap, aux, e, start) && start + n <= i
                 && (reaches ==> i < start - Slot(start, cap) + cap)
  {
    if start + n <= i < start + cap {
      SlotFrom(start, i, cap);
    } else if start + cap <= i < start + n + cap {
      SlotFrom(start, i - cap, cap);
      SlotFrom(i - cap, i, cap);
    }
  }

  /** The two scans of a drain: from slot `p` to the ring end, then from slot zero back to `p`. */
  ghost predicate Scanned(e: seq<bool>, p: nat, end1: nat, end2: nat) {
    && p <= end1 <= |e|
    && (forall k :: p <= k < end1 ==> !e[k])
    && (if end1 < |e| then
          e[end1] && end2 == 0
        else
          && end2 <= p
          && (forall k :: 0 <= k < end2 ==> !e[k])
          && (end2 < p ==> e[end2]))
  }

  lemma ScannedBounds(e: seq<bool>, p: nat, end1: nat, end2: nat)
    requires Scanned(e, p, end1, end2)
    ensures p <= end1 <= |e| && end2 <= p && (end1 < |e| ==> end2 == 0)
  {
  }

  lemma RingEndBySlot(a: Assembler)
    requires a.cap > 0
    ensures a.RingEnd() == a.Start() - Slot(a.Start(), a.cap) + a.cap
  {
  }

  lemma SlotsFrom(s: nat, cap: nat)
    requires cap > 0
    ensures forall i: nat :: s <= i < s + cap ==>
              Slot(i, cap) == if Slot(s, cap) + (i - s) < cap then Slot(s, cap) + (i - s)
                              else Slot(s, cap) + (i - s) - cap
  {
    forall i: nat | s <= i < s + cap {
      SlotFrom(s, i, cap);
    }
  }

  lemma ScanReady(a: Assembler, aux: seq<Byte>, e: seq<bool>, end1: nat, end2: nat)
    requires 0 < a.cap == |e| <= |aux| && a.known == Known(a.cap, aux, e, a.Start())
    requires Scanned(e, Slot(a.Start(), a.cap), end1, end2)
    ensures a.Ready() == end1 - Slot(a.Start(), a.cap) + end2
  {
    var s, p := a.Start(), Slot(a.Start(), a.cap);
    var n := end1 - p + end2;
    SlotsFrom(s, a.cap);
    hide Slot;
    assert forall i :: s <= i < s + n ==> i in a.known;
    assert n < a.cap ==> s + n !in a.known;
    RunIs(a.known, s, s + a.cap, n);
  }

  /** The two scans together find exactly the ready bytes. */
  lemma ScanFindsReady(a: Assembler, aux: seq<Byte>, e: seq<bool>, end1: nat, end2: nat)
    requires 0 < a.cap == |e| <= |aux| && a.known == Known(a.cap, aux, e, a.Start())
    requires Scanned(e, Slot(a.Start(), a.cap), end1, end2)
    ensures var p := Slot(a.Start(), a.cap);
            && a.ReadyBytes() == aux[p..end1] + aux[..end2]
            && (a.ReachesRingEnd() <==> end1 == a.cap)
  {
    ScanReady(a, aux, e, end1, end2);
    RingEndBySlot(a);
    SlotsFrom(a.Start(), a.cap);
    hide Slot, Assembler.RingEnd;
    var p := Slot(a.Start(), a.cap);
    assert a.ReadyBytes() == aux[p..end1] + aux[..end2];
  }

  lemma WriteNothing(s: StreamState)
    requires s.Valid()
    ensures s.Write([]) == s
  {
  }

  lemma WriteTwice(s: StreamState, x: seq<Byte>, y: seq<Byte>)
    requires s.Valid()
    ensures s.Write(x).Write(y) == s.Write(x + y)
  {
    var r := s.Room();
    if |x| <= r {
      assert (x + y)[..Min(|x + y|, r)] == x + y[..Min(|y|, r - |x|)];
    } else {
      assert (x + y)[..r] == x[..r];
      assert y[..0] == [];
    }
  }

  lemma KeptBySlots(a: Assembler, aux: seq<Byte>, e: seq<bool>, e': seq<bool>, end1: nat, n: nat)
    requires 0 < a.cap == |e| == |e'| <= |aux| && a.known == Known(a.cap, aux, e, a.Start())
    requires n <= a.cap && a.ReachesRingEnd() == (end1 == a.cap)
    requires Cleared(a.cap, e, e', Slot(a.Start(), a.cap), n, end1 == a.cap)
    requires n > a.cap - Slot(a.Start(), a.cap) ==> end1 == a.cap
    ensures Known(a.cap, aux, e', a.Start() + n) == a.Kept(n)
  {
    RingEndBySlot(a);
    forall i: nat
      ensures i in Known(a.cap, aux, e', a.Start() + n) <==> i in a.Kept(n)
    {
      hide Slot, Assembler.ReachesRingEnd, Assembler.RingEnd, Cleared;
      KnownAfterDrain(a.cap, aux, e, e', a.Start(), n, end1 == a.cap, i);
    }
  }

  lemma DrainIs(a: Assembler, known: map<nat, Byte>, x: seq<Byte>, y: seq<Byte>)
    requires a.Valid() && x + y == a.ReadyBytes() && known == a.Kept(Min(a.out.Room(), |x + y|))
    ensures var n := Min(a.out.Room(), |x + y|);
            && n <= a.unassembled && a.Drain().Valid()
            && a.Drain() == Assembler(a.cap, known, a.unassembled - n, a.endStream, a.out.Write(x).Write(y))
  {
    WriteTwice(a.out, x, y);
    hide Assembler.Valid, Assembler.Kept, Assembler.ReadyBytes, Run, Held;
    DrainCounts(a);
  }

  /** What the two writes and fills of a drain leave in the ring is what the reference model keeps. */
  lemma RingDrain(a: Assembler, aux: seq<Byte>, e: seq<bool>, e': seq<bool>, p: nat, end1: nat, end2: nat)
    requires a.Valid() && a.cap == |e| == |e'| <= |aux| && a.known == Known(a.cap, aux, e, a.Start())
    requires p == Slot(a.Start(), a.cap) && Scanned(e, p, end1, end2)
    requires Cleared(a.cap, e, e', p, Min(a.out.Room(), end1 - p), end1 == a.cap)
    ensures a.ReadyBytes() == aux[p..end1] + aux[..end2]
    ensures Known(a.cap, aux, e', a.Start() + Min(a.out.Room(), end1 - p + end2))
            == a.Kept(Min(a.out.Room(), end1 - p + end2))
  {
    hide Slot, Known, Cleared, Scanned, Assembler.Kept, Assembler.Drain, Assembler.ReachesRingEnd, Run, Held;
    ScannedBounds(e, p, end1, end2);
    var n := Min(a.out.Room(), end1 - p + end2);
    ScanFindsReady(a, aux, e, end1, end2);
    ClearedUpTo(a.cap, e, e', p, end1, end2, a.out.Room());
    KeptBySlots(a, aux, e, e', end1, n);
  }

  lemma ClearedUpTo(cap: nat, e: seq<bool>, e': seq<bool>, p: nat, end1: nat, end2: nat, room: nat)
    requires 0 < cap == |e| == |e'| && Scanned(e, p, end1, end2)
    requires Cleared(cap, e, e', p, Min(room, end1 - p), end1 == cap)
    ensures Cleared(cap, e, e', p, Min(room, end1 - p + end2), end1 == cap)
  {
  }

  /** Where a scan for an empty slot in [a, b) stops. */
  ghost function FirstEmpty(e: seq<bool>, a: nat, b: nat): (i: nat)
    requires a <= b <= |e|
    ensures a <= i <= b
    ensures forall k :: a <= k < i ==> !e[k]
    ensures i < b ==> e[i]
    decreases b - a
  {
    if a < b && !e[a] then FirstEmpty(e, a + 1, b) else a
  }

  lemma RingDrainIs(a: Assembler, aux: seq<Byte>, e: seq<bool>, e': seq<bool>, p: nat, end1: nat, end2: nat,
                    d: Assembler)
    requires a.Valid() && a.cap == |e| == |e'| <= |aux| && a.known == Known(a.cap, aux, e, a.Start())
    requires p == Slot(a.Start(), a.cap) && Scanned(e, p, end1, end2)
    requires Cleared(a.cap, e, e', p, Min(a.out.Room(), end1 - p), end1 == a.cap)
    requires d.cap == a.cap && d.endStream == a.endStream
    requires d.unassembled == a.unassembled - Min(a.out.Room(), end1 - p + end2)
    requires d.known == Known(a.cap, aux, e', a.Start() + Min(a.out.Room(), end1 - p + end2))
    requires d.out == a.out.Write(aux[p..end1]).Write(aux[..end2])
    ensures d == a.Drain() && d.Valid()
  {
    hide Slot, Known, Cleared, Scanned, Assembler.Kept, Assembler.Drain, Assembler.ReadyBytes, Run, Held, StreamState.Write;
    ScannedBounds(e, p, end1, end2);
    RingDrain(a, aux, e, e', p, end1, end2);
    DrainIs(a, d.known, aux[p..end1], aux[..end2]);
  }

  /** Slots of [lo, hi) when it lies on one side of the ring end: a single arc. */
  lemma OneArc(start: nat, cap: nat, lo: nat, hi: nat)
    requires cap > 0 && start <= lo <= hi <= start + cap && Slot(lo, cap) + (hi - lo) <= cap
    ensures forall i: nat :: lo <= i < hi ==> Slot(i, cap) == Slot(lo, cap) + (i - lo)
    ensures forall i: nat :: start <= i < start + cap ==>
              (lo <= i < hi <==> Slot(lo, cap) <= Slot(i, cap) < Slot(lo, cap) + (hi - lo))
  {
    SlotsFrom(start, cap);
    SlotFrom(start, lo, cap);
    hide Slot;
  }

  /** Slots of [lo, hi) when it straddles the ring end: one arc up to the end, one from slot zero. */
  lemma TwoArcs(start: nat, cap: nat, lo: nat, hi: nat)
    requires cap > 0 && start <= lo < hi <= start + cap && Slot(lo, cap) + (hi - lo) > cap
    ensures var mid := lo + cap - Slot(lo, cap);
            && lo < mid < hi
            && (forall i: nat :: lo <= i < mid ==> Slot(i, cap) == Slot(lo, cap) + (i - lo))
            && (forall i: nat :: mid <= i < hi ==> Slot(i, cap) == i - mid)
            && (forall i: nat :: start <= i < start + cap ==>
                  (lo <= i < hi <==> Slot(lo, cap) <= Slot(i, cap) || Slot(i, cap) < hi - mid))
  {
    SlotsFrom(start, cap);
    SlotFrom(start, lo, cap);
    hide Slot;
  }

  /** `std::string::substr`: at most `n` bytes from `pos` on. */
  function Substr(s: seq<Byte>, pos: nat, n: nat): seq<Byte>
    requires pos <= |s|
  {
    s[pos..Min(pos + n, |s|)]
  }

  /** `std::string::replace`: puts `t` in place of `n` bytes at `pos`, whatever the length of `t`. */
  function Replace(s: seq<Byte>, pos: nat, n: nat, t: seq<Byte>): seq<Byte>
    requires pos + n <= |s|
  {
    s[..pos] + t + s[pos + n..]
  }

  /** Slots of [a, b) no longer empty, the others as before. */
  ghost predicate ArcFilled(e: seq<bool>, e': seq<bool>, a: nat, b: nat) {
    |e| == |e'| && forall k :: 0 <= k < |e| ==> e'[k] == if a <= k < b then false else e[k]
  }

  lemma ArcFilledSize(e: seq<bool>, e': seq<bool>, a: nat, b: nat)
    requires ArcFilled(e, e', a, b)
    ensures |e'| == |e|
  {
  }

  lemma OneArcFills(aux: seq<Byte>, e: seq<bool>, e': seq<bool>, start: nat, lo: nat, hi: nat, at: nat)
    requires 0 < |e| <= |aux| && start <= lo <= hi <= start + |e|
    requires at == Slot(lo, |e|) && at + (hi - lo) <= |e| && ArcFilled(e, e', at, at + (hi - lo))
    ensures Filled(|e|, e, e', start, lo, hi)
    ensures CountTrue(e, at, at + (hi - lo)) == (hi - lo) - Held(Known(|e|, aux, e, start), lo, hi)
  {
    hide Slot, Held, CountTrue, Known;
    OneArc(start, |e|, lo, hi);
    ArcCount(|e|, aux, e, start, lo, hi, at);
  }

  /** One replacement places a piece that does not straddle the ring end. */
  lemma OneArcPlaces(aux: seq<Byte>, cap: nat, start: nat, data: seq<Byte>, index: nat, lo: nat, hi: nat, at: nat)
    requires 0 < cap <= |aux| && start <= lo <= hi <= start + cap && index <= lo && hi <= index + |data|
    requires at == Slot(lo, cap) && at + (hi - lo) <= cap
    ensures Placed(cap, aux, Replace(aux, at, hi - lo, Substr(data, lo - index, hi - lo)), start, data, index, lo, hi)
  {
    hide Slot;
    OneArc(start, cap, lo, hi);
  }

  /** The ring contents after the code stored a piece that straddles the ring end. */
  function TwoReplacements(aux: seq<Byte>, cap: nat, data: seq<Byte>, locData: nat, at: nat, size: nat): (r: seq<Byte>)
    requires at < cap <= |aux| && locData + size <= |data| && cap < at + size <= 2 * cap
    ensures |r| >= |aux|
    ensures |r| == |aux| <==> |data| == size
  {
    var left, right := at + size - cap, cap - at;
    var half := Replace(aux, at, right, Substr(data, locData, right));
    Replace(half, 0, left, Substr(data, right, size))
  }

  lemma TwoArcsFill(aux: seq<Byte>, e: seq<bool>, e1: seq<bool>, e': seq<bool>, start: nat, lo: nat, hi: nat, at: nat)
    requires 0 < |e| <= |aux| && start <= lo <= hi <= start + |e|
    requires at == Slot(lo, |e|) && at + (hi - lo) > |e|
    requires ArcFilled(e, e1, at, |e|) && ArcFilled(e1, e', 0, at + (hi - lo) - |e|)
    ensures Filled(|e|, e, e', start, lo, hi)
    ensures CountTrue(e, at, |e|) + CountTrue(e, 0, at + (hi - lo) - |e|)
            == (hi - lo) - Held(Known(|e|, aux, e, start), lo, hi)
  {
    var mid := lo + |e| - at;
    TwoArcs(start, |e|, lo, hi);
    ArcCount(|e|, aux, e, start, lo, mid, at);
    ArcCount(|e|, aux, e, start, mid, hi, 0);
    HeldSplit(Known(|e|, aux, e, start), lo, mid, hi);
    hide Slot, Held, CountTrue, Known;
  }

  /** Two replacements place a piece that straddles the ring end, if no part of it was cut off. */
  lemma TwoArcsPlace(aux: seq<Byte>, cap: nat, start: nat, data: seq<Byte>, lo: nat, at: nat)
    requires 0 < cap <= |aux| && start <= lo && lo + |data| <= start + cap
    requires at == Slot(lo, cap) && at + |data| > cap
    ensures Placed(cap, aux, TwoReplacements(aux, cap, data, 0, at, |data|), start, data, lo, lo, lo + |data|)
  {
    TwoArcs(start, cap, lo, lo + |data|);
    hide Slot;
  }

  /**
   * A ring after [lo, hi) of `data` was copied into it: the slots are occupied, the newly
   * occupied ones counted, and the bytes in place unless the piece straddles the ring end
   * and was cut; exactly then the ring string grows.
   */
  ghost predicate Copied(aux: seq<Byte>, aux': seq<Byte>, e: seq<bool>, e': seq<bool>, start: nat,
                         data: seq<Byte>, index: nat, lo: nat, hi: nat, added: int)
  {
    && 0 < |e| == |e'| && |e| <= |aux| <= |aux'|
    && start <= lo <= hi <= start + |e| && index <= lo && hi <= index + |data|
    && Filled(|e|, e, e', start, lo, hi)
    && added == (hi - lo) - Held(Known(|e|, aux, e, start), lo, hi)
    && var inPlace := Slot(lo, |e|) + (hi - lo) <= |e| || |data| == hi - lo;
       && (|aux'| == |aux| <==> inPlace)
       && (inPlace ==> Placed(|e|, aux, aux', start, data, index, lo, hi))
  }

  lemma OneArcCopies(aux: seq<Byte>, e: seq<bool>, e': seq<bool>, start: nat,
                     data: seq<Byte>, index: nat, lo: nat, hi: nat, at: nat)
    requires 0 < |e| <= |aux| && start <= lo <= hi <= start + |e| && index <= lo && hi <= index + |data|
    requires at == Slot(lo, |e|) && at + (hi - lo) <= |e| && ArcFilled(e, e', at, at + (hi - lo))
    ensures Copied(aux, Replace(aux, at, hi - lo, Substr(data, lo - index, hi - lo)), e, e', start, data, index, lo, hi,
                   CountTrue(e, at, at + (hi - lo)))
  {
    hide Slot, Held, CountTrue, Known, Filled, Placed, Replace, Substr, ArcFilled;
    ArcFilledSize(e, e', at, at + (hi - lo));
    OneArcReplaces(aux, |e|, data, lo - index, at, hi - lo);
    OneArcFills(aux, e, e', start, lo, hi, at);
    OneArcPlaces(aux, |e|, start, data, index, lo, hi, at);
  }

  lemma TwoArcsCopy(aux: seq<Byte>, e: seq<bool>, e1: seq<bool>, e': seq<bool>, start: nat,
                    data: seq<Byte>, index: nat, lo: nat, hi: nat, at: nat)
    requires 0 < |e| <= |aux| && start <= lo <= hi <= start + |e| && index <= lo && hi <= index + |data|
    requires at == Slot(lo, |e|) && at + (hi - lo) > |e|
    requires ArcFilled(e, e1, at, |e|) && ArcFilled(e1, e', 0, at + (hi - lo) - |e|)
    ensures Copied(aux, TwoReplacements(aux, |e|, data, lo - index, at, hi - lo), e, e', start, data, index, lo, hi,
                   CountTrue(e, at, |e|) + CountTrue(e, 0, at + (hi - lo) - |e|))
  {
    hide Slot, Held, CountTrue, Known, Filled, Placed, TwoReplacements, ArcFilled;
    ArcFilledSize(e, e1, at, |e|);
    ArcFilledSize(e1, e', 0, at + (hi - lo) - |e|);
    TwoArcsFill(aux, e, e1, e', start, lo, hi, at);
    if |data| == hi - lo {
      TwoArcsPlace(aux, |e|, start, data, lo, at);
    }
  }

  /** Copying a piece into the ring keeps it valid, and is the store of the reference model if the bytes are in place. */
  lemma RingStoreIs(a: Assembler, aux: seq<Byte>, aux': seq<Byte>, e: seq<bool>, e': seq<bool>,
                    data: seq<Byte>, index: nat, eof: bool, d: Assembler)
    requires a.Valid() && a.cap == |e| == |e'| && a.cap <= |aux| && a.cap <= |aux'|
    requires a.known == Known(a.cap, aux, e, a.Start()) && d.known == Known(a.cap, aux', e', a.Start())
    requires data != [] && a.Touches(index, |data|)
    requires Copied(aux, aux', e, e', a.Start(), data, index, Max(a.Start(), index), Min(a.WindowEnd(), index + |data|),
                    d.unassembled - a.unassembled)
    requires d.cap == a.cap && d.out == a.out
    requires d.endStream == if eof then index + |data| else a.endStream
    ensures d.Valid()
    ensures |aux'| == |aux| <==> a.Placeable(index, |data|)
    ensures a.Placeable(index, |data|) ==> d == a.Store(data, index, eof)
    ensures SameShape(d, a.Store(data, index, eof))
  {
    var lo, hi := Max(a.Start(), index), Min(a.WindowEnd(), index + |data|);
    CrossesBySlot(a, index, |data|, lo, hi);
    hide Assembler.Crosses, Slot;
    KnownAfterFill(a.cap, aux, aux', e, e', a.Start(), data, index, lo, hi);
    StoreKeepsValid(a, data, index, eof);
    var s := a.Store(data, index, eof);
    assert d.known.Keys == s.known.Keys;
    hide Known, Filled, Placed, Held;
    SameKeysValid(s, d);
  }

  lemma SameKeysValid(s: Assembler, d: Assembler)
    requires s.Valid() && d.known.Keys == s.known.Keys
    requires d.cap == s.cap && d.out == s.out && d.unassembled == s.unassembled
    ensures d.Valid()
  {
    assert forall i :: i in d.known <==> i in s.known.Keys;
    HeldSame(d.known, s.known, s.Start(), s.WindowEnd());
  }

  lemma CrossesBySlot(a: Assembler, index: nat, size: nat, lo: nat, hi: nat)
    requires a.cap > 0 && a.Touches(index, size)
    requires lo == Max(a.Start(), index) && hi == Min(a.WindowEnd(), index + size)
    ensures a.Crosses(index, size) <==> Slot(lo, a.cap) + (hi - lo) > a.cap
  {
    SlotFrom(a.Start(), lo, a.cap);
    RingEndBySlot(a);
    hide Slot, Assembler.RingEnd;
  }

  lemma OneArcReplaces(aux: seq<Byte>, cap: nat, data: seq<Byte>, locData: nat, at: nat, size: nat)
    requires at + size <= cap <= |aux| && locData + size <= |data|
    ensures |Replace(aux, at, size, Substr(data, locData, size))| == |aux|
  {
  }

  lemma EasilyPlaceable(a: Assembler, index: nat, size: nat)
    requires a.cap > 0
    ensures size == 0 || !a.Touches(index, size) ==> a.Placeable(index, size)
  {
  }
}
