/** What every sequence of pushes and reads keeps, for the reference assembler. */
module AssemblyRuns {
  import opened Words
  import opened ByteStreams
  import opened Assembly

  datatype Op = Push(data: seq<Byte>, index: nat, eof: bool) | Read(n: nat)

  function Fresh(cap: nat): Assembler {
    Assembler(cap, map[], 0, NO_END, StreamState(cap, [], 0, false, false))
  }

  ghost function Apply(a: Assembler, op: Op): (r: Assembler)
    requires a.Valid()
    ensures r.Valid() && r.cap == a.cap
  {
    match op
    case Push(data, index, eof) =>
      PushKeepsValid(a, data, index, eof);
      a.Push(data, index, eof)
    case Read(n) => a.Read(n)
  }

  lemma FreshIsValid(cap: nat)
    requires cap > 0
    ensures Fresh(cap).Valid()
  {
    HeldAll(map[], 0, cap);
  }

  ghost function After(cap: nat, ops: seq<Op>): (r: Assembler)
    requires cap > 0
    ensures r.Valid() && r.cap == cap
  {
    if ops == [] then
      FreshIsValid(cap);
      Fresh(cap)
    else
      Apply(After(cap, ops[..|ops| - 1]), ops[|ops| - 1])
  }

  /** `data` placed at `index` is a piece of `stream`. */
  ghost predicate PieceOf(data: seq<Byte>, index: nat, stream: seq<Byte>) {
    index + |data| <= |stream| && data == stream[index..index + |data|]
  }

  ghost predicate Truthful(op: Op, stream: seq<Byte>) {
    op.Push? ==> PieceOf(op.data, op.index, stream)
  }

  /** Everything written or held is what `stream` has at that index. */
  ghost predicate Faithful(a: Assembler, stream: seq<Byte>) {
    && a.out.written <= stream
    && forall i :: i in a.known ==> i < |stream| && a.known[i] == stream[i]
  }

  lemma StoreKeepsFaithful(a: Assembler, data: seq<Byte>, index: nat, eof: bool, stream: seq<Byte>)
    requires Faithful(a, stream) && PieceOf(data, index, stream)
    ensures Faithful(a.Store(data, index, eof), stream)
  {
  }

  lemma DrainKeepsFaithful(a: Assembler, stream: seq<Byte>)
    requires a.Valid() && Faithful(a, stream)
    ensures Faithful(a.Drain(), stream)
  {
    var w := a.Drain().out.written;
    assert |w| <= |stream| by {
      assert |w| > a.Start() ==> |w| - 1 in a.known;
    }
    assert w == stream[..|w|];
  }

  lemma PushKeepsFaithful(a: Assembler, data: seq<Byte>, index: nat, eof: bool, stream: seq<Byte>)
    requires a.Valid() && Faithful(a, stream) && PieceOf(data, index, stream)
    ensures Faithful(a.Push(data, index, eof), stream)
  {
    hide Assembler.Store, Assembler.Drain, Assembler.Valid;
    StoreKeepsValid(a, data, index, eof);
    StoreKeepsFaithful(a, data, index, eof, stream);
    DrainKeepsFaithful(a.Store(data, index, eof), stream);
  }

  /** However pushes are ordered, overlap or repeat, the output is a prefix of the true stream. */
  lemma {:induction false} ReassemblyIsFaithful(cap: nat, ops: seq<Op>, stream: seq<Byte>)
    requires cap > 0 && forall op :: op in ops ==> Truthful(op, stream)
    ensures Faithful(After(cap, ops), stream)
  {
    if ops != [] {
      var n := |ops| - 1;
      ReassemblyIsFaithful(cap, ops[..n], stream);
      var op := ops[n];
      assert Truthful(op, stream);
      if op.Push? {
        PushKeepsFaithful(After(cap, ops[..n]), op.data, op.index, op.eof, stream);
      }
    }
  }

  /** A drain writes exactly the ready bytes that fit, and stops at a full output or an unknown byte. */
  lemma DrainWritesReadyBytes(a: Assembler)
    requires a.Valid()
    ensures var d := a.Drain();
            && d.out.written == a.out.written + a.ReadyBytes()[..Min(a.out.Room(), a.Ready())]
            && (d.out.Room() == 0 || d.Start() !in d.known)
  {
    if a.Ready() == a.cap {
      assert a.ReachesRingEnd();
    }
  }

  lemma StoreKeepsExact(a: Assembler, data: seq<Byte>, index: nat, eof: bool)
    requires a.Valid() && a.unassembled == Held(a.known, a.Start(), a.WindowEnd())
    ensures var s := a.Store(data, index, eof);
            s.unassembled == Held(s.known, s.Start(), s.WindowEnd())
  {
    if data != [] && a.Touches(index, |data|) {
      var lo, hi := Max(a.Start(), index), Min(a.WindowEnd(), index + |data|);
      HeldOfUnion(a.known, Stretch(data, index, lo, hi), a.Start(), lo, hi, a.WindowEnd());
    }
  }

  /** The count of unassembled bytes stays exact over a push exactly when the push forgets nothing. */
  lemma UnassembledStaysExactIff(a: Assembler, data: seq<Byte>, index: nat, eof: bool)
    requires a.Valid() && a.unassembled == Held(a.known, a.Start(), a.WindowEnd())
    ensures a.Store(data, index, eof).Valid()
    ensures var p := a.Push(data, index, eof);
            p.unassembled == Held(p.known, p.Start(), p.WindowEnd())
            <==> Forgotten(a.Store(data, index, eof)) == 0
  {
    hide Assembler.Store, Assembler.Drain, Assembler.Valid, Forgotten;
    StoreKeepsValid(a, data, index, eof);
    StoreKeepsExact(a, data, index, eof);
    DrainCounts(a.Store(data, index, eof));
  }

  // End of stream

  /** The end flag comes only with a non-empty piece that ends the stream. */
  ghost predicate HonestEnd(op: Op, stream: seq<Byte>) {
    op.Push? && op.eof ==> op.data != [] && op.index + |op.data| == |stream|
  }

  /** Push number `k` carried the end flag and touched the window of its time. */
  ghost predicate EndAccepted(cap: nat, ops: seq<Op>, k: nat)
    requires cap > 0 && k < |ops|
  {
    ops[k].Push? && ops[k].eof && After(cap, ops[..k]).Touches(ops[k].index, |ops[k].data|)
  }

  ghost predicate SomeEndAccepted(cap: nat, ops: seq<Op>)
    requires cap > 0
  {
    exists k :: 0 <= k < |ops| && EndAccepted(cap, ops, k)
  }

  lemma EndAcceptedInPrefix(cap: nat, ops: seq<Op>, n: nat, k: nat)
    requires cap > 0 && k < n <= |ops|
    ensures EndAccepted(cap, ops[..n], k) <==> EndAccepted(cap, ops, k)
  {
    hide After, Assembler.Touches;
    assert ops[..n][..k] == ops[..k];
  }

  lemma SomeEndAcceptedStep(cap: nat, ops: seq<Op>)
    requires cap > 0 && ops != []
    ensures SomeEndAccepted(cap, ops)
            <==> SomeEndAccepted(cap, ops[..|ops| - 1]) || EndAccepted(cap, ops, |ops| - 1)
  {
    hide EndAccepted;
    var n := |ops| - 1;
    forall k | 0 <= k < n
      ensures EndAccepted(cap, ops[..n], k) <==> EndAccepted(cap, ops, k)
    {
      EndAcceptedInPrefix(cap, ops, n, k);
    }
  }

  /** One push records the end exactly if it is an accepted end, and closes exactly at the recorded end. */
  lemma PushEnds(a: Assembler, op: Op, stream: seq<Byte>)
    requires a.Valid() && op.Push? && HonestEnd(op, stream)
    ensures var p := a.Push(op.data, op.index, op.eof);
            && p.endStream == (if op.eof && a.Touches(op.index, |op.data|) then |stream| else a.endStream)
            && (p.out.ended <==> a.out.ended || p.Start() == p.endStream)
            && p.Start() >= a.Start()
  {
    StoreKeepsValid(a, op.data, op.index, op.eof);
    hide Assembler.Valid;
  }

  /** The output is ended exactly when the whole stream is written and its end was accepted. */
  lemma {:induction false} EndsExactlyWhenComplete(cap: nat, ops: seq<Op>, stream: seq<Byte>)
    requires cap > 0 && |stream| < NO_END
    requires forall op :: op in ops ==> Truthful(op, stream) && HonestEnd(op, stream)
    ensures var r := After(cap, ops);
            && r.endStream == (if SomeEndAccepted(cap, ops) then |stream| else NO_END)
            && (r.out.ended <==> r.out.written == stream && SomeEndAccepted(cap, ops))
  {
    hide Assembler.Push, Assembler.Valid, SomeEndAccepted;
    ReassemblyIsFaithful(cap, ops, stream);
    if ops != [] {
      var n := |ops| - 1;
      assert HonestEnd(ops[n], stream);
      EndsExactlyWhenComplete(cap, ops[..n], stream);
      SomeEndAcceptedStep(cap, ops);
      if ops[n].Push? {
        PushEnds(After(cap, ops[..n]), ops[n], stream);
      }
    } else {
      SomeEndAcceptedOfNone(cap);
    }
  }

  lemma SomeEndAcceptedOfNone(cap: nat)
    requires cap > 0
    ensures !SomeEndAccepted(cap, [])
  {
  }

  // Order independence

  ghost predicate Covers(op: Op, i: nat) {
    op.Push? && op.index <= i < op.index + |op.data|
  }

  ghost predicate Covered(ops: seq<Op>, i: nat) {
    exists k :: 0 <= k < |ops| && Covers(ops[k], i)
  }

  lemma CoveredStep(ops: seq<Op>, i: nat)
    requires ops != []
    ensures Covered(ops, i) <==> Covered(ops[..|ops| - 1], i) || Covers(ops[|ops| - 1], i)
  {
    var n := |ops| - 1;
    forall k | 0 <= k < n
      ensures Covers(ops[..n][k], i) <==> Covers(ops[k], i)
    {
    }
  }

  /** Index `i` has been written or is held. */
  predicate Has(a: Assembler, i: nat) {
    i < a.Start() || i in a.known
  }

  /** A push that covers a byte beyond the window, or a drain after it that clears a held byte it did not write. */
  ghost predicate Loses(a: Assembler, op: Op) {
    op.Push? && (BeyondWindow(a, op) || exists i :: Clears(a.Store(op.data, op.index, op.eof), i))
  }

  predicate BeyondWindow(a: Assembler, op: Op)
    requires op.Push?
  {
    op.data != [] && op.index + |op.data| > a.WindowEnd()
  }

  /** The drain reaches the ring end and clears index `i` above it, although it is not written. */
  ghost predicate Clears(s: Assembler, i: nat) {
    s.Valid() && s.ReachesRingEnd() && i in s.known && i >= s.RingEnd() && i >= s.Start() + Min(s.out.Room(), s.Ready())
  }

  lemma StoreHas(a: Assembler, op: Op, i: nat)
    requires a.Valid() && op.Push?
    ensures Has(a.Store(op.data, op.index, op.eof), i) <==> Has(a, i) || (Covers(op, i) && i < a.WindowEnd())
  {
  }

  lemma DrainHas(s: Assembler, i: nat)
    requires s.Valid()
    ensures Has(s.Drain(), i) <==> Has(s, i) && !Clears(s, i)
  {
  }

  /** Exactly which indices are held or written after a push, whatever the stream. */
  lemma PushHasIff(a: Assembler, op: Op, i: nat)
    requires a.Valid() && op.Push?
    ensures Has(a.Push(op.data, op.index, op.eof), i)
            <==> (Has(a, i) || (Covers(op, i) && i < a.WindowEnd())) && !Clears(a.Store(op.data, op.index, op.eof), i)
  {
    hide Assembler.Store, Assembler.Drain, Assembler.Valid, Covers, Clears;
    StoreKeepsValid(a, op.data, op.index, op.eof);
    StoreHas(a, op, i);
    DrainHas(a.Store(op.data, op.index, op.eof), i);
  }

  /** Every index covered so far is held or written, and no other. */
  ghost predicate HasAll(cap: nat, ops: seq<Op>)
    requires cap > 0
  {
    forall i: nat :: Has(After(cap, ops), i) <==> Covered(ops, i)
  }

  lemma HasAllStep(cap: nat, ops: seq<Op>)
    requires cap > 0 && ops != [] && HasAll(cap, ops[..|ops| - 1])
    ensures HasAll(cap, ops) <==> !Loses(After(cap, ops[..|ops| - 1]), ops[|ops| - 1])
  {
    hide Assembler.Push, Assembler.Valid, Assembler.Store, Covers, Covered, Clears, After;
    var n := |ops| - 1;
    var a, op := After(cap, ops[..n]), ops[n];
    AfterStep(cap, ops);
    forall i: nat
      ensures Covered(ops, i) <==> Has(a, i) || Covers(op, i)
      ensures op.Push? ==> (Has(After(cap, ops), i) <==>
                              (Has(a, i) || (Covers(op, i) && i < a.WindowEnd())) && !Clears(a.Store(op.data, op.index, op.eof), i))
    {
      CoveredStep(ops, i);
      if op.Push? {
        PushHasIff(a, op, i);
      }
    }
    if op.Push? {
      LostIsCovered(a, op);
    } else {
      forall i: nat {
        ReadCovers(op, i);
      }
    }
  }

  lemma AfterStep(cap: nat, ops: seq<Op>)
    requires cap > 0 && ops != []
    ensures After(cap, ops) == Apply(After(cap, ops[..|ops| - 1]), ops[|ops| - 1])
  {
  }

  /** What a push loses was covered and would not be had. */
  lemma LostIsCovered(a: Assembler, op: Op)
    requires a.Valid() && op.Push?
    ensures BeyondWindow(a, op) ==>
              var i := op.index + |op.data| - 1;
              Covers(op, i) && i >= a.WindowEnd() && !Has(a, i)
    ensures !BeyondWindow(a, op) ==> forall i: nat :: Covers(op, i) ==> i < a.WindowEnd()
    ensures forall i: nat :: Clears(a.Store(op.data, op.index, op.eof), i) ==> Has(a, i) || Covers(op, i)
  {
    forall i: nat | Clears(a.Store(op.data, op.index, op.eof), i)
      ensures Has(a, i) || Covers(op, i)
    {
      StoreHas(a, op, i);
    }
  }

  /**
   * For all pushes and reads: what is held or written is at every point exactly what was
   * covered - so that the order of pushes does not matter - exactly if no push loses a byte.
   */
  lemma {:induction false} OrderDoesNotMatterIff(cap: nat, ops: seq<Op>)
    requires cap > 0
    ensures (forall j :: 0 <= j <= |ops| ==> HasAll(cap, ops[..j]))
            <==> (forall j :: 0 <= j < |ops| ==> !Loses(After(cap, ops[..j]), ops[j]))
  {
    hide HasAll, Loses, After;
    if ops == [] {
      NothingYet(cap);
    } else {
      var n := |ops| - 1;
      var rest := ops[..n];
      OrderDoesNotMatterIff(cap, rest);
      assert forall j :: 0 <= j <= n ==> rest[..j] == ops[..j];
      assert ops[..|ops|] == ops;
      if HasAll(cap, rest) {
        HasAllStep(cap, ops);
      } else {
        assert !HasAll(cap, ops[..n]);
      }
    }
  }

  lemma NothingYet(cap: nat)
    requires cap > 0
    ensures HasAll(cap, [])
  {
  }

  lemma FaithfulBound(a: Assembler, stream: seq<Byte>)
    requires Faithful(a, stream)
    ensures a.Start() <= |stream| && forall i :: i in a.known ==> i < |stream|
  {
  }

  lemma ReadCovers(op: Op, i: nat)
    requires op.Read?
    ensures !Covers(op, i)
  {
  }

  lemma SmallClearsNothing(s: Assembler, i: nat)
    requires s.cap > 0 && (i in s.known ==> s.Start() <= i < s.cap)
    ensures !Clears(s, i)
  {
    hide Run, Held;
    assert s.Start() < s.cap ==> s.RingEnd() == s.cap;
  }

  /** Pieces of a stream no longer than the capacity are never lost. */
  lemma SmallIsNotLost(a: Assembler, op: Op, stream: seq<Byte>)
    requires a.Valid() && Faithful(a, stream) && Truthful(op, stream) && |stream| <= a.cap
    ensures !Loses(a, op)
  {
    hide Clears, Assembler.Store, Faithful, Held;
    if op.Push? {
      var s := a.Store(op.data, op.index, op.eof);
      StoreKeepsValid(a, op.data, op.index, op.eof);
      StoreKeepsFaithful(a, op.data, op.index, op.eof, stream);
      FaithfulBound(s, stream);
      StoreCap(a, op);
      forall i: nat
        ensures !Clears(s, i)
      {
        SmallClearsNothing(s, i);
      }
    }
  }

  lemma StoreCap(a: Assembler, op: Op)
    requires op.Push?
    ensures a.Store(op.data, op.index, op.eof).cap == a.cap
  {
  }

  lemma {:induction false} NextIsUnknown(cap: nat, ops: seq<Op>, stream: seq<Byte>)
    requires cap > 0 && |stream| <= cap
    requires forall op :: op in ops ==> Truthful(op, stream)
    ensures After(cap, ops).Start() !in After(cap, ops).known
  {
    if ops != [] {
      var n := |ops| - 1;
      var a, op := After(cap, ops[..n]), ops[n];
      NextIsUnknown(cap, ops[..n], stream);
      ReassemblyIsFaithful(cap, ops, stream);
      hide Faithful, Assembler.Store, Assembler.Drain, Assembler.Valid;
      FaithfulBound(After(cap, ops), stream);
      if op.Push? {
        StoreKeepsValid(a, op.data, op.index, op.eof);
        var s := a.Store(op.data, op.index, op.eof);
        DrainWritesReadyBytes(s);
        FullIsWhole(s.Drain().Close());
      }
    }
  }

  lemma FullIsWhole(a: Assembler)
    ensures a.out.Valid() && a.out.cap == a.cap && a.out.Room() == 0 ==> a.Start() >= a.cap
  {
  }

  /**
   * For a stream no longer than the capacity, the output depends only on which bytes were
   * pushed, not on the order: it ends at the first index that no push has covered.
   */
  lemma OutputIsCoveredPrefix(cap: nat, ops: seq<Op>, stream: seq<Byte>)
    requires cap > 0 && |stream| <= cap
    requires forall op :: op in ops ==> Truthful(op, stream)
    ensures HasAll(cap, ops) && !Covered(ops, After(cap, ops).Start())
  {
    hide Loses, After, Faithful, Covered;
    OrderDoesNotMatterIff(cap, ops);
    forall j | 0 <= j < |ops|
      ensures !Loses(After(cap, ops[..j]), ops[j])
    {
      assert forall op :: op in ops[..j] ==> op in ops;
      ReassemblyIsFaithful(cap, ops[..j], stream);
      assert Truthful(ops[j], stream);
      SmallIsNotLost(After(cap, ops[..j]), ops[j], stream);
    }
    assert ops[..|ops|] == ops;
    NextIsUnknown(cap, ops, stream);
    assert !Has(After(cap, ops), After(cap, ops).Start());
  }
}
