/** What every sequence of pushes and reads keeps, for the ring. */
module RingRuns {
  import opened Words
  import opened ByteStreams
  import opened Assembly
  import opened AssemblyRuns
  import opened Ring
  import opened Rings

  ghost function ApplyRing(x: Ringed, op: Op): (y: Ringed)
    requires x.Holds()
    ensures y.Holds()
  {
    match op
    case Push(data, index, eof) =>
      PushHolds(x, data, index, eof);
      x.Push(data, index, eof)
    case Read(n) =>
      ReadHolds(x, n);
      x.(a := x.a.Read(n))
  }

  lemma ReadHolds(x: Ringed, n: nat)
    requires x.Holds()
    ensures x.a.out.Valid() && x.(a := x.a.Read(n)).Holds()
  {
    hide Known;
  }

  ghost function RingAfter(cap: nat, ops: seq<Op>): (x: Ringed)
    requires cap > 0
    ensures x.Holds()
  {
    if ops == [] then
      FreshHolds(cap);
      FreshRing(cap)
    else
      ApplyRing(RingAfter(cap, ops[..|ops| - 1]), ops[|ops| - 1])
  }

  /** The ring can place the piece that the operation pushes. */
  ghost predicate Places(x: Ringed, op: Op)
    requires x.Holds()
  {
    op.Push? ==> x.a.Placeable(op.index, |op.data|)
  }

  /** No push is clipped while it straddles the ring end. */
  ghost predicate AllPlaced(cap: nat, ops: seq<Op>)
    requires cap > 0
  {
    forall k :: 0 <= k < |ops| ==> Places(RingAfter(cap, ops[..k]), ops[k])
  }

  lemma AllPlacedStep(cap: nat, ops: seq<Op>)
    requires cap > 0 && ops != []
    ensures var n := |ops| - 1;
            AllPlaced(cap, ops) <==> AllPlaced(cap, ops[..n]) && Places(RingAfter(cap, ops[..n]), ops[n])
  {
    hide RingAfter, Places;
    var n := |ops| - 1;
    forall k | 0 <= k < n
      ensures ops[..n][..k] == ops[..k] && ops[..n][k] == ops[k]
    {
    }
  }

  lemma ApplyFollows(x: Ringed, a: Assembler, op: Op)
    requires x.Holds() && a.Valid() && SameShape(x.a, a)
    ensures SameShape(ApplyRing(x, op).a, Apply(a, op))
    ensures x.a == a && Places(x, op) ==> ApplyRing(x, op).a == Apply(a, op)
    ensures |ApplyRing(x, op).m.aux| >= |x.m.aux| && (|ApplyRing(x, op).m.aux| == |x.m.aux| <==> Places(x, op))
  {
    hide Ringed.Push, Assembler.Push, Assembler.Valid, Assembler.Placeable, Known;
    if op.Push? {
      PushHolds(x, op.data, op.index, op.eof);
      PushSameShape(x.a, a, op.data, op.index, op.eof);
    } else {
      ReadHolds(x, op.n);
    }
  }

  /**
   * The ring follows the partial map: in everything as long as it can place the pushes, in
   * everything but byte values always; and it has its length exactly as long as it could.
   */
  lemma {:induction false} RingFollows(cap: nat, ops: seq<Op>)
    requires cap > 0
    ensures var x, a := RingAfter(cap, ops), After(cap, ops);
            && SameShape(x.a, a) && (AllPlaced(cap, ops) ==> x.a == a)
            && |x.m.aux| >= cap && (|x.m.aux| == cap <==> AllPlaced(cap, ops))
  {
    if ops != [] {
      hide ApplyRing, Apply, Assembler.Valid, Ringed.Holds, Places, SameShape, AllPlaced;
      var n := |ops| - 1;
      RingFollows(cap, ops[..n]);
      AllPlacedStep(cap, ops);
      HoldsParts(RingAfter(cap, ops[..n]));
      ApplyFollows(RingAfter(cap, ops[..n]), After(cap, ops[..n]), ops[n]);
    }
  }

  /** Every occupied slot holds the true byte of the one index of the window that belongs there. */
  ghost predicate SlotsAreTrue(x: Ringed, stream: seq<Byte>)
    requires x.Holds()
  {
    forall i :: x.a.Start() <= i < x.a.WindowEnd() && !x.m.empty[Slot(i, x.a.cap)] ==>
      i < |stream| && x.m.aux[Slot(i, x.a.cap)] == stream[i]
  }

  lemma KnownIsTrue(x: Ringed, stream: seq<Byte>)
    requires x.Holds() && Faithful(x.a, stream)
    ensures SlotsAreTrue(x, stream)
  {
    hide Slot, Assembler.Valid;
    forall i | x.a.Start() <= i < x.a.WindowEnd() && !x.m.empty[Slot(i, x.a.cap)]
      ensures i < |stream| && x.m.aux[Slot(i, x.a.cap)] == stream[i]
    {
      assert i in x.a.known;
    }
  }

  /**
   * For all pushes of pieces of one stream, in any order: the output is never longer than the
   * stream; and as long as the ring can place the pushes, it is a prefix of the stream, the
   * ring string has the length of the ring, and every occupied slot holds the true byte.
   */
  lemma RingIsFaithful(cap: nat, ops: seq<Op>, stream: seq<Byte>)
    requires cap > 0 && forall op :: op in ops ==> Truthful(op, stream)
    ensures var x := RingAfter(cap, ops);
            && |x.a.out.written| <= |stream|
            && (AllPlaced(cap, ops) ==> x.a.out.written <= stream && |x.m.aux| == cap && SlotsAreTrue(x, stream))
  {
    hide RingAfter, After, AllPlaced, SlotsAreTrue;
    ReassemblyIsFaithful(cap, ops, stream);
    RingFollows(cap, ops);
    if AllPlaced(cap, ops) {
      KnownIsTrue(RingAfter(cap, ops), stream);
    }
  }

  /** The end of the ring's output, with an honest end flag: exactly when it is as long as the stream and an end was accepted. */
  lemma RingEndsWhenComplete(cap: nat, ops: seq<Op>, stream: seq<Byte>)
    requires cap > 0 && |stream| < NO_END
    requires forall op :: op in ops ==> Truthful(op, stream) && HonestEnd(op, stream)
    ensures var x := RingAfter(cap, ops);
            && (x.a.out.ended <==> |x.a.out.written| == |stream| && SomeEndAccepted(cap, ops))
            && (AllPlaced(cap, ops) && x.a.out.ended ==> x.a.out.written == stream)
  {
    hide RingAfter, After, AllPlaced, SomeEndAccepted, HonestEnd;
    EndsExactlyWhenComplete(cap, ops, stream);
    ReassemblyIsFaithful(cap, ops, stream);
    RingFollows(cap, ops);
  }

  /** Which indices are held or written is the same as with the partial map, whatever was misplaced. */
  lemma RingHas(cap: nat, ops: seq<Op>, i: nat)
    requires cap > 0
    ensures Has(RingAfter(cap, ops).a, i) <==> Has(After(cap, ops), i)
  {
    hide RingAfter, After, AllPlaced;
    RingFollows(cap, ops);
    var x, a := RingAfter(cap, ops).a, After(cap, ops);
    assert i in x.known <==> i in a.known.Keys;
  }

  /**
   * For all pushes and reads: the ring has at every point exactly what was covered, in whatever
   * order it came, exactly if no push loses a byte.
   */
  lemma RingOrderDoesNotMatterIff(cap: nat, ops: seq<Op>)
    requires cap > 0
    ensures (forall j, i: nat :: 0 <= j <= |ops| ==> (Has(RingAfter(cap, ops[..j]).a, i) <==> Covered(ops[..j], i)))
            <==> (forall j :: 0 <= j < |ops| ==> !Loses(After(cap, ops[..j]), ops[j]))
  {
    hide RingAfter, After, Loses, Covered, Has;
    OrderDoesNotMatterIff(cap, ops);
    forall j, i: nat | 0 <= j <= |ops|
      ensures Has(RingAfter(cap, ops[..j]).a, i) <==> Has(After(cap, ops[..j]), i)
    {
      RingHas(cap, ops[..j], i);
    }
  }
}
