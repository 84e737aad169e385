/**
 * Pieces that are pushed only whole and end within the output's room stay whole: the
 * assembler never holds or writes part of one.  Such pushes never trip the ring.
 */
module WholePieces {
  import opened Words
  import opened ByteStreams
  import opened Assembly

  /** First index beyond what the output would take if everything before it arrived now. */
  function Edge(a: Assembler): nat {
    a.out.read + a.cap
  }

  /** Indices [b, e) are held all or not at all, and the start is not inside. */
  ghost predicate Whole(a: Assembler, b: nat, e: nat) {
    && !(b < a.Start() < e)
    && forall j, k :: b <= j < e && b <= k < e && j in a.known ==> k in a.known
  }

  /** A piece of one byte may lie anywhere; a longer one ends at the edge or before. */
  ghost predicate Fitting(a: Assembler, b: nat, e: nat) {
    Whole(a, b, e) && (e - b >= 2 ==> e <= Edge(a))
  }

  lemma EdgeWithinWindow(a: Assembler)
    requires a.Valid()
    ensures Edge(a) == a.Start() + a.out.Room() <= a.WindowEnd()
  {
  }

  /** The ring places a fitting piece. */
  lemma FittingIsPlaceable(a: Assembler, b: nat, e: nat)
    requires a.Valid() && b <= e && Fitting(a, b, e)
    ensures a.Placeable(b, e - b)
  {
    hide Assembler.RingEnd;
    EdgeWithinWindow(a);
  }

  lemma StoreKeepsWhole(a: Assembler, data: seq<Byte>, index: nat, eof: bool, b: nat, e: nat)
    requires a.Valid() && Fitting(a, b, e) && Fitting(a, index, index + |data|)
    requires data == [] || (index == b && index + |data| == e) || index + |data| <= b || e <= index
    ensures Fitting(a.Store(data, index, eof), b, e)
  {
    EdgeWithinWindow(a);
  }

  lemma DrainKeepsWhole(a: Assembler, b: nat, e: nat)
    requires a.Valid() && Fitting(a, b, e)
    ensures Fitting(a.Drain(), b, e)
  {
    hide Assembler.RingEnd, Assembler.Kept;
    EdgeWithinWindow(a);
    DrainStart(a, b, e);
    forall j, k | b <= j < e && b <= k < e && j in a.Drain().known
      ensures k in a.Drain().known
    {
      KeptWhole(a, b, e, j, k);
    }
  }

  lemma DrainStart(a: Assembler, b: nat, e: nat)
    requires a.Valid() && Fitting(a, b, e)
    ensures var s := a.Start() + Min(a.out.Room(), a.Ready());
            !(b < s < e)
  {
    EdgeWithinWindow(a);
    var s := a.Start() + Min(a.out.Room(), a.Ready());
    assert a.Start() < s ==> s - 1 in a.known;
  }

  lemma KeptWhole(a: Assembler, b: nat, e: nat, j: nat, k: nat)
    requires a.Valid() && Fitting(a, b, e) && b <= j < e && b <= k < e
    requires j in a.Kept(Min(a.out.Room(), a.Ready()))
    ensures k in a.Kept(Min(a.out.Room(), a.Ready()))
  {
    hide Assembler.RingEnd;
    EdgeWithinWindow(a);
    DrainStart(a, b, e);
  }

  /** Pushing a fitting piece keeps every fitting piece fitting that is the same or disjoint. */
  lemma PushKeepsWhole(a: Assembler, data: seq<Byte>, index: nat, eof: bool, b: nat, e: nat)
    requires a.Valid() && Fitting(a, b, e) && Fitting(a, index, index + |data|)
    requires data == [] || (index == b && index + |data| == e) || index + |data| <= b || e <= index
    ensures Fitting(a.Push(data, index, eof), b, e)
  {
    hide Assembler.Store, Assembler.Drain, Assembler.Valid, Fitting;
    StoreKeepsValid(a, data, index, eof);
    StoreKeepsWhole(a, data, index, eof, b, e);
    DrainKeepsWhole(a.Store(data, index, eof), b, e);
    CloseKeepsWhole(a.Store(data, index, eof).Drain(), b, e);
  }

  lemma CloseKeepsWhole(a: Assembler, b: nat, e: nat)
    requires Fitting(a, b, e)
    ensures Fitting(a.Close(), b, e)
  {
  }
}
