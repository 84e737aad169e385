/** The reassembler as the code has it: a string used as a ring, with a vector of empty slots. */
module StreamReassemblers {
  import opened Words
  import opened ByteStreams
  import opened Assembly
  import opened Ring
  import opened Rings

  class StreamReassembler {
    const capacity: nat
    const output: ByteStream
    const empty: array<bool>
    var aux: seq<Byte>
    var startAux: nat
    var bytesUnass: nat
    var endStream: nat

    ghost predicate Valid()
      reads this, output, empty
    {
      && 0 < capacity == empty.Length <= |aux|
      && output.Valid() && output.cap == capacity && output.bytesWrote == startAux
      && State().Valid()
    }

    ghost function State(): Assembler
      reads this, output, empty
      requires 0 < capacity == empty.Length <= |aux| && output.Valid()
    {
      Assembler(capacity, Known(capacity, aux, empty[..], startAux), bytesUnass, endStream, output.State())
    }

    /** The whole state: what `State` gives, with the ring it is read from. */
    ghost function Ring(): Ringed
      reads this, output, empty
      requires 0 < capacity == empty.Length <= |aux| && output.Valid()
    {
      Ringed(State(), Slots(aux, empty[..]))
    }

    /** Without capacity there is a ring too, but no push: every push divides by the capacity. */
    constructor (cap: nat)
      ensures fresh(output) && fresh(empty) && |aux| == empty.Length == capacity == cap
      ensures cap > 0 ==> Valid() && Ring() == FreshRing(cap)
    {
      capacity := cap;
      output := new ByteStream(cap);
      empty := new bool[cap](_ => true);
      aux := seq(cap, _ => 32);
      startAux, bytesUnass, endStream := 0, 0, NO_END;
      new;
      if cap > 0 {
        FreshHolds(cap);
        assert empty[..] == seq(cap, _ => true);
      }
    }

    /** Number of empty slots in [a, b). */
    method CountEmpty(a: nat, b: nat) returns (n: nat)
      requires a <= b <= empty.Length
      ensures n == CountTrue(empty[..], a, b)
    {
      n := 0;
      for k := a to b
        invariant n == CountTrue(empty[..], a, k)
      {
        if empty[k] {
          n := n + 1;
        }
      }
    }

    method Fill(a: nat, b: nat, value: bool)
      requires a <= b <= empty.Length
      modifies empty
      ensures forall k :: 0 <= k < empty.Length ==> empty[k] == if a <= k < b then value else old(empty[k])
      ensures empty[..] == Marked(old(empty[..]), a, b, value)
    {
      for i := a to b
        invariant forall k :: 0 <= k < empty.Length ==> empty[k] == if a <= k < i then value else old(empty[k])
      {
        empty[i] := value;
      }
    }

    /** The first empty slot in [a, b), or `b`. */
    method FindEmpty(a: nat, b: nat) returns (i: nat)
      requires a <= b <= empty.Length
      ensures a <= i <= b
      ensures forall k :: a <= k < i ==> !empty[k]
      ensures i < b ==> empty[i]
    {
      i := a;
      while i < b && !empty[i]
        invariant a <= i <= b
        invariant forall k :: a <= k < i ==> !empty[k]
      {
        i := i + 1;
      }
    }

    /** Writes one piece of the ring to the output and moves the start past what was accepted. */
    method WritePiece(start: nat, size: nat) returns (numWrote: nat)
      requires output.Valid() && start + size <= |aux| && Min(size, output.State().Room()) <= bytesUnass
      modifies this, output
      ensures output.Valid() && output.State() == old(output.State()).Write(old(aux)[start..start + size])
      ensures numWrote == Min(size, old(output.State()).Room())
      ensures output.State().Room() == old(output.State()).Room() - numWrote
      ensures startAux == old(startAux) + numWrote && bytesUnass == old(bytesUnass) - numWrote
      ensures output.bytesWrote == old(output.bytesWrote) + numWrote
      ensures unchanged(`aux, `endStream)
    {
      numWrote := output.Write(Substr(aux, start, size));
      startAux := startAux + numWrote;
      bytesUnass := bytesUnass - numWrote;
    }

    /** Drains the ring in two scans, before and after the ring end; the scans stop at `end1` and `end2`. */
    method WriteTwoPieces(start: nat, ghost end1: nat, ghost end2: nat)
      requires output.Valid() && start < capacity == empty.Length <= |aux| && Scanned(empty[..], start, end1, end2)
      requires Min(output.State().Room(), end1 - start + end2) <= bytesUnass
      modifies this, output, empty
      ensures output.Valid() && output.State() == old(output.State()).Write(old(aux)[start..end1]).Write(old(aux)[..end2])
      ensures empty[..] == EmptiedSlots(old(empty[..]), start, Min(old(output.State()).Room(), end1 - start), end1 == capacity)
      ensures var n := Min(old(output.State()).Room(), end1 - start + end2);
              && startAux == old(startAux) + n && bytesUnass == old(bytesUnass) - n
              && output.bytesWrote == old(output.bytesWrote) + n
      ensures unchanged(`aux, `endStream)
    {
      hide StreamState.Write;
      var itEnd := FindEmpty(start, capacity);
      assert itEnd == end1;
      var numWrote := WritePiece(start, itEnd - start);
      Fill(start, start + numWrote, true);
      if itEnd == capacity {
        var itEnd2 := FindEmpty(0, start);
        assert itEnd2 == end2;
        var numWrote2 := WritePiece(0, itEnd2);
        Fill(0, start, true);
        assert aux[0..itEnd2] == aux[..end2];
      } else {
        WriteNothing(output.State());
      }
    }

    method WriteToByteStream()
      requires Valid()
      modifies this, output, empty
      ensures Valid() && Ring() == old(Ring()).Drain()
    {
      hide Assembler.Valid, Assembler.Drain, Known, Slot, StreamState.Write, Scanned, EmptiedSlots;
      ghost var x := Ring();
      var start := Slot(startAux, capacity);
      DrainHolds(x);
      DrainIsCounted(x);
      WriteTwoPieces(start, x.End1(), x.End2());
    }

    /** Stores `size` bytes of `data` at slot `at` on, not reaching past the ring end. */
    method StoreOneArc(data: seq<Byte>, locData: nat, at: nat, size: nat)
      requires at + size <= empty.Length <= |aux| && locData + size <= |data|
      modifies `aux, `bytesUnass, empty
      ensures aux == Replace(old(aux), at, size, Substr(data, locData, size))
      ensures bytesUnass == old(bytesUnass) + CountTrue(old(empty[..]), at, at + size)
      ensures empty[..] == Marked(old(empty[..]), at, at + size, false)
    {
      var countEmpty := CountEmpty(at, at + size);
      aux := Replace(aux, at, size, Substr(data, locData, size));
      bytesUnass := bytesUnass + countEmpty;
      Fill(at, at + size, false);
    }

    /** Stores `size` bytes of `data` at slot `at` on, past the ring end. */
    method StoreTwoArcs(data: seq<Byte>, locData: nat, at: nat, size: nat)
      requires at < capacity == empty.Length <= |aux| && locData + size <= |data| && capacity < at + size <= 2 * capacity
      modifies `aux, `bytesUnass, empty
      ensures aux == TwoReplacements(old(aux), capacity, data, locData, at, size)
      ensures var left := at + size - capacity;
              && bytesUnass == old(bytesUnass) + CountTrue(old(empty[..]), at, capacity) + CountTrue(old(empty[..]), 0, left)
              && empty[..] == Marked(Marked(old(empty[..]), at, capacity, false), 0, left, false)
    {
      var sizeLeft := at + size - capacity;
      var countRight := CountEmpty(at, capacity);
      var countLeft := CountEmpty(0, sizeLeft);
      var sizeRight := capacity - at;
      aux := Replace(aux, at, sizeRight, Substr(data, locData, sizeRight));
      aux := Replace(aux, 0, sizeLeft, Substr(data, sizeRight, size));
      bytesUnass := bytesUnass + countRight + countLeft;
      Fill(at, capacity, false);
      Fill(0, sizeLeft, false);
    }

    /** Copies [startCopy, endCopy) out of `data` into the ring, in one or two arcs. */
    method CopyIntoRing(data: seq<Byte>, index: nat, startCopy: nat, endCopy: nat)
      requires 0 < capacity == empty.Length <= |aux|
      requires startAux <= startCopy <= endCopy <= startAux + capacity && index <= startCopy && endCopy <= index + |data|
      modifies `aux, `bytesUnass, empty
      ensures Slots(aux, empty[..]) == CopiedSlots(Slots(old(aux), old(empty[..])), data, index, startCopy, endCopy)
      ensures bytesUnass == old(bytesUnass) + NewlyTaken(Slots(old(aux), old(empty[..])), startCopy, endCopy)
    {
      var size := endCopy - startCopy;
      var locData := startCopy - index;
      var locAux := Slot(startCopy, capacity);
      hide Slot, CountTrue, TwoReplacements, Replace, Substr;
      if locAux + size <= capacity {
        StoreOneArc(data, locData, locAux, size);
      } else {
        StoreTwoArcs(data, locData, locAux, size);
      }
    }

    method StoreInWindow(data: seq<Byte>, index: nat, eof: bool)
      requires Valid() && data != [] && State().Touches(index, |data|)
      modifies this, empty
      ensures Valid() && Ring() == old(Ring()).Store(data, index, eof)
    {
      hide Slot, Known, CopiedSlots, NewlyTaken, Assembler.Valid;
      StoreHolds(Ring(), data, index, eof);
      var startCopy := Max(startAux, index);
      var endCopy := Min(startAux + capacity, index + |data|);
      CopiedSlotsGrow(Slots(aux, empty[..]), data, index, startCopy, endCopy);
      CopyIntoRing(data, index, startCopy, endCopy);
      if eof {
        endStream := index + |data|;
      }
    }

    /**
     * Stores the part of `data` inside the window.  A piece that straddles the ring end and was
     * cut at either end of the window makes the ring string longer than the ring; then the
     * values of its bytes may be wrong, but nothing else is.
     */
    method WriteToAux(data: seq<Byte>, index: nat, eof: bool)
      requires Valid()
      modifies this, output, empty
      ensures Valid() && Ring() == old(Ring()).Store(data, index, eof)
    {
      hide Slot, Known, CopiedSlots, NewlyTaken, Assembler.Valid;
      StoreHolds(Ring(), data, index, eof);
      if |data| == 0 {
        if eof {
          output.EndInput();
        }
        return;
      }
      if index > startAux + capacity || index + |data| < startAux {
        return;
      }
      StoreInWindow(data, index, eof);
    }

    method PushSubstring(data: seq<Byte>, index: nat, eof: bool)
      requires Valid()
      modifies this, output, empty
      ensures Valid() && Ring() == old(Ring()).Push(data, index, eof)
    {
      hide Slot, Known, Assembler.Valid, Ringed.Store, Ringed.Drain;
      WriteToAux(data, index, eof);
      WriteToByteStream();
      CloseHolds(Ring());
      if startAux == endStream {
        output.EndInput();
      }
    }
  }
}
