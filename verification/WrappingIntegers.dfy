/** 32-bit sequence numbers and their 64-bit "absolute" counterparts. */
module WrappingIntegers {
  import opened Words

  /** The 32-bit sequence number that stands for absolute sequence number `n`. */
  function Wrap(n: nat, isn: Word32): Word32 {
    U64(n + isn) % TWO_32
  }

  /** The absolute sequence number the code picks for `n`; every operation is 64-bit. */
  function Unwrap(n: Word32, isn: Word32, checkpoint: Word64): Word64 {
    var mid := U64(checkpoint + isn);
    var low := if TWO_31 >= mid then 0 else mid - TWO_31 - 1;
    var high := if TWO_31 >= mid then TWO_32 - 2 else U64(mid + TWO_31 - 1);
    var cand := U64(n + mid / TWO_32 * TWO_32);
    if cand > low then
      if cand > U64(high + 1) then
        U64(cand - TWO_32 - isn)
      else if isn > cand then
        U64(cand + TWO_32 - isn)
      else
        cand - isn
    else
      U64(cand + TWO_32 - isn)
  }

  /** Congruence modulo the sequence space, with an explicit number of cycles. */
  ghost predicate Congruent(x: int, y: int) {
    x % TWO_32 == y % TWO_32
  }

  lemma CongruentByCycles(x: int, y: int, k: int)
    requires x == y + k * TWO_32
    ensures Congruent(x, y)
  {
  }

  lemma U64IsCongruent(x: int)
    ensures Congruent(U64(x), x)
  {
    CongruentByCycles(x, U64(x), x / TWO_64 * TWO_32);
  }

  lemma WrapIsMod32(n: nat, isn: Word32)
    ensures Wrap(n, isn) == (n + isn) % TWO_32
  {
    U64IsCongruent(n + isn);
  }

  lemma WrapsTo(v: int, x: int, n: Word32, isn: Word32)
    requires v >= 0 && Congruent(v, x - isn) && Congruent(x, n)
    ensures Wrap(v, isn) == n
  {
    WrapIsMod32(v, isn);
    CongruentByCycles(v + isn, x, v / TWO_32 - (x - isn) / TWO_32);
  }

  /** Wrapping the result of `Unwrap` gives back `n`, for all 64-bit inputs, overflowing or not. */
  lemma WrapOfUnwrap(n: Word32, isn: Word32, checkpoint: Word64)
    ensures Wrap(Unwrap(n, isn, checkpoint), isn) == n
  {
    var r := Unwrap(n, isn, checkpoint);
    var cycles := U64(checkpoint + isn) / TWO_32;
    var cand := U64(n + cycles * TWO_32);
    U64IsCongruent(n + cycles * TWO_32);
    CongruentByCycles(n + cycles * TWO_32, n, cycles);
    CongruentByCycles(cand - TWO_32, cand, -1);
    CongruentByCycles(cand + TWO_32, cand, 1);
    U64IsCongruent(cand - TWO_32 - isn);
    U64IsCongruent(cand + TWO_32 - isn);
    if r == U64(cand - TWO_32 - isn) {
      WrapsTo(r, cand - TWO_32, n, isn);
    } else if r == U64(cand + TWO_32 - isn) {
      WrapsTo(r, cand + TWO_32, n, isn);
    } else {
      WrapsTo(r, cand, n, isn);
    }
  }

  /** `v` wraps to `n`, and no 64-bit number that wraps to `n` is nearer `checkpoint`. */
  ghost predicate Closest(v: Word64, n: Word32, isn: Word32, checkpoint: Word64) {
    && Wrap(v, isn) == n
    && forall u: Word64 :: Wrap(u, isn) == n ==> Abs(v - checkpoint) <= Abs(u - checkpoint)
  }

  /** The strict comparison with `low` makes the code skip absolute number zero. */
  predicate SkipsZero(n: Word32, isn: Word32, checkpoint: nat) {
    n == 0 && isn == 0 && checkpoint < TWO_31
  }

  /** The code steps one cycle down from its candidate although that leads below zero. */
  predicate StepsBelowZero(n: Word32, isn: Word32, checkpoint: nat) {
    n < isn && checkpoint + isn >= TWO_32 && n > checkpoint + isn - TWO_31
  }

  /**
   * Near the top of the 64-bit numbers a sum of the code overflows: that of checkpoint and ISN,
   * or the upper bound of the half cycle above it; only a candidate on one side survives it.
   */
  predicate Overflows(n: Word32, isn: Word32, checkpoint: Word64) {
    var sum := checkpoint + isn;
    if sum >= TWO_64 then
      !(sum - TWO_64 > TWO_31 && n > sum - TWO_64 + TWO_31)
    else
      sum >= TWO_64 - TWO_31 && (n + TWO_64 - TWO_32 >= sum - TWO_31 || n >= isn)
  }

  predicate Corner(n: Word32, isn: Word32, checkpoint: Word64) {
    SkipsZero(n, isn, checkpoint) || StepsBelowZero(n, isn, checkpoint) || Overflows(n, isn, checkpoint)
  }

  /** Sequence numbers with the same 32-bit form are whole cycles apart. */
  lemma CyclesApart(u: nat, v: nat, isn: Word32) returns (k: int)
    requires Wrap(u, isn) == Wrap(v, isn)
    ensures u == v + k * TWO_32
  {
    WrapIsMod32(u, isn);
    WrapIsMod32(v, isn);
    k := (u + isn) / TWO_32 - (v + isn) / TWO_32;
  }

  lemma ClosestWithinHalf(v: Word64, n: Word32, isn: Word32, checkpoint: Word64)
    requires Wrap(v, isn) == n
    requires Abs(v - checkpoint) <= TWO_31 || checkpoint <= v < TWO_32
    ensures Closest(v, n, isn, checkpoint)
  {
    forall u: Word64 | Wrap(u, isn) == n
      ensures Abs(v - checkpoint) <= Abs(u - checkpoint)
    {
      var k := CyclesApart(u, v, isn);
    }
  }

  /** `Unwrap` as integer arithmetic, `q` full cycles below `mid` and `m` left over. */
  ghost function UnwrapPlain(n: Word32, isn: Word32, q: nat, m: Word32): int {
    var cand := n + q * TWO_32;
    var mid := m + q * TWO_32;
    if (if TWO_31 >= mid then cand > 0 else cand >= mid - TWO_31) then
      if cand > (if TWO_31 >= mid then TWO_32 - 1 else mid + TWO_31) then
        cand - TWO_32 - isn
      else if isn > cand then
        cand + TWO_32 - isn
      else
        cand - isn
    else
      cand + TWO_32 - isn
  }

  lemma U64OfSmall(x: int)
    requires x < TWO_64
    ensures x >= 0 ==> U64(x) == x
  {
  }

  lemma CyclesIn(x: int, q: nat, m: Word32)
    requires x == m + q * TWO_32
    ensures x / TWO_32 == q
  {
  }

  lemma UnwrapWithoutOverflow(n: Word32, isn: Word32, checkpoint: Word64, q: nat, m: Word32)
    requires checkpoint + isn < TWO_64 - TWO_31 && checkpoint + isn == m + q * TWO_32
    ensures Unwrap(n, isn, checkpoint) == U64(UnwrapPlain(n, isn, q, m))
  {
    var mid := checkpoint + isn;
    U64OfSmall(mid);
    U64OfSmall(mid + TWO_31 - 1);
    U64OfSmall(mid + TWO_31);
    CyclesIn(mid, q, m);
    U64OfSmall(n + q * TWO_32);
  }

  lemma PlainDistance(n: Word32, isn: Word32, checkpoint: nat, q: nat, m: Word32)
    requires checkpoint + isn == m + q * TWO_32
    requires !SkipsZero(n, isn, checkpoint) && !StepsBelowZero(n, isn, checkpoint)
    ensures var r := UnwrapPlain(n, isn, q, m);
            r >= 0 && (Abs(r - checkpoint) <= TWO_31 || checkpoint <= r < TWO_32)
  {
  }

  lemma PlainInCorners(n: Word32, isn: Word32, checkpoint: nat, q: nat, m: Word32)
    requires checkpoint + isn == m + q * TWO_32
    ensures SkipsZero(n, isn, checkpoint) ==> UnwrapPlain(n, isn, q, m) == TWO_32
    ensures StepsBelowZero(n, isn, checkpoint) ==> UnwrapPlain(n, isn, q, m) == n - isn
  {
    if StepsBelowZero(n, isn, checkpoint) {
      assert q == 1;
    }
  }

  /** Near the top, where nothing is lost by overflow. */
  lemma TopIsNear(n: Word32, isn: Word32, checkpoint: Word64)
    requires checkpoint + isn >= TWO_64 - TWO_31 && !Overflows(n, isn, checkpoint)
    ensures Abs(Unwrap(n, isn, checkpoint) - checkpoint) <= TWO_31
  {
    var sum := checkpoint + isn;
    if sum >= TWO_64 {
      U64Down(n - TWO_32 - isn);
    } else {
      CyclesIn(sum, TWO_32 - 1, sum - (TWO_32 - 1) * TWO_32);
    }
  }

  lemma U64Down(x: int)
    requires -TWO_64 <= x < 0
    ensures U64(x) == x + TWO_64
  {
  }

  lemma U64OfOverflow(x: int)
    requires TWO_64 <= x < 2 * TWO_64
    ensures U64(x) == x - TWO_64
  {
  }

  lemma WrappedSumIsLow(n: Word32, isn: Word32, checkpoint: Word64)
    requires checkpoint + isn >= TWO_64 && Overflows(n, isn, checkpoint)
    ensures Unwrap(n, isn, checkpoint) < 2 * TWO_32
  {
    hide U64;
    var mid := checkpoint + isn - TWO_64;
    U64OfOverflow(checkpoint + isn);
    CyclesIn(mid, 0, mid);
    U64OfSmall(n);
    U64OfSmall(n + TWO_32 - isn);
    U64OfSmall(mid + TWO_31 - 1);
    U64OfSmall(mid + TWO_31);
    U64OfSmall(TWO_32 - 1);
  }

  lemma WrappedBoundIsLow(n: Word32, isn: Word32, checkpoint: Word64)
    requires TWO_64 - TWO_31 <= checkpoint + isn < TWO_64 && Overflows(n, isn, checkpoint)
    ensures var cand, sum := n + TWO_64 - TWO_32, checkpoint + isn;
            Unwrap(n, isn, checkpoint) == if cand >= sum - TWO_31 then cand - TWO_32 - isn else n - isn
  {
    var sum := checkpoint + isn;
    CyclesIn(sum, TWO_32 - 1, sum - (TWO_32 - 1) * TWO_32);
    U64OfSmall(sum);
    U64OfSmall(n + TWO_64 - TWO_32);
    U64OfSmall(n + TWO_64 - 2 * TWO_32 - isn);
  }

  /** Near the top, where overflow matters, the code ends up a cycle or more too low. */
  lemma TopIsFar(n: Word32, isn: Word32, checkpoint: Word64)
    requires Overflows(n, isn, checkpoint)
    ensures var r := Unwrap(n, isn, checkpoint);
            r + TWO_32 < TWO_64 && Abs(r + TWO_32 - checkpoint) < Abs(r - checkpoint)
  {
    hide Unwrap;
    if checkpoint + isn >= TWO_64 {
      WrappedSumIsLow(n, isn, checkpoint);
    } else {
      WrappedBoundIsLow(n, isn, checkpoint);
    }
  }

  /** The code picks a candidate within half a cycle, or the least one, except in the corners. */
  lemma UnwrapDistance(n: Word32, isn: Word32, checkpoint: Word64)
    requires !Corner(n, isn, checkpoint)
    ensures var r := Unwrap(n, isn, checkpoint);
            Abs(r - checkpoint) <= TWO_31 || checkpoint <= r < TWO_32
  {
    if checkpoint + isn >= TWO_64 - TWO_31 {
      TopIsNear(n, isn, checkpoint);
    } else {
      var q, m := (checkpoint + isn) / TWO_32, (checkpoint + isn) % TWO_32;
      UnwrapWithoutOverflow(n, isn, checkpoint, q, m);
      PlainDistance(n, isn, checkpoint, q, m);
      U64OfSmall(UnwrapPlain(n, isn, q, m));
    }
  }

  lemma UnwrapInCorners(n: Word32, isn: Word32, checkpoint: Word64)
    ensures SkipsZero(n, isn, checkpoint) ==> Unwrap(n, isn, checkpoint) == TWO_32
    ensures StepsBelowZero(n, isn, checkpoint) ==> Unwrap(n, isn, checkpoint) == n - isn + TWO_64
  {
    if SkipsZero(n, isn, checkpoint) || StepsBelowZero(n, isn, checkpoint) {
      var q, m := (checkpoint + isn) / TWO_32, (checkpoint + isn) % TWO_32;
      UnwrapWithoutOverflow(n, isn, checkpoint, q, m);
      PlainInCorners(n, isn, checkpoint, q, m);
    }
  }

  lemma NotClosest(r: Word64, u: Word64, n: Word32, isn: Word32, checkpoint: Word64)
    requires (u + isn) % TWO_32 == n && Abs(u - checkpoint) < Abs(r - checkpoint)
    ensures !Closest(r, n, isn, checkpoint)
  {
    WrapIsMod32(u, isn);
  }

  /** The documented promise ("closest to the checkpoint") holds exactly outside the corners, for all 64-bit inputs. */
  lemma UnwrapIsClosestIff(n: Word32, isn: Word32, checkpoint: Word64)
    ensures Closest(Unwrap(n, isn, checkpoint), n, isn, checkpoint) <==> !Corner(n, isn, checkpoint)
  {
    hide Unwrap, Closest, Overflows;
    var r := Unwrap(n, isn, checkpoint);
    WrapOfUnwrap(n, isn, checkpoint);
    if Overflows(n, isn, checkpoint) {
      TopIsFar(n, isn, checkpoint);
      WrapIsMod32(r, isn);
      CongruentByCycles(r + TWO_32 + isn, r + isn, 1);
      NotClosest(r, r + TWO_32, n, isn, checkpoint);
    } else if SkipsZero(n, isn, checkpoint) || StepsBelowZero(n, isn, checkpoint) {
      UnwrapInCorners(n, isn, checkpoint);
      NotClosest(r, if n < isn then n - isn + TWO_32 else 0, n, isn, checkpoint);
    } else {
      UnwrapDistance(n, isn, checkpoint);
      ClosestWithinHalf(r, n, isn, checkpoint);
    }
  }

  /**
   * Round trip: a 64-bit absolute number less than half a cycle from the checkpoint survives
   * wrapping and unwrapping, exactly unless it is number zero of a stream whose ISN is zero, or
   * a sum overflows 64 bits.
   */
  lemma UnwrapOfWrapIff(v: Word64, isn: Word32, checkpoint: Word64)
    requires Abs(v - checkpoint) < TWO_31
    ensures Unwrap(Wrap(v, isn), isn, checkpoint) == v
            <==> !(v == 0 && isn == 0) && !Overflows(Wrap(v, isn), isn, checkpoint)
  {
    hide Unwrap, Closest, Overflows;
    var n := Wrap(v, isn);
    var r := Unwrap(n, isn, checkpoint);
    UnwrapIsClosestIff(n, isn, checkpoint);
    ClosestWithinHalf(v, n, isn, checkpoint);
    if !(v == 0 && isn == 0) {
      NearIsNoCorner(v, isn, checkpoint);
      if !Overflows(n, isn, checkpoint) {
        NearAgree(r, v, n, isn, checkpoint);
      }
    }
  }

  /** The same for streams of at most 2^63 bytes, where nothing overflows. */
  lemma UnwrapOfWrap(v: nat, isn: Word32, checkpoint: Word64)
    requires checkpoint <= TWO_63 && Abs(v - checkpoint) < TWO_31 && !(v == 0 && isn == 0)
    ensures Unwrap(Wrap(v, isn), isn, checkpoint) == v
  {
    hide Unwrap;
    UnwrapOfWrapIff(v, isn, checkpoint);
  }

  lemma NearAgree(r: Word64, v: Word64, n: Word32, isn: Word32, checkpoint: Word64)
    requires Closest(r, n, isn, checkpoint) && Wrap(v, isn) == n && Abs(v - checkpoint) < TWO_31
    ensures r == v
  {
    var k := CyclesApart(r, v, isn);
  }

  lemma NearIsNoCorner(v: nat, isn: Word32, checkpoint: nat)
    requires Abs(v - checkpoint) < TWO_31 && !(v == 0 && isn == 0)
    ensures !SkipsZero(Wrap(v, isn), isn, checkpoint) && !StepsBelowZero(Wrap(v, isn), isn, checkpoint)
  {
    WrapIsMod32(v, isn);
    var k := (v + isn) / TWO_32;
    assert Wrap(v, isn) == v + isn - k * TWO_32;
  }
}
