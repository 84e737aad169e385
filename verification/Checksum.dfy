/** The Internet checksum: a sum of 16-bit words, folded to 16 bits and complemented. */
module Checksum {
  import opened Words

  const ONES: int := TWO_16 - 1

  /** What a byte counts for: low half of a word, or high half. */
  function Weight(odd: bool): nat {
    if odd then 1 else 256
  }

  /** Contribution of bytes to the sum; the first is the high half of a word unless `odd`. */
  function SumBytes(data: seq<Byte>, odd: bool): nat {
    if data == [] then 0 else Weight(odd) * data[0] + SumBytes(data[1..], !odd)
  }

  /** Whether the next byte after `data` is the low half of a word. */
  predicate OddAfter(data: seq<Byte>, odd: bool) {
    (|data| % 2 == 1) != odd
  }

  /** Folding the high half into the low half until 16 bits remain. */
  function Fold(x: nat): nat
    decreases x
  {
    if x <= ONES then x else Fold(x / TWO_16 + x % TWO_16)
  }

  /** The checksum of a 32-bit sum. */
  function Value(sum: Word32): Word16 {
    FoldIs(sum);
    ONES - Fold(sum)
  }

  /** The sum a checksum object arrives at from `initial`. */
  function Total(initial: Word32, data: seq<Byte>): Word32 {
    U32(initial + SumBytes(data, false))
  }

  /** Chunks may be cut anywhere: what counts is the sequence of bytes. */
  lemma {:induction false} SumOfChunks(a: seq<Byte>, b: seq<Byte>, odd: bool)
    ensures SumBytes(a + b, odd) == SumBytes(a, odd) + SumBytes(b, OddAfter(a, odd))
    decreases |a|
  {
    if a == [] {
      assert a + b == b;
    } else {
      assert (a + b)[1..] == a[1..] + b;
      SumOfChunks(a[1..], b, !odd);
    }
  }

  /** The 16-bit words of some bytes, most significant byte first, a last odd byte padded with zero, added up. */
  function SumWords(data: seq<Byte>): nat
    decreases |data|
  {
    if data == [] then 0
    else if |data| == 1 then 256 * Wide(data[0])
    else 256 * Wide(data[0]) + Wide(data[1]) + SumWords(data[2..])
  }

  function Wide(b: Byte): nat {
    b
  }

  /** Adding byte by byte is adding the words, as section 1 of RFC 1071 asks. */
  lemma {:induction false} SumIsOfWords(data: seq<Byte>)
    ensures SumBytes(data, false) == SumWords(data)
    decreases |data|
  {
    if |data| == 1 {
      assert SumBytes(data[1..], true) == 0;
    } else if |data| > 1 {
      assert data[1..][1..] == data[2..];
      SumIsOfWords(data[2..]);
    }
  }

  lemma FoldStep(x: nat)
    requires x > ONES
    ensures 0 < x / TWO_16 + x % TWO_16 < x
    ensures (x / TWO_16 + x % TWO_16) % ONES == x % ONES
  {
    var q, r := x / TWO_16, x % TWO_16;
    assert x == (q + r) + q * ONES;
    ModAdd(q + r, q);
  }

  lemma ModAdd(y: int, k: int)
    ensures (y + k * ONES) % ONES == y % ONES
  {
  }

  /** Folding keeps the value modulo 65535, and gives zero only for zero. */
  lemma {:induction false} FoldIs(x: nat)
    ensures Fold(x) == if x == 0 then 0 else if x % ONES == 0 then ONES else x % ONES
    decreases x
  {
    if x > ONES {
      FoldStep(x);
      FoldIs(x / TWO_16 + x % TWO_16);
    }
  }

  /** A sum passes the check exactly if it is a positive multiple of 65535. */
  lemma PassesIff(sum: Word32)
    ensures Value(sum) == 0 <==> sum > 0 && sum % ONES == 0
  {
    FoldIs(sum);
  }

  /** The checksum completes a sum to a positive multiple of 65535, of which 65537 fit into 32 bits. */
  lemma ChecksumCompletes(sum: Word32) returns (m: int)
    ensures sum + Value(sum) == m * ONES && 1 <= m <= 65537
  {
    hide Fold;
    FoldIs(sum);
    var k, r := sum / ONES, sum % ONES;
    assert sum == k * ONES + r && 0 <= r < ONES;
    m := if sum == 0 then 1 else if r == 0 then k else k + 1;
  }

  /** Adding a sum's own checksum makes it pass, and never overflows 32 bits. */
  lemma OwnChecksumPasses(sum: Word32)
    ensures Value(U32(sum + Value(sum))) == 0
  {
    hide Value;
    var m := ChecksumCompletes(sum);
    ModAdd(0, m);
    PassesIff(U32(m * ONES));
  }

  /** Losing a carry out of 32 bits changes the value modulo 65535 by one. */
  lemma WrapShifts(x: int)
    requires TWO_32 <= x < 2 * TWO_32
    ensures U32(x) == x - TWO_32 && U32(x) % ONES == (x - 1) % ONES
  {
    assert TWO_32 == 1 + 65537 * ONES;
    ModAdd(x - TWO_32, 65537);
  }

  // One changed byte

  lemma {:induction false} SumOfUpdate(data: seq<Byte>, odd: bool, i: nat, v: Byte)
    requires i < |data|
    ensures SumBytes(data[i := v], odd)
            == SumBytes(data, odd) + (v - data[i]) * Weight((i % 2 == 1) != odd)
    decreases |data|
  {
    if i == 0 {
      assert data[0 := v][1..] == data[1..];
    } else {
      assert data[i := v][1..] == data[1..][i - 1 := v];
      SumOfUpdate(data[1..], !odd, i - 1, v);
    }
  }

  lemma NearMissFails(sum: Word32, delta: int)
    requires sum > 0 && sum % ONES == 0 && delta != 0 && -ONES < delta < ONES
    ensures Value(U32(sum + delta)) != 0
  {
    var y := U32(sum + delta);
    PassesIff(y);
    var k := sum / ONES;
    if sum + delta < TWO_32 {
      ModAdd(delta, k);
    } else {
      WrapShifts(sum + delta);
      ModAdd(delta - 1, k);
    }
  }

  /** Data that passes the check does not pass any more after any change of a single byte. */
  lemma OneByteIsNoticed(initial: Word32, data: seq<Byte>, i: nat, v: Byte)
    requires i < |data| && v != data[i] && Value(Total(initial, data)) == 0
    ensures Value(Total(initial, data[i := v])) != 0
  {
    PassesIff(Total(initial, data));
    SumOfUpdate(data, false, i, v);
    var delta := (v - data[i]) * Weight(i % 2 == 1);
    assert Total(initial, data[i := v]) == U32(Total(initial, data) + delta) by {
      U32Adds(initial + SumBytes(data, false), delta);
    }
    NearMissFails(Total(initial, data), delta);
  }

  lemma U32Adds(x: int, y: int)
    ensures U32(U32(x) + y) == U32(x + y)
  {
  }
}
