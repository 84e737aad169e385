/** Machine words of the stack, as bounded integers. */
module Words {

  datatype Option<T> = None | Some(value: T)

  const TWO_16: int := 0x1_0000
  const TWO_31: int := 0x8000_0000
  const TWO_32: int := 0x1_0000_0000
  const TWO_63: int := 0x8000_0000_0000_0000
  const TWO_64: int := 0x1_0000_0000_0000_0000

  type Byte = x: int | 0 <= x < 256
  type Word16 = x: int | 0 <= x < TWO_16
  type Word32 = x: int | 0 <= x < TWO_32
  type Word64 = x: int | 0 <= x < TWO_64

  /** The value kept by 64-bit unsigned arithmetic. */
  function U64(x: int): Word64 {
    x % TWO_64
  }

  /** The value kept by 32-bit unsigned arithmetic. */
  function U32(x: int): Word32 {
    x % TWO_32
  }

  function Min(x: int, y: int): int {
    if x <= y then x else y
  }

  function Max(x: int, y: int): int {
    if x <= y then y else x
  }

  function Abs(x: int): nat {
    if x < 0 then -x else x
  }

  /** Quotient and remainder are unique. */
  lemma DivMod(y: int, d: int, q: int, r: int)
    requires 0 <= r < d && y == q * d + r
    ensures y / d == q && y % d == r
  {
    var k := y / d - q;
    assert (k >= 1 ==> k * d >= d) && (k <= -1 ==> k * d <= -d);
    assert k * d == r - y % d by {
      assert (y / d) * d + y % d == y;
    }
  }
}
