/** Integer widths of the Arduino platform the client runs on.
    `unsigned long` is 32 bits wide and every arithmetic operation on it
    wraps around modulo 2^32; `int` is a signed machine integer. */
module Arduino {

  const TwoTo32: int := 0x1_0000_0000

  /** An `unsigned long`. */
  type ULong = x: int | 0 <= x < TwoTo32

  /** A signed `int`, taken here as 32 bits wide (a 16-bit `int` is a subset). */
  type Int32 = x: int | -0x8000_0000 <= x < 0x8000_0000

  /** A `byte` (`uint8_t`). Bit masks are applied to it literally. */
  type Byte = bv8

  /** The value an exact integer result has once stored in an `unsigned long`. */
  function Wrap(x: int): (r: ULong)
    ensures 0 <= x < TwoTo32 ==> r == x
  {
    x % TwoTo32
  }

  /** Wrapping forgets whole multiples of 2^32. */
  lemma {:induction false} WrapPeriodic(x: int)
    ensures Wrap(x + TwoTo32) == Wrap(x)
  {
    var q := x / TwoTo32;
    assert x == q * TwoTo32 + Wrap(x);
    assert x + TwoTo32 == (q + 1) * TwoTo32 + Wrap(x);
  }

  /** `a - b` on `unsigned long`: the wraparound-safe difference. */
  function Sub(a: ULong, b: ULong): (r: ULong)
    ensures (b + r) % TwoTo32 == a
    ensures b <= a ==> r == a - b
    ensures a < b ==> r == a - b + TwoTo32
  {
    Wrap(a - b)
  }

  /** The usual arithmetic conversion of an `int` operand to `unsigned long`
      (two's complement reinterpretation). */
  function ToULong(i: Int32): (r: ULong)
    ensures 0 <= i ==> r == i
    ensures i < 0 ==> r == TwoTo32 + i
  {
    Wrap(i)
  }

  /** A byte as a non-negative integer. */
  function Val(b: Byte): (r: nat)
    ensures r < 256
  {
    b as nat
  }

  /** Adding the converted offset and wrapping is adding the signed offset
      and wrapping. */
  lemma {:induction false} ToULongWrap(i: Int32, x: int)
    ensures Wrap(ToULong(i) + x) == Wrap(i + x)
  {
    if i < 0 {
      WrapPeriodic(i + x);
    }
  }
}
