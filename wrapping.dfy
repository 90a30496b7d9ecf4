/** Fixed-width integer arithmetic of the matrix elements.
    Every element and accumulator of the kernels is a C `int`. The model takes
    two's-complement wrap-around on overflow, applied uniformly to every product
    and every sum. */
module Wrapping {

  const MODULUS: int := 0x1_0000_0000
  const HALF: int := 0x8000_0000

  /** A 32-bit signed integer. */
  newtype Int32 = x: int | -0x8000_0000 <= x < 0x8000_0000

  /** The 32-bit value that `x` wraps to: the unique representative of `x`
      modulo 2^32 in the signed range. */
  function Wrap(x: int): (r: Int32)
    ensures (r as int - x) % 0x1_0000_0000 == 0
    ensures -0x8000_0000 <= x < 0x8000_0000 ==> r as int == x
  {
    ((x + 0x8000_0000) % 0x1_0000_0000 - 0x8000_0000) as Int32
  }

  /** One accumulation step of the kernels, `acc += a * b`: the product is taken
      in 32 bits, then added to the accumulator in 32 bits. */
  function Mac(acc: Int32, x: Int32, y: Int32): Int32
  {
    Wrap(acc as int + Wrap(x as int * y as int) as int)
  }

  /** Wrapping is periodic: shifting by any multiple of 2^32 wraps to the same
      value. */
  lemma WrapShift(y: int, d: int)
    ensures Wrap(y + d * 0x1_0000_0000) == Wrap(y)
  {
  }

  /** Two integers that agree modulo 2^32 wrap to the same value. */
  lemma WrapCongruent(x: int, y: int)
    requires (x - y) % MODULUS == 0
    ensures Wrap(x) == Wrap(y)
  {
    var d := (x - y) / 0x1_0000_0000;
    assert x == y + d * 0x1_0000_0000;
    WrapShift(y, d);
  }

  /** One accumulation step agrees with the exact sum modulo 2^32: wrapping the
      product before the sum does not change the wrapped sum. */
  lemma MacIsWrappedSum(acc: int, x: Int32, y: Int32)
    ensures Mac(Wrap(acc), x, y) == Wrap(acc + x as int * y as int)
  {
    var p := x as int * y as int;
    var q1 := (acc + 0x8000_0000) / 0x1_0000_0000;
    var q2 := (p + 0x8000_0000) / 0x1_0000_0000;
    assert Wrap(acc) as int == acc - q1 * 0x1_0000_0000;
    assert Wrap(p) as int == p - q2 * 0x1_0000_0000;
    WrapShift(acc + p, -(q1 + q2));
  }
}
