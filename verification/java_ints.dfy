/** Java's 32-bit `int`: its range and the two's-complement wrap-around of
    `+`, `-` and `*` on it. */
module JavaInts {

  const MinInt: int := -0x8000_0000
  const MaxInt: int := 0x7fff_ffff
  const Modulus: int := 0x1_0000_0000

  /** A value of Java type `int`. */
  type Int32 = x: int | -0x8000_0000 <= x <= 0x7fff_ffff

  /** The `int` that Java arithmetic yields when the exact result is `x`. */
  function Wrap(x: int): (r: Int32)
    ensures MinInt <= x <= MaxInt ==> r == x
    ensures (x - r) % Modulus == 0
  {
    var q := (x - MinInt) / Modulus;
    assert x - MinInt == q * Modulus + (x - MinInt) % Modulus;
    (x - MinInt) % Modulus + MinInt
  }
}
