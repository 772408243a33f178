/** The JVM's fixed-width integers as Kotlin uses them: `Int` and `Long`
    arithmetic wraps around in two's complement, `/` truncates toward zero and
    `Long.toInt()` keeps the low 32 bits. */
module Jvm {

  const INT_MIN: int := -0x8000_0000
  const INT_MAX: int := 0x7fff_ffff
  const LONG_MIN: int := -0x8000_0000_0000_0000
  const LONG_MAX: int := 0x7fff_ffff_ffff_ffff
  const TWO_32: int := 0x1_0000_0000
  const TWO_64: int := 0x1_0000_0000_0000_0000

  /** Kotlin `Int`. */
  type Int32 = x: int | INT_MIN <= x <= INT_MAX

  /** Kotlin `Long`. */
  type Int64 = x: int | LONG_MIN <= x <= LONG_MAX

  /** The `Long` that a `Long` computation whose exact value is `x` yields. */
  function WrapLong(x: int): (r: Int64)
    ensures (x - r) % TWO_64 == 0
    ensures LONG_MIN <= x <= LONG_MAX ==> r == x
  {
    var m := x % TWO_64;
    assert x == (x / TWO_64) * TWO_64 + m;
    if m <= LONG_MAX then m else m - TWO_64
  }

  /** `Long.toInt()`: the low 32 bits, read as a signed `Int`. */
  function ToInt32(x: int): (r: Int32)
    ensures (x - r) % TWO_32 == 0
    ensures INT_MIN <= x <= INT_MAX ==> r == x
  {
    var m := x % TWO_32;
    assert x == (x / TWO_32) * TWO_32 + m;
    if m <= INT_MAX then m else m - TWO_32
  }

  /** Kotlin's `/` by a positive divisor: the quotient rounded toward zero
      (Dafny's own `/` rounds negative dividends down instead). */
  function TruncDiv(a: int, b: int): (q: int)
    requires b > 0
    ensures 0 <= a ==> 0 <= q && q * b <= a < q * b + b
    ensures a < 0 ==> q <= 0 && q * b - b < a <= q * b
  {
    if a >= 0 then
      assert a == (a / b) * b + a % b && 0 <= a % b < b;
      a / b
    else
      var d := (-a) / b;
      assert -a == d * b + (-a) % b && 0 <= (-a) % b < b;
      assert (-d) * b == -(d * b);
      -d
  }

  /** Multiplying both sides of `a <= b` by a non-negative `c`. */
  lemma MulMono(a: int, b: int, c: int)
    requires a <= b && 0 <= c
    ensures a * c <= b * c
  {
  }
}
