/** Java's signed 64-bit `long`: its range, two's-complement wrap-around, the
    bitwise exclusive-or used for the sign test, and the overflow-checked
    addition `ZonedInterval.safeAdd`. */
module Int64 {
  import opened Outcomes

  const TWO_TO_64: int := 0x1_0000_0000_0000_0000
  const LONG_MIN: int := -0x8000_0000_0000_0000  // Long.MIN_VALUE
  const LONG_MAX: int := 0x7fff_ffff_ffff_ffff   // Long.MAX_VALUE

  predicate IsLong(x: int) {
    LONG_MIN <= x <= LONG_MAX
  }

  /** A value of Java type `long`. */
  type Long = x: int | LONG_MIN <= x <= LONG_MAX

  /** The `long` that Java's `+`, `-` and unary `-` produce for the
      mathematical value `x`: `x` reduced modulo 2^64 into the signed range. */
  function Wrap(x: int): (r: Long)
    ensures (r - x) % TWO_TO_64 == 0
    ensures IsLong(x) ==> r == x
    ensures LONG_MAX < x <= 2 * LONG_MAX ==> r == x - TWO_TO_64
    ensures 2 * LONG_MIN <= x < LONG_MIN ==> r == x + TWO_TO_64
  {
    (x - LONG_MIN) % TWO_TO_64 + LONG_MIN
  }

  /** Java's unary minus on a `long`: exact except at `Long.MIN_VALUE`,
      which is its own negation. */
  function Negate(x: Long): (r: Long)
    ensures x != LONG_MIN ==> r == -(x as int)
    ensures x == LONG_MIN ==> r == LONG_MIN
  {
    Wrap(-(x as int))
  }

  /** Java's `(x ^ y) < 0` on two `long`s. The sign bit of an exclusive-or
      is the exclusive-or of the two sign bits, so the test holds exactly
      when `x` and `y` have different signs. */
  predicate XorIsNegative(x: Long, y: Long) {
    (x < 0) != (y < 0)
  }

  /** `safeAdd(val1, val2)` as written: compute the wrapped sum, and throw when
      there is a sign change although both operands have the same sign. */
  function SafeAdd(val1: Long, val2: Long): (r: Result<Long>)
    ensures r.Ok? <==> IsLong(val1 as int + val2)
    ensures r.Ok? ==> r.value == val1 as int + val2
    ensures r.Err? ==> r.error == ArithmeticOverflow
  {
    var sum := Wrap(val1 as int + val2);
    if XorIsNegative(val1, sum) && !XorIsNegative(val1, val2) then
      Err(ArithmeticOverflow)
    else
      Ok(sum)
  }

  /** Overflow-checked subtraction in the style of `Math.subtractExact`:
      compute the wrapped difference, and throw when the operands have
      different signs and the difference's sign differs from the first's. */
  function SafeSubtract(val1: Long, val2: Long): (r: Result<Long>)
    ensures r.Ok? <==> IsLong(val1 as int - val2)
    ensures r.Ok? ==> r.value == val1 as int - val2
    ensures r.Err? ==> r.error == ArithmeticOverflow
  {
    var diff := Wrap(val1 as int - val2);
    if XorIsNegative(val1, val2) && XorIsNegative(val1, diff) then
      Err(ArithmeticOverflow)
    else
      Ok(diff)
  }
}
