/** The host math library (sqrt, acos, sin, cos, fmod, atan and pi) and the C conversion
    from a floating-point value to `int`.

    The model does not define the transcendental functions: a `Libm` value carries them as
    arbitrary functions, and only the laws stated below are assumed, each one exactly where
    a member needs it (as a `requires`). */
module MathLib {

  datatype Libm = Libm(
    sqrt: real -> real,
    acos: real -> real,
    sin: real -> real,
    cos: real -> real,
    fmod: (real, real) -> real,
    atan: real -> real,
    pi: real)

  /** `sqrt` returns the non-negative square root of a non-negative argument. */
  ghost predicate SqrtLaws(sqrt: real -> real) {
    forall x :: 0.0 <= x ==> 0.0 <= sqrt(x) && sqrt(x) * sqrt(x) == x
  }

  /** sin^2 + cos^2 == 1, and cos undoes acos on [-1, 1]. */
  ghost predicate TrigLaws(m: Libm) {
    && (forall x :: m.sin(x) * m.sin(x) + m.cos(x) * m.cos(x) == 1.0)
    && (forall x :: -1.0 <= x <= 1.0 ==> m.cos(m.acos(x)) == x)
  }

  predicate PiPositive(m: Libm) {
    m.pi > 0.0
  }

  /** `static_cast<int>(x)` and `(int) x`: C truncates toward zero (integer overflow is not modelled). */
  function TruncToInt(x: real): (n: int)
    ensures 0.0 <= x ==> n as real <= x < n as real + 1.0
    ensures x < 0.0 ==> n as real - 1.0 < x <= n as real
  {
    if x >= 0.0 then x.Floor else -((-x).Floor)
  }
}
