/** The regularised delta function `deltaFunction` of the immersed-boundary coupling
    (Source/DiffusedIB.cpp:62-89): a one-dimensional weight of the normalised distance
    rr = |xf - xp| / h between a grid node and a marker. */
module DeltaKernel {
  import opened MathLib
  import opened RealArith

  /** DELTA_FUNCTION_TYPE */
  datatype DeltaType = FourPointIB | ThreePointIB

  /** the branch of the piecewise definition that a distance selects */
  datatype Branch = Inner | Outer | Outside

  function Abs(x: real): real {
    if x < 0.0 then -x else x
  }

  /** rr = |(xf - xp) / h|, the distance in cells */
  function Distance(xf: real, xp: real, h: real): (rr: real)
    requires h != 0.0
    ensures 0.0 <= rr
  {
    Abs((xf - xp) / h)
  }

  /** (-a) / h == -(a / h) */
  lemma NegatedQuotient(a: real, h: real)
    requires h != 0.0
    ensures (-a) / h == -(a / h)
  {
    var q := a / h;
    assert q * h == a;
    assert (-q) * h == -a;
  }

  /** Which branch a distance takes. The four-point kernel has branches on [0, 0.5) and
      [1, 2) only, so [0.5, 1) falls to the default branch, like every rr >= 2. */
  function BranchOf(rr: real, kind: DeltaType): (b: Branch)
    ensures b == Outside <==> 2.0 <= rr || rr < 0.0 || (kind == FourPointIB && 0.5 <= rr < 1.0)
  {
    match kind
    case FourPointIB =>
      if rr >= 0.0 && rr < 0.5 then Inner
      else if rr >= 1.0 && rr < 2.0 then Outer
      else Outside
    case ThreePointIB =>
      if rr >= 0.0 && rr < 1.0 then Inner
      else if rr >= 1.0 && rr < 2.0 then Outer
      else Outside
  }

  /** The weight of a distance rr >= 0 on a grid of spacing h; `Math::powi<2>(rr)` is rr * rr.
      Its own contract gives only the zero of the default branch; the sign and support of the
      four-point weight are FourPointWeightPositive, FourPointPositive and DeltaSupport. */
  function KernelWeight(sqrt: real -> real, rr: real, h: real, kind: DeltaType): (value: real)
    requires h != 0.0
    ensures BranchOf(rr, kind) == Outside ==> value == 0.0
  {
    match BranchOf(rr, kind)
    case Inner =>
      if kind == FourPointIB then 1.0 / 8.0 * (3.0 - 2.0 * rr + sqrt(1.0 + 4.0 * rr - 4.0 * (rr * rr))) / h
      else 1.0 / 6.0 * (5.0 - 3.0 * rr + sqrt(-3.0 * (1.0 - rr * rr) + 1.0)) / h
    case Outer =>
      if kind == FourPointIB then 1.0 / 8.0 * (5.0 - 2.0 * rr - sqrt(-7.0 + 12.0 * rr - 4.0 * (rr * rr))) / h
      else 1.0 / 3.0 * (1.0 + sqrt(1.0 - 3.0 * (rr * rr))) / h
    case Outside =>
      0.0
  }

  /** `deltaFunction(xf, xp, h, value, type)` */
  function DeltaFunction(sqrt: real -> real, xf: real, xp: real, h: real, kind: DeltaType): (value: real)
    requires h != 0.0
    ensures BranchOf(Distance(xf, xp, h), kind) == Outside ==> value == 0.0
  {
    KernelWeight(sqrt, Distance(xf, xp, h), h, kind)
  }

  /** Both kernels vanish from two cells on, and the four-point kernel also on [0.5, 1). */
  lemma DeltaSupport(sqrt: real -> real, xf: real, xp: real, h: real, kind: DeltaType)
    requires h != 0.0
    ensures 2.0 <= Distance(xf, xp, h) ==> DeltaFunction(sqrt, xf, xp, h, kind) == 0.0
    ensures kind == FourPointIB && 0.5 <= Distance(xf, xp, h) < 1.0 ==>
              DeltaFunction(sqrt, xf, xp, h, kind) == 0.0
  {
  }

  /** The weight depends on |xf - xp| only: exchanging node and marker gives the same weight. */
  lemma DeltaSymmetric(sqrt: real -> real, xf: real, xp: real, h: real, kind: DeltaType)
    requires h != 0.0
    ensures DeltaFunction(sqrt, xf, xp, h, kind) == DeltaFunction(sqrt, xp, xf, h, kind)
  {
    NegatedQuotient(xf - xp, h);
    assert xp - xf == -(xf - xp);
    assert Distance(xf, xp, h) == Distance(xp, xf, h);
  }

  /** The square-root arguments of the two four-point branches are at least 1 on their
      branches, so these branches never take the root of a negative number. */
  lemma {:induction false} FourPointRootArguments(rr: real)
    ensures 0.0 <= rr < 0.5 ==> 1.0 + 4.0 * rr - 4.0 * (rr * rr) >= 1.0
    ensures 1.0 <= rr < 2.0 ==> -7.0 + 12.0 * rr - 4.0 * (rr * rr) >= 1.0
  {
    if 0.0 <= rr < 0.5 {
      assert 1.0 + 4.0 * rr - 4.0 * (rr * rr) == 1.0 + 4.0 * (rr * (1.0 - rr));
      assert rr * (1.0 - rr) >= 0.0 by { ProductNonNegative(rr, 1.0 - rr); }
    }
    if 1.0 <= rr < 2.0 {
      assert -7.0 + 12.0 * rr - 4.0 * (rr * rr) == 1.0 + 4.0 * ((rr - 1.0) * (2.0 - rr));
      assert (rr - 1.0) * (2.0 - rr) >= 0.0 by { ProductNonNegative(rr - 1.0, 2.0 - rr); }
    }
  }

  /** With a true square root and h > 0, the four-point weight is never negative, and it is
      positive exactly on its two branches [0, 0.5) and [1, 2). */
  lemma FourPointPositive(sqrt: real -> real, xf: real, xp: real, h: real)
    requires SqrtLaws(sqrt) && h > 0.0
    ensures DeltaFunction(sqrt, xf, xp, h, FourPointIB) >= 0.0
    ensures var rr := Distance(xf, xp, h);
            DeltaFunction(sqrt, xf, xp, h, FourPointIB) > 0.0 <==> rr < 0.5 || 1.0 <= rr < 2.0
  {
    FourPointWeightPositive(sqrt, Distance(xf, xp, h), h);
  }

  /** FourPointPositive for the distance rr itself */
  lemma {:induction false} FourPointWeightPositive(sqrt: real -> real, rr: real, h: real)
    requires SqrtLaws(sqrt) && h > 0.0 && rr >= 0.0
    ensures KernelWeight(sqrt, rr, h, FourPointIB) >= 0.0
    ensures KernelWeight(sqrt, rr, h, FourPointIB) > 0.0 <==> rr < 0.5 || 1.0 <= rr < 2.0
  {
    if rr < 0.5 {
      InnerCasePositive(sqrt, rr, h);
    } else if 1.0 <= rr < 2.0 {
      OuterCasePositive(sqrt, rr, h);
    } else {
      assert BranchOf(rr, FourPointIB) == Outside;
    }
  }

  lemma InnerCasePositive(sqrt: real -> real, rr: real, h: real)
    requires SqrtLaws(sqrt) && h > 0.0 && 0.0 <= rr < 0.5
    ensures KernelWeight(sqrt, rr, h, FourPointIB) > 0.0
  {
    var arg := 1.0 + 4.0 * rr - 4.0 * (rr * rr);
    FourPointRootArguments(rr);
    var s := sqrt(arg);
    assert 0.0 <= s;
    InnerValue(sqrt, rr, h, s);
    InnerWeightPositive(rr, s, h);
  }

  lemma OuterCasePositive(sqrt: real -> real, rr: real, h: real)
    requires SqrtLaws(sqrt) && h > 0.0 && 1.0 <= rr < 2.0
    ensures KernelWeight(sqrt, rr, h, FourPointIB) > 0.0
  {
    var arg := -7.0 + 12.0 * rr - 4.0 * (rr * rr);
    FourPointRootArguments(rr);
    var s := sqrt(arg);
    assert 0.0 <= s && s * s == arg;
    OuterValue(sqrt, rr, h, s);
    OuterWeightPositive(rr, s, h);
  }

  lemma InnerValue(sqrt: real -> real, rr: real, h: real, w: real)
    requires h != 0.0 && 0.0 <= rr < 0.5 && w == sqrt(1.0 + 4.0 * rr - 4.0 * (rr * rr))
    ensures KernelWeight(sqrt, rr, h, FourPointIB) == 1.0 / 8.0 * (3.0 - 2.0 * rr + w) / h
  {
  }

  lemma OuterValue(sqrt: real -> real, rr: real, h: real, w: real)
    requires h != 0.0 && 1.0 <= rr < 2.0 && w == sqrt(-7.0 + 12.0 * rr - 4.0 * (rr * rr))
    ensures KernelWeight(sqrt, rr, h, FourPointIB) == 1.0 / 8.0 * (5.0 - 2.0 * rr - w) / h
  {
  }

  lemma InnerWeightPositive(rr: real, s: real, h: real)
    requires 0.0 <= rr < 0.5 && 0.0 <= s && h > 0.0
    ensures 1.0 / 8.0 * (3.0 - 2.0 * rr + s) / h > 0.0
  {
    QuotientPositive(1.0 / 8.0 * (3.0 - 2.0 * rr + s), h);
  }

  lemma OuterWeightPositive(rr: real, s: real, h: real)
    requires 1.0 <= rr < 2.0 && 0.0 <= s && s * s == -7.0 + 12.0 * rr - 4.0 * (rr * rr) && h > 0.0
    ensures 1.0 / 8.0 * (5.0 - 2.0 * rr - s) / h > 0.0
  {
    OuterRootBelow(rr, s);
    QuotientPositive(1.0 / 8.0 * (5.0 - 2.0 * rr - s), h);
  }

  /** On [1, 2) the root of the outer argument stays below 5 - 2 rr: the square of
      5 - 2 rr exceeds the argument by 8 (2 - rr)^2 > 0. (Each square is written as a product
      of two equal copies so that the solver treats it as a product.) */
  lemma OuterRootBelow(rr: real, s: real)
    requires 1.0 <= rr < 2.0 && 0.0 <= s && s * s == -7.0 + 12.0 * rr - 4.0 * (rr * rr)
    ensures s < 5.0 - 2.0 * rr
  {
    GapSquarePositive(rr);
    var b1 := 5.0 - 2.0 * rr;
    var b2 := 5.0 - 2.0 * rr;
    assert b1 * b2 == 25.0 - 20.0 * rr + 4.0 * (rr * rr);
    if s >= b1 {
      ProductMono(b1, b2, s, s);
    }
  }

  /** (2 - rr)^2 > 0 for rr < 2 */
  lemma GapSquarePositive(rr: real)
    requires rr < 2.0
    ensures 0.0 < 4.0 - 4.0 * rr + rr * rr
  {
    var d1 := 2.0 - rr;
    var d2 := 2.0 - rr;
    ProductPositive(d1, d2);
    assert d1 * d2 == 4.0 - 4.0 * rr + rr * rr;
  }
}
