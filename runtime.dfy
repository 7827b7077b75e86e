/**
 * runtime::Dimension (include/quantity/runtime.hpp, src/runtime_utils.cpp): the
 * exponents of length, mass and time together with a power-of-ten `factor`, all as
 * runtime Ratios. `Dim` is its value; the class `Dimension` is an object whose fields
 * the compound operators update in place.
 */
module Runtime {
  import opened Ratios
  import SD = StaticDimensions

  datatype Dim = Dim(length: Ratio, mass: Ratio, time: Ratio, factor: Ratio)

  /** Every component honours the Ratio invariant (positive denominator). */
  predicate ValidDim(d: Dim)
  {
    Valid(d.length) && Valid(d.mass) && Valid(d.time) && Valid(d.factor)
  }

  /** The default-constructed Dimension: every component is `Ratio()`, that is 0/1. */
  const Dimensionless := Dim(Make(), Make(), Make(), Make())

  /** `a += b` (src/runtime_utils.cpp): component-wise Ratio sums. */
  function Sum(a: Dim, b: Dim): Dim
  {
    Dim(Add(a.length, b.length), Add(a.mass, b.mass), Add(a.time, b.time), Add(a.factor, b.factor))
  }

  /** `a -= b`: component-wise Ratio differences. */
  function Difference(a: Dim, b: Dim): Dim
  {
    Dim(Sub(a.length, b.length), Sub(a.mass, b.mass), Sub(a.time, b.time), Sub(a.factor, b.factor))
  }

  /** `a *= r`: every component, the factor included, multiplied by r. */
  function Scaled(a: Dim, r: Ratio): Dim
  {
    Dim(Mul(a.length, r), Mul(a.mass, r), Mul(a.time, r), Mul(a.factor, r))
  }

  /** `a == b`: Ratio equality on all four components, the factor included. */
  predicate Equal(a: Dim, b: Dim)
  {
    Eq(a.length, b.length) && Eq(a.mass, b.mass) && Eq(a.time, b.time) && Eq(a.factor, b.factor)
  }

  /**
   * `contains(haystack, needle)`: for length, mass and time, the haystack's exponent is at
   * least as large in magnitude and their product is not negative. The factor plays no part.
   */
  predicate Contains(haystack: Dim, needle: Dim)
  {
    Ge(Abs(haystack.length), Abs(needle.length))
    && Ge(Abs(haystack.mass), Abs(needle.mass))
    && Ge(Abs(haystack.time), Abs(needle.time))
    && Ge(Mul(haystack.length, needle.length), Make(0, 1))
    && Ge(Mul(haystack.mass, needle.mass), Make(0, 1))
    && Ge(Mul(haystack.time, needle.time), Make(0, 1))
  }

  /** NEWTON_DIM, JOULE_DIM and WATT_DIM: kg m s^-2, kg m^2 s^-2 and kg m^2 s^-3. */
  const NewtonDim := Dim(Make(1, 1), Make(1, 1), Make(-2, 1), Make(0, 1))
  const JouleDim := Dim(Make(2, 1), Make(1, 1), Make(-2, 1), Make(0, 1))
  const WattDim := Dim(Make(2, 1), Make(1, 1), Make(-3, 1), Make(0, 1))

  /**
   * `to_dynamic` of a compile-time dimension: each std::ratio's template arguments become
   * a runtime Ratio, and the factor is 0/1.
   */
  function ToDynamic(t: SD.DimensionT): Dim
  {
    Dim(Make(t.length.n, t.length.d), Make(t.mass.n, t.mass.d), Make(t.time.n, t.time.d), Make(0, 1))
  }

  class Dimension {
    var length: Ratio
    var mass: Ratio
    var time: Ratio
    var factor: Ratio

    function Value(): Dim
      reads this
    {
      Dim(length, mass, time, factor)
    }

    /** `Dimension() = default`: all four components are 0/1. */
    constructor()
      ensures Value() == Dimensionless
    {
      length, mass, time, factor := Make(), Make(), Make(), Make();
    }

    /** `Dimension(l, m, t, f = Ratio{0, 1})`. */
    constructor Of(l: Ratio, m: Ratio, t: Ratio, f: Ratio := Make(0, 1))
      ensures Value() == Dim(l, m, t, f)
    {
      length, mass, time, factor := l, m, t, f;
    }

    /** `*this += b` */
    method AddAssign(b: Dim)
      modifies this
      ensures Value() == Sum(old(Value()), b)
    {
      length := Add(length, b.length);
      mass := Add(mass, b.mass);
      time := Add(time, b.time);
      factor := Add(factor, b.factor);
    }

    /** `*this -= b` */
    method SubAssign(b: Dim)
      modifies this
      ensures Value() == Difference(old(Value()), b)
    {
      length := Sub(length, b.length);
      mass := Sub(mass, b.mass);
      time := Sub(time, b.time);
      factor := Sub(factor, b.factor);
    }

    /** `*this *= r` */
    method ScaleAssign(r: Ratio)
      modifies this
      ensures Value() == Scaled(old(Value()), r)
    {
      length := Mul(length, r);
      mass := Mul(mass, r);
      time := Mul(time, r);
      factor := Mul(factor, r);
    }
  }

  // ---------------------------------------------------------------------------------
  // The operators act component by component on the exact values.

  /** `+=` adds every exponent and the factor exactly, and keeps denominators positive. */
  lemma SumExact(a: Dim, b: Dim)
    requires ValidDim(a) && ValidDim(b)
    ensures ValidDim(Sum(a, b))
    ensures Value(Sum(a, b).length) == Value(a.length) + Value(b.length)
    ensures Value(Sum(a, b).mass) == Value(a.mass) + Value(b.mass)
    ensures Value(Sum(a, b).time) == Value(a.time) + Value(b.time)
    ensures Value(Sum(a, b).factor) == Value(a.factor) + Value(b.factor)
  {
    AddExact(a.length, b.length);
    AddExact(a.mass, b.mass);
    AddExact(a.time, b.time);
    AddExact(a.factor, b.factor);
  }

  /** `-=` subtracts every exponent and the factor exactly. */
  lemma DifferenceExact(a: Dim, b: Dim)
    requires ValidDim(a) && ValidDim(b)
    ensures ValidDim(Difference(a, b))
    ensures Value(Difference(a, b).length) == Value(a.length) - Value(b.length)
    ensures Value(Difference(a, b).mass) == Value(a.mass) - Value(b.mass)
    ensures Value(Difference(a, b).time) == Value(a.time) - Value(b.time)
    ensures Value(Difference(a, b).factor) == Value(a.factor) - Value(b.factor)
  {
    SubExact(a.length, b.length);
    SubExact(a.mass, b.mass);
    SubExact(a.time, b.time);
    SubExact(a.factor, b.factor);
  }

  /** `*=` multiplies every exponent and the factor by the same ratio. */
  lemma ScaledExact(a: Dim, r: Ratio)
    requires ValidDim(a) && r.den != 0
    ensures ValidDim(Scaled(a, r))
    ensures Value(Scaled(a, r).length) == Value(a.length) * Value(r)
    ensures Value(Scaled(a, r).mass) == Value(a.mass) * Value(r)
    ensures Value(Scaled(a, r).time) == Value(a.time) * Value(r)
    ensures Value(Scaled(a, r).factor) == Value(a.factor) * Value(r)
  {
    MulExact(a.length, r);
    MulExact(a.mass, r);
    MulExact(a.time, r);
    MulExact(a.factor, r);
  }

  /** Subtracting what was added gives back an equal dimension. */
  lemma SumThenDifference(a: Dim, b: Dim)
    requires ValidDim(a) && ValidDim(b)
    ensures Equal(Difference(Sum(a, b), b), a)
  {
    SumExact(a, b);
    DifferenceExact(Sum(a, b), b);
    var d := Difference(Sum(a, b), b);
    EqMeansSameValue(d.length, a.length);
    EqMeansSameValue(d.mass, a.mass);
    EqMeansSameValue(d.time, a.time);
    EqMeansSameValue(d.factor, a.factor);
  }

  /** `==` on dimensions holds exactly when all four components have equal values. */
  lemma EqualMeansSameValues(a: Dim, b: Dim)
    requires ValidDim(a) && ValidDim(b)
    ensures Equal(a, b) <==>
              Value(a.length) == Value(b.length) && Value(a.mass) == Value(b.mass)
              && Value(a.time) == Value(b.time) && Value(a.factor) == Value(b.factor)
  {
    EqMeansSameValue(a.length, b.length);
    EqMeansSameValue(a.mass, b.mass);
    EqMeansSameValue(a.time, b.time);
    EqMeansSameValue(a.factor, b.factor);
  }

  function RealAbs(x: real): real { if x < 0.0 then -x else x }

  /** One exponent of the haystack covers one of the needle: same side of zero, and no smaller. */
  predicate Covers(h: real, n: real)
  {
    RealAbs(h) >= RealAbs(n) && h * n >= 0.0
  }

  lemma ComponentContains(h: Ratio, n: Ratio)
    requires Valid(h) && Valid(n)
    ensures Ge(Abs(h), Abs(n)) && Ge(Mul(h, n), Make(0, 1)) <==> Covers(Value(h), Value(n))
  {
    AbsExact(h);
    AbsExact(n);
    GeMeansAtLeast(Abs(h), Abs(n));
    MulExact(h, n);
    GeMeansAtLeast(Mul(h, n), Make(0, 1));
  }

  /** `contains` decides, exponent by exponent, that the needle fits inside the haystack. */
  lemma ContainsMeaning(h: Dim, n: Dim)
    requires ValidDim(h) && ValidDim(n)
    ensures Contains(h, n) <==>
              Covers(Value(h.length), Value(n.length)) && Covers(Value(h.mass), Value(n.mass))
              && Covers(Value(h.time), Value(n.time))
  {
    ComponentContains(h.length, n.length);
    ComponentContains(h.mass, n.mass);
    ComponentContains(h.time, n.time);
  }

  lemma CoveredRemainder(h: real, n: real)
    requires Covers(h, n)
    ensures RealAbs(h - n) == RealAbs(h) - RealAbs(n)
    ensures (h - n) * h >= 0.0
  {
    if h < 0.0 {
      assert n <= 0.0;
    } else if h > 0.0 {
      assert n >= 0.0;
    }
  }

  /**
   * When the haystack contains the needle, removing the needle shrinks every exponent
   * towards zero by exactly the needle's magnitude, without crossing zero.
   */
  lemma ContainsRemovesWithoutOvershoot(h: Dim, n: Dim)
    requires ValidDim(h) && ValidDim(n) && Contains(h, n)
    ensures RealAbs(Value(Difference(h, n).length)) == RealAbs(Value(h.length)) - RealAbs(Value(n.length))
    ensures RealAbs(Value(Difference(h, n).mass)) == RealAbs(Value(h.mass)) - RealAbs(Value(n.mass))
    ensures RealAbs(Value(Difference(h, n).time)) == RealAbs(Value(h.time)) - RealAbs(Value(n.time))
    ensures Value(Difference(h, n).length) * Value(h.length) >= 0.0
    ensures Value(Difference(h, n).mass) * Value(h.mass) >= 0.0
    ensures Value(Difference(h, n).time) * Value(h.time) >= 0.0
  {
    ContainsMeaning(h, n);
    DifferenceExact(h, n);
    CoveredRemainder(Value(h.length), Value(n.length));
    CoveredRemainder(Value(h.mass), Value(n.mass));
    CoveredRemainder(Value(h.time), Value(n.time));
  }

  /** `to_dynamic` keeps the value of every exponent and sets a zero factor. */
  lemma ToDynamicExact(t: SD.DimensionT)
    requires SD.WellFormedDim(t)
    ensures ValidDim(ToDynamic(t))
    ensures Value(ToDynamic(t).length) == SD.RValue(t.length)
    ensures Value(ToDynamic(t).mass) == SD.RValue(t.mass)
    ensures Value(ToDynamic(t).time) == SD.RValue(t.time)
    ensures Value(ToDynamic(t).factor) == 0.0
  {
    MakeValue(t.length.n, t.length.d);
    MakeValue(t.mass.n, t.mass.d);
    MakeValue(t.time.n, t.time.d);
  }
}
