/**
 * The compile-time dimension algebra of include/quantity/dimension.hpp, as values.
 * A `std::ratio<N, D>` is written `StdRatio(N, D)` (its template arguments); its static
 * members `num` and `den` are the reduced form with a positive denominator, and the
 * `std::ratio_add`, `std::ratio_subtract` and `std::ratio_multiply` results are reduced
 * ratios. `Dimension_t<Length, Time, Mass>` keeps the template order length, time, mass.
 */
module StaticDimensions {
  import opened Fractions

  datatype StdRatio = StdRatio(n: int, d: int)

  /** std::ratio refuses a zero denominator at compile time. */
  predicate WellFormed(r: StdRatio) { r.d != 0 }

  function AbsInt(x: int): nat { if x < 0 then -x else x }

  function Gcd(a: nat, b: nat): nat
    decreases b
  {
    if b == 0 then a else Gcd(b, a % b)
  }

  /**
   * The reduced ratio of `n/d`: num is sign(n) * sign(d) * |n| / gcd and den is |d| / gcd,
   * so the denominator is positive and the sign is carried by the numerator.
   */
  function Canon(n: int, d: int): (r: StdRatio)
    requires d != 0
    ensures r.d > 0
  {
    var g := Gcd(AbsInt(n), AbsInt(d));
    GcdPositive(AbsInt(n), AbsInt(d));
    GcdDivides(AbsInt(n), AbsInt(d));
    var q := AbsInt(n) / g;
    QuotientPositive(AbsInt(d), g);
    StdRatio(if (n < 0) != (d < 0) then -q else q, AbsInt(d) / g)
  }

  /** `std::ratio<N, D>::num` */
  function Num(r: StdRatio): int
    requires WellFormed(r)
  {
    Canon(r.n, r.d).n
  }

  /** `std::ratio<N, D>::den` */
  function Den(r: StdRatio): int
    requires WellFormed(r)
  {
    Canon(r.n, r.d).d
  }

  function RValue(r: StdRatio): real
    requires WellFormed(r)
  {
    r.n as real / r.d as real
  }

  function RatioAdd(a: StdRatio, b: StdRatio): StdRatio
    requires WellFormed(a) && WellFormed(b)
  {
    Canon(Num(a) * Den(b) + Num(b) * Den(a), Den(a) * Den(b))
  }

  function RatioSubtract(a: StdRatio, b: StdRatio): StdRatio
    requires WellFormed(a) && WellFormed(b)
  {
    Canon(Num(a) * Den(b) - Num(b) * Den(a), Den(a) * Den(b))
  }

  function RatioMultiply(a: StdRatio, b: StdRatio): StdRatio
    requires WellFormed(a) && WellFormed(b)
  {
    Canon(Num(a) * Num(b), Den(a) * Den(b))
  }

  /** `std::ratio_equal`: same reduced numerator and denominator. */
  predicate RatioEqual(a: StdRatio, b: StdRatio)
    requires WellFormed(a) && WellFormed(b)
  {
    Num(a) == Num(b) && Den(a) == Den(b)
  }

  // ---------------------------------------------------------------------------------
  // Dimensions

  /** `Dimension_t<LengthDim, TimeDim, MassDim>`, exposing `length`, `time` and `mass`. */
  datatype DimensionT = DimensionT(length: StdRatio, time: StdRatio, mass: StdRatio)

  predicate WellFormedDim(t: DimensionT)
  {
    WellFormed(t.length) && WellFormed(t.time) && WellFormed(t.mass)
  }

  /** `ops::mul_t<A, B>`: component-wise ratio_add. */
  function MulT(a: DimensionT, b: DimensionT): DimensionT
    requires WellFormedDim(a) && WellFormedDim(b)
  {
    DimensionT(RatioAdd(a.length, b.length), RatioAdd(a.time, b.time), RatioAdd(a.mass, b.mass))
  }

  /** `ops::div_t<A, B>`: component-wise ratio_subtract. */
  function DivT(a: DimensionT, b: DimensionT): DimensionT
    requires WellFormedDim(a) && WellFormedDim(b)
  {
    DimensionT(RatioSubtract(a.length, b.length), RatioSubtract(a.time, b.time),
               RatioSubtract(a.mass, b.mass))
  }

  /** `ops::fill_t<P, Q>`: every component is `std::ratio<P, Q>`. */
  function FillT(p: int, q: int): DimensionT
  {
    DimensionT(StdRatio(p, q), StdRatio(p, q), StdRatio(p, q))
  }

  /** `ops::pow_t<A, P, Q>`: component-wise ratio_multiply with `fill_t<P, Q>`. */
  function PowT(a: DimensionT, p: int, q: int): DimensionT
    requires WellFormedDim(a) && q != 0
  {
    var f := FillT(p, q);
    DimensionT(RatioMultiply(a.length, f.length), RatioMultiply(a.time, f.time),
               RatioMultiply(a.mass, f.mass))
  }

  /** `ops::dimensions_equal<T, U>()`: ratio_equal on length, time and mass. */
  predicate DimensionsEqual(a: DimensionT, b: DimensionT)
    requires WellFormedDim(a) && WellFormedDim(b)
  {
    RatioEqual(a.length, b.length) && RatioEqual(a.time, b.time) && RatioEqual(a.mass, b.mass)
  }

  const Zero := StdRatio(0, 1)
  const One := StdRatio(1, 1)

  const DimlessT := DimensionT(Zero, Zero, Zero)
  const LengthT := DimensionT(One, Zero, Zero)
  const TimeT := DimensionT(Zero, One, Zero)
  const MassT := DimensionT(Zero, Zero, One)

  /** `ops::rate_dim_t<T>`: divided by time. */
  function RateDimT(t: DimensionT): DimensionT
    requires WellFormedDim(t)
  {
    DivT(t, TimeT)
  }

  /** `ops::inverse_dim_t<T>`: dimensionless divided by T. */
  function InverseDimT(t: DimensionT): DimensionT
    requires WellFormedDim(t)
  {
    DivT(DimlessT, t)
  }

  function VelocityT(): DimensionT { RateDimT(LengthT) }
  function ImpulseT(): DimensionT { MulT(VelocityT(), MassT) }
  function AccelerationT(): DimensionT { RateDimT(VelocityT()) }
  function ForceT(): DimensionT { MulT(AccelerationT(), MassT) }
  function AreaT(): DimensionT { MulT(LengthT, LengthT) }
  function EnergyT(): DimensionT { MulT(ForceT(), LengthT) }
  function PowerT(): DimensionT { RateDimT(EnergyT()) }

  // ---------------------------------------------------------------------------------
  // Number theory behind the reduced form.

  lemma GcdPositive(a: nat, b: nat)
    requires b != 0
    ensures Gcd(a, b) > 0
    decreases b
  {
    if a % b != 0 { GcdPositive(b, a % b); }
  }

  /** Euclid's algorithm yields a common divisor. */
  lemma {:induction false} GcdDivides(a: nat, b: nat)
    ensures Gcd(a, b) == 0 || (a % Gcd(a, b) == 0 && b % Gcd(a, b) == 0)
    decreases b
  {
    if b != 0 {
      var r := a % b;
      GcdDivides(b, r);
      var g := Gcd(b, r);
      if g != 0 {
        var q := a / b;
        assert a == q * b + r;
        var u, v := b / g, r / g;
        ExactQuotient(b, g);
        ExactQuotient(r, g);
        assert a == (q * u + v) * g;
        MultipleMod(q * u + v, g);
      }
    }
  }

  lemma ExactQuotient(a: int, g: int)
    requires g > 0 && a % g == 0
    ensures a == (a / g) * g
  {
  }

  /** A multiple of g lies in [0, g) only when it is zero times g. */
  lemma SmallMultiple(m: int, g: int)
    requires g > 0 && 0 <= m * g < g
    ensures m == 0
  {
    if m >= 1 {
      assert m * g == (m - 1) * g + g;
      ProductNonNegative(m - 1, g);
    } else if m <= -1 {
      assert m * g == -((-m - 1) * g) - g;
      ProductNonNegative(-m - 1, g);
    }
  }

  lemma ProductNonNegative(x: int, y: int)
    requires x >= 0 && y >= 0
    ensures x * y >= 0
  {
  }

  lemma MultipleMod(k: int, g: int)
    requires g > 0
    ensures (k * g) % g == 0 && (k * g) / g == k
  {
    var q, r := (k * g) / g, (k * g) % g;
    assert k * g == q * g + r;
    assert (k - q) * g == r;
    SmallMultiple(k - q, g);
  }

  /** A positive multiple of a positive g has a positive quotient. */
  lemma QuotientPositive(b: int, g: int)
    requires b > 0 && g > 0 && b % g == 0
    ensures b / g > 0
  {
    ExactQuotient(b, g);
  }

  /** Cancelling a positive factor. */
  lemma Cancel(x: int, y: int, g: int)
    requires g > 0 && x * g == y * g
    ensures x == y
  {
    assert (x - y) * g == 0;
  }

  /** Bezout coefficients: some combination of a and b is their gcd. */
  lemma {:induction false} Bezout(a: nat, b: nat) returns (x: int, y: int)
    ensures a * x + b * y == Gcd(a, b)
    decreases b
  {
    if b == 0 {
      x, y := 1, 0;
    } else {
      var r := a % b;
      var q := a / b;
      var x', y' := Bezout(b, r);
      assert b * x' + r * y' == Gcd(a, b);
      assert r == a - q * b;
      x, y := y', x' - q * y';
      calc {
        a * x + b * y;
        a * y' + b * (x' - q * y');
        a * y' + b * x' - b * q * y';
        b * x' + (a - q * b) * y';
        b * x' + r * y';
      }
    }
  }

  /** Dividing two naturals by their gcd leaves coprime quotients. */
  lemma ReduceNat(a: nat, b: nat) returns (x: int, y: int)
    requires b > 0
    ensures Gcd(a, b) > 0
    ensures a == (a / Gcd(a, b)) * Gcd(a, b) && b == (b / Gcd(a, b)) * Gcd(a, b)
    ensures (a / Gcd(a, b)) * x + (b / Gcd(a, b)) * y == 1
  {
    GcdPositive(a, b);
    GcdDivides(a, b);
    var g := Gcd(a, b);
    var ka, kb := a / g, b / g;
    ExactQuotient(a, g);
    ExactQuotient(b, g);
    x, y := Bezout(a, b);
    assert (ka * x + kb * y) * g == 1 * g;
    Cancel(ka * x + kb * y, 1, g);
  }

  /**
   * The reduced form has the same value as n/d, and coprime parts
   * (witnessed by Bezout coefficients x, y with num * x + den * y == 1).
   */
  lemma CanonFacts(n: int, d: int) returns (x: int, y: int)
    requires d != 0
    ensures Canon(n, d).n * d == n * Canon(n, d).d
    ensures Canon(n, d).n * x + Canon(n, d).d * y == 1
  {
    var a, b := AbsInt(n), AbsInt(d);
    var X, Y := ReduceNat(a, b);
    var g := Gcd(a, b);
    var ka, kb := a / g, b / g;
    var cn := if (n < 0) != (d < 0) then -ka else ka;
    assert Canon(n, d) == StdRatio(cn, kb);
    ScaledCross(ka, kb, g, a, b);
    SignedCross(n, d, ka, kb, cn);
    x, y := if (n < 0) != (d < 0) then -X else X, Y;
    assert cn * x == ka * X;
  }

  lemma ScaledCross(ka: int, kb: int, g: int, a: int, b: int)
    requires a == ka * g && b == kb * g
    ensures ka * b == a * kb
  {
  }

  lemma SignedCross(n: int, d: int, ka: int, kb: int, cn: int)
    requires ka * AbsInt(d) == AbsInt(n) * kb
    requires cn == if (n < 0) != (d < 0) then -ka else ka
    ensures cn * d == n * kb
  {
  }

  lemma DividesBelow(b: int, e: int, k: int)
    requires b > 0 && e > 0 && e == b * k
    ensures b <= e
  {
  }

  /** Two fractions with the same value have the same reduced form. */
  lemma CanonUnique(n1: int, d1: int, n2: int, d2: int)
    requires d1 != 0 && d2 != 0
    requires n1 * d2 == n2 * d1
    ensures Canon(n1, d1) == Canon(n2, d2)
  {
    var x1, y1 := CanonFacts(n1, d1);
    var x2, y2 := CanonFacts(n2, d2);
    var a, b := Canon(n1, d1).n, Canon(n1, d1).d;
    var c, e := Canon(n2, d2).n, Canon(n2, d2).d;
    SameValueCross(a, b, n1, d1, c, e, n2, d2);
    CoprimeDivides(a, b, c, e, x1, y1);
    CoprimeDivides(c, e, a, b, x2, y2);
    DividesBelow(b, e, c * x1 + e * y1);
    DividesBelow(e, b, a * x2 + b * y2);
    assert b == e;
    Cancel(a, c, b);
  }

  lemma SameValueCross(a: int, b: int, n1: int, d1: int, c: int, e: int, n2: int, d2: int)
    requires b != 0 && d1 != 0 && e != 0 && d2 != 0
    requires a * d1 == n1 * b && c * d2 == n2 * e && n1 * d2 == n2 * d1
    ensures a * e == c * b
  {
    CrossEqual(a, b, n1, d1);
    CrossEqual(c, e, n2, d2);
    CrossEqual(n1, d1, n2, d2);
    CrossEqual(a, b, c, e);
  }

  /** If a/b == c/e and a, b are coprime, then b divides e. */
  lemma CoprimeDivides(a: int, b: int, c: int, e: int, x: int, y: int)
    requires a * x + b * y == 1 && a * e == c * b
    ensures e == b * (c * x + e * y)
  {
    calc {
      e;
      e * (a * x + b * y);
      (a * e) * x + b * e * y;
      (c * b) * x + b * e * y;
      b * (c * x + e * y);
    }
  }

  /** The reduced form denotes the same value. */
  lemma CanonValue(n: int, d: int)
    requires d != 0
    ensures WellFormed(Canon(n, d)) && RValue(Canon(n, d)) == n as real / d as real
  {
    var _, _ := CanonFacts(n, d);
    CrossEqual(Canon(n, d).n, Canon(n, d).d, n, d);
  }

  lemma NumDenValue(r: StdRatio)
    requires WellFormed(r)
    ensures Den(r) > 0 && Num(r) as real / Den(r) as real == RValue(r)
  {
    CanonValue(r.n, r.d);
  }

  // ---------------------------------------------------------------------------------
  // The ratio operations are exact.

  /** `ratio_add` yields the exact sum, in lowest terms. */
  lemma RatioAddExact(a: StdRatio, b: StdRatio)
    requires WellFormed(a) && WellFormed(b)
    ensures RValue(RatioAdd(a, b)) == RValue(a) + RValue(b)
  {
    NumDenValue(a);
    NumDenValue(b);
    CanonSum(Num(a), Den(a), Num(b), Den(b));
  }

  lemma CanonSum(an: int, ad: int, bn: int, bd: int)
    requires ad > 0 && bd > 0
    ensures RValue(Canon(an * bd + bn * ad, ad * bd))
            == an as real / ad as real + bn as real / bd as real
  {
    CanonValue(an * bd + bn * ad, ad * bd);
    FractionSum(an, ad, bn, bd);
    assert ad * bn + bd * an == an * bd + bn * ad;
  }

  /** `ratio_subtract` yields the exact difference. */
  lemma RatioSubtractExact(a: StdRatio, b: StdRatio)
    requires WellFormed(a) && WellFormed(b)
    ensures RValue(RatioSubtract(a, b)) == RValue(a) - RValue(b)
  {
    NumDenValue(a);
    NumDenValue(b);
    CanonSum(Num(a), Den(a), -Num(b), Den(b));
    assert Num(a) * Den(b) + -Num(b) * Den(a) == Num(a) * Den(b) - Num(b) * Den(a);
    NegFraction(Num(b), Den(b));
  }

  /** `ratio_multiply` yields the exact product. */
  lemma RatioMultiplyExact(a: StdRatio, b: StdRatio)
    requires WellFormed(a) && WellFormed(b)
    ensures WellFormed(RatioMultiply(a, b))
    ensures RValue(RatioMultiply(a, b)) == RValue(a) * RValue(b)
  {
    NumDenValue(a);
    NumDenValue(b);
    CanonValue(Num(a) * Num(b), Den(a) * Den(b));
    FractionProduct(Num(a), Den(a), Num(b), Den(b));
  }

  /** `ratio_equal` compares values, whatever template arguments spell them. */
  lemma RatioEqualByValue(a: StdRatio, b: StdRatio)
    requires WellFormed(a) && WellFormed(b)
    ensures RatioEqual(a, b) <==> RValue(a) == RValue(b)
  {
    CanonValue(a.n, a.d);
    CanonValue(b.n, b.d);
    CrossEqual(a.n, a.d, b.n, b.d);
    if RValue(a) == RValue(b) {
      CanonUnique(a.n, a.d, b.n, b.d);
    }
  }

  /** Results of the ratio operations are already reduced: their template arguments are num and den. */
  lemma CanonIsReduced(n: int, d: int)
    requires d != 0
    ensures Canon(Canon(n, d).n, Canon(n, d).d) == Canon(n, d)
  {
    var c := Canon(n, d);
    var g := Gcd(AbsInt(c.n), AbsInt(c.d));
    var x, y := CanonFacts(n, d);
    GcdDivides(AbsInt(c.n), AbsInt(c.d));
    GcdPositive(AbsInt(c.n), AbsInt(c.d));
    GcdDividesCombination(c.n, c.d, x, y, g);
  }

  lemma GcdDividesCombination(p: int, q: int, x: int, y: int, g: nat)
    requires g > 0 && AbsInt(p) % g == 0 && AbsInt(q) % g == 0
    requires p * x + q * y == 1
    ensures g == 1
  {
    var u, v := AbsInt(p) / g, AbsInt(q) / g;
    var su := if p < 0 then -u else u;
    var sv := if q < 0 then -v else v;
    assert p == su * g && q == sv * g;
    assert (su * x + sv * y) * g == 1;
    DividesBelow(g, 1, su * x + sv * y);
  }

  // ---------------------------------------------------------------------------------
  // The dimension operations, component by component.

  /** `mul_t` adds the exponents. */
  lemma MulTAdds(a: DimensionT, b: DimensionT)
    requires WellFormedDim(a) && WellFormedDim(b)
    ensures WellFormedDim(MulT(a, b))
    ensures RValue(MulT(a, b).length) == RValue(a.length) + RValue(b.length)
    ensures RValue(MulT(a, b).time) == RValue(a.time) + RValue(b.time)
    ensures RValue(MulT(a, b).mass) == RValue(a.mass) + RValue(b.mass)
  {
    RatioAddExact(a.length, b.length);
    RatioAddExact(a.time, b.time);
    RatioAddExact(a.mass, b.mass);
  }

  /** `div_t` subtracts the exponents. */
  lemma DivTSubtracts(a: DimensionT, b: DimensionT)
    requires WellFormedDim(a) && WellFormedDim(b)
    ensures WellFormedDim(DivT(a, b))
    ensures RValue(DivT(a, b).length) == RValue(a.length) - RValue(b.length)
    ensures RValue(DivT(a, b).time) == RValue(a.time) - RValue(b.time)
    ensures RValue(DivT(a, b).mass) == RValue(a.mass) - RValue(b.mass)
  {
    RatioSubtractExact(a.length, b.length);
    RatioSubtractExact(a.time, b.time);
    RatioSubtractExact(a.mass, b.mass);
  }

  /** Exponent `i` of a dimension: 0 is length, 1 is time, 2 is mass. */
  function Component(t: DimensionT, i: nat): StdRatio
    requires i < 3
  {
    if i == 0 then t.length else if i == 1 then t.time else t.mass
  }

  /** `pow_t<A, P, Q>` multiplies every exponent by P/Q. */
  lemma PowTScales(a: DimensionT, p: int, q: int, i: nat)
    requires WellFormedDim(a) && q != 0 && i < 3
    ensures WellFormed(Component(PowT(a, p, q), i))
    ensures RValue(Component(PowT(a, p, q), i)) == RValue(Component(a, i)) * (p as real / q as real)
  {
    var r := StdRatio(p, q);
    assert Component(PowT(a, p, q), i) == RatioMultiply(Component(a, i), r);
    RatioMultiplyExact(Component(a, i), r);
  }

  /** `inverse_dim_t` negates every exponent. */
  lemma InverseDimNegates(a: DimensionT)
    requires WellFormedDim(a)
    ensures WellFormedDim(InverseDimT(a))
    ensures RValue(InverseDimT(a).length) == -RValue(a.length)
    ensures RValue(InverseDimT(a).time) == -RValue(a.time)
    ensures RValue(InverseDimT(a).mass) == -RValue(a.mass)
  {
    DivTSubtracts(DimlessT, a);
  }

  /** `rate_dim_t` lowers the time exponent by one and keeps the others. */
  lemma RateDimLowersTime(a: DimensionT)
    requires WellFormedDim(a)
    ensures WellFormedDim(RateDimT(a))
    ensures RValue(RateDimT(a).length) == RValue(a.length)
    ensures RValue(RateDimT(a).time) == RValue(a.time) - 1.0
    ensures RValue(RateDimT(a).mass) == RValue(a.mass)
  {
    DivTSubtracts(a, TimeT);
  }

  /** `dimensions_equal` holds exactly when the three exponents have equal values. */
  lemma DimensionsEqualByValue(a: DimensionT, b: DimensionT)
    requires WellFormedDim(a) && WellFormedDim(b)
    ensures DimensionsEqual(a, b) <==>
              RValue(a.length) == RValue(b.length) && RValue(a.time) == RValue(b.time)
              && RValue(a.mass) == RValue(b.mass)
  {
    RatioEqualByValue(a.length, b.length);
    RatioEqualByValue(a.time, b.time);
    RatioEqualByValue(a.mass, b.mass);
  }

  // ---------------------------------------------------------------------------------
  // Whole-number exponents.

  /** A fraction whose parts are coprime is its own reduced form. */
  lemma Reduced(n: int, d: int, x: int, y: int)
    requires d > 0 && n * x + d * y == 1
    ensures Canon(n, d) == StdRatio(n, d)
  {
    var g := Gcd(AbsInt(n), AbsInt(d));
    GcdDivides(AbsInt(n), AbsInt(d));
    GcdPositive(AbsInt(n), AbsInt(d));
    GcdDividesCombination(n, d, x, y, g);
  }

  predicate Integral(t: DimensionT)
  {
    t.length.d == 1 && t.time.d == 1 && t.mass.d == 1
  }

  /** On whole numbers ratio_add and ratio_subtract add and subtract the template arguments. */
  lemma IntegerRatioOps(p: int, q: int)
    ensures RatioAdd(StdRatio(p, 1), StdRatio(q, 1)) == StdRatio(p + q, 1)
    ensures RatioSubtract(StdRatio(p, 1), StdRatio(q, 1)) == StdRatio(p - q, 1)
  {
    Reduced(p, 1, 0, 1);
    Reduced(q, 1, 0, 1);
    Reduced(p + q, 1, 0, 1);
    Reduced(p - q, 1, 0, 1);
  }

  /** On whole-number exponents mul_t and div_t add and subtract the template arguments. */
  lemma IntegralAlgebra(a: DimensionT, b: DimensionT)
    requires Integral(a) && Integral(b)
    ensures MulT(a, b) == DimensionT(StdRatio(a.length.n + b.length.n, 1),
              StdRatio(a.time.n + b.time.n, 1), StdRatio(a.mass.n + b.mass.n, 1))
    ensures DivT(a, b) == DimensionT(StdRatio(a.length.n - b.length.n, 1),
              StdRatio(a.time.n - b.time.n, 1), StdRatio(a.mass.n - b.mass.n, 1))
  {
    IntegerRatioOps(a.length.n, b.length.n);
    IntegerRatioOps(a.time.n, b.time.n);
    IntegerRatioOps(a.mass.n, b.mass.n);
  }

}
