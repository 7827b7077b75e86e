/**
 * The predefined dimensions of include/quantity/dimension.hpp and the compile-time
 * checks of test/static.cpp, computed with the reduced ratio arithmetic.
 */
module StaticChecks {
  import opened StaticDimensions

  const MinusOne := StdRatio(-1, 1)
  const MinusTwo := StdRatio(-2, 1)
  const Two := StdRatio(2, 1)

  lemma VelocityExponents()
    ensures VelocityT() == DimensionT(One, MinusOne, Zero)
  {
    IntegralAlgebra(LengthT, TimeT);
  }

  lemma AccelerationExponents()
    ensures AccelerationT() == DimensionT(One, MinusTwo, Zero)
  {
    VelocityExponents();
    IntegralAlgebra(DimensionT(One, MinusOne, Zero), TimeT);
  }

  lemma ForceExponents()
    ensures ForceT() == DimensionT(One, MinusTwo, One)
  {
    AccelerationExponents();
    IntegralAlgebra(DimensionT(One, MinusTwo, Zero), MassT);
  }

  lemma ImpulseExponents()
    ensures ImpulseT() == DimensionT(One, MinusOne, One)
  {
    VelocityExponents();
    IntegralAlgebra(DimensionT(One, MinusOne, Zero), MassT);
  }

  lemma AreaExponents()
    ensures AreaT() == DimensionT(Two, Zero, Zero)
  {
    IntegralAlgebra(LengthT, LengthT);
  }

  lemma EnergyExponents()
    ensures EnergyT() == DimensionT(Two, MinusTwo, One)
  {
    ForceExponents();
    IntegralAlgebra(DimensionT(One, MinusTwo, One), LengthT);
  }

  lemma PowerExponents()
    ensures PowerT() == DimensionT(Two, StdRatio(-3, 1), One)
  {
    EnergyExponents();
    IntegralAlgebra(DimensionT(Two, MinusTwo, One), TimeT);
  }

  const DimA := DimensionT(Two, StdRatio(-1, 2), StdRatio(2, 3))
  const DimB := DimensionT(One, Two, StdRatio(1, 2))

  lemma FillCheck()
    ensures FillT(1, 1) == DimensionT(One, One, One)
  {
  }

  lemma ProductCheck()
    ensures MulT(DimA, DimB) == DimensionT(StdRatio(3, 1), StdRatio(3, 2), StdRatio(7, 6))
  {
    Reduced(1, 1, 0, 1);
    Reduced(2, 1, 0, 1);
    Reduced(3, 1, 0, 1);
    Reduced(-1, 2, 1, 1);
    Reduced(1, 2, 1, 0);
    Reduced(3, 2, 1, -1);
    Reduced(2, 3, -1, 1);
    Reduced(7, 6, 1, -1);
  }

  lemma QuotientCheck()
    ensures DivT(DimA, DimB) == DimensionT(One, StdRatio(-5, 2), StdRatio(1, 6))
  {
    Reduced(1, 1, 0, 1);
    Reduced(2, 1, 0, 1);
    Reduced(-1, 2, 1, 1);
    Reduced(1, 2, 1, 0);
    Reduced(-5, 2, 1, 3);
    Reduced(2, 3, -1, 1);
    Reduced(1, 6, 1, 0);
  }

  lemma PowerCheck()
    ensures PowT(DimA, 2, 3) == DimensionT(StdRatio(4, 3), StdRatio(-1, 3), StdRatio(4, 9))
  {
    Reduced(2, 1, 0, 1);
    Reduced(-1, 2, 1, 1);
    Reduced(2, 3, -1, 1);
    Reduced(4, 3, 1, -1);
    Reduced(-1, 3, -1, 0);
    Reduced(4, 9, -2, 1);
    CanonUnique(-2, 6, -1, 3);
  }

  lemma InverseCheck()
    ensures InverseDimT(DimA) == DimensionT(MinusTwo, StdRatio(1, 2), StdRatio(-2, 3))
  {
    Reduced(0, 1, 0, 1);
    Reduced(2, 1, 0, 1);
    Reduced(-2, 1, 0, 1);
    Reduced(-1, 2, 1, 1);
    Reduced(1, 2, 1, 0);
    Reduced(2, 3, -1, 1);
    Reduced(-2, 3, 1, 1);
  }

  lemma RateCheck()
    ensures RateDimT(DimA) == DimensionT(Two, StdRatio(-3, 2), StdRatio(2, 3))
  {
    Reduced(0, 1, 0, 1);
    Reduced(1, 1, 0, 1);
    Reduced(2, 1, 0, 1);
    Reduced(-1, 2, 1, 1);
    Reduced(-3, 2, 1, 2);
    Reduced(2, 3, -1, 1);
  }

  lemma EqualityChecks()
    ensures DimensionsEqual(DimA, DimA)
    ensures !DimensionsEqual(DimA, DimB)
  {
    Reduced(2, 1, 0, 1);
    Reduced(1, 1, 0, 1);
  }

  lemma PowerEqualityCheck()
    ensures DimensionsEqual(PowerT(), DimensionT(Two, StdRatio(-3, 1), One))
  {
    PowerExponents();
    EqualToItself(PowerT(), DimensionT(Two, StdRatio(-3, 1), One));
  }

  lemma EqualToItself(a: DimensionT, b: DimensionT)
    requires a == b && WellFormedDim(a)
    ensures DimensionsEqual(a, b)
  {
  }
}
