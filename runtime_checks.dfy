/**
 * The runtime constants against the compile-time predefined dimensions, and the
 * containment examples (test/runtime_utils_test.cpp).
 */
module RuntimeChecks {
  import opened Ratios
  import opened Runtime
  import SD = StaticDimensions
  import StaticChecks

  /** A whole-number compile-time dimension reaches runtime with the same exponents. */
  lemma ToDynamicIntegral(t: SD.DimensionT, l: int, m: int, tm: int)
    requires t == SD.DimensionT(SD.StdRatio(l, 1), SD.StdRatio(tm, 1), SD.StdRatio(m, 1))
    ensures ToDynamic(t) == Dim(Make(l, 1), Make(m, 1), Make(tm, 1), Make(0, 1))
    ensures Equal(ToDynamic(t), Dim(Make(l, 1), Make(m, 1), Make(tm, 1), Make(0, 1)))
  {
  }

  /** NEWTON_DIM is the force dimension brought to runtime. */
  lemma NewtonIsForce()
    ensures ToDynamic(SD.ForceT()) == NewtonDim && Equal(NewtonDim, ToDynamic(SD.ForceT()))
  {
    StaticChecks.ForceExponents();
    ToDynamicIntegral(SD.ForceT(), 1, 1, -2);
  }

  /** JOULE_DIM is the energy dimension brought to runtime. */
  lemma JouleIsEnergy()
    ensures ToDynamic(SD.EnergyT()) == JouleDim && Equal(JouleDim, ToDynamic(SD.EnergyT()))
  {
    StaticChecks.EnergyExponents();
    ToDynamicIntegral(SD.EnergyT(), 2, 1, -2);
  }

  /** WATT_DIM is the power dimension brought to runtime. */
  lemma WattIsPower()
    ensures ToDynamic(SD.PowerT()) == WattDim && Equal(WattDim, ToDynamic(SD.PowerT()))
  {
    StaticChecks.PowerExponents();
    ToDynamicIntegral(SD.PowerT(), 2, 1, -3);
  }

  /** Each constant contains itself; a joule contains a newton but not the other way round. */
  lemma ContainsExamples()
    ensures Contains(JouleDim, JouleDim)
    ensures Contains(NewtonDim, NewtonDim)
    ensures Contains(JouleDim, NewtonDim)
    ensures !Contains(NewtonDim, JouleDim)
  {
  }

  /**
   * A watt contains both a joule and a newton, which is why operator<< tries W before J and N;
   * neither of those contains a watt.
   */
  lemma WattContainsTheOthers()
    ensures Contains(WattDim, JouleDim) && Contains(WattDim, NewtonDim)
    ensures !Contains(JouleDim, WattDim) && !Contains(NewtonDim, WattDim)
  {
  }
}
