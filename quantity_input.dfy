/**
 * The unit check of operator>> for a quantity (include/quantity/io.hpp:38-45): the unit text
 * is parsed, its factor becomes the power of ten the number is scaled by, and with the factor
 * set to 0/1 the unit must equal the quantity's own dimension.
 */
module QuantityInput {
  import opened Wrappers
  import opened Ratios
  import opened Runtime
  import opened IoErrors
  import opened Parser
  import opened ParserChecks
  import RuntimeChecks
  import SD = StaticDimensions

  /**
   * What operator>> does with the parsed unit: hands back the factor the number is scaled by
   * (10 to its power), or throws the parser's exception or "Unit mismatch".
   */
  function CheckParsed(parsed: Result<Dim, IoError>, t: SD.DimensionT): Result<Ratio, IoError>
  {
    match parsed
    case Failure(e) => Failure(e)
    case Success(unit) =>
      if Equal(unit.(factor := Make(0, 1)), ToDynamic(t)) then Success(unit.factor)
      else Failure(UnitMismatch)
  }

  /** The unit half of operator>> on the text after the number. */
  function CheckUnit(unit: string, t: SD.DimensionT): Result<Ratio, IoError>
  {
    CheckParsed(ReadUnit(unit), t)
  }

  /**
   * A parsed unit is accepted exactly when each of its exponents has the value of the
   * quantity's; the power of ten plays no part in the test and is what is handed back. A parse
   * error passes through unchanged, and a unit that parses but differs is a mismatch.
   */
  lemma CheckParsedMeaning(parsed: Result<Dim, IoError>, t: SD.DimensionT)
    requires SD.WellFormedDim(t) && (parsed.Success? ==> ValidDim(parsed.value))
    ensures CheckParsed(parsed, t).Success? <==>
              parsed.Success?
              && Value(parsed.value.length) == SD.RValue(t.length)
              && Value(parsed.value.mass) == SD.RValue(t.mass)
              && Value(parsed.value.time) == SD.RValue(t.time)
    ensures CheckParsed(parsed, t).Success? ==> CheckParsed(parsed, t).value == parsed.value.factor
    ensures parsed.Failure? ==> CheckParsed(parsed, t) == Failure(parsed.error)
    ensures parsed.Success? && CheckParsed(parsed, t).Failure? ==> CheckParsed(parsed, t).error == UnitMismatch
  {
    ToDynamicExact(t);
    if parsed.Success? {
      var p := parsed.value.(factor := Make(0, 1));
      var e := ToDynamic(t);
      EqMeansSameValue(p.length, e.length);
      EqMeansSameValue(p.mass, e.mass);
      EqMeansSameValue(p.time, e.time);
      MakeValue(0, 1);
      EqMeansSameValue(p.factor, e.factor);
    }
  }

  /** Whatever parse_dim returns meets what CheckParsedMeaning asks of it. */
  lemma ParsedIsValid(unit: string)
    ensures ReadUnit(unit).Success? ==> ValidDim(ReadUnit(unit).value)
  {
    ReadUnitIntegral(unit);
  }

  /** "5kg" read into a length throws "Unit mismatch" (test/io_tests.cpp:174). */
  lemma KilogramIsNoLength()
    ensures CheckUnit("kg", SD.LengthT) == Failure(UnitMismatch)
  {
    ReadsKilogram();
    RuntimeChecks.ToDynamicIntegral(SD.LengthT, 1, 0, 0);
  }

  /** "12.0 kgm/s^2" reads as 12 N with nothing to scale (test/io_tests.cpp:130). */
  lemma KilogramMetrePerSquareSecondIsForce()
    ensures CheckUnit("kgm/s^2", SD.ForceT()) == Success(Make(0, 1))
  {
    ReadsNewton();
    RuntimeChecks.NewtonIsForce();
  }

  /** "1.2 kt" is a mass scaled by 10^6 over the kilogram (test/io_tests.cpp:125). */
  lemma KilotonneIsMass()
    ensures CheckUnit("kt", SD.MassT) == Success(Int(6))
  {
    ReadsKilotonne();
    RuntimeChecks.ToDynamicIntegral(SD.MassT, 0, 1, 0);
  }

  /** "1000 mg" is a mass scaled by 10^-6 (test/io_tests.cpp:127). */
  lemma MilligramIsMass()
    ensures CheckUnit("mg", SD.MassT) == Success(Int(-6))
  {
    ReadsMilligram();
    RuntimeChecks.ToDynamicIntegral(SD.MassT, 0, 1, 0);
  }
}
