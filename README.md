# Runtime dimensions of the `quantity` library, in Dafny

This project models the runtime dimension engine of the C++ physical-quantity library
`quantity` and proves properties of it. The engine has five parts.

- **`runtime::Ratio`** (`ratio.dfy`, module `Ratios`). An exact rational over unbounded
  integers. The constructor moves the sign of the denominator into the numerator. Arithmetic
  never reduces to lowest terms. `==`, `!=` and `>=` work by cross-multiplication. Every
  operator is proved exact against the real value `num / den`.
- **`runtime::Dimension`** (`runtime.dfy`, `runtime_checks.dfy`). It holds the exponents of
  length, mass and time and a power-of-ten `factor`, all as Ratios. `Dim` is its value. The
  class `Dimension` is the object whose fields `+=`, `-=` and `*=` update in place. The model
  also covers four-field equality, the `contains` dominance test, the newton, joule and watt
  constants, and the `to_dynamic` bridge from compile-time dimensions.
- **The unit parser** (`scanner.dfy`, `parser.dfy`, `unit_text.dfy`, `parser_checks.dfy`).
  - `Scanner.MatchFactor` is the anchored token grammar `[pnumcdhkMGT]?[gmstJWN](^-?d+(/d+)?)?`.
  - `parse_single_factor` is a method walking the seven submatches with its BEGIN/EXP/DEN
    state.
  - `parse_dim` is a method looping over the text with its division-mode flag.
  - Both methods are proved equal to declarative functions (`ReadFactor`, `ReadUnit`).
  - Those functions are proved to read every well-formed unit text as the sum of its tokens.
- **The unit printer and the rescaler** (`printer.dfy`, `printer_facts.dfy`,
  `printer_checks.dfy`, `roundtrip.dfy`, `rescale.dfy`).
  - `si_prefix` is a function. `print_single_dimension`, `print` and `operator<<` are
    methods writing to a `Stream`. `split_ratio` and `split_dim` are methods that write
    nothing and fill in the numerator and denominator exponents.
  - Each method is proved equal to a function. The function says what the method writes or
    computes, and what it leaves of the threaded `factor`.
  - The tonne step subtracts a flat 6 from the factor, as the source does (see Findings).
  - Every golden output of the library's tests is proved.
  - The round trip is proved: print, then parse, recovers the exponents. It holds for every
    whole-number dimension with factor 0 whose mass exponent is in [-4, 5].
  - `dynamic_rescale` is a method with its two loops. It is proved to move the factor by 3 per
    step. For a non-zero value it leaves the magnitude at least 1. It also leaves it at most
    1000, unless the dimension is time alone: time is never scaled up, so 1025 s stays 1025.
- **The compile-time algebra** (`static_dimensions.dfy`, `static_checks.dfy`).
  - `Dimension_t`, `mul_t`, `div_t`, `pow_t`, `fill_t`, `rate_dim_t`, `inverse_dim_t` and
    `dimensions_equal` are pure functions on (length, time, mass) triples of `std::ratio`s.
  - A `std::ratio` is kept in the reduced form the standard library gives it.
  - These functions are checked against `test/static.cpp` and the predefined dimensions.
- **The unit check of `operator>>`** for a quantity (`quantity_input.dfy`). It is a function
  on the parsed dimension.

Exceptions are `Result` values carrying an `IoError` (`io_errors.dfy`), and integers are
Dafny's unbounded `int`. Decimal text, as `operator<<` on integers writes it and `std::stoi`
reads it, is in `decimal.dfy`.

## Model

| member | source | states |
|---|---|---|
| Ratios.Make | src/runtime_ratio.cpp:6-12 | the constructor leaves the denominator at the absolute value of `d`: non-negative, and 0 kept as 0 |
| Ratios.MakeValue | src/runtime_ratio.cpp:6-12 | for `d != 0` the constructed ratio has a positive denominator and the value `n / d`: flipping both signs changes nothing |
| Ratios.AddExact | src/runtime_ratio.cpp:14-18 | `a + b` has denominator `a.den * b.den` (never reduced) and is exactly the sum of the values |
| Ratios.NegExact | src/runtime_ratio.cpp:48-50 | unary minus keeps a positive denominator and negates the value |
| Ratios.Neg | src/runtime_ratio.cpp:48-50 | on a non-negative denominator, unary minus negates the numerator and keeps the denominator |
| Ratios.SubExact | src/runtime_ratio.cpp:24-26 | `a - b`, written as `a + (-b)`, is exactly the difference of the values |
| Ratios.MulExact | src/runtime_ratio.cpp:32-34 | `a * b` has denominator `abs(a.den * b.den)` and is exactly the product |
| Ratios.DivExact | src/runtime_ratio.cpp:40-42 | for `b != 0`, `a / b` has denominator `abs(a.den * b.num)` and is exactly the quotient |
| Ratios.Abs | src/runtime_ratio.cpp:65-67 | `abs` has a non-negative numerator and denominator |
| Ratios.AbsExact | src/runtime_ratio.cpp:65-67 | the value of `abs(a)` is the absolute value of `a` |
| Ratios.EqMeansSameValue | src/runtime_ratio.cpp:52-54 | `==` by cross-multiplication holds exactly when the two values are equal, so unreduced and reduced forms compare equal |
| Ratios.NeMeansDifferentValue | src/runtime_ratio.cpp:56-59 | `!=` holds exactly when the values differ |
| Ratios.EqIsEquivalence | src/runtime_ratio.cpp:52-54 | on non-zero denominators `==` is reflexive, symmetric and transitive |
| Ratios.GeMeansAtLeast | src/runtime_ratio.cpp:61-63 | with positive denominators, `>=` by cross-multiplication agrees with numeric order |
| Ratios.TextOfInteger | src/runtime_ratio.cpp:69-74 | a ratio with denominator 1 prints as its numerator alone, and that text reads back as the numerator |
| Ratios.TextOfFraction | src/runtime_ratio.cpp:69-74 | any other positive denominator prints as numerator, '/', denominator, each part reading back as its number |
| Ratios.OperatorExamples | test/runtime_ratio_tests.cpp:18-84 | every identity of the operator tests, including `-12/-4 >= 6` being false and the default `Ratio()` being 0/1 |
| Decimal.IntText | src/runtime_ratio.cpp:69-74 | an integer's decimal text is non-empty, starts with '-' exactly for negatives, and is digits otherwise |
| Decimal.StoiReadsIntText | src/io.cpp:104-105 | `std::stoi` reads the decimal text of every integer back as that integer |
| Runtime.Dimension.constructor | include/quantity/runtime.hpp:42-50 | a default Dimension has all four fields 0/1 |
| Runtime.Dimension.Of | src/runtime_utils.cpp:13-19 | the four-argument constructor stores the given fields, with the factor defaulting to 0/1 |
| Runtime.Dimension.AddAssign | src/runtime_utils.cpp:21-28 | `+=` replaces each of the four fields by the Ratio sum with the other's, and changes nothing else |
| Runtime.Dimension.SubAssign | src/runtime_utils.cpp:30-37 | `-=` replaces each of the four fields by the Ratio difference |
| Runtime.Dimension.ScaleAssign | src/runtime_utils.cpp:39-46 | `*= r` multiplies all four fields, the factor included, by `r` |
| Runtime.SumExact | src/runtime_utils.cpp:21-28 | the sum keeps the Ratio invariant and adds each component's value |
| Runtime.DifferenceExact | src/runtime_utils.cpp:30-37 | the difference keeps the invariant and subtracts each component's value |
| Runtime.ScaledExact | src/runtime_utils.cpp:39-46 | scaling keeps the invariant and multiplies each component's value, factor included |
| Runtime.SumThenDifference | src/runtime_utils.cpp:21-37 | `-=` undoes `+=` up to `==` |
| Runtime.EqualMeansSameValues | src/runtime_utils.cpp:48-54 | Dimension `==` holds exactly when all four values agree, so dimensions differing only in factor are unequal |
| Runtime.ContainsMeaning | src/runtime_utils.cpp:56-64 | `contains(h, n)` holds exactly when for length, mass and time `abs(h) >= abs(n)` and `h * n >= 0`; the factor plays no part |
| Runtime.ContainsRemovesWithoutOvershoot | src/runtime_utils.cpp:56-64 | when `contains(h, n)`, subtracting `n` shrinks each exponent's magnitude by exactly `abs(n)` and never flips its sign |
| Runtime.ToDynamicExact | include/quantity/runtime.hpp:52-59 | `to_dynamic(T)` copies T's length, mass and time by name, whatever the template order, and sets the factor to 0 |
| RuntimeChecks.ToDynamicIntegral | include/quantity/runtime.hpp:31-36 | a whole-number `std::ratio` N/1 reaches runtime as `Ratio{N, 1}` in the like-named field |
| RuntimeChecks.NewtonIsForce | test/runtime_utils_test.cpp:16 | the bridge applied to the force dimension is `NEWTON_DIM` = (1, 1, -2) |
| RuntimeChecks.JouleIsEnergy | test/runtime_utils_test.cpp:15 | the bridge applied to the energy dimension is `JOULE_DIM` = (2, 1, -2) |
| RuntimeChecks.WattIsPower | test/runtime_utils_test.cpp:17 | the bridge applied to the power dimension is `WATT_DIM` = (2, 1, -3) |
| RuntimeChecks.ContainsExamples | test/runtime_utils_test.cpp:22-25 | joule and newton contain themselves, joule contains newton, newton does not contain joule |
| RuntimeChecks.WattContainsTheOthers | src/runtime_utils.cpp:66-68 | the watt contains the joule and the newton, and neither contains the watt |
| StaticDimensions.Canon | include/quantity/dimension.hpp:16-22 | the reduced form of a `std::ratio` has a positive denominator |
| StaticDimensions.CanonValue | include/quantity/dimension.hpp:16-22 | the reduced form is well formed and has the value `N / D` |
| StaticDimensions.CanonIsReduced | include/quantity/dimension.hpp:16-22 | reducing a reduced ratio again changes nothing |
| StaticDimensions.RatioAddExact | include/quantity/dimension.hpp:40-42 | `std::ratio_add` is exactly the sum |
| StaticDimensions.RatioSubtractExact | include/quantity/dimension.hpp:44-46 | `std::ratio_subtract` is exactly the difference |
| StaticDimensions.RatioMultiplyExact | include/quantity/dimension.hpp:48-50 | `std::ratio_multiply` is well formed and exactly the product |
| StaticDimensions.RatioEqualByValue | include/quantity/dimension.hpp:52-59 | `std::ratio_equal` holds exactly when the values are equal |
| StaticDimensions.MulTAdds | include/quantity/dimension.hpp:27-42 | `mul_t` adds the exponents component by component |
| StaticDimensions.DivTSubtracts | include/quantity/dimension.hpp:27-46 | `div_t` subtracts the exponents component by component |
| StaticDimensions.PowTScales | include/quantity/dimension.hpp:36-50 | `pow_t<A, P, Q>` multiplies every component by `P / Q` |
| StaticDimensions.InverseDimNegates | include/quantity/dimension.hpp:83-84 | `inverse_dim_t` negates every component |
| StaticDimensions.RateDimLowersTime | include/quantity/dimension.hpp:80-81 | `rate_dim_t` lowers the time exponent by one and keeps the others |
| StaticDimensions.DimensionsEqualByValue | include/quantity/dimension.hpp:52-59 | `dimensions_equal` holds exactly when the three exponents have equal values |
| StaticDimensions.IntegralAlgebra | include/quantity/dimension.hpp:40-46 | on whole-number dimensions `mul_t` and `div_t` are integer addition and subtraction |
| StaticChecks.VelocityExponents | include/quantity/dimension.hpp:89 | velocity is (1, -1, 0) in (length, time, mass) |
| StaticChecks.ImpulseExponents | include/quantity/dimension.hpp:90 | impulse is (1, -1, 1) |
| StaticChecks.AccelerationExponents | include/quantity/dimension.hpp:91 | acceleration is (1, -2, 0) |
| StaticChecks.ForceExponents | include/quantity/dimension.hpp:92 | force is (1, -2, 1) |
| StaticChecks.AreaExponents | include/quantity/dimension.hpp:93 | area is (2, 0, 0) |
| StaticChecks.EnergyExponents | include/quantity/dimension.hpp:94 | energy is (2, -2, 1) |
| StaticChecks.PowerExponents | include/quantity/dimension.hpp:95 | power is (2, -3, 1) |
| StaticChecks.FillCheck | test/static.cpp:11 | `fill_t<1, 1>` is (1, 1, 1) |
| StaticChecks.ProductCheck | test/static.cpp:24 | a * b = (3, 3/2, 7/6) for a = (2, -1/2, 2/3), b = (1, 2, 1/2) |
| StaticChecks.QuotientCheck | test/static.cpp:25 | a / b = (1, -5/2, 1/6) |
| StaticChecks.PowerCheck | test/static.cpp:26 | a^(2/3) = (4/3, -1/3, 4/9) |
| StaticChecks.InverseCheck | test/static.cpp:27 | the inverse of a is (-2, 1/2, -2/3) |
| StaticChecks.RateCheck | test/static.cpp:28 | the rate of a is (2, -3/2, 2/3) |
| StaticChecks.EqualityChecks | test/static.cpp:29-30 | a equals a and does not equal b |
| StaticChecks.PowerEqualityCheck | test/static.cpp:32-33 | power equals (2, -3, 1) |
| Scanner.ExponentGroups | src/io.cpp:41 | the exponent groups are a prefix of the text, and empty exactly when the text does not start with `^` and an optionally negative digit |
| Scanner.Assemble | src/io.cpp:41-43 | a match built from a prefix, a symbol and the rest is well formed and its whole match plus suffix is the input |
| Scanner.MatchFactor | src/io.cpp:41-43 | the anchored grammar fails exactly when the text starts with neither a symbol letter nor a prefix letter followed by one; a match and its suffix make up the text; a prefix letter followed by a symbol letter is taken as a prefix |
| Parser.SIPrefixes | src/io.cpp:14-30 | the prefix table knows exactly the letters `pnumcdhkMGT`, each as a whole power of ten |
| Parser.ReadFactor | src/io.cpp:38-117 | a parsed factor leaves a strictly shorter suffix of the text |
| Parser.SymbolStepOverPrefix | src/io.cpp:82-100 | a symbol letter added to a dimension holding only the prefix's power gives that symbol's dimension with the prefix added to its factor |
| Parser.ApplySymbol | src/io.cpp:82-100 | the method adds the symbol letter's dimension to `dims` in place |
| Parser.ParseSingleFactor | src/io.cpp:38-117 | the method, matching and then walking the submatches, returns what the declarative `ReadFactor` reads |
| Parser.WalkSubmatches | src/io.cpp:55-116 | the loop over the seven submatches with its BEGIN/EXP/DEN state returns the factor and suffix the match stands for |
| Parser.ParseDim | src/io.cpp:124-141 | the do-while loop with its mode flag returns what `ReadUnit` reads |
| Parser.StoiRejectsSlash | src/io.cpp:104-105 | `stoi` of a text starting with '/' fails, which is what happens to a fractional exponent |
| ParserChecks.ReadFactorFailures | src/io.cpp:104-116 | parsing a factor fails exactly when the grammar does not match (invalid unit) or a `/q` group is present (invalid argument) |
| ParserChecks.NoUnknownPrefix | src/io.cpp:71-80 | the prefix table lookup never throws, since the grammar only lets table letters through |
| ParserChecks.PrefixTakenBeforeSymbol | src/io.cpp:71-111 | a prefix letter followed by a symbol letter is read as a prefix; the token's factor is (prefix power + symbol's factor) times the exponent |
| ParserChecks.ReadUnitIntegral | src/io.cpp:124-141 | every dimension `parse_dim` returns has whole-number components |
| ParserChecks.EmptyIsNoUnit | src/io.cpp:116 | the empty text is an invalid unit |
| ParserChecks.ReadsMetre | test/io_tests.cpp:116 | "m" is length 1 |
| ParserChecks.ReadsKilogram | test/io_tests.cpp:117 | "kg" is mass 1 with factor 0 |
| ParserChecks.ReadsSecond | test/io_tests.cpp:118 | "s" is time 1 |
| ParserChecks.ReadsTonne | test/io_tests.cpp:119 | "t" is mass 1 with factor 3 |
| ParserChecks.ReadsKilometre | test/io_tests.cpp:120 | "km" is length 1 with factor 3 |
| ParserChecks.ReadsNewtonSymbol | test/io_tests.cpp:121-122 | "N" is `NEWTON_DIM` |
| ParserChecks.ReadsJouleSymbol | test/io_tests.cpp:123 | "J" is `JOULE_DIM` |
| ParserChecks.ReadsKilowatt | test/io_tests.cpp:124 | "kW" is the watt with factor 3 |
| ParserChecks.ReadsKilotonne | test/io_tests.cpp:125 | "kt" is mass 1 with factor 6 |
| ParserChecks.ReadsSquareKilometre | test/io_tests.cpp:126 | "km^2" is length 2 with factor 6: the exponent multiplies the prefix |
| ParserChecks.ReadsMilligram | test/io_tests.cpp:127 | "mg" is mass 1 with factor -6 |
| ParserChecks.ReadsNewton | test/io_tests.cpp:130 | "kgm/s^2" is `NEWTON_DIM` |
| ParserChecks.ReadsJoule | test/io_tests.cpp:131 | "kgm^2/s^2" is `JOULE_DIM` |
| ParserChecks.ReadsWatt | test/io_tests.cpp:132 | "kgm^2/s^3" is `WATT_DIM`, factor 0 |
| ParserChecks.ReadsMillisecond | src/io.cpp:71-80 | "ms" is a millisecond, time 1 with factor -3 |
| ParserChecks.ReadsSquareMetre | src/io.cpp:104-111 | "m^2" is length 2 |
| ParserChecks.ReadsRepeatedDenominator | src/io.cpp:129-137 | a second '/' does not flip back: "m/s/s" is (1, 0, -2) |
| ParserChecks.ReadsTrailingSlash | src/io.cpp:134-138 | a trailing '/' is dropped and ends the loop: "m/" is the metre |
| ParserChecks.RejectsNonTokens | src/io.cpp:116 | "/m" and "M" are invalid units |
| ParserChecks.RejectsNonNumericExponent | src/io.cpp:112-116 | in "m^x" the metre is read and "^x" is then an invalid unit |
| ParserChecks.FractionalExponentFails | src/io.cpp:104-105 | every token with a `^p/q` exponent makes parsing throw invalid argument, wherever it stands |
| ParserChecks.RejectsFractionalExponent | src/io.cpp:104-105 | "m^1/2" throws invalid argument |
| UnitText.ReadText | src/io.cpp:124-141 | a unit text made of well-formed tokens, an optional '/' and more tokens is read as the numerator tokens' sum minus the denominator tokens' sum |
| UnitText.ReadTextWhole | src/io.cpp:124-141 | the same reading as whole-number exponents: the totals of the numerator minus those of the denominator |
| UnitText.ReadTwoSlashes | src/io.cpp:129-137 | with two '/' marks every token after the first is subtracted |
| Printer.SiPrefix | src/io.cpp:145-167 | `si_prefix` fails only with the exponent it was asked for |
| PrinterFacts.SiPrefixDomain | src/io.cpp:145-167 | `si_prefix` succeeds exactly on -12, -9, -6, -3, -2, -1, 0, 2, 3, 6, 9, 12 |
| PrinterFacts.SiPrefixReadBack | src/io.cpp:145-167 | every multiple of 3 in [-12, 12] has a prefix of at most one letter, which the parser's table reads back as the same power |
| PrinterFacts.DeciMismatch | src/io.cpp:153 | 'd' is printed for 10^-1 but read as 10^1 |
| PrinterFacts.TruncAgrees | src/io.cpp:180 | C++ truncating `%` is zero exactly when Dafny's is, and then both divisions agree |
| PrinterFacts.WholeMultipleOfThreeExactly | src/io.cpp:180 | the printer's prefix test with quotient `3k` holds exactly when the numerator is `3k` times the denominator |
| Printer.Choose | src/io.cpp:172-177 | the prefix `factor / exponent`, shifted by 6 for a tonne, keeps a positive denominator |
| Printer.TakePrefix | src/io.cpp:184-189 | the factor after a prefix is taken, a flat 6 more for a tonne, keeps a positive denominator |
| PrinterFacts.TakePrefixConserves | src/io.cpp:184-189 | with the intended tonne step, taking a prefix of power `q` lowers the factor by exactly what the written token stands for: `(q + 6 for a tonne) * exponent` |
| Printer.SingleDimension | src/io.cpp:169-198 | what `print_single_dimension` writes, and a factor it leaves that keeps a positive denominator |
| Printer.TakePrefixIntended | src/io.cpp:184-189 | the intended factor update, subtracting 6 times the exponent for a tonne, keeps a positive denominator |
| PrinterFacts.TakePrefixShortfall | src/io.cpp:184-189 | as written, the tonne step leaves `6 * (exponent - 1)` more than the intended step; for other units both steps agree |
| Printer.SingleDimensionIntended | src/io.cpp:169-198 | the intended step leaves a factor with a positive denominator |
| PrinterFacts.SingleDimensionLeavesFactor | src/io.cpp:186-189 | on grams squared with factor 18, the step writes "kt^2"; as written it leaves 6 over, the intended step leaves 0 |
| Printer.Group | src/io.cpp:200-205 | `print` writes mass, time, length and leaves a factor with a positive denominator |
| Printer.CompoundOf | src/io.cpp:228-245 | the compound chosen, checked watt, then joule, then newton, is one the dimension contains |
| Printer.Fraction | src/io.cpp:247-253 | the numerator and denominator dimensions keep the Ratio invariant |
| PrinterFacts.HalvesMeaning | src/io.cpp:207-214 | `split_ratio` moves exactly the negative whole exponents to the denominator, negated; numerator minus denominator is the exponent |
| PrinterFacts.FractionMeaning | src/io.cpp:247-253 | numerator minus denominator is each exponent; the denominator holds only non-negative whole exponents and no power of ten |
| Printer.Stream.constructor | src/io.cpp:223 | a new stream holds no text |
| Printer.Stream.Write | src/io.cpp:223-261 | writing appends to the stream's text |
| Printer.PrintSingleDimension | src/io.cpp:169-198 | the method appends what `SingleDimension` writes and returns the factor it leaves or its exception |
| Printer.Print | src/io.cpp:200-205 | the method appends the three groups' text and reports the first exception |
| Printer.SplitRatio | src/io.cpp:207-214 | the out-parameters are what `Halves` computes |
| Printer.SplitDim | src/io.cpp:216-220 | the two Dimension objects are updated in place to the split of every exponent |
| Printer.WriteDimension | src/io.cpp:223-261 | `operator<<` appends what `Render` writes and reports its exception |
| Printer.WriteFraction | src/io.cpp:247-259 | the numerator, then "/" and the denominator when it is not empty, are appended |
| PrinterChecks.WritesGram | test/io_tests.cpp:77 | G prints "g" |
| PrinterChecks.WritesMetre | test/io_tests.cpp:78 | M prints "m" |
| PrinterChecks.WritesSecond | test/io_tests.cpp:79 | S prints "s" |
| PrinterChecks.WritesKilogram | test/io_tests.cpp:80 | KG prints "kg" |
| PrinterChecks.WritesKilometre | test/io_tests.cpp:81 | KM prints "km" |
| PrinterChecks.WritesMetrePerSecond | test/io_tests.cpp:82 | MPS prints "m/s" |
| PrinterChecks.WritesSquareMetre | test/io_tests.cpp:84 | M2 prints "m^2" |
| PrinterChecks.WritesSquareKilometre | test/io_tests.cpp:85 | KM2 prints "km^2" |
| PrinterChecks.WritesTonne | test/io_tests.cpp:86 | TON prints "t" |
| PrinterChecks.WritesKilotonne | test/io_tests.cpp:87 | KT prints "kt" |
| PrinterChecks.WritesSquareKilotonne | test/io_tests.cpp:88 | KT2 prints "kt^2" |
| PrinterChecks.WritesSquareKilotonneMegametre | src/io.cpp:186-189 | (1, 2, 0) with 10^12 prints "kt^2Mm": the 6 the tonne step leaves becomes a mega prefix on the metre |
| PrinterChecks.WritesKilogramMetrePerSecond | test/io_tests.cpp:89 | KGMS prints "kgm/s" |
| PrinterChecks.WritesTonneMetrePerSecond | test/io_tests.cpp:90 | TMS prints "tm/s" |
| PrinterChecks.MetreStepFails | src/io.cpp:180-182 | a metre step needing 10^-15 throws from `si_prefix` and writes nothing |
| PrinterChecks.RenderOutOfRange | src/io.cpp:223-261 | (1, -5, 0) cannot be printed: the metre must carry 10^-15 and `si_prefix` throws |
| RoundTrip.RenderWholeTokens | src/io.cpp:223-261 | for whole exponents with mass in [-4, 5] and factor 0, `operator<<` writes a token text that spells out the exponents and throws nothing |
| RoundTrip.RenderWholeText | src/io.cpp:223-261 | such a dimension prints without exception, and the text is empty exactly for (0, 0, 0) |
| RoundTrip.TextRoundTrip | test/io_tests.cpp:30-50 | a printed token text that spells out (l, m, t) is parsed back to exactly those exponents, and parses exactly when it is not empty |
| RoundTrip.RoundTrip | test/io_tests.cpp:93-112 | print then `parse_dim` recovers length, mass and time of every non-zero whole dimension with mass in [-4, 5], and fails only on (0, 0, 0) |
| Rescale.DynamicRescale | src/io.cpp:263-284 | the two loops compute what `Rescaled` says: only the factor changes, as the step counts say |
| Rescale.Rescaled | src/io.cpp:263-284 | rescaling keeps the three exponents, and a zero value returns the dimension unchanged |
| Rescale.RescaledFactor | src/io.cpp:270-281 | the factor moves by exactly 3 per step and keeps its denominator |
| Rescale.RescaledWindow | src/io.cpp:263-284 | the magnitude left is `abs(value) / 1000^steps`; at least 1, at most 1000 unless time alone; time alone is never scaled up |
| Rescale.LiftedProduct | src/io.cpp:270-273 | the first loop multiplies the magnitude by 1000 once per step |
| Rescale.DroppedQuotient | src/io.cpp:278-281 | the second loop divides the magnitude by 1000 once per step |
| Rescale.RescaleExamples | test/io_tests.cpp:141-169 | in base units with factor 0: 0 m keeps its dimension; 7500 m (7.5 km) becomes 7.5 at 10^3; 1025 s is not promoted; 0.1 s becomes 100 at 10^-3 |
| QuantityInput.CheckParsedMeaning | include/quantity/io.hpp:38-45 | the unit check passes exactly when the three exponents have the quantity's values; it hands back the factor; parse errors pass through; other failures are "Unit mismatch" |
| QuantityInput.ParsedIsValid | include/quantity/io.hpp:38-45 | every dimension the parser returns has positive denominators, as the unit check requires |
| QuantityInput.KilogramIsNoLength | test/io_tests.cpp:174 | "kg" read into a length is a mismatch |
| QuantityInput.KilogramMetrePerSquareSecondIsForce | test/io_tests.cpp:130 | "kgm/s^2" read into a force passes with factor 0 |
| QuantityInput.KilotonneIsMass | test/io_tests.cpp:125 | "kt" read into a mass passes with factor 6 |
| QuantityInput.MilligramIsMass | test/io_tests.cpp:127 | "mg" read into a mass passes with factor -6 |

## Left out

- The compound assignments of `Ratio` (`+=`, `-=`, `*=`, `/=`) are not separate members. The source rebinds the left operand to the binary result, so each is the binary function.
- `Ratio` arithmetic uses unbounded integers. `intmax_t` overflow and the range errors of `std::stoi` are not modelled.
- Zero-denominator ratios are outside the exactness lemmas: `den != 0` is their precondition. The operators themselves are total.
- The `std::regex` engine is replaced by a direct scanner for the anchored token grammar.
- Exceptions are `Result` values; which C++ exception class is thrown is recorded only as the `IoError` kind. The lazily initialised static maps are constant lookup functions.
- Fractional exponents are never read back. The source throws invalid argument on `^p/q`, and the model does the same, so there is no fractional-exponent round trip.
- The 'd' prefix is modelled as written: read as 10^1, printed for 10^-1. No round-trip claim covers 'd'. The printer never emits it, since it looks up only multiples of 3.
- RoundTrip.RoundTrip: covers mass exponents in [-4, 5] with factor 0, not every dimension. With mass -5 and length 1 the metre must carry 10^-15, and printing throws (PrinterChecks.RenderOutOfRange).
- Rescale.DynamicRescale: the magnitude is an exact real, not a `long double`. The rounding of `1e-3` is not modelled.
- The quantity-level stream operators (`include/quantity/io.hpp`) are left out apart from the unit check of `operator>>`. That covers reading the number, `std::pow` on doubles, and dividing the printed value by 10^factor. Their string tests (test/io_tests.cpp:135-170) are therefore not claimed. As written, 2 km × 2 m gives the text "4 m^2" rather than the "4000 m^2" expected at test/io_tests.cpp:153. The rescaler moves 4000 m^2 to factor 3, include/quantity/io.hpp:28 divides 4000 by 10^3, and factor 3 on m^2 has no whole prefix.
- The vector input/output tests (test/io_tests.cpp:177-189) are not modelled.
- `include/quantity/quantity.hpp`, `include/quantity/predefined.hpp` and `include/quantity/vec.hpp` are not part of this model. They only forward to floating-point values and build literals.
- Printer.TakePrefix, Printer.SingleDimension, Printer.PrintSingleDimension, Printer.Group, Printer.Print, Printer.RenderFraction, Printer.WriteFraction, Printer.Render, Printer.WriteDimension: these follow the tonne step as written at src/io.cpp:186-189, so for a tonne with an exponent other than 1 they do not conserve the factor (see Findings). Printer.TakePrefixIntended and Printer.SingleDimensionIntended give the intended step, but only for one step. No whole rendering is built on them.

## Findings

| source | as written | input that shows it | evidently intended | confidence | as-written member | corrected member |
|---|---|---|---|---|---|---|
| src/io.cpp:186-189 | after writing a tonne prefix, the factor drops by a flat 6, whatever the exponent | grams squared with factor 18, as for KT2 (test/io_tests.cpp:71): "kt^2" is written, standing for (10^9 g)^2, yet 6 of the factor is left for the exponents that follow; with a metre after it, (1, 2, 0) with 10^12 prints "kt^2Mm" where "kt^2m" is meant | the factor drops by 6 times the exponent, the tonne's own 10^6 g for each power | not executed | PrinterChecks.WritesSquareKilotonneMegametre | PrinterFacts.TakePrefixConserves |
