/**
 * What parse_dim (src/io.cpp) accepts and what it yields: the inputs of
 * test/io_tests.cpp, the failure cases, and facts that hold for every input.
 */
module ParserChecks {
  import opened Wrappers
  import opened Decimal
  import opened Ratios
  import opened Runtime
  import opened IoErrors
  import opened Scanner
  import opened Parser
  import opened UnitText

  // ---------------------------------------------------------------------------------
  // One token.

  /**
   * A token fails exactly when the text does not start with the grammar, or when its
   * exponent carries a `/q` denominator; a prefix the map does not know never occurs.
   */
  lemma ReadFactorFailures(s: string)
    ensures ReadFactor(s).Failure? <==> MatchFactor(s).None? || MatchFactor(s).value.groups[5] != ""
    ensures MatchFactor(s).None? ==> ReadFactor(s) == Failure(InvalidUnit(s))
    ensures MatchFactor(s).Some? && MatchFactor(s).value.groups[5] != "" ==>
              ReadFactor(s) == Failure(InvalidArgument)
  {
    if MatchFactor(s).Some? {
      var g := MatchFactor(s).value.groups;
      assert g[1] != "" ==> IsPrefixLetter(g[1][0]);
    }
  }

  /** The prefix map covers every prefix letter the grammar admits. */
  lemma NoUnknownPrefix(s: string)
    ensures ReadFactor(s).Failure? ==> !ReadFactor(s).error.UnknownPrefix?
  {
    ReadFactorFailures(s);
  }

  /** A prefix letter is taken as a prefix whenever a symbol letter follows it. */
  lemma PrefixTakenBeforeSymbol(s: string)
    requires |s| >= 2 && IsPrefixLetter(s[0]) && IsSymbolLetter(s[1])
    ensures ReadFactor(s).Success? <==> MatchFactor(s).value.groups[5] == ""
    ensures ReadFactor(s).Success? ==> ReadFactor(s).value.0.factor.num
                                       == (SIPrefixes(s[0]).value.num
                                           + SymbolExponents(s[1]).factor) * ExponentOf(MatchFactor(s).value)
  {
    ReadFactorFailures(s);
    var m := MatchFactor(s).value;
    assert m.groups[1] == [s[0]];
    assert m.groups[0] == [s[0]] + m.groups[2] + m.groups[3];
    assert m.groups[2][0] == m.groups[0][1] == s[1];
    MatchShape(m);
    if ReadFactor(s).Success? {
      assert ReadFactor(s) == FactorOfMatch(m);
      assert PrefixExponent(m.groups[1]) == SIPrefixes(s[0]).value.num;
    }
  }

  // ---------------------------------------------------------------------------------
  // Whole units: every token is whole-numbered, so the result is too.

  predicate IntegralDim(d: Dim)
  {
    d.length.den == 1 && d.mass.den == 1 && d.time.den == 1 && d.factor.den == 1
  }

  lemma {:induction false} ParseFromIntegral(s: string, mode: int, acc: Dim)
    requires IntegralDim(acc)
    ensures ParseFrom(s, mode, acc).Success? ==> IntegralDim(ParseFrom(s, mode, acc).value)
    decreases |s|
  {
    match ReadFactor(s)
    case Failure(_) =>
    case Success((d, rest)) =>
      var acc' := Sum(acc, Signed(d, mode));
      assert IntegralDim(acc');
      assert ParseFrom(s, mode, acc) == Continue(rest, mode, acc');
      var slash := |rest| > 0 && rest[0] == '/';
      var rest' := if slash then rest[1..] else rest;
      if rest' != [] {
        ParseFromIntegral(rest', if slash then -1 else mode, acc');
      }
  }

  /** parse_dim only ever yields whole exponents and a whole factor. */
  lemma ReadUnitIntegral(s: string)
    ensures ReadUnit(s).Success? ==> IntegralDim(ReadUnit(s).value)
  {
    ParseFromIntegral(s, 1, Dimensionless);
  }

  /** At least one token is always read, so the empty text is no unit. */
  lemma EmptyIsNoUnit()
    ensures ReadUnit("") == Failure(InvalidUnit(""))
  {
  }

  // ---------------------------------------------------------------------------------
  // The units of test/io_tests.cpp. Each example names its tokens by variables and
  // reads the text through ReadSpelled; the arithmetic on the exponents is done once per
  // token kind.

  /** The predefined dimensions have whole-number exponents and no power of ten. */
  lemma NamedDimsAreWhole()
    ensures NewtonDim == Whole(1, 1, -2, 0)
    ensures JouleDim == Whole(2, 1, -2, 0)
    ensures WattDim == Whole(2, 1, -3, 0)
  {
  }

  /** A token with the given fields. */
  lemma NewToken(pre: string, sym: char, exp: int) returns (t: Token)
    ensures t.pre == pre && t.sym == sym && t.exp == exp
  {
    t := Token(pre, sym, exp);
  }

  lemma MetreToken(t: Token)
    requires t.pre == "" && t.sym == 'm' && t.exp == 1
    ensures ValidToken(t) && TokenText(t) == "m"
    ensures TokenExponents(t) == Exponents(1, 0, 0, 0) && Total([t]) == Exponents(1, 0, 0, 0)
  {
    assert [t][1..] == [];
  }

  lemma KilogramToken(t: Token)
    requires t.pre == "k" && t.sym == 'g' && t.exp == 1
    ensures ValidToken(t) && TokenText(t) == "kg"
    ensures TokenExponents(t) == Exponents(0, 1, 0, 0) && Total([t]) == Exponents(0, 1, 0, 0)
  {
    assert [t][1..] == [];
  }

  lemma SecondToken(t: Token)
    requires t.pre == "" && t.sym == 's' && t.exp == 1
    ensures ValidToken(t) && TokenText(t) == "s"
    ensures TokenExponents(t) == Exponents(0, 0, 1, 0) && Total([t]) == Exponents(0, 0, 1, 0)
  {
    assert [t][1..] == [];
  }

  lemma TonneToken(t: Token)
    requires t.pre == "" && t.sym == 't' && t.exp == 1
    ensures ValidToken(t) && TokenText(t) == "t"
    ensures TokenExponents(t) == Exponents(0, 1, 0, 3) && Total([t]) == Exponents(0, 1, 0, 3)
  {
    assert [t][1..] == [];
  }

  lemma KilometreToken(t: Token)
    requires t.pre == "k" && t.sym == 'm' && t.exp == 1
    ensures ValidToken(t) && TokenText(t) == "km"
    ensures TokenExponents(t) == Exponents(1, 0, 0, 3) && Total([t]) == Exponents(1, 0, 0, 3)
  {
    assert [t][1..] == [];
  }

  lemma NewtonToken(t: Token)
    requires t.pre == "" && t.sym == 'N' && t.exp == 1
    ensures ValidToken(t) && TokenText(t) == "N"
    ensures TokenExponents(t) == Exponents(1, 1, -2, 0) && Total([t]) == Exponents(1, 1, -2, 0)
  {
    assert [t][1..] == [];
  }

  lemma JouleToken(t: Token)
    requires t.pre == "" && t.sym == 'J' && t.exp == 1
    ensures ValidToken(t) && TokenText(t) == "J"
    ensures TokenExponents(t) == Exponents(2, 1, -2, 0) && Total([t]) == Exponents(2, 1, -2, 0)
  {
    assert [t][1..] == [];
  }

  lemma KilowattToken(t: Token)
    requires t.pre == "k" && t.sym == 'W' && t.exp == 1
    ensures ValidToken(t) && TokenText(t) == "kW"
    ensures TokenExponents(t) == Exponents(2, 1, -3, 3) && Total([t]) == Exponents(2, 1, -3, 3)
  {
    assert [t][1..] == [];
  }

  lemma KilotonneToken(t: Token)
    requires t.pre == "k" && t.sym == 't' && t.exp == 1
    ensures ValidToken(t) && TokenText(t) == "kt"
    ensures TokenExponents(t) == Exponents(0, 1, 0, 6) && Total([t]) == Exponents(0, 1, 0, 6)
  {
    assert [t][1..] == [];
  }

  lemma SquareKilometreToken(t: Token)
    requires t.pre == "k" && t.sym == 'm' && t.exp == 2
    ensures ValidToken(t) && TokenText(t) == "km^2"
    ensures TokenExponents(t) == Exponents(2, 0, 0, 6) && Total([t]) == Exponents(2, 0, 0, 6)
  {
    assert [t][1..] == [];
    assert IntText(2) == "2";
  }

  lemma MilligramToken(t: Token)
    requires t.pre == "m" && t.sym == 'g' && t.exp == 1
    ensures ValidToken(t) && TokenText(t) == "mg"
    ensures TokenExponents(t) == Exponents(0, 1, 0, -6) && Total([t]) == Exponents(0, 1, 0, -6)
  {
    assert [t][1..] == [];
  }

  lemma SquareSecondToken(t: Token)
    requires t.pre == "" && t.sym == 's' && t.exp == 2
    ensures ValidToken(t) && TokenText(t) == "s^2"
    ensures TokenExponents(t) == Exponents(0, 0, 2, 0) && Total([t]) == Exponents(0, 0, 2, 0)
  {
    assert [t][1..] == [];
    assert IntText(2) == "2";
  }

  lemma SquareMetreToken(t: Token)
    requires t.pre == "" && t.sym == 'm' && t.exp == 2
    ensures ValidToken(t) && TokenText(t) == "m^2"
    ensures TokenExponents(t) == Exponents(2, 0, 0, 0) && Total([t]) == Exponents(2, 0, 0, 0)
  {
    assert [t][1..] == [];
    assert IntText(2) == "2";
  }

  lemma CubicSecondToken(t: Token)
    requires t.pre == "" && t.sym == 's' && t.exp == 3
    ensures ValidToken(t) && TokenText(t) == "s^3"
    ensures TokenExponents(t) == Exponents(0, 0, 3, 0) && Total([t]) == Exponents(0, 0, 3, 0)
  {
    assert [t][1..] == [];
    assert IntText(3) == "3";
  }

  lemma MillisecondToken(t: Token)
    requires t.pre == "m" && t.sym == 's' && t.exp == 1
    ensures ValidToken(t) && TokenText(t) == "ms"
    ensures TokenExponents(t) == Exponents(0, 0, 1, -3) && Total([t]) == Exponents(0, 0, 1, -3)
  {
    assert [t][1..] == [];
  }

  lemma KilogramMetreTotal(a: Token, b: Token)
    requires a.pre == "k" && a.sym == 'g' && a.exp == 1
    requires b.pre == "" && b.sym == 'm' && b.exp == 1
    ensures ValidToken(a) && ValidToken(b) && Total([a, b]) == Exponents(1, 1, 0, 0)
  {
    KilogramToken(a);
    MetreToken(b);
    TotalOfTwo(a, b);
  }

  lemma KilogramSquareMetreTotal(a: Token, b: Token)
    requires a.pre == "k" && a.sym == 'g' && a.exp == 1
    requires b.pre == "" && b.sym == 'm' && b.exp == 2
    ensures ValidToken(a) && ValidToken(b) && Total([a, b]) == Exponents(2, 1, 0, 0)
  {
    KilogramToken(a);
    SquareMetreToken(b);
    TotalOfTwo(a, b);
  }

  lemma MetreSpelling(a: Token)
    requires a.pre == "" && a.sym == 'm' && a.exp == 1
    ensures Spelled([a], [], "m")
  {
    MetreToken(a);
    FitsOne(a, "");
  }

  lemma MetreValue()
    ensures WholeOf(Minus(Exponents(1, 0, 0, 0), Exponents(0, 0, 0, 0))) == Whole(1, 0, 0, 0)
  {
  }

  lemma MetreExponents(a: Token)
    requires a.pre == "" && a.sym == 'm' && a.exp == 1
    ensures ValidToken(a)
    ensures WholeOf(Minus(Total([a]), Total([]))) == Whole(1, 0, 0, 0)
  {
    MetreToken(a);
    assert Total([]) == Exponents(0, 0, 0, 0);
    MetreValue();
  }

  /** "m" is the metre. */
  lemma ReadsMetre()
    ensures ReadUnit("m") == Success(Whole(1, 0, 0, 0))
  {
    var a := NewToken("", 'm', 1);
    MetreSpelling(a);
    MetreExponents(a);
    ReadSpelled([a], [], "m", Whole(1, 0, 0, 0));
  }

  lemma KilogramSpelling(a: Token)
    requires a.pre == "k" && a.sym == 'g' && a.exp == 1
    ensures Spelled([a], [], "kg")
  {
    KilogramToken(a);
    FitsOne(a, "");
  }

  lemma KilogramValue()
    ensures WholeOf(Minus(Exponents(0, 1, 0, 0), Exponents(0, 0, 0, 0))) == Whole(0, 1, 0, 0)
  {
  }

  lemma KilogramExponents(a: Token)
    requires a.pre == "k" && a.sym == 'g' && a.exp == 1
    ensures ValidToken(a)
    ensures WholeOf(Minus(Total([a]), Total([]))) == Whole(0, 1, 0, 0)
  {
    KilogramToken(a);
    assert Total([]) == Exponents(0, 0, 0, 0);
    KilogramValue();
  }

  /** "kg" is the kilogram: the kilo and the gram cancel in the factor. */
  lemma ReadsKilogram()
    ensures ReadUnit("kg") == Success(Whole(0, 1, 0, 0))
  {
    var a := NewToken("k", 'g', 1);
    KilogramSpelling(a);
    KilogramExponents(a);
    ReadSpelled([a], [], "kg", Whole(0, 1, 0, 0));
  }

  lemma SecondSpelling(a: Token)
    requires a.pre == "" && a.sym == 's' && a.exp == 1
    ensures Spelled([a], [], "s")
  {
    SecondToken(a);
    FitsOne(a, "");
  }

  lemma SecondValue()
    ensures WholeOf(Minus(Exponents(0, 0, 1, 0), Exponents(0, 0, 0, 0))) == Whole(0, 0, 1, 0)
  {
  }

  lemma SecondExponents(a: Token)
    requires a.pre == "" && a.sym == 's' && a.exp == 1
    ensures ValidToken(a)
    ensures WholeOf(Minus(Total([a]), Total([]))) == Whole(0, 0, 1, 0)
  {
    SecondToken(a);
    assert Total([]) == Exponents(0, 0, 0, 0);
    SecondValue();
  }

  /** "s" is the second. */
  lemma ReadsSecond()
    ensures ReadUnit("s") == Success(Whole(0, 0, 1, 0))
  {
    var a := NewToken("", 's', 1);
    SecondSpelling(a);
    SecondExponents(a);
    ReadSpelled([a], [], "s", Whole(0, 0, 1, 0));
  }

  lemma TonneSpelling(a: Token)
    requires a.pre == "" && a.sym == 't' && a.exp == 1
    ensures Spelled([a], [], "t")
  {
    TonneToken(a);
    FitsOne(a, "");
  }

  lemma TonneValue()
    ensures WholeOf(Minus(Exponents(0, 1, 0, 3), Exponents(0, 0, 0, 0))) == Whole(0, 1, 0, 3)
  {
  }

  lemma TonneExponents(a: Token)
    requires a.pre == "" && a.sym == 't' && a.exp == 1
    ensures ValidToken(a)
    ensures WholeOf(Minus(Total([a]), Total([]))) == Whole(0, 1, 0, 3)
  {
    TonneToken(a);
    assert Total([]) == Exponents(0, 0, 0, 0);
    TonneValue();
  }

  /** "t" is a thousand kilograms. */
  lemma ReadsTonne()
    ensures ReadUnit("t") == Success(Whole(0, 1, 0, 3))
  {
    var a := NewToken("", 't', 1);
    TonneSpelling(a);
    TonneExponents(a);
    ReadSpelled([a], [], "t", Whole(0, 1, 0, 3));
  }

  lemma KilometreSpelling(a: Token)
    requires a.pre == "k" && a.sym == 'm' && a.exp == 1
    ensures Spelled([a], [], "km")
  {
    KilometreToken(a);
    FitsOne(a, "");
  }

  lemma KilometreValue()
    ensures WholeOf(Minus(Exponents(1, 0, 0, 3), Exponents(0, 0, 0, 0))) == Whole(1, 0, 0, 3)
  {
  }

  lemma KilometreExponents(a: Token)
    requires a.pre == "k" && a.sym == 'm' && a.exp == 1
    ensures ValidToken(a)
    ensures WholeOf(Minus(Total([a]), Total([]))) == Whole(1, 0, 0, 3)
  {
    KilometreToken(a);
    assert Total([]) == Exponents(0, 0, 0, 0);
    KilometreValue();
  }

  /** "km" is a thousand metres. */
  lemma ReadsKilometre()
    ensures ReadUnit("km") == Success(Whole(1, 0, 0, 3))
  {
    var a := NewToken("k", 'm', 1);
    KilometreSpelling(a);
    KilometreExponents(a);
    ReadSpelled([a], [], "km", Whole(1, 0, 0, 3));
  }

  lemma NewtonSymbolSpelling(a: Token)
    requires a.pre == "" && a.sym == 'N' && a.exp == 1
    ensures Spelled([a], [], "N")
  {
    NewtonToken(a);
    FitsOne(a, "");
  }

  lemma NewtonSymbolValue()
    ensures WholeOf(Minus(Exponents(1, 1, -2, 0), Exponents(0, 0, 0, 0))) == Whole(1, 1, -2, 0)
  {
  }

  lemma NewtonSymbolExponents(a: Token)
    requires a.pre == "" && a.sym == 'N' && a.exp == 1
    ensures ValidToken(a)
    ensures WholeOf(Minus(Total([a]), Total([]))) == Whole(1, 1, -2, 0)
  {
    NewtonToken(a);
    assert Total([]) == Exponents(0, 0, 0, 0);
    NewtonSymbolValue();
  }

  /** "N" is the newton. */
  lemma ReadsNewtonSymbol()
    ensures ReadUnit("N") == Success(NewtonDim)
  {
    var a := NewToken("", 'N', 1);
    NewtonSymbolSpelling(a);
    NewtonSymbolExponents(a);
    NamedDimsAreWhole();
    ReadSpelled([a], [], "N", NewtonDim);
  }

  lemma JouleSymbolSpelling(a: Token)
    requires a.pre == "" && a.sym == 'J' && a.exp == 1
    ensures Spelled([a], [], "J")
  {
    JouleToken(a);
    FitsOne(a, "");
  }

  lemma JouleSymbolValue()
    ensures WholeOf(Minus(Exponents(2, 1, -2, 0), Exponents(0, 0, 0, 0))) == Whole(2, 1, -2, 0)
  {
  }

  lemma JouleSymbolExponents(a: Token)
    requires a.pre == "" && a.sym == 'J' && a.exp == 1
    ensures ValidToken(a)
    ensures WholeOf(Minus(Total([a]), Total([]))) == Whole(2, 1, -2, 0)
  {
    JouleToken(a);
    assert Total([]) == Exponents(0, 0, 0, 0);
    JouleSymbolValue();
  }

  /** "J" is the joule. */
  lemma ReadsJouleSymbol()
    ensures ReadUnit("J") == Success(JouleDim)
  {
    var a := NewToken("", 'J', 1);
    JouleSymbolSpelling(a);
    JouleSymbolExponents(a);
    NamedDimsAreWhole();
    ReadSpelled([a], [], "J", JouleDim);
  }

  lemma KilowattSpelling(a: Token)
    requires a.pre == "k" && a.sym == 'W' && a.exp == 1
    ensures Spelled([a], [], "kW")
  {
    KilowattToken(a);
    FitsOne(a, "");
  }

  lemma KilowattValue()
    ensures WholeOf(Minus(Exponents(2, 1, -3, 3), Exponents(0, 0, 0, 0))) == Whole(2, 1, -3, 3)
  {
  }

  lemma KilowattExponents(a: Token)
    requires a.pre == "k" && a.sym == 'W' && a.exp == 1
    ensures ValidToken(a)
    ensures WholeOf(Minus(Total([a]), Total([]))) == Whole(2, 1, -3, 3)
  {
    KilowattToken(a);
    assert Total([]) == Exponents(0, 0, 0, 0);
    KilowattValue();
  }

  /** "kW" is a thousand watts. */
  lemma ReadsKilowatt()
    ensures ReadUnit("kW") == Success(Whole(2, 1, -3, 3))
  {
    var a := NewToken("k", 'W', 1);
    KilowattSpelling(a);
    KilowattExponents(a);
    ReadSpelled([a], [], "kW", Whole(2, 1, -3, 3));
  }

  lemma KilotonneSpelling(a: Token)
    requires a.pre == "k" && a.sym == 't' && a.exp == 1
    ensures Spelled([a], [], "kt")
  {
    KilotonneToken(a);
    FitsOne(a, "");
  }

  lemma KilotonneValue()
    ensures WholeOf(Minus(Exponents(0, 1, 0, 6), Exponents(0, 0, 0, 0))) == Whole(0, 1, 0, 6)
  {
  }

  lemma KilotonneExponents(a: Token)
    requires a.pre == "k" && a.sym == 't' && a.exp == 1
    ensures ValidToken(a)
    ensures WholeOf(Minus(Total([a]), Total([]))) == Whole(0, 1, 0, 6)
  {
    KilotonneToken(a);
    assert Total([]) == Exponents(0, 0, 0, 0);
    KilotonneValue();
  }

  /** "kt" is a million kilograms: the prefix adds to the tonne's own power of ten. */
  lemma ReadsKilotonne()
    ensures ReadUnit("kt") == Success(Whole(0, 1, 0, 6))
  {
    var a := NewToken("k", 't', 1);
    KilotonneSpelling(a);
    KilotonneExponents(a);
    ReadSpelled([a], [], "kt", Whole(0, 1, 0, 6));
  }

  lemma SquareKilometreSpelling(a: Token)
    requires a.pre == "k" && a.sym == 'm' && a.exp == 2
    ensures Spelled([a], [], "km^2")
  {
    SquareKilometreToken(a);
    FitsOne(a, "");
  }

  lemma SquareKilometreValue()
    ensures WholeOf(Minus(Exponents(2, 0, 0, 6), Exponents(0, 0, 0, 0))) == Whole(2, 0, 0, 6)
  {
  }

  lemma SquareKilometreExponents(a: Token)
    requires a.pre == "k" && a.sym == 'm' && a.exp == 2
    ensures ValidToken(a)
    ensures WholeOf(Minus(Total([a]), Total([]))) == Whole(2, 0, 0, 6)
  {
    SquareKilometreToken(a);
    assert Total([]) == Exponents(0, 0, 0, 0);
    SquareKilometreValue();
  }

  /** The exponent multiplies the prefix too: "km^2" has the factor 10^6. */
  lemma ReadsSquareKilometre()
    ensures ReadUnit("km^2") == Success(Whole(2, 0, 0, 6))
  {
    var a := NewToken("k", 'm', 2);
    SquareKilometreSpelling(a);
    SquareKilometreExponents(a);
    ReadSpelled([a], [], "km^2", Whole(2, 0, 0, 6));
  }

  lemma MilligramSpelling(a: Token)
    requires a.pre == "m" && a.sym == 'g' && a.exp == 1
    ensures Spelled([a], [], "mg")
  {
    MilligramToken(a);
    FitsOne(a, "");
  }

  lemma MilligramValue()
    ensures WholeOf(Minus(Exponents(0, 1, 0, -6), Exponents(0, 0, 0, 0))) == Whole(0, 1, 0, -6)
  {
  }

  lemma MilligramExponents(a: Token)
    requires a.pre == "m" && a.sym == 'g' && a.exp == 1
    ensures ValidToken(a)
    ensures WholeOf(Minus(Total([a]), Total([]))) == Whole(0, 1, 0, -6)
  {
    MilligramToken(a);
    assert Total([]) == Exponents(0, 0, 0, 0);
    MilligramValue();
  }

  /** "mg" is a millionth of a kilogram. */
  lemma ReadsMilligram()
    ensures ReadUnit("mg") == Success(Whole(0, 1, 0, -6))
  {
    var a := NewToken("m", 'g', 1);
    MilligramSpelling(a);
    MilligramExponents(a);
    ReadSpelled([a], [], "mg", Whole(0, 1, 0, -6));
  }

  lemma NewtonFits(a: Token, b: Token, c: Token)
    requires a.pre == "k" && a.sym == 'g' && a.exp == 1
    requires b.pre == "" && b.sym == 'm' && b.exp == 1
    requires c.pre == "" && c.sym == 's' && c.exp == 2
    ensures TokenFits(a, "m" + "/" + "s^2") && TokenFits(b, "/" + "s^2") && TokenFits(c, "")
  {
    KilogramToken(a);
    MetreToken(b);
    SquareSecondToken(c);
  }

  lemma NewtonText()
    ensures "kg" + "m" + "/" + "s^2" == "kgm/s^2"
  {
  }

  lemma NewtonValue()
    ensures WholeOf(Minus(Exponents(1, 1, 0, 0), Exponents(0, 0, 2, 0))) == Whole(1, 1, -2, 0)
  {
  }

  lemma NewtonExponents(a: Token, b: Token, c: Token)
    requires a.pre == "k" && a.sym == 'g' && a.exp == 1
    requires b.pre == "" && b.sym == 'm' && b.exp == 1
    requires c.pre == "" && c.sym == 's' && c.exp == 2
    ensures ValidToken(a) && ValidToken(b) && ValidToken(c)
    ensures WholeOf(Minus(Total([a, b]), Total([c]))) == Whole(1, 1, -2, 0)
  {
    KilogramMetreTotal(a, b);
    SquareSecondToken(c);
    NewtonValue();
  }

  /** "kgm/s^2" is the newton. */
  lemma ReadsNewton()
    ensures ReadUnit("kgm/s^2") == Success(NewtonDim)
  {
    var a := NewToken("k", 'g', 1);
    var b := NewToken("", 'm', 1);
    var c := NewToken("", 's', 2);
    KilogramToken(a);
    MetreToken(b);
    SquareSecondToken(c);
    NewtonFits(a, b, c);
    NewtonText();
    SpelledTwoOverOne(a, b, c, "kg", "m", "s^2", "kgm/s^2");
    NewtonExponents(a, b, c);
    NamedDimsAreWhole();
    ReadSpelled([a, b], [c], "kgm/s^2", NewtonDim);
  }

  lemma JouleFits(a: Token, b: Token, c: Token)
    requires a.pre == "k" && a.sym == 'g' && a.exp == 1
    requires b.pre == "" && b.sym == 'm' && b.exp == 2
    requires c.pre == "" && c.sym == 's' && c.exp == 2
    ensures TokenFits(a, "m^2" + "/" + "s^2") && TokenFits(b, "/" + "s^2") && TokenFits(c, "")
  {
    KilogramToken(a);
    SquareMetreToken(b);
    SquareSecondToken(c);
  }

  lemma JouleText()
    ensures "kg" + "m^2" + "/" + "s^2" == "kgm^2/s^2"
  {
  }

  lemma JouleValue()
    ensures WholeOf(Minus(Exponents(2, 1, 0, 0), Exponents(0, 0, 2, 0))) == Whole(2, 1, -2, 0)
  {
  }

  lemma JouleExponents(a: Token, b: Token, c: Token)
    requires a.pre == "k" && a.sym == 'g' && a.exp == 1
    requires b.pre == "" && b.sym == 'm' && b.exp == 2
    requires c.pre == "" && c.sym == 's' && c.exp == 2
    ensures ValidToken(a) && ValidToken(b) && ValidToken(c)
    ensures WholeOf(Minus(Total([a, b]), Total([c]))) == Whole(2, 1, -2, 0)
  {
    KilogramSquareMetreTotal(a, b);
    SquareSecondToken(c);
    JouleValue();
  }

  /** "kgm^2/s^2" is the joule. */
  lemma ReadsJoule()
    ensures ReadUnit("kgm^2/s^2") == Success(JouleDim)
  {
    var a := NewToken("k", 'g', 1);
    var b := NewToken("", 'm', 2);
    var c := NewToken("", 's', 2);
    KilogramToken(a);
    SquareMetreToken(b);
    SquareSecondToken(c);
    JouleFits(a, b, c);
    JouleText();
    SpelledTwoOverOne(a, b, c, "kg", "m^2", "s^2", "kgm^2/s^2");
    JouleExponents(a, b, c);
    NamedDimsAreWhole();
    ReadSpelled([a, b], [c], "kgm^2/s^2", JouleDim);
  }

  lemma WattFits(a: Token, b: Token, c: Token)
    requires a.pre == "k" && a.sym == 'g' && a.exp == 1
    requires b.pre == "" && b.sym == 'm' && b.exp == 2
    requires c.pre == "" && c.sym == 's' && c.exp == 3
    ensures TokenFits(a, "m^2" + "/" + "s^3") && TokenFits(b, "/" + "s^3") && TokenFits(c, "")
  {
    KilogramToken(a);
    SquareMetreToken(b);
    CubicSecondToken(c);
  }

  lemma WattText()
    ensures "kg" + "m^2" + "/" + "s^3" == "kgm^2/s^3"
  {
  }

  lemma WattValue()
    ensures WholeOf(Minus(Exponents(2, 1, 0, 0), Exponents(0, 0, 3, 0))) == Whole(2, 1, -3, 0)
  {
  }

  lemma WattExponents(a: Token, b: Token, c: Token)
    requires a.pre == "k" && a.sym == 'g' && a.exp == 1
    requires b.pre == "" && b.sym == 'm' && b.exp == 2
    requires c.pre == "" && c.sym == 's' && c.exp == 3
    ensures ValidToken(a) && ValidToken(b) && ValidToken(c)
    ensures WholeOf(Minus(Total([a, b]), Total([c]))) == Whole(2, 1, -3, 0)
  {
    KilogramSquareMetreTotal(a, b);
    CubicSecondToken(c);
    WattValue();
  }

  /** "kgm^2/s^3" is the watt. */
  lemma ReadsWatt()
    ensures ReadUnit("kgm^2/s^3") == Success(WattDim)
  {
    var a := NewToken("k", 'g', 1);
    var b := NewToken("", 'm', 2);
    var c := NewToken("", 's', 3);
    KilogramToken(a);
    SquareMetreToken(b);
    CubicSecondToken(c);
    WattFits(a, b, c);
    WattText();
    SpelledTwoOverOne(a, b, c, "kg", "m^2", "s^3", "kgm^2/s^3");
    WattExponents(a, b, c);
    NamedDimsAreWhole();
    ReadSpelled([a, b], [c], "kgm^2/s^3", WattDim);
  }

  lemma MillisecondSpelling(a: Token)
    requires a.pre == "m" && a.sym == 's' && a.exp == 1
    ensures Spelled([a], [], "ms")
  {
    MillisecondToken(a);
    FitsOne(a, "");
  }

  lemma MillisecondValue()
    ensures WholeOf(Minus(Exponents(0, 0, 1, -3), Exponents(0, 0, 0, 0))) == Whole(0, 0, 1, -3)
  {
  }

  lemma MillisecondExponents(a: Token)
    requires a.pre == "m" && a.sym == 's' && a.exp == 1
    ensures ValidToken(a)
    ensures WholeOf(Minus(Total([a]), Total([]))) == Whole(0, 0, 1, -3)
  {
    MillisecondToken(a);
    assert Total([]) == Exponents(0, 0, 0, 0);
    MillisecondValue();
  }

  /** A prefix letter followed by a symbol letter is a prefix: "ms" is a millisecond. */
  lemma ReadsMillisecond()
    ensures ReadUnit("ms") == Success(Whole(0, 0, 1, -3))
  {
    var a := NewToken("m", 's', 1);
    MillisecondSpelling(a);
    MillisecondExponents(a);
    ReadSpelled([a], [], "ms", Whole(0, 0, 1, -3));
  }

  lemma SquareMetreSpelling(a: Token)
    requires a.pre == "" && a.sym == 'm' && a.exp == 2
    ensures Spelled([a], [], "m^2")
  {
    SquareMetreToken(a);
    FitsOne(a, "");
  }

  lemma SquareMetreValue()
    ensures WholeOf(Minus(Exponents(2, 0, 0, 0), Exponents(0, 0, 0, 0))) == Whole(2, 0, 0, 0)
  {
  }

  lemma SquareMetreExponents(a: Token)
    requires a.pre == "" && a.sym == 'm' && a.exp == 2
    ensures ValidToken(a)
    ensures WholeOf(Minus(Total([a]), Total([]))) == Whole(2, 0, 0, 0)
  {
    SquareMetreToken(a);
    assert Total([]) == Exponents(0, 0, 0, 0);
    SquareMetreValue();
  }

  /** An exponent multiplies the token: "m^2" is the square metre. */
  lemma ReadsSquareMetre()
    ensures ReadUnit("m^2") == Success(Whole(2, 0, 0, 0))
  {
    var a := NewToken("", 'm', 2);
    SquareMetreSpelling(a);
    SquareMetreExponents(a);
    ReadSpelled([a], [], "m^2", Whole(2, 0, 0, 0));
  }
  lemma MetreFitsTwoDenominators(a: Token)
    requires a.pre == "" && a.sym == 'm' && a.exp == 1
    ensures TokenFits(a, "/s/s")
  {
    MetreToken(a);
  }

  lemma SecondFitsDenominator(b: Token)
    requires b.pre == "" && b.sym == 's' && b.exp == 1
    ensures TokenFits(b, "/s") && TokenFits(b, "")
  {
    SecondToken(b);
  }

  lemma RepeatedDenominatorText()
    ensures "/" + ("s" + ("/" + "s")) == "/s/s" && "/" + "s" == "/s"
    ensures "m" + ("/" + ("s" + ("/" + "s"))) == "m/s/s"
  {
  }

  lemma RepeatedDenominatorValue()
    ensures Minus(Minus(Exponents(1, 0, 0, 0), Exponents(0, 0, 1, 0)), Exponents(0, 0, 1, 0))
            == Exponents(1, 0, -2, 0)
  {
  }

  lemma RepeatedDenominatorExponents(a: Token, b: Token, c: Token)
    requires a.pre == "" && a.sym == 'm' && a.exp == 1
    requires b.pre == "" && b.sym == 's' && b.exp == 1
    requires c.pre == "" && c.sym == 's' && c.exp == 1
    ensures ValidToken(a) && ValidToken(b) && ValidToken(c)
    ensures WholeOf(Minus(Minus(Total([a]), Total([b])), Total([c]))) == Whole(1, 0, -2, 0)
  {
    MetreToken(a);
    SecondToken(b);
    SecondToken(c);
    RepeatedDenominatorValue();
  }

  /** A second '/' does not switch back to the numerator: "m/s/s" is an acceleration. */
  lemma ReadsRepeatedDenominator()
    ensures ReadUnit("m/s/s") == Success(Whole(1, 0, -2, 0))
  {
    var a := NewToken("", 'm', 1);
    var b := NewToken("", 's', 1);
    var c := NewToken("", 's', 1);
    MetreToken(a);
    SecondToken(b);
    SecondToken(c);
    MetreFitsTwoDenominators(a);
    SecondFitsDenominator(b);
    SecondFitsDenominator(c);
    RepeatedDenominatorText();
    SpelledTwoSlashes(a, b, c, "m", "s", "s", "m/s/s");
    RepeatedDenominatorExponents(a, b, c);
    ReadTwoSlashesSpelled([a], [b], [c], "m/s/s", Whole(1, 0, -2, 0));
  }

  lemma MetreThenSlashSpelling(a: Token)
    requires a.pre == "" && a.sym == 'm' && a.exp == 1
    ensures Fits([a], "/") && TokensText([a]) + "/" == "m/"
  {
  }

  /** A trailing '/' is dropped: "m/" is the metre. */
  lemma ReadsTrailingSlash()
    ensures ReadUnit("m/") == Success(Whole(1, 0, 0, 0))
  {
    var a := NewToken("", 'm', 1);
    MetreThenSlashSpelling(a);
    MetreToken(a);
    MetreValue();
    ReadTextThenSlash([a]);
  }

  /** When the next token cannot be read, parse_dim fails with that token's error. */
  lemma ParseStops(s: string, mode: int, acc: Dim)
    requires ReadFactor(s).Failure?
    ensures ParseFrom(s, mode, acc) == Failure(ReadFactor(s).error)
  {
  }

  /** Texts that do not start with a token. */
  lemma RejectsNonTokens()
    ensures ReadUnit("/m") == Failure(InvalidUnit("/m"))
    ensures ReadUnit("M") == Failure(InvalidUnit("M"))
  {
    var s := "/m";
    ReadFactorFailures(s);
    ParseStops(s, 1, Dimensionless);
    var t := "M";
    ReadFactorFailures(t);
    ParseStops(t, 1, Dimensionless);
  }

  /**
   * After a token without an exponent, parse_dim goes on with the rest; when that is
   * neither empty nor a '/' and no token starts it, the rest's error is the result.
   */
  lemma StopsAfterToken(pre: string, c: char, rest: string, mode: int, acc: Dim)
    requires TokenStart(pre, c, rest) && ExponentGroups(rest)[0] == ""
    requires rest != [] && rest[0] != '/' && ReadFactor(rest).Failure?
    ensures ParseFrom(pre + [c] + rest, mode, acc) == Failure(ReadFactor(rest).error)
  {
    ReadPlainToken(pre, c, rest);
    var acc' := Sum(acc, Signed(TokenDim(pre, c, 1), mode));
    assert ParseFrom(pre + [c] + rest, mode, acc) == Continue(rest, mode, acc');
    ContinueWithoutSlash(rest, mode, acc');
  }

  /** "^x" is no exponent, so it is left over, and then it is no token either. */
  lemma RejectsNonNumericExponent()
    ensures ReadUnit("m^x") == Failure(InvalidUnit("^x"))
  {
    var rest := "^x";
    assert "m^x" == "" + ['m'] + rest;
    ReadFactorFailures(rest);
    StopsAfterToken("", 'm', rest, 1, Dimensionless);
  }

  /**
   * A token whose exponent carries a `/q` denominator makes parse_dim fail with
   * std::invalid_argument, whatever follows the first digit of q and wherever it stands.
   */
  lemma FractionalExponentFails(pre: string, c: char, num: string, den: string, mode: int, acc: Dim)
    requires TokenStart(pre, c, "^" + num + ("/" + den))
    requires |num| >= 1 && AllDigits(num) && |den| >= 1 && IsDigit(den[0])
    ensures ParseFrom(pre + [c] + ("^" + num + ("/" + den)), mode, acc) == Failure(InvalidArgument)
  {
    var after := "/" + den;
    var tail := "^" + num + after;
    var s := pre + [c] + tail;
    MatchesToken(pre, c, tail);
    AfterCaret(num, after);
    DigitRunStops(num, after);
    DenominatorGroup(tail, |num|);
    assert Assemble(pre, c, tail).groups[5] == ExponentGroups(tail)[2];
    ReadFactorFailures(s);
    ParseStops(s, mode, acc);
  }

  lemma AfterCaret(num: string, after: string)
    requires |after| >= 2
    ensures ("^" + num + after)[1..] == num + after
    ensures ("^" + num + after)[1 + |num|] == after[0] && ("^" + num + after)[2 + |num|] == after[1]
  {
  }

  lemma FractionalExponentText()
    ensures "" + ['m'] + ("^" + "1" + ("/" + "2")) == "m^1/2"
  {
  }

  /** A fractional exponent reaches std::stoi as "/2", which throws. */
  lemma RejectsFractionalExponent()
    ensures ReadUnit("m^1/2") == Failure(InvalidArgument)
  {
    FractionalExponentFails("", 'm', "1", "2", 1, Dimensionless);
    FractionalExponentText();
  }
}
