/**
 * What the steps of the printer (src/io.cpp:145-261) guarantee: C++ division against
 * Euclidean division, the prefix table against the parser's table, what
 * print_single_dimension writes for whole-number exponents, and how much of the factor
 * each written token accounts for.
 */
module PrinterFacts {
  import opened Wrappers
  import opened Ratios
  import opened Runtime
  import opened IoErrors
  import opened Scanner
  import opened Parser
  import opened Printer

  // ---------------------------------------------------------------------------------
  // C++ division.

  lemma AbsOfProduct(q: int, d: int)
    ensures AbsInt(q * d) == AbsInt(q) * AbsInt(d)
  {
    if q < 0 && d < 0 {
      assert q * d == (-q) * (-d);
    } else if q < 0 {
      assert -(q * d) == (-q) * d;
    } else if d < 0 {
      assert -(q * d) == q * (-d);
    }
  }

  /** A product of non-negative numbers, one of them at least one, is at least the other. */
  lemma ProductAtLeast(b: int, k: int)
    requires b > 0 && k >= 1
    ensures b * k >= b
  {
    assert b * k == b * (k - 1) + b;
  }

  /** A multiple of `b` that lies in [0, b) is zero. */
  lemma {:induction false} SmallMultiple(b: int, k: int)
    requires b > 0 && 0 <= b * k < b
    ensures k == 0
  {
    if k >= 1 {
      ProductAtLeast(b, k);
    } else if k <= -1 {
      ProductAtLeast(b, -k);
    }
  }

  /** Euclidean division of a multiple: `(q * b) / b == q` and nothing is left over. */
  lemma {:induction false} ModOfMultiple(q: int, b: int)
    requires b != 0
    ensures (q * b) % b == 0 && (q * b) / b == q
  {
    var a := q * b;
    var x, r := a / b, a % b;
    assert a == b * x + r && 0 <= r < AbsInt(b);
    if b > 0 {
      assert b * (q - x) == r;
      SmallMultiple(b, q - x);
    } else {
      assert (-b) * (x - q) == r;
      SmallMultiple(-b, x - q);
    }
  }

  /** A multiple of `d` divides by `d` exactly, with nothing left over, whatever the signs. */
  lemma {:induction false} TruncDivMultiple(q: int, d: int)
    requires d != 0
    ensures TruncDiv(q * d, d) == q && TruncRem(q * d, d) == 0
  {
    AbsOfProduct(q, d);
    ModOfMultiple(AbsInt(q), AbsInt(d));
  }

  /**
   * When C++ division leaves nothing over, it agrees with Dafny's: the remainders are zero
   * together, and then the quotients are equal.
   */
  lemma {:induction false} TruncAgrees(a: int, b: int)
    requires b != 0
    ensures TruncRem(a, b) == 0 <==> a % b == 0
    ensures a % b == 0 ==> TruncDiv(a, b) == a / b
  {
    if TruncRem(a, b) == 0 {
      var q := TruncDiv(a, b);
      assert a == q * b;
      ModOfMultiple(q, b);
    }
    if a % b == 0 {
      var q := a / b;
      assert a == b * q;
      TruncDivMultiple(q, b);
    }
  }

  /**
   * The printer's test on the prefix power: it is a whole multiple of three, 3k, exactly when
   * the numerator is 3k times the denominator.
   */
  lemma WholeMultipleOfThreeExactly(p: Ratio, k: int)
    requires Valid(p)
    ensures (WholeMultipleOfThree(p) && TruncDiv(p.num, p.den) == 3 * k) <==> p.num == 3 * k * p.den
  {
    if p.num == 3 * k * p.den {
      TruncDivMultiple(3 * k, p.den);
      assert 3 * k * p.den == (3 * k) * p.den;
      TruncDivMultiple(k, 3);
    }
  }

  // ---------------------------------------------------------------------------------
  // The prefix table.

  /** `si_prefix` knows exactly twelve powers of ten. */
  lemma SiPrefixDomain(exp: int)
    ensures SiPrefix(exp).Success? <==> exp in {-12, -9, -6, -3, -2, -1, 0, 2, 3, 6, 9, 12}
  {
  }

  /**
   * Every multiple of three in [-12, 12] has a prefix, and the parser reads that prefix back
   * as the same power of ten.
   */
  lemma SiPrefixReadBack(exp: int)
    requires exp % 3 == 0 && -12 <= exp <= 12
    ensures SiPrefix(exp).Success?
    ensures |SiPrefix(exp).value| <= 1
    ensures SiPrefix(exp).value != "" ==> IsPrefixLetter(SiPrefix(exp).value[0])
    ensures PrefixExponent(SiPrefix(exp).value) == exp
  {
  }

  /** The two tables disagree on 'd': it is printed for 10^-1 but read as 10^1. */
  lemma DeciMismatch()
    ensures SiPrefix(-1) == Success("d") && PrefixExponent("d") == 1
  {
  }

  // ---------------------------------------------------------------------------------
  // How much of the factor a written prefix accounts for.

  /**
   * The intended step: the factor left after a prefix of power `q` is written for `c.unit`
   * to the power `exponent` drops by exactly what the written token stands for, `q` (plus 6
   * for a tonne, in grams) times the exponent.
   */
  lemma TakePrefixConserves(c: Choice, exponent: Ratio, factor: Ratio, q: int)
    requires Valid(c.prefix) && Valid(exponent) && Valid(factor) && Value(c.prefix) == q as real
    ensures Value(TakePrefixIntended(c, exponent, factor))
            == Value(factor) - ((q + if c.unit == 't' then 6 else 0) as real) * Value(exponent)
  {
    var taken := Mul(c.prefix, exponent);
    MulExact(c.prefix, exponent);
    SubExact(factor, taken);
    var f := Sub(factor, taken);
    if c.unit == 't' {
      MulExact(Int(6), exponent);
      MakeValue(6, 1);
      SubExact(f, Mul(Int(6), exponent));
    }
  }

  /**
   * The step as src/io.cpp:186-189 writes it: for a tonne it leaves 6 * (exponent - 1) more
   * of the factor than the intended step, so the two agree only for an exponent of 1; for
   * every other unit they are the same function.
   */
  lemma TakePrefixShortfall(c: Choice, exponent: Ratio, factor: Ratio)
    requires Valid(c.prefix) && Valid(exponent) && Valid(factor)
    ensures c.unit != 't' ==> TakePrefix(c, exponent, factor) == TakePrefixIntended(c, exponent, factor)
    ensures c.unit == 't' ==>
              Value(TakePrefix(c, exponent, factor))
              == Value(TakePrefixIntended(c, exponent, factor)) + 6.0 * (Value(exponent) - 1.0)
  {
    if c.unit == 't' {
      var f := Sub(factor, Mul(c.prefix, exponent));
      KeepsValid(c.prefix, exponent);
      KeepsValid(factor, Mul(c.prefix, exponent));
      SubExact(f, Int(6));
      MakeValue(6, 1);
      MulExact(Int(6), exponent);
      SubExact(f, Mul(Int(6), exponent));
    }
  }

  /**
   * print_single_dimension on grams squared with 10^18 grams to spread: it writes `kt^2`,
   * which stands for (10^9 g)^2, yet as written 10^6 of the factor is left over for the
   * exponents that follow; the intended step leaves nothing.
   */
  lemma SingleDimensionLeavesFactor()
    ensures SingleDimension('g', Make(2, 1), Make(18, 1)).text == "kt^2"
    ensures SingleDimension('g', Make(2, 1), Make(18, 1)).factor.Success?
    ensures Eq(SingleDimension('g', Make(2, 1), Make(18, 1)).factor.value, Make(6, 1))
    ensures SingleDimensionIntended('g', Make(2, 1), Make(18, 1)).text == "kt^2"
    ensures SingleDimensionIntended('g', Make(2, 1), Make(18, 1)).factor.Success?
    ensures Eq(SingleDimensionIntended('g', Make(2, 1), Make(18, 1)).factor.value, Make(0, 1))
  {
    var two, eighteen := Make(2, 1), Make(18, 1);
    assert two == Ratio(2, 1) && eighteen == Ratio(18, 1);
    var c := Choose('g', two, eighteen);
    assert Div(eighteen, two) == Ratio(18, 2);
    assert c == Choice('t', Ratio(6, 2));
    assert TruncDiv(6, 2) == 3 && TruncRem(6, 2) == 0 && TruncRem(3, 3) == 0;
    assert SiPrefix(3) == Success("k");
    assert ExponentText(two) == "^2";
    assert Mul(c.prefix, two) == Ratio(12, 2);
    assert Sub(eighteen, Ratio(12, 2)) == Ratio(24, 2);
    assert TakePrefix(c, two, eighteen) == Ratio(12, 2);
    assert Mul(Int(6), two) == Ratio(12, 1);
    assert TakePrefixIntended(c, two, eighteen) == Ratio(0, 2);
  }

  // ---------------------------------------------------------------------------------
  // Numerator and denominator.

  /**
   * split_ratio on one exponent, starting from 0/1 on both sides: the two halves differ by the
   * exponent; the denominator is a non-negative whole number, and when it is not zero the
   * numerator is left at 0/1.
   */
  lemma HalvesMeaning(r: Ratio)
    requires Valid(r)
    ensures var (n, d) := Halves(r, Make(0, 1), Make(0, 1));
            && Valid(n) && Valid(d)
            && Value(n) - Value(d) == Value(r)
            && d.den == 1 && d.num >= 0
            && (d.num != 0 ==> n == Ratio(0, 1))
  {
    MakeValue(0, 1);
    if r.num < 0 && r.den == 1 {
      assert Neg(r) == Ratio(-r.num, 1);
    }
  }

  /**
   * The two groups operator<< writes stand for the dimension: numerator minus denominator is
   * each exponent; the denominator holds only non-negative whole exponents and no power of ten.
   */
  lemma FractionMeaning(dim: Dim)
    requires ValidDim(dim)
    ensures var (num, den) := Fraction(dim);
            && Value(num.length) - Value(den.length) == Value(dim.length)
            && Value(num.mass) - Value(den.mass) == Value(dim.mass)
            && Value(num.time) - Value(den.time) == Value(dim.time)
            && den.length.den == 1 && den.length.num >= 0
            && den.mass.den == 1 && den.mass.num >= 0
            && den.time.den == 1 && den.time.num >= 0
            && den.factor == Ratio(0, 1)
  {
    assert Dimensionless == Dim(Ratio(0, 1), Ratio(0, 1), Ratio(0, 1), Ratio(0, 1));
    HalvesMeaning(dim.length);
    HalvesMeaning(dim.mass);
    HalvesMeaning(dim.time);
    MakeValue(0, 1);
  }
}
