/**
 * What operator<< (src/io.cpp:223-261) writes for the dimensions of test/io_tests.cpp:60-91,
 * built from what each print_single_dimension step writes.
 */
module PrinterChecks {
  import opened Wrappers
  import opened Decimal
  import opened Ratios
  import opened Runtime
  import opened IoErrors
  import opened Parser
  import opened Printer
  import opened PrinterFacts
  import opened RoundTrip

  // ---------------------------------------------------------------------------------
  // Single steps.

  lemma ExponentOne()
    ensures ExponentText(Int(1)) == ""
  {
  }

  lemma ExponentTwo()
    ensures ExponentText(Int(2)) == "^2"
  {
    TextOfInteger(Int(2));
    assert IntText(2) == "2";
  }

  /** A factor of e = 3q per unit of the exponent k: the prefix of 10^e, and nothing is left. */
  lemma PrefixStep(u: char, k: int, n: int, q: int, letter: string)
    requires k >= 1 && u != 't' && n == 3 * q * k && SiPrefix(3 * q) == Success(letter)
    requires u == 'g' ==> q <= 1
    ensures SingleDimension(u, Int(k), Int(n)).factor.Success?
    ensures SingleDimension(u, Int(k), Int(n)).factor.value.num == 0
    ensures SingleDimension(u, Int(k), Int(n)).text == letter + [u] + ExponentText(Int(k))
  {
    var p := Div(Int(n), Int(k));
    assert p == Ratio(n, k);
    WholeMultipleOfThreeExactly(p, q);
    if u == 'g' {
      assert !Ge(p, Int(6)) by {
        assert n * 1 == (3 * q) * k <= 3 * k < 6 * k;
      }
    }
    assert Choose(u, Int(k), Int(n)) == Choice(u, p);
    TakeWholePrefix(u, k, n);
  }

  /**
   * Grams with 10^6 or more per unit of the exponent: tonnes, with the prefix of the rest;
   * as written, 6 * (k - 1) of the factor is left over.
   */
  lemma TonneStep(k: int, n: int, q: int, letter: string)
    requires k >= 1 && q >= 0 && n == (3 * q + 6) * k && SiPrefix(3 * q) == Success(letter)
    ensures SingleDimension('g', Int(k), Int(n)).factor.Success?
    ensures SingleDimension('g', Int(k), Int(n)).factor.value == Ratio(6 * k * (k - 1), k)
    ensures SingleDimension('g', Int(k), Int(n)).text == letter + "t" + ExponentText(Int(k))
  {
    var c := TonneChoice(k, n, q);
    WholeMultipleOfThreeExactly(c.prefix, q);
    TonneLeaves(c, k, n, q);
  }

  /** The choice for such grams: tonnes, with 3q per unit of the exponent left for the prefix. */
  lemma TonneChoice(k: int, n: int, q: int) returns (c: Choice)
    requires k >= 1 && q >= 0 && n == (3 * q + 6) * k
    ensures c == Choose('g', Int(k), Int(n)) && c.unit == 't' && c.prefix == Ratio(3 * q * k, k)
  {
    var p := Div(Int(n), Int(k));
    var r := 3 * q * k;
    assert n == r + 6 * k && r >= 0 by {
      assert (3 * q + 6) * k == 3 * q * k + 6 * k;
    }
    assert p == Ratio(n, k) by {
      assert n * 1 == n && 1 * k == k;
    }
    assert Ge(p, Int(6)) by {
      assert n * 1 >= 6 * k;
    }
    c := Choice('t', Sub(p, Int(6)));
    assert c.prefix == Ratio(r, k) by {
      assert Neg(Int(6)) == Ratio(-6, 1);
      assert k * -6 + 1 * n == r && k * 1 == k;
    }
  }

  /** What a tonne step takes off a factor n: its prefix 3q, k times over, and a flat 6. */
  lemma TonneLeaves(c: Choice, k: int, n: int, q: int)
    requires c.unit == 't' && k >= 1 && c.prefix == Ratio(3 * q * k, k) && n == (3 * q + 6) * k
    ensures TakePrefix(c, Int(k), Int(n)) == Ratio(6 * k * (k - 1), k)
  {
    var r := 3 * q * k;
    assert Mul(c.prefix, Int(k)) == Ratio(r * k, k);
    var f := Sub(Int(n), Ratio(r * k, k));
    assert f == Ratio(6 * k * k, k) by {
      assert Neg(Ratio(r * k, k)) == Ratio(-(r * k), k);
      assert 1 * -(r * k) + k * n == 6 * k * k by {
        assert k * n == r * k + 6 * k * k;
      }
    }
    assert Sub(f, Int(6)) == Ratio(6 * k * (k - 1), k) by {
      assert Neg(Int(6)) == Ratio(-6, 1);
      assert k * -6 + 1 * (6 * k * k) == 6 * k * (k - 1);
    }
  }

  /** Nothing left to spread: the unit and its exponent, or nothing for a zero exponent. */
  lemma PlainText(u: char, k: int, f: Ratio)
    requires Valid(f) && f.num == 0 && u != 't'
    ensures SingleDimension(u, Int(k), f).factor.Success?
    ensures SingleDimension(u, Int(k), f).factor.value.num == 0
    ensures SingleDimension(u, Int(k), f).text == if k == 0 then "" else [u] + ExponentText(Int(k))
  {
    ZeroFactorStep(u, k, f);
    TokText("", u, k);
  }

  // ---------------------------------------------------------------------------------
  // Whole groups and whole dimensions.

  /** `print`: the three steps in turn, the factor passed along, and their texts joined. */
  lemma GroupWritten(dim: Dim, f: Ratio, gt: string, st: string, mt: string, full: string)
    requires ValidDim(dim) && Valid(f)
    requires SingleDimension('g', dim.mass, f).factor.Success?
    requires SingleDimension('g', dim.mass, f).text == gt
    requires SingleDimension('s', dim.time, SingleDimension('g', dim.mass, f).factor.value).factor.Success?
    requires SingleDimension('s', dim.time, SingleDimension('g', dim.mass, f).factor.value).text == st
    requires SingleDimension('m', dim.length,
               SingleDimension('s', dim.time, SingleDimension('g', dim.mass, f).factor.value).factor.value).factor.Success?
    requires SingleDimension('m', dim.length,
               SingleDimension('s', dim.time, SingleDimension('g', dim.mass, f).factor.value).factor.value).text == mt
    requires gt + st + mt == full
    ensures Group(dim, f).text == full && Group(dim, f).factor.Success?
  {
  }

  /** operator<< with no compound symbol and nothing in the denominator. */
  lemma RenderAlone(d: Dim, f: Ratio, num: Dim, den: Dim, nt: string)
    requires ValidDim(d) && CompoundOf(d).None? && f == Add(d.factor, Mul(Int(3), d.mass)) && Valid(f)
    requires Fraction(d) == (num, den) && den.mass.num == 0 && den.time.num == 0 && den.length.num == 0
    requires Group(num, f).text == nt && Group(num, f).factor.Success?
    ensures Render(d) == Written(nt, None)
  {
    RenderPlain(d, f);
    RenderFractionAlone(d, f, num, den);
  }

  /** operator<< with no compound symbol and a denominator after '/'. */
  lemma RenderSplit(d: Dim, f: Ratio, num: Dim, den: Dim, nt: string, dt: string, full: string)
    requires ValidDim(d) && CompoundOf(d).None? && f == Add(d.factor, Mul(Int(3), d.mass)) && Valid(f)
    requires Fraction(d) == (num, den) && (den.mass.num != 0 || den.time.num != 0 || den.length.num != 0)
    requires Group(num, f).text == nt && Group(num, f).factor.Success?
    requires Group(den, Int(0)).text == dt && Group(den, Int(0)).factor.Success?
    requires nt + "/" + dt == full
    ensures Render(d) == Written(full, None)
  {
    RenderPlain(d, f);
    RenderFractionSplit(d, f, num, den);
  }

  /** W, J and N all need a kilogram, a metre and an inverse square second. */
  lemma NoCompound(l: int, m: int, t: int, f: int)
    requires m < 1 || l < 1 || t > -2
    ensures CompoundOf(Whole(l, m, t, f)).None?
  {
  }

  /**
   * `split_dim` of whole exponents with any factor: the positive exponents above the line and
   * the negated negative ones below it, unless nothing is positive.
   */
  lemma FractionAt(l: int, m: int, t: int, f: int)
    ensures Fraction(Whole(l, m, t, f))
            == if l <= 0 && m <= 0 && t <= 0 then (Whole(l, m, t, f), Whole(0, 0, 0, 0))
               else (Whole(Up(l), Up(m), Up(t), 0), Whole(Up(-l), Up(-m), Up(-t), 0))
  {
    assert Dimensionless == Whole(0, 0, 0, 0);
  }

  /** operator<< of whole non-negative exponents (l, m, t) and 10^f: the numerator alone. */
  lemma RenderWholeAlone(l: int, m: int, t: int, f: int, n: int, nt: string)
    requires m < 1 || l < 1 || t > -2
    requires l >= 0 && m >= 0 && t >= 0 && !(l == 0 && m == 0 && t == 0) && n == f + 3 * m
    requires Group(Whole(l, m, t, 0), Int(n)).text == nt && Group(Whole(l, m, t, 0), Int(n)).factor.Success?
    ensures Render(Whole(l, m, t, f)) == Written(nt, None)
  {
    NoCompound(l, m, t, f);
    FractionAt(l, m, t, f);
    StartFactor(l, m, t, f, n);
    RenderAlone(Whole(l, m, t, f), Int(n), Whole(l, m, t, 0), Whole(0, 0, 0, 0), nt);
  }

  /** operator<< of whole exponents, some positive and some negative, and 10^f. */
  lemma RenderWholeSplit(l: int, m: int, t: int, f: int, n: int, num: Dim, den: Dim, nt: string, dt: string, full: string)
    requires m < 1 || l < 1 || t > -2
    requires (l > 0 || m > 0 || t > 0) && (l < 0 || m < 0 || t < 0) && n == f + 3 * m
    requires num == Whole(Up(l), Up(m), Up(t), 0) && den == Whole(Up(-l), Up(-m), Up(-t), 0)
    requires Group(num, Int(n)).text == nt && Group(num, Int(n)).factor.Success?
    requires Group(den, Int(0)).text == dt && Group(den, Int(0)).factor.Success?
    requires nt + "/" + dt == full
    ensures Render(Whole(l, m, t, f)) == Written(full, None)
  {
    NoCompound(l, m, t, f);
    FractionAt(l, m, t, f);
    StartFactor(l, m, t, f, n);
    RenderSplit(Whole(l, m, t, f), Int(n), num, den, nt, dt, full);
  }

  // ---------------------------------------------------------------------------------
  // The groups the test dimensions print.

  /** An exponent of zero writes nothing and passes the factor on. */
  lemma ZeroExponent(u: char, f: Ratio)
    requires Valid(f)
    ensures SingleDimension(u, Int(0), f) == Printed("", Success(f))
  {
  }

  /** Grams alone, to the power k: what the gram step writes; the rest passes through. */
  lemma MassGroup(k: int, f: Ratio, text: string)
    requires Valid(f) && SingleDimension('g', Int(k), f).factor.Success?
    requires SingleDimension('g', Int(k), f).text == text
    ensures Group(Whole(0, k, 0, 0), f).text == text && Group(Whole(0, k, 0, 0), f).factor.Success?
  {
    var f1 := SingleDimension('g', Int(k), f).factor.value;
    ZeroExponent('s', f1);
    ZeroExponent('m', f1);
    GroupWritten(Whole(0, k, 0, 0), f, text, "", "", text);
  }

  /** Seconds alone, to the power k, with nothing to spread. */
  lemma SecondGroup(k: int, text: string)
    requires k != 0 && text == ['s'] + ExponentText(Int(k))
    ensures Group(Whole(0, 0, k, 0), Int(0)).text == text && Group(Whole(0, 0, k, 0), Int(0)).factor.Success?
  {
    ZeroExponent('g', Int(0));
    PlainText('s', k, Int(0));
    var f2 := SingleDimension('s', Int(k), Int(0)).factor.value;
    PlainText('m', 0, f2);
    GroupWritten(Whole(0, 0, k, 0), Int(0), "", text, "", text);
  }

  /** Metres alone, to the power k: what the metre step writes. */
  lemma MetreGroup(k: int, f: Ratio, text: string)
    requires Valid(f) && SingleDimension('m', Int(k), f).factor.Success? && SingleDimension('m', Int(k), f).text == text
    ensures Group(Whole(k, 0, 0, 0), f).text == text && Group(Whole(k, 0, 0, 0), f).factor.Success?
  {
    ZeroExponent('g', f);
    ZeroExponent('s', f);
    GroupWritten(Whole(k, 0, 0, 0), f, "", "", text, text);
  }

  /** Grams then metres, each to the power 1: the gram step, then a bare `m`. */
  lemma MassMetreGroup(f: Ratio, gt: string, text: string)
    requires Valid(f) && SingleDimension('g', Int(1), f).factor.Success?
    requires SingleDimension('g', Int(1), f).factor.value.num == 0 && SingleDimension('g', Int(1), f).text == gt
    requires text == gt + "m"
    ensures Group(Whole(1, 1, 0, 0), f).text == text && Group(Whole(1, 1, 0, 0), f).factor.Success?
  {
    ExponentOne();
    var f1 := SingleDimension('g', Int(1), f).factor.value;
    PlainText('s', 0, f1);
    var f2 := SingleDimension('s', Int(0), f1).factor.value;
    PlainText('m', 1, f2);
    GroupWritten(Whole(1, 1, 0, 0), f, gt, "", "m", text);
  }

  /** The factor operator<< starts from: the extra power of ten plus 3 per kilogram. */
  lemma StartFactor(l: int, m: int, t: int, f: int, n: int)
    requires n == f + 3 * m
    ensures Add(Whole(l, m, t, f).factor, Mul(Int(3), Whole(l, m, t, f).mass)) == Int(n)
  {
    assert Mul(Int(3), Int(m)) == Ratio(3 * m, 1);
    assert Add(Int(f), Ratio(3 * m, 1)) == Make(1 * (3 * m) + 1 * f, 1 * 1);
  }

  // ---------------------------------------------------------------------------------
  // The dimensions of test/io_tests.cpp:60-91 and what operator<< writes for them.

  /** G = (0, 1, 0) with 10^-3: "g". */
  lemma WritesGram()
    ensures Render(Whole(0, 1, 0, -3)) == Written("g", None)
  {
    ExponentOne();
    PlainText('g', 1, Int(0));
    MassGroup(1, Int(0), "g");
    RenderWholeAlone(0, 1, 0, -3, 0, "g");
  }

  /** M = (1, 0, 0): "m". */
  lemma WritesMetre()
    ensures Render(Whole(1, 0, 0, 0)) == Written("m", None)
  {
    ExponentOne();
    PlainText('m', 1, Int(0));
    MetreGroup(1, Int(0), "m");
    RenderWholeAlone(1, 0, 0, 0, 0, "m");
  }

  /** S = (0, 0, 1): "s". */
  lemma WritesSecond()
    ensures Render(Whole(0, 0, 1, 0)) == Written("s", None)
  {
    ExponentOne();
    SecondGroup(1, "s");
    RenderWholeAlone(0, 0, 1, 0, 0, "s");
  }

  /** KG = (0, 1, 0): "kg". */
  lemma WritesKilogram()
    ensures Render(Whole(0, 1, 0, 0)) == Written("kg", None)
  {
    ExponentOne();
    PrefixStep('g', 1, 3, 1, "k");
    MassGroup(1, Int(3), "kg");
    RenderWholeAlone(0, 1, 0, 0, 3, "kg");
  }

  /** KM = (1, 0, 0) with 10^3: "km". */
  lemma WritesKilometre()
    ensures Render(Whole(1, 0, 0, 3)) == Written("km", None)
  {
    ExponentOne();
    PrefixStep('m', 1, 3, 1, "k");
    MetreGroup(1, Int(3), "km");
    RenderWholeAlone(1, 0, 0, 3, 3, "km");
  }

  /** MPS = (1, 0, -1): "m/s". */
  lemma WritesMetrePerSecond()
    ensures Render(Whole(1, 0, -1, 0)) == Written("m/s", None)
  {
    ExponentOne();
    assert "m/s" == "m" + "/" + "s";
    SecondGroup(1, "s");
    PlainText('m', 1, Int(0));
    MetreGroup(1, Int(0), "m");
    RenderWholeSplit(1, 0, -1, 0, 0, Whole(1, 0, 0, 0), Whole(0, 0, 1, 0),
                     "m", "s", "m/s");
  }

  /** M2 = (2, 0, 0): "m^2". */
  lemma WritesSquareMetre()
    ensures Render(Whole(2, 0, 0, 0)) == Written("m^2", None)
  {
    ExponentTwo();
    PlainText('m', 2, Int(0));
    MetreGroup(2, Int(0), "m^2");
    RenderWholeAlone(2, 0, 0, 0, 0, "m^2");
  }

  /** KM2 = (2, 0, 0) with 10^6: "km^2". */
  lemma WritesSquareKilometre()
    ensures Render(Whole(2, 0, 0, 6)) == Written("km^2", None)
  {
    ExponentTwo();
    PrefixStep('m', 2, 6, 1, "k");
    MetreGroup(2, Int(6), "km^2");
    RenderWholeAlone(2, 0, 0, 6, 6, "km^2");
  }

  /** TON = (0, 1, 0) with 10^3: "t". */
  lemma WritesTonne()
    ensures Render(Whole(0, 1, 0, 3)) == Written("t", None)
  {
    assert SiPrefix(0) == Success("");
    ExponentOne();
    assert "" + "t" + ExponentText(Int(1)) == "t";
    TonneStep(1, 6, 0, "");
    MassGroup(1, Int(6), "t");
    RenderWholeAlone(0, 1, 0, 3, 6, "t");
  }

  /** KT = (0, 1, 0) with 10^6: "kt". */
  lemma WritesKilotonne()
    ensures Render(Whole(0, 1, 0, 6)) == Written("kt", None)
  {
    ExponentOne();
    TonneStep(1, 9, 1, "k");
    MassGroup(1, Int(9), "kt");
    RenderWholeAlone(0, 1, 0, 6, 9, "kt");
  }

  /** KT2 = (0, 2, 0) with 10^12: "kt^2". */
  lemma WritesSquareKilotonne()
    ensures Render(Whole(0, 2, 0, 12)) == Written("kt^2", None)
  {
    ExponentTwo();
    assert "k" + "t" + ExponentText(Int(2)) == "kt^2";
    TonneStep(2, 18, 1, "k");
    MassGroup(2, Int(18), "kt^2");
    RenderWholeAlone(0, 2, 0, 12, 18, "kt^2");
  }

  /**
   * (1, 2, 0) with 10^12, kilotonnes squared times metres: as written the tonne step leaves
   * 10^6 over and the metre step writes it as a prefix, "kt^2Mm"; with the intended step
   * nothing is left and the text would be "kt^2m".
   */
  lemma WritesSquareKilotonneMegametre()
    ensures Render(Whole(1, 2, 0, 12)) == Written("kt^2Mm", None)
  {
    ExponentOne();
    ExponentTwo();
    assert "k" + "t" + ExponentText(Int(2)) == "kt^2";
    TonneStep(2, 18, 1, "k");
    var f1 := Ratio(12, 2);
    ZeroExponent('s', f1);
    MegaMetre(f1);
    GroupWritten(Whole(1, 2, 0, 0), Int(18), "kt^2", "", "Mm", "kt^2Mm");
    RenderWholeAlone(1, 2, 0, 12, 18, "kt^2Mm");
  }

  /** A metre step with 10^6 to spread writes it as the prefix `M`. */
  lemma MegaMetre(f: Ratio)
    requires f == Ratio(12, 2)
    ensures SingleDimension('m', Int(1), f).factor.Success?
    ensures SingleDimension('m', Int(1), f).text == "Mm"
  {
    ExponentOne();
    assert Div(f, Int(1)) == Ratio(12, 2);
    assert Choose('m', Int(1), f) == Choice('m', Ratio(12, 2));
    assert TruncDiv(12, 2) == 6 && TruncRem(12, 2) == 0 && TruncRem(6, 3) == 0;
    assert SiPrefix(6) == Success("M");
    assert "M" + ['m'] + ExponentText(Int(1)) == "Mm";
  }

  /** KGMS = (1, 1, -1): "kgm/s". */
  lemma WritesKilogramMetrePerSecond()
    ensures Render(Whole(1, 1, -1, 0)) == Written("kgm/s", None)
  {
    ExponentOne();
    assert "kgm/s" == "kgm" + "/" + "s" && "kgm" == "kg" + "m";
    assert "k" + ['g'] + ExponentText(Int(1)) == "kg";
    SecondGroup(1, "s");
    PrefixStep('g', 1, 3, 1, "k");
    MassMetreGroup(Int(3), "kg", "kgm");
    RenderWholeSplit(1, 1, -1, 0, 3, Whole(1, 1, 0, 0), Whole(0, 0, 1, 0),
                     "kgm", "s", "kgm/s");
  }

  /** TMS = (1, 1, -1) with 10^3: "tm/s", tonnes chosen over kilograms. */
  lemma WritesTonneMetrePerSecond()
    ensures Render(Whole(1, 1, -1, 3)) == Written("tm/s", None)
  {
    assert SiPrefix(0) == Success("");
    ExponentOne();
    assert "tm/s" == "tm" + "/" + "s" && "tm" == "t" + "m";
    assert "" + "t" + ExponentText(Int(1)) == "t";
    SecondGroup(1, "s");
    TonneStep(1, 6, 0, "");
    MassMetreGroup(Int(6), "t", "tm");
    RenderWholeSplit(1, 1, -1, 3, 6, Whole(1, 1, 0, 0), Whole(0, 0, 1, 0),
                     "tm", "s", "tm/s");
  }

  /** A metre step whose prefix power, -15, is not in the table: si_prefix throws. */
  lemma MetreStepFails()
    ensures SingleDimension('m', Int(1), Int(-15)) == Printed("", Failure(UnknownExponent(-15)))
  {
    var p := Div(Int(-15), Int(1));
    assert p == Ratio(-15, 1);
    WholeMultipleOfThreeExactly(p, -5);
    assert Choose('m', Int(1), Int(-15)) == Choice('m', p);
  }

  /**
   * (1, -5, 0): the metre in the numerator must carry the whole 10^-15 of the grams in the
   * denominator, and there is no prefix for it, so nothing is written and the exception escapes.
   */
  lemma RenderOutOfRange()
    ensures Render(Whole(1, -5, 0, 0)) == Written("", Some(UnknownExponent(-15)))
  {
    var d, num := Whole(1, -5, 0, 0), Whole(1, 0, 0, 0);
    StartFactor(1, -5, 0, 0, -15);
    assert CompoundOf(d).None?;
    ZeroExponent('g', Int(-15));
    ZeroExponent('s', Int(-15));
    MetreStepFails();
    assert Group(num, Int(-15)) == Printed("", Failure(UnknownExponent(-15)));
    assert Fraction(d) == (num, Whole(0, 5, 0, 0));
    RenderPlain(d, Int(-15));
  }
}
