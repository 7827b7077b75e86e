/**
 * runtime::Ratio (include/quantity/runtime.hpp, src/runtime_ratio.cpp): an exact rational
 * over unbounded integers. The sign lives in `num` (the intended invariant is `den > 0`),
 * and no operation ever reduces to lowest terms: equality and order are decided by
 * cross-multiplication instead.
 */
module Ratios {
  import opened Wrappers
  import opened Decimal
  import opened Fractions

  datatype Ratio = Ratio(num: int, den: int)

  function AbsInt(x: int): nat { if x < 0 then -x else x }

  /**
   * The constructor `Ratio(n = 0, d = 1)`: a negative denominator has both signs flipped,
   * so the denominator ends up non-negative and the value is unchanged; d = 0 is kept.
   */
  function Make(n: int := 0, d: int := 1): (r: Ratio)
    ensures r.den == AbsInt(d)
  {
    if d < 0 then Ratio(-n, -d) else Ratio(n, d)
  }

  /** `Ratio(n)`: an integer, with denominator 1. */
  function Int(n: int): Ratio { Make(n, 1) }

  /** A ratio that honours the intended invariant. */
  predicate Valid(r: Ratio) { r.den > 0 }

  /** The exact value of a ratio with a non-zero denominator. */
  function Value(r: Ratio): real
    requires r.den != 0
  {
    r.num as real / r.den as real
  }

  /** `a + b`: den is the product of the denominators, never reduced. */
  function Add(a: Ratio, b: Ratio): Ratio
  {
    Make(a.den * b.num + b.den * a.num, a.den * b.den)
  }

  /** Unary minus: negates the numerator, keeps the denominator. */
  function Neg(a: Ratio): (r: Ratio)
    ensures a.den >= 0 ==> r == Ratio(-a.num, a.den)
  {
    Make(-a.num, a.den)
  }

  /** `a - b` is `a + (-b)`. */
  function Sub(a: Ratio, b: Ratio): Ratio
  {
    Add(a, Neg(b))
  }

  /** `a * b`: products of numerators and of denominators, sign-normalised. */
  function Mul(a: Ratio, b: Ratio): Ratio
  {
    Make(a.num * b.num, a.den * b.den)
  }

  /** `a / b`: cross products, sign-normalised. */
  function Div(a: Ratio, b: Ratio): Ratio
  {
    Make(a.num * b.den, a.den * b.num)
  }

  /** `a == b` by cross-multiplication. */
  predicate Eq(a: Ratio, b: Ratio) { a.num * b.den == b.num * a.den }

  /** `a != b` is the negation of `==`. */
  predicate Ne(a: Ratio, b: Ratio) { !Eq(a, b) }

  /** `a >= b` by cross-multiplication. */
  predicate Ge(a: Ratio, b: Ratio) { a.num * b.den >= b.num * a.den }

  /** `abs`: absolute values of both parts. */
  function Abs(a: Ratio): (r: Ratio)
    ensures r.num >= 0 && r.den >= 0
  {
    Make(AbsInt(a.num), AbsInt(a.den))
  }

  /** `operator<<`: the numerator, then "/den" only when den is not 1. */
  function Text(r: Ratio): string
  {
    IntText(r.num) + (if r.den != 1 then "/" + IntText(r.den) else "")
  }

  // ---------------------------------------------------------------------------------
  // Exactness: every operation computes the exact rational result.

  lemma MakeValue(n: int, d: int)
    requires d != 0
    ensures Make(n, d).den > 0
    ensures Value(Make(n, d)) == n as real / d as real
  {
    if d < 0 {
      NegQuotient(n as real, d as real);
    }
  }

  /** The sum is exact, and its denominator is the product of the denominators. */
  lemma AddExact(a: Ratio, b: Ratio)
    requires a.den != 0 && b.den != 0
    ensures Add(a, b).den == AbsInt(a.den * b.den) > 0
    ensures Value(Add(a, b)) == Value(a) + Value(b)
  {
    MakeValue(a.den * b.num + b.den * a.num, a.den * b.den);
    FractionSum(a.num, a.den, b.num, b.den);
  }

  lemma NegExact(a: Ratio)
    requires a.den != 0
    ensures Neg(a).den > 0
    ensures Value(Neg(a)) == -Value(a)
  {
    MakeValue(-a.num, a.den);
    NegFraction(a.num, a.den);
  }

  /** `a - b` is exact. */
  lemma SubExact(a: Ratio, b: Ratio)
    requires a.den != 0 && b.den != 0
    ensures Sub(a, b).den > 0
    ensures Value(Sub(a, b)) == Value(a) - Value(b)
  {
    NegExact(b);
    AddExact(a, Neg(b));
  }

  /** `a * b` is exact, and its denominator is the product of the denominators. */
  lemma MulExact(a: Ratio, b: Ratio)
    requires a.den != 0 && b.den != 0
    ensures Mul(a, b).den == AbsInt(a.den * b.den) > 0
    ensures Value(Mul(a, b)) == Value(a) * Value(b)
  {
    MakeValue(a.num * b.num, a.den * b.den);
    FractionProduct(a.num, a.den, b.num, b.den);
  }

  /** `a / b` is exact when b is not zero; its denominator is `a.den * b.num` up to sign. */
  lemma DivExact(a: Ratio, b: Ratio)
    requires a.den != 0 && b.den != 0 && b.num != 0
    ensures Div(a, b).den == AbsInt(a.den * b.num) > 0
    ensures Value(Div(a, b)) == Value(a) / Value(b)
  {
    MakeValue(a.num * b.den, a.den * b.num);
    FractionProduct(a.num, a.den, b.den, b.num);
    QuotientIsProductWithInverse(b.num as real, b.den as real);
    assert Value(a) / Value(b) == Value(a) * (b.den as real / b.num as real);
  }

  lemma QuotientIsProductWithInverse(n: real, d: real)
    requires n != 0.0 && d != 0.0
    ensures forall x: real {:trigger x / (n / d)} :: x / (n / d) == x * (d / n)
  {
  }

  /** `abs` yields the absolute value. */
  lemma AbsExact(a: Ratio)
    requires a.den != 0
    ensures Abs(a).den > 0
    ensures Value(Abs(a)) == if Value(a) < 0.0 then -Value(a) else Value(a)
  {
    MakeValue(AbsInt(a.num), AbsInt(a.den));
    var n, d := a.num as real, a.den as real;
    NegQuotient(n, d);
    QuotientSign(n, d);
  }

  // ---------------------------------------------------------------------------------
  // Comparisons by cross-multiplication agree with the values.

  lemma CrossMultiplied(a: Ratio, b: Ratio)
    requires a.den != 0 && b.den != 0
    ensures Value(a) - Value(b)
            == (a.num * b.den - b.num * a.den) as real / (a.den * b.den) as real
  {
    FractionSum(a.num, a.den, -b.num, b.den);
    assert (a.den * -b.num + b.den * a.num) == a.num * b.den - b.num * a.den;
    NegFraction(b.num, b.den);
  }

  /** `==` holds exactly when the two values are equal, so unreduced forms compare equal. */
  lemma EqMeansSameValue(a: Ratio, b: Ratio)
    requires a.den != 0 && b.den != 0
    ensures Eq(a, b) <==> Value(a) == Value(b)
  {
    CrossMultiplied(a, b);
    var p := (a.den * b.den) as real;
    assert p != 0.0;
    var q := (a.num * b.den - b.num * a.den) as real;
    assert q / p == 0.0 <==> q == 0.0;
  }

  /** `!=` is the negation of `==`, so it holds exactly when the values differ. */
  lemma NeMeansDifferentValue(a: Ratio, b: Ratio)
    requires a.den != 0 && b.den != 0
    ensures Ne(a, b) <==> Value(a) != Value(b)
  {
    EqMeansSameValue(a, b);
  }

  /** On ratios with non-zero denominators `==` is an equivalence relation. */
  lemma EqIsEquivalence(a: Ratio, b: Ratio, c: Ratio)
    requires a.den != 0 && b.den != 0 && c.den != 0
    ensures Eq(a, a)
    ensures Eq(a, b) ==> Eq(b, a)
    ensures Eq(a, b) && Eq(b, c) ==> Eq(a, c)
  {
    EqMeansSameValue(a, b);
    EqMeansSameValue(b, c);
    EqMeansSameValue(a, c);
  }

  /** With positive denominators `>=` is the numeric order. */
  lemma GeMeansAtLeast(a: Ratio, b: Ratio)
    requires Valid(a) && Valid(b)
    ensures Ge(a, b) <==> Value(a) >= Value(b)
  {
    CrossMultiplied(a, b);
    var p := (a.den * b.den) as real;
    assert p > 0.0;
    var q := (a.num * b.den - b.num * a.den) as real;
    assert q / p >= 0.0 <==> q >= 0.0;
  }

  /** Text of a ratio with denominator 1 is the text of its numerator alone. */
  lemma TextOfInteger(r: Ratio)
    requires r.den == 1
    ensures Text(r) == IntText(r.num)
    ensures Stoi(Text(r)) == Some(r.num)
  {
    StoiReadsIntText(r.num);
  }

  /**
   * Text of a ratio with any other positive denominator: the numerator's text, a slash,
   * and the denominator's text, each of which reads back as the number it came from.
   */
  lemma TextOfFraction(r: Ratio)
    requires r.den > 1
    ensures var k := |IntText(r.num)|;
            k < |Text(r)| && Text(r)[k] == '/'
            && Stoi(Text(r)[..k]) == Some(r.num) && Stoi(Text(r)[k + 1..]) == Some(r.den)
  {
    var k := |IntText(r.num)|;
    assert Text(r)[..k] == IntText(r.num);
    assert Text(r)[k + 1..] == IntText(r.den);
    StoiReadsIntText(r.num);
    StoiReadsIntText(r.den);
  }

  // ---------------------------------------------------------------------------------
  // Worked examples of the operators (test/runtime_ratio_tests.cpp).

  /** Unreduced results compare equal to their reduced forms under `==`. */
  lemma OperatorExamples()
    ensures Neg(Make(7, 8)) == Make(-7, 8)
    ensures Eq(Neg(Make(7, -5)), Make(-7, -5))
    ensures Eq(Sub(Int(12), Make(12, 4)), Int(9))
    ensures Eq(Sub(Int(-12), Make(-12, -4)), Int(-15))
    ensures Eq(Sub(Make(4, 3), Make(3, 4)), Make(7, 12))
    ensures Eq(Add(Int(7), Int(-5)), Int(2))
    ensures Eq(Add(Make(4, 3), Make(3, 4)), Make(25, 12))
    ensures Eq(Add(Int(12), Make(12, 4)), Int(15))
    ensures Eq(Add(Make(4, 3), Make(3, 2)), Make(17, 6))
    ensures Eq(Mul(Int(3), Int(-2)), Int(-6))
    ensures Eq(Mul(Make(4, 3), Make(3, 4)), Int(1))
    ensures Eq(Mul(Int(6), Make(5, 4)), Make(15, 2))
    ensures Eq(Mul(Make(4, 3), Make(3, 2)), Make(12, 6))
    ensures Eq(Div(Make(-12, 1), Make(-4, 1)), Make(-12, -4))
    ensures Eq(Div(Make(4, 3), Make(3, 2)), Make(8, 9))
    ensures Eq(Make(5 * 3, 2 * 3), Make(5, 2))
    ensures Ne(Make(5 * 3, 2 * 3), Make(6, 2))
    ensures !Ge(Make(-12, -4), Int(6))
    ensures Make() == Ratio(0, 1)
  {
  }
}
