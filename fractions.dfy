/** Facts about fractions of integers, shared by the runtime and the compile-time ratios. */
module Fractions {

  lemma FractionSum(an: int, ad: int, bn: int, bd: int)
    requires ad != 0 && bd != 0
    ensures (ad * bn + bd * an) as real / (ad * bd) as real
            == an as real / ad as real + bn as real / bd as real
  {
    var x, y := ad as real, bd as real;
    assert (ad * bd) as real == x * y;
    assert (ad * bn + bd * an) as real == x * bn as real + y * an as real;
    calc {
      (x * bn as real + y * an as real) / (x * y);
      x * bn as real / (x * y) + y * an as real / (x * y);
      bn as real / y + an as real / x;
    }
  }

  lemma FractionProduct(an: int, ad: int, bn: int, bd: int)
    requires ad != 0 && bd != 0
    ensures (an * bn) as real / (ad * bd) as real
            == (an as real / ad as real) * (bn as real / bd as real)
  {
    assert (an * bn) as real == an as real * bn as real;
    assert (ad * bd) as real == ad as real * bd as real;
  }

  /** Two fractions are equal exactly when their cross products are. */
  lemma CrossEqual(an: int, ad: int, bn: int, bd: int)
    requires ad != 0 && bd != 0
    ensures an * bd == bn * ad <==> an as real / ad as real == bn as real / bd as real
  {
    var x, y := ad as real, bd as real;
    assert (an * bd) as real == an as real * y;
    assert (bn * ad) as real == bn as real * x;
    assert an as real / x == (an as real * y) / (x * y);
    assert bn as real / y == (bn as real * x) / (x * y);
  }

  lemma NegFraction(n: int, d: int)
    requires d != 0
    ensures (-n) as real / d as real == -(n as real / d as real)
  {
    NegQuotient(n as real, d as real);
  }

  /** A quotient is the number that gives the dividend when multiplied by the divisor. */
  lemma QuotientOf(x: real, y: real, q: real)
    requires y != 0.0 && q * y == x
    ensures x / y == q
  {
  }

  /** Negating the dividend or the divisor negates the quotient; negating both keeps it. */
  lemma NegQuotient(x: real, y: real)
    requires y != 0.0
    ensures (-x) / y == -(x / y) && x / (-y) == -(x / y) && (-x) / (-y) == x / y
  {
    var q := x / y;
    assert q * y == x;
    QuotientOf(-x, y, -q);
    QuotientOf(x, -y, -q);
    QuotientOf(-x, -y, q);
  }

  /** A quotient is negative exactly when dividend and divisor have opposite signs. */
  lemma QuotientSign(x: real, y: real)
    requires y != 0.0
    ensures x / y < 0.0 <==> (x < 0.0 && y > 0.0) || (x > 0.0 && y < 0.0)
  {
    var q := x / y;
    assert q * y == x;
    if q < 0.0 && y > 0.0 {
      assert q * y < 0.0;
    } else if q < 0.0 {
      assert q * y > 0.0;
    } else if y > 0.0 {
      assert q * y >= 0.0;
    } else {
      assert q * y <= 0.0;
    }
  }
}
