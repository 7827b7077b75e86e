/**
 * operator<< (src/io.cpp:223-261) followed by parse_dim (src/io.cpp:124-141): a dimension
 * with whole-number exponents of metres, kilograms and seconds, and no extra power of ten,
 * is written as a unit text that is read back as the same exponents, whenever the
 * kilogram exponent lies in [-4, 5].
 */
module RoundTrip {
  import opened Wrappers
  import opened Ratios
  import opened Runtime
  import opened Scanner
  import opened Parser
  import opened UnitText
  import opened Printer
  import opened PrinterFacts

  // ---------------------------------------------------------------------------------
  // Tokens the printer writes.

  /** What print_single_dimension writes for a whole exponent: nothing for 0, else one token. */
  function Tok(pre: string, u: char, k: int): seq<Token>
  {
    if k == 0 then [] else [Token(pre, u, k)]
  }

  /** Nothing, or one prefix letter. */
  predicate PrefixText(pre: string)
  {
    |pre| <= 1 && (pre != "" ==> IsPrefixLetter(pre[0]))
  }

  /** A bare symbol that is also a prefix letter (`m`, read as milli- before another symbol). */
  predicate Bare(t: Token)
  {
    t.pre == "" && t.exp == 1 && IsPrefixLetter(t.sym)
  }

  /** Valid tokens, of which only the last may be a bare prefix letter. */
  predicate Printable(ts: seq<Token>)
  {
    (forall i :: 0 <= i < |ts| ==> ValidToken(ts[i]))
    && (forall i :: 0 <= i < |ts| - 1 ==> !Bare(ts[i]))
  }

  lemma TokText(pre: string, u: char, k: int)
    ensures TokensText(Tok(pre, u, k)) == if k == 0 then "" else pre + [u] + ExponentText(Int(k))
  {
    if k != 0 {
      TextOfInteger(Int(k));
      assert TokensText(Tok(pre, u, k)) == TokenText(Token(pre, u, k)) + "";
    }
  }

  // ---------------------------------------------------------------------------------
  // One exponent at a time.

  /** Whole-number exponents and power of ten make a valid dimension. */
  lemma WholeValid(l: int, m: int, t: int, f: int)
    ensures ValidDim(Whole(l, m, t, f)) && Valid(Int(f))
  {
  }

  /** With nothing left to spread, no prefix is written and nothing is left afterwards. */
  lemma ZeroFactorStep(u: char, k: int, f: Ratio)
    requires Valid(f) && f.num == 0 && u != 't'
    ensures SingleDimension(u, Int(k), f).factor.Success?
    ensures SingleDimension(u, Int(k), f).factor.value.num == 0
    ensures SingleDimension(u, Int(k), f).text == TokensText(Tok("", u, k))
  {
    TokText("", u, k);
    if k != 0 {
      assert Int(k) == Ratio(k, 1);
      ZeroPrefix(u, Int(k), f);
      assert "" + [u] + ExponentText(Int(k)) == [u] + ExponentText(Int(k));
    }
  }

  /** A zero prefix is a whole multiple of three with no letter: the unit alone is written. */
  lemma ZeroPrefix(u: char, e: Ratio, f: Ratio)
    requires Valid(e) && e.num != 0 && Valid(f) && f.num == 0 && u != 't'
    ensures SingleDimension(u, e, f).factor.Success? && SingleDimension(u, e, f).factor.value.num == 0
    ensures SingleDimension(u, e, f).text == [u] + ExponentText(e)
  {
    var c := Choose(u, e, f);
    assert c.prefix.num == 0 && c.unit == u;
    assert TruncDiv(0, c.prefix.den) == 0;
    assert WholeMultipleOfThree(c.prefix);
    assert SiPrefix(0) == Success("");
    TakeNothing(c, e, f);
    assert "" + ([u] + ExponentText(e)) == [u] + ExponentText(e);
  }

  /** A zero prefix taken off a zero factor leaves zero. */
  lemma TakeNothing(c: Choice, e: Ratio, f: Ratio)
    requires Valid(c.prefix) && Valid(e) && Valid(f) && c.prefix.num == 0 && f.num == 0 && c.unit != 't'
    ensures TakePrefix(c, e, f).num == 0
  {
    var taken := Mul(c.prefix, e);
    assert taken.num == 0 by {
      assert c.prefix.num * e.num == 0;
    }
    assert Neg(taken) == Ratio(0, taken.den);
    assert f.den * 0 + taken.den * f.num == 0;
  }

  /** Taking a prefix of exactly n / k off a factor n, for the exponent k, leaves nothing. */
  lemma TakeWholePrefix(u: char, k: int, n: int)
    requires k != 0 && u != 't'
    ensures Valid(Div(Int(n), Int(k)))
    ensures TakePrefix(Choice(u, Div(Int(n), Int(k))), Int(k), Int(n)).num == 0
  {
    var p := Div(Int(n), Int(k));
    var m := Mul(p, Int(k));
    if k > 0 {
      assert p == Ratio(n, k);
      assert m == Ratio(n * k, k);
      assert Sub(Int(n), m) == Make(-(n * k) + k * n, k);
    } else {
      assert p == Ratio(-n, -k);
      assert m == Ratio(-n * k, -k);
      assert Sub(Int(n), m) == Make(n * k + (-k) * n, -k);
    }
  }

  /** Grams to the power b with 3b to spread: `kg^b`, and nothing is left. */
  lemma GramsAbsorb(b: int)
    requires b != 0
    ensures SingleDimension('g', Int(b), Int(3 * b)).factor.Success?
    ensures SingleDimension('g', Int(b), Int(3 * b)).factor.value.num == 0
    ensures SingleDimension('g', Int(b), Int(3 * b)).text == TokensText(Tok("k", 'g', b))
  {
    TokText("k", 'g', b);
    var p := Div(Int(3 * b), Int(b));
    assert p == Make(3 * b, b) by {
      assert Int(3 * b) == Ratio(3 * b, 1) && Int(b) == Ratio(b, 1);
      assert (3 * b) * 1 == 3 * b && 1 * b == b;
    }
    assert p == Ratio(3 * AbsInt(b), AbsInt(b));
    TruncDivMultiple(3, AbsInt(b));
    assert !Ge(p, Int(6));
    assert Choose('g', Int(b), Int(3 * b)) == Choice('g', p);
    assert SiPrefix(3) == Success("k");
    TakeWholePrefix('g', b, 3 * b);
  }

  /** print_single_dimension for a unit other than grams: the two outcomes of the prefix test. */
  lemma NotGramsStep(u: char, e: Ratio, f: Ratio)
    requires u != 'g' && Valid(e) && Valid(f) && e.num != 0
    ensures Valid(Div(f, e))
    ensures var p := Div(f, e);
            if !WholeMultipleOfThree(p) then SingleDimension(u, e, f) == Printed([u] + ExponentText(e), Success(f))
            else if SiPrefix(TruncDiv(p.num, p.den)).Success? then
              SingleDimension(u, e, f)
              == Printed(SiPrefix(TruncDiv(p.num, p.den)).value + [u] + ExponentText(e), Success(TakePrefix(Choice(u, p), e, f)))
            else SingleDimension(u, e, f).factor.Failure?
  {
    KeepsValid(f, e);
    assert Choose(u, e, f) == Choice(u, Div(f, e));
  }

  /**
   * Seconds or metres (or a compound symbol) to the power k with a whole factor n to spread:
   * either a prefix is written and nothing is left, or no prefix and n is left untouched.
   */
  lemma WholeFactorStep(u: char, k: int, n: int) returns (pre: string)
    requires u != 'g' && u != 't' && -12 <= n <= 12
    ensures PrefixText(pre)
    ensures SingleDimension(u, Int(k), Int(n)).factor.Success?
    ensures var f := SingleDimension(u, Int(k), Int(n)).factor.value; f == Int(n) || f.num == 0
    ensures SingleDimension(u, Int(k), Int(n)).text == TokensText(Tok(pre, u, k))
  {
    pre := "";
    if k != 0 {
      var p := Div(Int(n), Int(k));
      NotGramsStep(u, Int(k), Int(n));
      if WholeMultipleOfThree(p) {
        assert AbsInt(p.num) == AbsInt(n);
        WholePrefixKnown(p);
        pre := SiPrefix(TruncDiv(p.num, p.den)).value;
        TakeWholePrefix(u, k, n);
      }
    }
    TokText(pre, u, k);
  }

  /** A whole prefix power of at most 12 in magnitude is one the prefix table knows. */
  lemma WholePrefixKnown(p: Ratio)
    requires Valid(p) && WholeMultipleOfThree(p) && AbsInt(p.num) <= 12
    ensures SiPrefix(TruncDiv(p.num, p.den)).Success?
    ensures PrefixText(SiPrefix(TruncDiv(p.num, p.den)).value)
  {
    var q := TruncDiv(p.num, p.den);
    assert p.num == q * p.den;
    assert q == 3 * TruncDiv(q, 3);
    QuotientBound(q, p.den, p.num);
    SiPrefixReadBack(q);
  }

  lemma QuotientBound(q: int, d: int, n: int)
    requires d >= 1 && n == q * d
    ensures AbsInt(q) <= AbsInt(n)
  {
    if q >= 1 {
      ProductAtLeast(d, q);
      assert q * d >= q by { assert q * d == q + q * (d - 1); }
    } else if q <= -1 {
      assert (-q) * d >= -q by { assert (-q) * d == (-q) + (-q) * (d - 1); }
    }
  }

  // ---------------------------------------------------------------------------------
  // Lists of tokens.

  lemma {:induction false} TokensTextAppend(a: seq<Token>, b: seq<Token>)
    ensures TokensText(a + b) == TokensText(a) + TokensText(b)
    decreases |a|
  {
    if a == [] {
      assert a + b == b;
    } else {
      assert (a + b)[0] == a[0] && (a + b)[1..] == a[1..] + b;
      TokensTextAppend(a[1..], b);
    }
  }

  lemma {:induction false} TotalAppend(a: seq<Token>, b: seq<Token>)
    requires forall i :: 0 <= i < |a| ==> ValidToken(a[i])
    requires forall i :: 0 <= i < |b| ==> ValidToken(b[i])
    ensures forall i :: 0 <= i < |a + b| ==> ValidToken((a + b)[i])
    ensures Total(a + b) == Plus(Total(a), Total(b))
    decreases |a|
  {
    if a == [] {
      assert a + b == b;
    } else {
      assert (a + b)[0] == a[0] && (a + b)[1..] == a[1..] + b;
      TotalAppend(a[1..], b);
    }
  }

  /** The exponents a single token (or none) adds up to. */
  lemma TotalTok(pre: string, u: char, k: int)
    requires PrefixText(pre) && IsSymbolLetter(u)
    ensures forall i :: 0 <= i < |Tok(pre, u, k)| ==> ValidToken(Tok(pre, u, k)[i])
    ensures var e, s := Total(Tok(pre, u, k)), SymbolExponents(u);
            e.length == s.length * k && e.mass == s.mass * k && e.time == s.time * k
  {
    if k != 0 {
      assert Tok(pre, u, k)[1..] == [];
    }
  }

  /** Tokens none of which is bare, followed by printable tokens, are printable. */
  lemma PrintableJoin(a: seq<Token>, b: seq<Token>)
    requires forall i :: 0 <= i < |a| ==> ValidToken(a[i]) && !Bare(a[i])
    requires Printable(b)
    ensures Printable(a + b)
  {
    forall i | 0 <= i < |a + b| - 1
      ensures !Bare((a + b)[i])
    {
      if i >= |a| {
        assert (a + b)[i] == b[i - |a|];
      }
    }
  }

  /** Printable tokens are read back one by one when followed by nothing or by '/'. */
  lemma PrintableFits(ts: seq<Token>, tail: string)
    requires Printable(ts)
    requires tail == [] || (tail[0] == '/' && (|tail| == 1 || IsLetter(tail[1])))
    ensures Fits(ts, tail)
  {
    forall i | 0 <= i < |ts|
      ensures TokenFits(ts[i], TokensText(ts[i + 1..]) + tail)
    {
      if i < |ts| - 1 {
        TokensStartWithLetter(ts[i + 1..], tail);
      } else {
        assert ts[i + 1..] == [];
        assert TokensText(ts[i + 1..]) + tail == tail;
      }
    }
  }

  // ---------------------------------------------------------------------------------
  // print: grams, seconds, metres.

  /**
   * What is left to spread when a group is printed: nothing, or a whole n that the grams take
   * as `k` (n = 3b) or, with no grams, that lies within the prefix table.
   */
  predicate Spreadable(f: Ratio, n: int, b: int)
  {
    Valid(f) && (f.num == 0 || (f == Int(n) && (b != 0 ==> n == 3 * b) && (b == 0 ==> -12 <= n <= 12)))
  }

  /** The grams of a group. */
  lemma GramsStep(b: int, f: Ratio, n: int) returns (pre: string)
    requires Spreadable(f, n, b)
    ensures PrefixText(pre)
    ensures SingleDimension('g', Int(b), f).factor.Success?
    ensures Spreadable(SingleDimension('g', Int(b), f).factor.value, n, 0)
    ensures SingleDimension('g', Int(b), f).text == TokensText(Tok(pre, 'g', b))
  {
    pre := "";
    if f.num == 0 {
      ZeroFactorStep('g', b, f);
    } else if b != 0 {
      GramsAbsorb(b);
      pre := "k";
    } else {
      TokText("", 'g', 0);
    }
  }

  /** Seconds or metres of a group. */
  lemma PlainStep(u: char, k: int, f: Ratio, n: int) returns (pre: string)
    requires u == 's' || u == 'm'
    requires Spreadable(f, n, 0)
    ensures PrefixText(pre)
    ensures SingleDimension(u, Int(k), f).factor.Success?
    ensures Spreadable(SingleDimension(u, Int(k), f).factor.value, n, 0)
    ensures SingleDimension(u, Int(k), f).text == TokensText(Tok(pre, u, k))
  {
    if f.num == 0 {
      ZeroFactorStep(u, k, f);
      pre := "";
    } else {
      pre := WholeFactorStep(u, k, n);
    }
  }

  /** The tokens of a group: grams, seconds, metres, each left out when its exponent is 0. */
  function GroupList(pg: string, ps: string, pm: string, a: int, b: int, c: int): seq<Token>
  {
    Tok(pg, 'g', b) + Tok(ps, 's', c) + Tok(pm, 'm', a)
  }

  lemma GroupListFacts(pg: string, ps: string, pm: string, a: int, b: int, c: int)
    requires PrefixText(pg) && PrefixText(ps) && PrefixText(pm)
    ensures var ts := GroupList(pg, ps, pm, a, b, c);
            && TokensText(ts) == TokensText(Tok(pg, 'g', b)) + TokensText(Tok(ps, 's', c)) + TokensText(Tok(pm, 'm', a))
            && Printable(ts)
            && Total(ts).length == a && Total(ts).mass == b && Total(ts).time == c
            && (ts == [] <==> a == 0 && b == 0 && c == 0)
  {
    var tg, tst, tm := Tok(pg, 'g', b), Tok(ps, 's', c), Tok(pm, 'm', a);
    assert GroupList(pg, ps, pm, a, b, c) == tg + tst + tm;
    TokensTextAppend(tg, tst);
    TokensTextAppend(tg + tst, tm);
    TokPrintable(pg, 'g', b);
    TokPrintable(ps, 's', c);
    TokPrintable(pm, 'm', a);
    GroupListPrintable(tg, tst, tm);
    GroupListTotal(pg, ps, pm, a, b, c);
    assert |tg + tst + tm| == |tg| + |tst| + |tm|;
  }

  /** A token of a symbol that is no prefix letter is never bare. */
  lemma TokPrintable(pre: string, u: char, k: int)
    requires PrefixText(pre) && IsSymbolLetter(u)
    ensures Printable(Tok(pre, u, k))
    ensures !IsPrefixLetter(u) ==> forall i :: 0 <= i < |Tok(pre, u, k)| ==> !Bare(Tok(pre, u, k)[i])
    ensures Tok(pre, u, k) == [] <==> k == 0
  {
  }

  lemma GroupListPrintable(tg: seq<Token>, tst: seq<Token>, tm: seq<Token>)
    requires forall i :: 0 <= i < |tg| ==> ValidToken(tg[i]) && !Bare(tg[i])
    requires forall i :: 0 <= i < |tst| ==> ValidToken(tst[i]) && !Bare(tst[i])
    requires Printable(tm)
    ensures Printable(tg + tst + tm)
  {
    forall i | 0 <= i < |tg + tst|
      ensures ValidToken((tg + tst)[i]) && !Bare((tg + tst)[i])
    {
      if i >= |tg| {
        assert (tg + tst)[i] == tst[i - |tg|];
      }
    }
    PrintableJoin(tg + tst, tm);
  }

  lemma GroupListTotal(pg: string, ps: string, pm: string, a: int, b: int, c: int)
    requires PrefixText(pg) && PrefixText(ps) && PrefixText(pm)
    ensures var ts := GroupList(pg, ps, pm, a, b, c);
            && (forall i :: 0 <= i < |ts| ==> ValidToken(ts[i]))
            && Total(ts).length == a && Total(ts).mass == b && Total(ts).time == c
  {
    var tg, tst, tm := Tok(pg, 'g', b), Tok(ps, 's', c), Tok(pm, 'm', a);
    TotalTok(pg, 'g', b);
    TotalTok(ps, 's', c);
    TotalTok(pm, 'm', a);
    var eg, es, em := Total(tg), Total(tst), Total(tm);
    assert eg.length == 0 && eg.mass == b && eg.time == 0 by {
      assert SymbolExponents('g') == Exponents(0, 1, 0, -3);
    }
    assert es.length == 0 && es.mass == 0 && es.time == c by {
      assert SymbolExponents('s') == Exponents(0, 0, 1, 0);
    }
    assert em.length == a && em.mass == 0 && em.time == 0 by {
      assert SymbolExponents('m') == Exponents(1, 0, 0, 0);
    }
    TotalOfThree(tg, tst, tm);
    assert GroupList(pg, ps, pm, a, b, c) == tg + tst + tm;
  }

  lemma TotalOfThree(x: seq<Token>, y: seq<Token>, z: seq<Token>)
    requires forall i :: 0 <= i < |x| ==> ValidToken(x[i])
    requires forall i :: 0 <= i < |y| ==> ValidToken(y[i])
    requires forall i :: 0 <= i < |z| ==> ValidToken(z[i])
    ensures forall i :: 0 <= i < |x + y + z| ==> ValidToken((x + y + z)[i])
    ensures Total(x + y + z) == Plus(Plus(Total(x), Total(y)), Total(z))
  {
    TotalAppend(x, y);
    TotalAppend(x + y, z);
  }

  /** `print` of whole exponents writes one token per non-zero exponent, and fails on none. */
  lemma GroupTokens(a: int, b: int, c: int, z: Ratio, f: Ratio, n: int) returns (ts: seq<Token>)
    requires Valid(z) && Spreadable(f, n, b)
    ensures Group(Dim(Int(a), Int(b), Int(c), z), f).factor.Success?
    ensures Group(Dim(Int(a), Int(b), Int(c), z), f).text == TokensText(ts)
    ensures Printable(ts)
    ensures Total(ts).length == a && Total(ts).mass == b && Total(ts).time == c
    ensures ts == [] <==> a == 0 && b == 0 && c == 0
  {
    var pg := GramsStep(b, f, n);
    var g := SingleDimension('g', Int(b), f);
    var ps := PlainStep('s', c, g.factor.value, n);
    var s := SingleDimension('s', Int(c), g.factor.value);
    var pm := PlainStep('m', a, s.factor.value, n);
    var m := SingleDimension('m', Int(a), s.factor.value);
    assert Group(Dim(Int(a), Int(b), Int(c), z), f) == Printed(g.text + s.text + m.text, m.factor);
    ts := GroupList(pg, ps, pm, a, b, c);
    GroupListFacts(pg, ps, pm, a, b, c);
  }

  // ---------------------------------------------------------------------------------
  // split_dim and operator<<.

  function Up(x: int): int { if x > 0 then x else 0 }

  lemma SubInt(x: int, y: int, z: int)
    requires z == x - y
    ensures Sub(Int(x), Int(y)) == Int(z)
  {
    assert Neg(Int(y)) == Ratio(-y, 1);
    assert Add(Ratio(x, 1), Ratio(-y, 1)) == Make(1 * (-y) + 1 * x, 1 * 1);
  }

  lemma WholeDifference(l: int, m: int, t: int, a: int, b: int, c: int, x: int, y: int, z: int)
    requires x == l - a && y == m - b && z == t - c
    ensures Difference(Whole(l, m, t, 0), Whole(a, b, c, 0)) == Whole(x, y, z, 0)
  {
    SubInt(l, a, x);
    SubInt(m, b, y);
    SubInt(t, c, z);
    SubInt(0, 0, 0);
  }

  /** The numerator takes the positive exponents and the denominator the negated negative ones. */
  lemma FractionWhole(l: int, m: int, t: int)
    ensures Fraction(Whole(l, m, t, 0))
            == if l <= 0 && m <= 0 && t <= 0 then (Whole(l, m, t, 0), Whole(0, 0, 0, 0))
               else (Whole(Up(l), Up(m), Up(t), 0), Whole(Up(-l), Up(-m), Up(-t), 0))
  {
    assert Dimensionless == Whole(0, 0, 0, 0);
  }

  /**
   * `num`, then '/' and `den`, spell the exponents (l, m, t): every token printable, a
   * denominator only after a numerator, no tokens exactly for the dimensionless, and the
   * tokens adding up to the exponents.
   */
  predicate Spells(num: seq<Token>, den: seq<Token>, l: int, m: int, t: int)
  {
    && Printable(num) && Printable(den) && (num == [] ==> den == [])
    && (num == [] <==> l == 0 && m == 0 && t == 0)
    && Total(num).length - Total(den).length == l
    && Total(num).mass - Total(den).mass == m
    && Total(num).time - Total(den).time == t
  }

  /** A rendering equal to one known piece by piece. */
  lemma Rendered(w: Written, rf: Written, s: string)
    requires w == rf && rf.text == s && rf.error == None
    ensures w == Written(s, None)
  {
  }

  /**
   * After any compound symbol: the numerator and denominator groups of whole exponents are
   * written without error, as tokens adding up to the exponents.
   */
  lemma FractionTokens(l: int, m: int, t: int, f: Ratio) returns (num: seq<Token>, den: seq<Token>)
    requires Valid(f) && (f.num == 0 || (f == Int(3 * m) && -4 <= m))
    ensures RenderFraction(Whole(l, m, t, 0), f).error == None
    ensures RenderFraction(Whole(l, m, t, 0), f).text == UnitString(num, den)
    ensures Spells(num, den, l, m, t)
  {
    FractionWhole(l, m, t);
    if l <= 0 && m <= 0 && t <= 0 {
      num, den := FractionAloneTokens(l, m, t, f);
    } else if l < 0 || m < 0 || t < 0 {
      num, den := FractionSplitTokens(l, m, t, f);
    } else {
      num, den := FractionUpTokens(l, m, t, f);
    }
  }

  /** FractionTokens when no exponent is positive: everything stays in the numerator. */
  lemma FractionAloneTokens(l: int, m: int, t: int, f: Ratio) returns (num: seq<Token>, den: seq<Token>)
    requires Valid(f) && (f.num == 0 || (f == Int(3 * m) && -4 <= m))
    requires l <= 0 && m <= 0 && t <= 0
    requires Fraction(Whole(l, m, t, 0)) == (Whole(l, m, t, 0), Whole(0, 0, 0, 0))
    ensures RenderFraction(Whole(l, m, t, 0), f).error == None
    ensures RenderFraction(Whole(l, m, t, 0), f).text == UnitString(num, den)
    ensures Spells(num, den, l, m, t)
  {
    den := [];
    var dim := Whole(l, m, t, 0);
    num := GroupTokens(l, m, t, Int(0), f, 3 * m);
    RenderFractionAlone(dim, f, dim, Whole(0, 0, 0, 0));
  }

  /** FractionTokens when some exponents are positive and some negative. */
  lemma FractionSplitTokens(l: int, m: int, t: int, f: Ratio) returns (num: seq<Token>, den: seq<Token>)
    requires Valid(f) && (f.num == 0 || (f == Int(3 * m) && -4 <= m))
    requires !(l <= 0 && m <= 0 && t <= 0) && (l < 0 || m < 0 || t < 0)
    requires Fraction(Whole(l, m, t, 0))
             == (Whole(Up(l), Up(m), Up(t), 0), Whole(Up(-l), Up(-m), Up(-t), 0))
    ensures RenderFraction(Whole(l, m, t, 0), f).error == None
    ensures RenderFraction(Whole(l, m, t, 0), f).text == UnitString(num, den)
    ensures Spells(num, den, l, m, t)
  {
    var dim := Whole(l, m, t, 0);
    var nd, dd := Whole(Up(l), Up(m), Up(t), 0), Whole(Up(-l), Up(-m), Up(-t), 0);
    num := GroupTokens(Up(l), Up(m), Up(t), Int(0), f, 3 * m);
    den := GroupTokens(Up(-l), Up(-m), Up(-t), Int(0), Int(0), 0);
    RenderFractionSplit(dim, f, nd, dd);
    var n, d := Group(nd, f), Group(dd, Int(0));
    assert n.text + "/" + d.text == TokensText(num) + ("/" + TokensText(den));
  }

  /** FractionTokens when no exponent is negative: there is no denominator. */
  lemma FractionUpTokens(l: int, m: int, t: int, f: Ratio) returns (num: seq<Token>, den: seq<Token>)
    requires Valid(f) && (f.num == 0 || (f == Int(3 * m) && -4 <= m))
    requires !(l <= 0 && m <= 0 && t <= 0) && l >= 0 && m >= 0 && t >= 0
    requires Fraction(Whole(l, m, t, 0))
             == (Whole(Up(l), Up(m), Up(t), 0), Whole(Up(-l), Up(-m), Up(-t), 0))
    ensures RenderFraction(Whole(l, m, t, 0), f).error == None
    ensures RenderFraction(Whole(l, m, t, 0), f).text == UnitString(num, den)
    ensures Spells(num, den, l, m, t)
  {
    den := [];
    var dim := Whole(l, m, t, 0);
    var nd, dd := Whole(Up(l), Up(m), Up(t), 0), Whole(Up(-l), Up(-m), Up(-t), 0);
    num := GroupTokens(Up(l), Up(m), Up(t), Int(0), f, 3 * m);
    RenderFractionAlone(dim, f, nd, dd);
  }

  /** RenderFraction when the denominator has something to print. */
  lemma RenderFractionSplit(dim: Dim, f: Ratio, num: Dim, den: Dim)
    requires ValidDim(dim) && Valid(f) && Fraction(dim) == (num, den)
    requires Group(num, f).factor.Success? && (den.mass.num != 0 || den.time.num != 0 || den.length.num != 0)
    ensures RenderFraction(dim, f)
            == Written(Group(num, f).text + "/" + Group(den, Int(0)).text, ErrorOf(Group(den, Int(0))))
  {
  }

  /** RenderFraction when the denominator has nothing to print. */
  lemma RenderFractionAlone(dim: Dim, f: Ratio, num: Dim, den: Dim)
    requires ValidDim(dim) && Valid(f) && Fraction(dim) == (num, den)
    requires Group(num, f).factor.Success? && den.mass.num == 0 && den.time.num == 0 && den.length.num == 0
    ensures RenderFraction(dim, f) == Written(Group(num, f).text, None)
  {
  }

  /** The compound symbols are W, J and N, with the exponents the parser gives them. */
  lemma CompoundWhole(d: Dim)
    requires CompoundOf(d).Some?
    ensures var c := CompoundOf(d).value; var e := SymbolExponents(c.symbol);
            && c.symbol in {'W', 'J', 'N'} && e.mass == 1
            && c.dim == Whole(e.length, e.mass, e.time, 0)
  {
  }

  /** A whole mass exponent that contains one kilogram is at least one. */
  lemma ContainsKilogram(l: int, m: int, t: int, needle: Dim)
    requires Contains(Whole(l, m, t, 0), needle) && needle.mass == Int(1)
    ensures m >= 1
  {
  }

  /** operator<< when no compound symbol is contained. */
  lemma RenderPlain(dim: Dim, factor: Ratio)
    requires ValidDim(dim) && CompoundOf(dim).None? && factor == Add(dim.factor, Mul(Int(3), dim.mass))
    ensures Valid(factor) && Render(dim) == RenderFraction(dim, factor)
  {
    KeepsValid(Int(3), dim.mass);
    KeepsValid(dim.factor, Mul(Int(3), dim.mass));
  }

  /** operator<< when a compound symbol is contained. */
  lemma RenderCompound(dim: Dim, factor: Ratio, c: Named)
    requires ValidDim(dim) && CompoundOf(dim) == Some(c) && factor == Add(dim.factor, Mul(Int(3), dim.mass))
    ensures Valid(factor) && ValidDim(c.dim) && Render(dim) == SymbolThenRest(dim, factor, c)
  {
    KeepsValid(Int(3), dim.mass);
    KeepsValid(dim.factor, Mul(Int(3), dim.mass));
  }

  lemma SubThree(m: int, mr: int)
    requires mr == m - 1
    ensures Sub(Int(3 * m), Int(3)) == Int(3 * mr)
  {
    SubInt(3 * m, 3, 3 * mr);
  }

  /** The compound branch of operator<< when the symbol is written without error. */
  lemma SymbolWritten(dim: Dim, factor: Ratio, sym: char, cdim: Dim, g: Ratio, rest: Dim)
    requires ValidDim(dim) && ValidDim(cdim) && Valid(factor) && Valid(g)
    requires Difference(dim, cdim) == rest && Sub(factor, Int(3)) == g
    requires SingleDimension(sym, Int(1), g).factor.Success?
    ensures ValidDim(rest)
    ensures SymbolThenRest(dim, factor, Named(sym, cdim))
            == Written(SingleDimension(sym, Int(1), g).text
                       + RenderFraction(rest, SingleDimension(sym, Int(1), g).factor.value).text,
                       RenderFraction(rest, SingleDimension(sym, Int(1), g).factor.value).error)
  {
    assert Make(1, 1) == Int(1);
    DifferenceExact(dim, cdim);
  }

  /** Putting the written pieces together. */
  lemma Joined(st: Written, ptext: string, rf: Written, head: string, rtext: string, full: string)
    requires st == Written(ptext + rf.text, rf.error)
    requires rf.text == rtext && rf.error == None
    requires ptext == head && head + rtext == full
    ensures st == Written(full, None)
  {
  }

  /**
   * A compound symbol to the power 1 with the whole factor 3k: a prefix is written and nothing
   * is left, or no prefix and 3k is left.
   */
  lemma UnitStep(u: char, k: int) returns (pre: string)
    requires u != 'g' && u != 't' && -4 <= k <= 4
    ensures PrefixText(pre)
    ensures SingleDimension(u, Int(1), Int(3 * k)).factor.Success?
    ensures Valid(SingleDimension(u, Int(1), Int(3 * k)).factor.value)
            && (SingleDimension(u, Int(1), Int(3 * k)).factor.value.num == 0
                || (SingleDimension(u, Int(1), Int(3 * k)).factor.value == Int(3 * k) && -4 <= k))
    ensures SingleDimension(u, Int(1), Int(3 * k)).text == TokensText(Tok(pre, u, 1))
  {
    pre := WholeFactorStep(u, 1, 3 * k);
  }

  /**
   * The compound symbol `sym`, of exponents (el, 1, et), written with the factor 3m: the
   * symbol's own step, then what is left, (lr, mr, tr), as a fraction.
   */
  lemma SymbolWhole(l: int, m: int, t: int, sym: char, el: int, et: int, lr: int, mr: int, tr: int)
    requires 1 <= m <= 5 && (sym == 'W' || sym == 'J' || sym == 'N')
    requires lr == l - el && mr == m - 1 && tr == t - et
    ensures SingleDimension(sym, Int(1), Int(3 * mr)).factor.Success?
    ensures SymbolThenRest(Whole(l, m, t, 0), Int(3 * m), Named(sym, Whole(el, 1, et, 0)))
            == Written(SingleDimension(sym, Int(1), Int(3 * mr)).text
                       + RenderFraction(Whole(lr, mr, tr, 0), SingleDimension(sym, Int(1), Int(3 * mr)).factor.value).text,
                       RenderFraction(Whole(lr, mr, tr, 0), SingleDimension(sym, Int(1), Int(3 * mr)).factor.value).error)
  {
    assert ValidDim(Whole(l, m, t, 0)) && ValidDim(Whole(el, 1, et, 0));
    assert Valid(Int(3 * m)) && Valid(Int(3 * mr));
    var _ := UnitStep(sym, mr);
    SubThree(m, mr);
    WholeDifference(l, m, t, el, 1, et, lr, mr, tr);
    SymbolWritten(Whole(l, m, t, 0), Int(3 * m), sym, Whole(el, 1, et, 0), Int(3 * mr), Whole(lr, mr, tr, 0));
  }

  /** The compound symbol's token and the tokens of what is left, (lr, mr, tr). */
  lemma SymbolPieces(sym: char, lr: int, mr: int, tr: int) returns (pc: string, rest: seq<Token>, den: seq<Token>)
    requires 0 <= mr <= 4 && (sym == 'W' || sym == 'J' || sym == 'N')
    ensures PrefixText(pc) && Spells(rest, den, lr, mr, tr)
    ensures SingleDimension(sym, Int(1), Int(3 * mr)).factor.Success?
    ensures SingleDimension(sym, Int(1), Int(3 * mr)).text == TokensText(Tok(pc, sym, 1))
    ensures RenderFraction(Whole(lr, mr, tr, 0), SingleDimension(sym, Int(1), Int(3 * mr)).factor.value)
            == Written(UnitString(rest, den), None)
  {
    pc := UnitStep(sym, mr);
    rest, den := FractionTokens(lr, mr, tr, SingleDimension(sym, Int(1), Int(3 * mr)).factor.value);
    Rendered(RenderFraction(Whole(lr, mr, tr, 0), SingleDimension(sym, Int(1), Int(3 * mr)).factor.value),
             RenderFraction(Whole(lr, mr, tr, 0), SingleDimension(sym, Int(1), Int(3 * mr)).factor.value),
             UnitString(rest, den));
  }

  /**
   * operator<< on whole exponents that contain the compound symbol `sym`, of exponents
   * (el, 1, et): the symbol, then the tokens of what is left, (lr, mr, tr).
   */
  lemma CompoundCase(l: int, m: int, t: int, sym: char, el: int, et: int, lr: int, mr: int, tr: int)
    returns (num: seq<Token>, den: seq<Token>)
    requires 1 <= m <= 5 && (sym == 'W' || sym == 'J' || sym == 'N')
    requires SymbolExponents(sym) == Exponents(el, 1, et, 0)
    requires lr == l - el && mr == m - 1 && tr == t - et
    ensures SymbolThenRest(Whole(l, m, t, 0), Int(3 * m), Named(sym, Whole(el, 1, et, 0)))
            == Written(UnitString(num, den), None)
    ensures Spells(num, den, l, m, t)
  {
    WholeValid(l, m, t, 0);
    WholeValid(el, 1, et, 0);
    var pc, rest;
    pc, rest, den := SymbolPieces(sym, lr, mr, tr);
    num := PrependSymbol(pc, sym, el, et, rest, den, l, m, t, lr, mr, tr);
    SymbolWhole(l, m, t, sym, el, et, lr, mr, tr);
    Joined(SymbolThenRest(Whole(l, m, t, 0), Int(3 * m), Named(sym, Whole(el, 1, et, 0))),
           SingleDimension(sym, Int(1), Int(3 * mr)).text,
           RenderFraction(Whole(lr, mr, tr, 0), SingleDimension(sym, Int(1), Int(3 * mr)).factor.value),
           TokensText(Tok(pc, sym, 1)), UnitString(rest, den), UnitString(num, den));
  }

  /** The compound symbol's token written before the tokens of what is left. */
  lemma PrependSymbol(pc: string, sym: char, el: int, et: int, rest: seq<Token>, den: seq<Token>,
                      l: int, m: int, t: int, lr: int, mr: int, tr: int)
    returns (num: seq<Token>)
    requires lr == l - el && mr == m - 1 && tr == t - et
    requires PrefixText(pc) && (sym == 'W' || sym == 'J' || sym == 'N') && m >= 1
    requires SymbolExponents(sym) == Exponents(el, 1, et, 0)
    requires Spells(rest, den, lr, mr, tr)
    ensures TokensText(Tok(pc, sym, 1)) + UnitString(rest, den) == UnitString(num, den)
    ensures Spells(num, den, l, m, t)
  {
    assert IsSymbolLetter(sym) && !IsPrefixLetter(sym);
    var head := Tok(pc, sym, 1);
    num := head + rest;
    TokPrintable(pc, sym, 1);
    PrependTokens(head, rest, den);
    TotalTok(pc, sym, 1);
  }

  /**
   * operator<< on whole exponents of metres, kilograms and seconds, no extra power of ten,
   * and a kilogram exponent in [-4, 5]: no error, and the text is a list of tokens, then '/'
   * and a list of tokens if any exponent is negative, that add up to the exponents.
   */
  lemma RenderWholeTokens(l: int, m: int, t: int) returns (num: seq<Token>, den: seq<Token>)
    requires -4 <= m <= 5
    ensures Render(Whole(l, m, t, 0)) == Written(UnitString(num, den), None)
    ensures Spells(num, den, l, m, t)
  {
    var c := CompoundOf(Whole(l, m, t, 0));
    if c.None? {
      num, den := PlainTokens(l, m, t);
    } else if c.value.symbol == 'W' {
      assert c.value == Named('W', Whole(2, 1, -3, 0));
      num, den := SymbolTokens(l, m, t, 'W', 2, -3);
    } else if c.value.symbol == 'J' {
      assert c.value == Named('J', Whole(2, 1, -2, 0));
      num, den := SymbolTokens(l, m, t, 'J', 2, -2);
    } else {
      assert c.value == Named('N', Whole(1, 1, -2, 0));
      num, den := SymbolTokens(l, m, t, 'N', 1, -2);
    }
  }

  /** The power of ten operator<< starts from on whole exponents: 3 per kilogram. */
  lemma KilogramShift(l: int, m: int, t: int)
    ensures Add(Whole(l, m, t, 0).factor, Mul(Int(3), Whole(l, m, t, 0).mass)) == Int(3 * m)
  {
    assert Whole(l, m, t, 0).factor == Int(0) && Whole(l, m, t, 0).mass == Int(m);
    assert Int(3) == Ratio(3, 1) && Int(m) == Ratio(m, 1) && Int(0) == Ratio(0, 1);
    assert Mul(Ratio(3, 1), Ratio(m, 1)) == Ratio(3 * m, 1);
    assert Add(Ratio(0, 1), Ratio(3 * m, 1)) == Ratio(3 * m, 1);
    assert Int(3 * m) == Ratio(3 * m, 1);
  }

  /** operator<< on whole exponents that contain no compound symbol. */
  lemma PlainTokens(l: int, m: int, t: int) returns (num: seq<Token>, den: seq<Token>)
    requires -4 <= m <= 5 && CompoundOf(Whole(l, m, t, 0)).None?
    ensures Render(Whole(l, m, t, 0)) == Written(UnitString(num, den), None)
    ensures Spells(num, den, l, m, t)
  {
    var d := Whole(l, m, t, 0);
    var factor := Add(d.factor, Mul(Int(3), d.mass));
    KilogramShift(l, m, t);
    RenderPlain(d, factor);
    num, den := FractionTokens(l, m, t, factor);
    Rendered(Render(d), RenderFraction(d, factor), UnitString(num, den));
  }

  /** operator<< on whole exponents whose first compound symbol is `sym`, of exponents (el, 1, et). */
  lemma SymbolTokens(l: int, m: int, t: int, sym: char, el: int, et: int) returns (num: seq<Token>, den: seq<Token>)
    requires -4 <= m <= 5 && (sym == 'W' || sym == 'J' || sym == 'N')
    requires SymbolExponents(sym) == Exponents(el, 1, et, 0)
    requires CompoundOf(Whole(l, m, t, 0)) == Some(Named(sym, Whole(el, 1, et, 0)))
    ensures Render(Whole(l, m, t, 0)) == Written(UnitString(num, den), None)
    ensures Spells(num, den, l, m, t)
  {
    var d := Whole(l, m, t, 0);
    ContainsKilogram(l, m, t, Whole(el, 1, et, 0));
    num, den := CompoundCase(l, m, t, sym, el, et, l - el, m - 1, t - et);
    KilogramShift(l, m, t);
    RenderCompound(d, Int(3 * m), Named(sym, Whole(el, 1, et, 0)));
  }

  /** Tokens none of which is bare, written before a unit text, make one unit text. */
  lemma PrependTokens(head: seq<Token>, rest: seq<Token>, den: seq<Token>)
    requires forall i :: 0 <= i < |head| ==> ValidToken(head[i]) && !Bare(head[i])
    requires Printable(rest)
    ensures TokensText(head) + UnitString(rest, den) == UnitString(head + rest, den)
    ensures Printable(head + rest)
    ensures Total(head + rest) == Plus(Total(head), Total(rest))
  {
    TokensTextAppend(head, rest);
    Appended(TokensText(head), TokensText(rest), if den == [] then "" else "/" + TokensText(den));
    PrintableJoin(head, rest);
    TotalAppend(head, rest);
  }

  // ---------------------------------------------------------------------------------
  // The round trip.

  /** The text and the exception of a rendering that is known as a whole. */
  lemma WrittenParts(w: Written, s: string)
    requires w == Written(s, None)
    ensures w.text == s && w.error == None
  {
  }

  /** A unit text of printable tokens is empty exactly when it has no tokens. */
  lemma UnitStringEmpty(num: seq<Token>, den: seq<Token>, s: string, l: int, m: int, t: int)
    requires Spells(num, den, l, m, t) && s == UnitString(num, den)
    ensures s == "" <==> l == 0 && m == 0 && t == 0
  {
    if num != [] {
      TokensStartWithLetter(num, if den == [] then "" else "/" + TokensText(den));
    }
  }

  /** A unit text of printable tokens is read back as the exponents its tokens add up to. */
  lemma ReadsBack(num: seq<Token>, den: seq<Token>, s: string, l: int, m: int, t: int)
    requires Spells(num, den, l, m, t) && s == UnitString(num, den) && (l != 0 || m != 0 || t != 0)
    ensures ReadUnit(s).Success?
    ensures ReadUnit(s).value.length == Int(l) && ReadUnit(s).value.mass == Int(m) && ReadUnit(s).value.time == Int(t)
  {
    SpelledFits(num, den, l, m, t);
    ReadTextWhole(num, den);
    WholeOfComponents(Minus(Total(num), Total(den)), l, m, t);
  }

  /** The tokens of a spelled unit text each fit what follows them. */
  lemma SpelledFits(num: seq<Token>, den: seq<Token>, l: int, m: int, t: int)
    requires Spells(num, den, l, m, t) && (l != 0 || m != 0 || t != 0)
    ensures num != [] && Fits(num, if den == [] then "" else "/" + TokensText(den)) && Fits(den, "")
  {
    var tail := if den == [] then "" else "/" + TokensText(den);
    if den != [] {
      TokensStartWithLetter(den, "");
      assert TokensText(den) + "" == TokensText(den);
    }
    PrintableFits(num, tail);
    PrintableFits(den, "");
  }

  /** A whole dimension read as exponents (l, m, t) has exactly those components. */
  lemma WholeOfComponents(e: Exponents, l: int, m: int, t: int)
    requires e.length == l && e.mass == m && e.time == t
    ensures WholeOf(e).length == Int(l) && WholeOf(e).mass == Int(m) && WholeOf(e).time == Int(t)
  {
  }

  /** The empty text is not a unit. */
  lemma EmptyNotRead(s: string)
    requires s == ""
    ensures ReadUnit(s).Failure?
  {
    assert ReadUnit(s) == ParseFrom("", 1, Dimensionless);
  }

  /**
   * Writing a dimension of whole exponents of metres, kilograms and seconds (no extra power of
   * ten, kilograms in [-4, 5]) never throws, and writes nothing only for the dimensionless ...
   */
  lemma RenderWholeText(l: int, m: int, t: int)
    requires -4 <= m <= 5
    ensures Render(Whole(l, m, t, 0)).error == None
    ensures Render(Whole(l, m, t, 0)).text == "" <==> l == 0 && m == 0 && t == 0
  {
    var num, den := RenderWholeTokens(l, m, t);
    TextRoundTrip(Render(Whole(l, m, t, 0)), num, den, l, m, t);
  }

  /**
   * ... and parsing the text gives back the exponents; the dimensionless, written as the empty
   * text, is the one dimension the parser does not read back.
   */
  lemma RoundTrip(l: int, m: int, t: int)
    requires -4 <= m <= 5
    ensures ReadUnit(Render(Whole(l, m, t, 0)).text).Success? <==> l != 0 || m != 0 || t != 0
    ensures ReadUnit(Render(Whole(l, m, t, 0)).text).Success? ==>
              var r := ReadUnit(Render(Whole(l, m, t, 0)).text).value;
              r.length == Int(l) && r.mass == Int(m) && r.time == Int(t)
  {
    var num, den := RenderWholeTokens(l, m, t);
    TextRoundTrip(Render(Whole(l, m, t, 0)), num, den, l, m, t);
  }

  /** The text spelled by `num` and `den` is empty, or read back as (l, m, t), as Spells says. */
  lemma TextRoundTrip(w: Written, num: seq<Token>, den: seq<Token>, l: int, m: int, t: int)
    requires w == Written(UnitString(num, den), None) && Spells(num, den, l, m, t)
    ensures w.error == None
    ensures w.text == "" <==> l == 0 && m == 0 && t == 0
    ensures ReadUnit(w.text).Success? <==> l != 0 || m != 0 || t != 0
    ensures ReadUnit(w.text).Success? ==>
              var r := ReadUnit(w.text).value;
              r.length == Int(l) && r.mass == Int(m) && r.time == Int(t)
  {
    WrittenParts(w, UnitString(num, den));
    UnitStringEmpty(num, den, w.text, l, m, t);
    if l == 0 && m == 0 && t == 0 {
      EmptyNotRead(w.text);
    } else {
      ReadsBack(num, den, w.text, l, m, t);
    }
  }
}
