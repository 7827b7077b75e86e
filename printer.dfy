/**
 * The unit printer of src/io.cpp: `si_prefix`, `print_single_dimension`, `print`,
 * `split_ratio`, `split_dim` and `operator<<(std::ostream&, Dimension)`.
 *
 * The functions say what each step writes and what happens to the threaded power-of-ten
 * `factor`; the methods do it the way the source does, writing to a `Stream` and passing
 * `factor` along, and are proved to agree with the functions. An exception ends the
 * rendering: what was written before it stays on the stream. The tonne step takes off a flat
 * 6 as src/io.cpp:186-189 does; TakePrefixIntended is the step that line evidently means.
 */
module Printer {
  import opened Wrappers
  import opened Ratios
  import opened Runtime
  import opened IoErrors

  // ---------------------------------------------------------------------------------
  // Integer division as C++ does it.

  /** C++ `a / b` on integers: the quotient rounded toward zero. */
  function TruncDiv(a: int, b: int): int
    requires b != 0
  {
    var q := AbsInt(a) / AbsInt(b);
    if (a < 0) == (b < 0) then q else -q
  }

  /** C++ `a % b`: what is left over by TruncDiv, with the sign of `a`. */
  function TruncRem(a: int, b: int): int
    requires b != 0
  {
    a - b * TruncDiv(a, b)
  }

  // ---------------------------------------------------------------------------------
  // The prefix table.

  /** `si_prefix`: the prefix letter for a power of ten; any other power throws out_of_range. */
  function SiPrefix(exp: int): (r: Result<string, IoError>)
    ensures r.Failure? ==> r.error == UnknownExponent(exp)
  {
    if exp == 12 then Success("T")
    else if exp == 9 then Success("G")
    else if exp == 6 then Success("M")
    else if exp == 3 then Success("k")
    else if exp == 2 then Success("h")
    else if exp == 0 then Success("")
    else if exp == -1 then Success("d")
    else if exp == -2 then Success("c")
    else if exp == -3 then Success("m")
    else if exp == -6 then Success("u")
    else if exp == -9 then Success("n")
    else if exp == -12 then Success("p")
    else Failure(UnknownExponent(exp))
  }

  // ---------------------------------------------------------------------------------
  // One exponent: print_single_dimension.

  /** What one step writes, and the factor it passes on or the exception it throws. */
  datatype Printed = Printed(text: string, factor: Result<Ratio, IoError>)

  /** The unit letter that is written and the power of ten its prefix has to stand for. */
  datatype Choice = Choice(unit: char, prefix: Ratio)

  /** The operations of Ratio keep a positive denominator. */
  lemma KeepsValid(a: Ratio, b: Ratio)
    requires Valid(a) && Valid(b)
    ensures Valid(Add(a, b)) && Valid(Sub(a, b)) && Valid(Mul(a, b))
    ensures b.num != 0 ==> Valid(Div(a, b))
  {
    assert a.den * b.den > 0;
    if b.num != 0 {
      assert a.den * b.num != 0;
    }
  }

  /**
   * `prefix = factor / exponent`; grams whose prefix would reach 10^6 are written as tonnes,
   * with 6 taken off the prefix.
   */
  function Choose(unit: char, exponent: Ratio, factor: Ratio): (c: Choice)
    requires Valid(factor) && Valid(exponent) && exponent.num != 0
    ensures Valid(c.prefix)
  {
    KeepsValid(factor, exponent);
    var prefix := Div(factor, exponent);
    KeepsValid(prefix, Int(6));
    if unit == 'g' && Ge(prefix, Int(6)) then Choice('t', Sub(prefix, Int(6))) else Choice(unit, prefix)
  }

  /** `prefix.num % prefix.den == 0 && (prefix.num / prefix.den) % 3 == 0`, with C++ division. */
  predicate WholeMultipleOfThree(p: Ratio)
    requires p.den != 0
  {
    TruncRem(p.num, p.den) == 0 && TruncRem(TruncDiv(p.num, p.den), 3) == 0
  }

  /**
   * The factor left once a prefix is written: the prefix times the exponent is taken off and,
   * for a tonne, a flat 6 more, whatever the exponent (see TakePrefixIntended).
   */
  function TakePrefix(c: Choice, exponent: Ratio, factor: Ratio): (f: Ratio)
    requires Valid(c.prefix) && Valid(exponent) && Valid(factor)
    ensures Valid(f)
  {
    KeepsValid(c.prefix, exponent);
    var taken := Mul(c.prefix, exponent);
    KeepsValid(factor, taken);
    var f := Sub(factor, taken);
    KeepsValid(f, Int(6));
    if c.unit == 't' then Sub(f, Int(6)) else f
  }

  /** `^` and the exponent as Ratio prints it, unless the exponent is 1. */
  function ExponentText(exponent: Ratio): string
  {
    if Eq(exponent, Int(1)) then "" else "^" + Text(exponent)
  }

  /**
   * `print_single_dimension`: nothing for a zero exponent; otherwise a prefix letter when the
   * prefix power is a whole multiple of 3, the unit letter, and the exponent unless it is 1.
   */
  function SingleDimension(unit: char, exponent: Ratio, factor: Ratio): (p: Printed)
    requires Valid(exponent) && Valid(factor)
    ensures p.factor.Success? ==> Valid(p.factor.value)
  {
    if exponent.num == 0 then Printed("", Success(factor))
    else
      var c := Choose(unit, exponent, factor);
      var written := [c.unit] + ExponentText(exponent);
      if WholeMultipleOfThree(c.prefix) then
        match SiPrefix(TruncDiv(c.prefix.num, c.prefix.den))
        case Failure(e) => Printed("", Failure(e))
        case Success(letter) => Printed(letter + written, Success(TakePrefix(c, exponent, factor)))
      else Printed(written, Success(factor))
  }

  /**
   * The factor the step evidently means to leave: for a tonne its own 10^6 is taken off once
   * per unit of the exponent, like the prefix.
   */
  function TakePrefixIntended(c: Choice, exponent: Ratio, factor: Ratio): (f: Ratio)
    requires Valid(c.prefix) && Valid(exponent) && Valid(factor)
    ensures Valid(f)
  {
    KeepsValid(c.prefix, exponent);
    var taken := Mul(c.prefix, exponent);
    KeepsValid(factor, taken);
    var f := Sub(factor, taken);
    KeepsValid(Int(6), exponent);
    KeepsValid(f, Mul(Int(6), exponent));
    if c.unit == 't' then Sub(f, Mul(Int(6), exponent)) else f
  }

  /** `print_single_dimension` with the intended tonne step: the same text, the factor of TakePrefixIntended. */
  function SingleDimensionIntended(unit: char, exponent: Ratio, factor: Ratio): (p: Printed)
    requires Valid(exponent) && Valid(factor)
    ensures p.factor.Success? ==> Valid(p.factor.value)
  {
    var p := SingleDimension(unit, exponent, factor);
    if exponent.num != 0 && p.factor.Success? && WholeMultipleOfThree(Choose(unit, exponent, factor).prefix) then
      Printed(p.text, Success(TakePrefixIntended(Choose(unit, exponent, factor), exponent, factor)))
    else p
  }

  // ---------------------------------------------------------------------------------
  // A whole dimension: print, split_ratio, split_dim and operator<<.

  /** `print`: mass as grams, then time, then length, the factor passed along. */
  function Group(dim: Dim, factor: Ratio): (p: Printed)
    requires ValidDim(dim) && Valid(factor)
    ensures p.factor.Success? ==> Valid(p.factor.value)
  {
    var g := SingleDimension('g', dim.mass, factor);
    if g.factor.Failure? then g
    else
      var s := SingleDimension('s', dim.time, g.factor.value);
      if s.factor.Failure? then Printed(g.text + s.text, s.factor)
      else
        var m := SingleDimension('m', dim.length, s.factor.value);
        Printed(g.text + s.text + m.text, m.factor)
  }

  /**
   * `split_ratio` on values: a negative whole exponent goes to the denominator, negated;
   * anything else goes to the numerator. The other side keeps what it held.
   */
  function Halves(r: Ratio, num: Ratio, den: Ratio): (Ratio, Ratio)
  {
    if r.num >= 0 || r.den != 1 then (r, den) else (num, Neg(r))
  }

  /** `split_dim` on values: Halves for time, length and mass; the factors are left alone. */
  function SplitDims(dim: Dim, num: Dim, den: Dim): (Dim, Dim)
  {
    var (nt, dt) := Halves(dim.time, num.time, den.time);
    var (nl, dl) := Halves(dim.length, num.length, den.length);
    var (nm, dm) := Halves(dim.mass, num.mass, den.mass);
    (num.(length := nl, mass := nm, time := nt), den.(length := dl, mass := dm, time := dt))
  }

  /** The exception a step lets through, if any. */
  function ErrorOf(p: Printed): Option<IoError>
  {
    if p.factor.Failure? then Some(p.factor.error) else None
  }

  /** The compound symbols operator<< looks for, in the order it tries them. */
  datatype Named = Named(symbol: char, dim: Dim)

  /** The first of W, J and N that the dimension contains. */
  function CompoundOf(dim: Dim): (c: Option<Named>)
    ensures c.Some? ==> Contains(dim, c.value.dim) && ValidDim(c.value.dim)
  {
    if Contains(dim, WattDim) then Some(Named('W', WattDim))
    else if Contains(dim, JouleDim) then Some(Named('J', JouleDim))
    else if Contains(dim, NewtonDim) then Some(Named('N', NewtonDim))
    else None
  }

  /** What operator<< leaves on the stream, and the exception that escapes it, if any. */
  datatype Written = Written(text: string, error: Option<IoError>)

  /** The two groups operator<< prints: the numerator, unless it is empty, and the denominator. */
  function Fraction(dim: Dim): (r: (Dim, Dim))
    ensures ValidDim(dim) ==> ValidDim(r.0) && ValidDim(r.1)
  {
    var (num, den) := SplitDims(dim, Dimensionless, Dimensionless);
    if Equal(num, Dimensionless) then (dim, Dimensionless) else (num, den)
  }

  /** After the compound symbol: the numerator with `factor`, then '/' and the denominator with 0. */
  function RenderFraction(dim: Dim, factor: Ratio): Written
    requires ValidDim(dim) && Valid(factor)
  {
    var (num, den) := Fraction(dim);
    var n := Group(num, factor);
    if n.factor.Failure? then Written(n.text, Some(n.factor.error))
    else if den.mass.num != 0 || den.time.num != 0 || den.length.num != 0 then
      var d := Group(den, Int(0));
      Written(n.text + "/" + d.text, ErrorOf(d))
    else Written(n.text, None)
  }

  /**
   * `operator<<`: the factor starts as `dim.factor + 3 * mass` (grams rather than kilograms);
   * a compound symbol, if one is contained, is written first (SymbolThenRest).
   */
  function Render(dim: Dim): Written
    requires ValidDim(dim)
  {
    KeepsValid(Int(3), dim.mass);
    KeepsValid(dim.factor, Mul(Int(3), dim.mass));
    var factor := Add(dim.factor, Mul(Int(3), dim.mass));
    match CompoundOf(dim)
    case None => RenderFraction(dim, factor)
    case Some(c) => SymbolThenRest(dim, factor, c)
  }

  /**
   * The compound branch of operator<<: the symbol `c` to the power 1 with 3 taken off the
   * factor, then the rest of the dimension, with `c`'s dimension taken off, as a fraction.
   */
  function SymbolThenRest(dim: Dim, factor: Ratio, c: Named): Written
    requires ValidDim(dim) && ValidDim(c.dim) && Valid(factor)
  {
    KeepsValid(factor, Int(3));
    var p := SingleDimension(c.symbol, Make(1, 1), Sub(factor, Int(3)));
    if p.factor.Failure? then Written(p.text, Some(p.factor.error))
    else
      KeepsValid(dim.length, c.dim.length);
      KeepsValid(dim.mass, c.dim.mass);
      KeepsValid(dim.time, c.dim.time);
      KeepsValid(dim.factor, c.dim.factor);
      var w := RenderFraction(Difference(dim, c.dim), p.factor.value);
      Written(p.text + w.text, w.error)
  }

  // ---------------------------------------------------------------------------------
  // The same, step by step on a stream.

  /** Writing `a` and then `b` writes `a + b`. */
  lemma Appended(s: string, a: string, b: string)
    ensures s + a + b == s + (a + b)
  {
  }

  /** An output stream: everything written to it, in order. */
  class Stream {
    var text: string

    constructor()
      ensures text == ""
    {
      text := "";
    }

    /** `target << s` */
    method Write(s: string)
      modifies this
      ensures text == old(text) + s
    {
      text := text + s;
    }
  }

  /** `print_single_dimension(target, unit, exponent, factor)`, `factor` passed by reference. */
  method PrintSingleDimension(target: Stream, unit: char, exponent: Ratio, factor: Ratio)
    returns (r: Result<Ratio, IoError>)
    requires Valid(exponent) && Valid(factor)
    modifies target
    ensures target.text == old(target.text) + SingleDimension(unit, exponent, factor).text
    ensures r == SingleDimension(unit, exponent, factor).factor
  {
    r := Success(factor);
    if exponent.num != 0 {
      KeepsValid(factor, exponent);
      var u := unit;
      var prefix := Div(factor, exponent);
      if u == 'g' && Ge(prefix, Int(6)) {
        u := 't';
        prefix := Sub(prefix, Int(6));
      }
      assert Choice(u, prefix) == Choose(unit, exponent, factor);
      if TruncRem(prefix.num, prefix.den) == 0 && TruncRem(TruncDiv(prefix.num, prefix.den), 3) == 0 {
        var letter := SiPrefix(TruncDiv(prefix.num, prefix.den));
        if letter.Failure? {
          return Failure(letter.error);
        }
        target.Write(letter.value);
        Appended(old(target.text), letter.value, [u] + ExponentText(exponent));
        KeepsValid(prefix, exponent);
        var f := Sub(factor, Mul(prefix, exponent));
        if u == 't' {
          f := Sub(f, Int(6));
        }
        r := Success(f);
      }
      ghost var before := target.text;
      target.Write([u]);
      if !Eq(exponent, Int(1)) {
        target.Write("^" + Text(exponent));
        Appended(before, [u], "^" + Text(exponent));
      } else {
        assert [u] + ExponentText(exponent) == [u];
      }
    }
  }

  /** `print(target, dim, factor)`: grams, seconds, metres; the exception it lets through, if any. */
  method Print(target: Stream, dim: Dim, factor: Ratio) returns (error: Option<IoError>)
    requires ValidDim(dim) && Valid(factor)
    modifies target
    ensures target.text == old(target.text) + Group(dim, factor).text
    ensures error == ErrorOf(Group(dim, factor))
  {
    ghost var start := target.text;
    ghost var g := SingleDimension('g', dim.mass, factor);
    var r := PrintSingleDimension(target, 'g', dim.mass, factor);
    if r.Failure? {
      return Some(r.error);
    }
    var f := r.value;
    ghost var s := SingleDimension('s', dim.time, f);
    r := PrintSingleDimension(target, 's', dim.time, f);
    Appended(start, g.text, s.text);
    if r.Failure? {
      assert Group(dim, factor) == Printed(g.text + s.text, s.factor);
      return Some(r.error);
    }
    f := r.value;
    ghost var m := SingleDimension('m', dim.length, f);
    r := PrintSingleDimension(target, 'm', dim.length, f);
    Appended(start, g.text + s.text, m.text);
    assert Group(dim, factor) == Printed(g.text + s.text + m.text, m.factor);
    error := if r.Failure? then Some(r.error) else None;
  }

  /** `split_ratio(r, num, den)`: writes one of its two reference parameters. */
  method SplitRatio(r: Ratio, num: Ratio, den: Ratio) returns (num': Ratio, den': Ratio)
    ensures (num', den') == Halves(r, num, den)
  {
    num', den' := num, den;
    if r.num >= 0 || r.den != 1 {
      num' := r;
    } else {
      den' := Neg(r);
    }
  }

  /** `split_dim(dim, num, den)`: time, length and mass, each through split_ratio. */
  method SplitDim(dim: Dim, num: Dimension, den: Dimension)
    requires num != den
    modifies num, den
    ensures (num.Value(), den.Value()) == SplitDims(dim, old(num.Value()), old(den.Value()))
  {
    num.time, den.time := SplitRatio(dim.time, num.time, den.time);
    num.length, den.length := SplitRatio(dim.length, num.length, den.length);
    num.mass, den.mass := SplitRatio(dim.mass, num.mass, den.mass);
  }

  /** `operator<<(stream, dim)`. */
  method WriteDimension(stream: Stream, dim: Dim) returns (error: Option<IoError>)
    requires ValidDim(dim)
    modifies stream
    ensures stream.text == old(stream.text) + Render(dim).text
    ensures error == Render(dim).error
  {
    ghost var start := stream.text;
    KeepsValid(Int(3), dim.mass);
    KeepsValid(dim.factor, Mul(Int(3), dim.mass));
    var factor := Add(dim.factor, Mul(Int(3), dim.mass));
    KeepsValid(factor, Int(3));
    var rest := new Dimension.Of(dim.length, dim.mass, dim.time, dim.factor);
    var compound := CompoundOf(dim);
    if compound.Some? {
      var c := compound.value;
      factor := Sub(factor, Int(3));
      var r := PrintSingleDimension(stream, c.symbol, Make(1, 1), factor);
      if r.Failure? {
        return Some(r.error);
      }
      factor := r.value;
      rest.SubAssign(c.dim);
      KeepsValid(dim.length, c.dim.length);
      KeepsValid(dim.mass, c.dim.mass);
      KeepsValid(dim.time, c.dim.time);
      KeepsValid(dim.factor, c.dim.factor);
    }
    ghost var prior := stream.text[|start|..];
    assert stream.text == start + prior;
    ghost var w := RenderFraction(rest.Value(), factor);
    assert Render(dim) == Written(prior + w.text, w.error);
    error := WriteFraction(stream, rest.Value(), factor);
    Appended(start, prior, w.text);
  }

  /** The rest of operator<<: the numerator and, after '/', the denominator. */
  method WriteFraction(stream: Stream, dim: Dim, factor: Ratio) returns (error: Option<IoError>)
    requires ValidDim(dim) && Valid(factor)
    modifies stream
    ensures stream.text == old(stream.text) + RenderFraction(dim, factor).text
    ensures error == RenderFraction(dim, factor).error
  {
    ghost var start := stream.text;
    var num := new Dimension();
    var den := new Dimension();
    SplitDim(dim, num, den);
    if Equal(num.Value(), Dimensionless) {
      num.length, num.mass, num.time, num.factor := dim.length, dim.mass, dim.time, dim.factor;
      den.length, den.mass, den.time, den.factor := Make(), Make(), Make(), Make();
    }
    assert (num.Value(), den.Value()) == Fraction(dim);
    ghost var n := Group(num.Value(), factor);
    error := Print(stream, num.Value(), factor);
    if error.Some? {
      return;
    }
    if den.mass.num != 0 || den.time.num != 0 || den.length.num != 0 {
      stream.Write("/");
      Appended(start, n.text, "/");
      ghost var d := Group(den.Value(), Int(0));
      error := Print(stream, den.Value(), Int(0));
      Appended(start, n.text + "/", d.text);
    }
  }
}
