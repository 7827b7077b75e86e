/**
 * parse_single_factor and parse_dim (src/io.cpp): reading a unit such as "kgm^2/s^3"
 * into a runtime Dimension, token by token.
 */
module Parser {
  import opened Wrappers
  import opened Decimal
  import opened Ratios
  import opened Runtime
  import opened IoErrors
  import opened Scanner

  /** SIPrefixes_helper: the power of ten of each prefix letter ('d' is +1 as written). */
  function SIPrefixes(c: char): (r: Option<Ratio>)
    ensures r.Some? <==> IsPrefixLetter(c)
    ensures r.Some? ==> r.value.den == 1
  {
    match c
    case 'p' => Some(Make(-12, 1))
    case 'n' => Some(Make(-9, 1))
    case 'u' => Some(Make(-6, 1))
    case 'm' => Some(Make(-3, 1))
    case 'c' => Some(Make(-2, 1))
    case 'd' => Some(Make(1, 1))
    case 'h' => Some(Make(2, 1))
    case 'k' => Some(Make(3, 1))
    case 'M' => Some(Make(6, 1))
    case 'G' => Some(Make(9, 1))
    case 'T' => Some(Make(12, 1))
    case _ => None
  }

  /** A token's base unit, as (length, mass, time, factor) exponents. */
  datatype Exponents = Exponents(length: int, mass: int, time: int, factor: int)

  /**
   * What a unit symbol stands for: g is 10^-3 kg, t is 10^3 kg, m and s are the metre and
   * the second, and J, W and N are the predefined energy, power and force.
   */
  function SymbolExponents(c: char): Exponents
    requires IsSymbolLetter(c)
  {
    match c
    case 'g' => Exponents(0, 1, 0, -3)
    case 't' => Exponents(0, 1, 0, 3)
    case 'm' => Exponents(1, 0, 0, 0)
    case 's' => Exponents(0, 0, 1, 0)
    case 'J' => Exponents(2, 1, -2, 0)
    case 'W' => Exponents(2, 1, -3, 0)
    case 'N' => Exponents(1, 1, -2, 0)
  }

  /** A dimension with whole-number components. */
  function Whole(l: int, m: int, t: int, f: int): Dim
  {
    Dim(Int(l), Int(m), Int(t), Int(f))
  }

  /** The power of ten of the prefix submatch, 0 when there is none. */
  function PrefixExponent(g: string): int
  {
    if g != "" && SIPrefixes(g[0]).Some? then SIPrefixes(g[0]).value.num else 0
  }

  /** The facts about each submatch that the loop of parse_single_factor relies on. */
  predicate Shape(m: Match)
  {
    |m.groups| == 7
    && |m.groups[1]| <= 1
    && |m.groups[2]| == 1 && IsSymbolLetter(m.groups[2][0])
    && (m.groups[3] == "" || (|m.groups[3]| >= 2 && m.groups[3][0] == '^'))
    && (m.groups[3] == "" ==> m.groups[4] == "" && m.groups[5] == "")
    && (m.groups[4] != "" ==>
          Stoi(m.groups[4]).Some? && m.groups[4][0] != '^' && m.groups[4][0] != '/'
          && (|m.groups[4]| == 1 ==> !IsSymbolLetter(m.groups[4][0])))
    && (m.groups[5] != "" ==> m.groups[5][0] == '/' && Stoi(m.groups[5]).None?)
    && (m.groups[5] == "" ==> m.groups[6] == "")
  }

  /** The exponent numerator, or 1 when there is no exponent. */
  function ExponentOf(m: Match): int
    requires Shape(m)
  {
    if m.groups[4] == "" then 1 else Stoi(m.groups[4]).value
  }

  /**
   * What the submatches of one token mean: the prefix exponent plus the symbol's exponents,
   * all multiplied by the integer exponent. A `/q` exponent denominator always fails: it
   * reaches std::stoi while the exponent numerator is expected.
   */
  function FactorOfMatch(m: Match): Result<(Dim, string), IoError>
    requires Shape(m)
  {
    var g := m.groups;
    if g[1] != "" && SIPrefixes(g[1][0]).None? then Failure(UnknownPrefix(g[1][0]))
    else if g[5] != "" then Failure(InvalidArgument)
    else
      var k := ExponentOf(m);
      var e := SymbolExponents(g[2][0]);
      var p := PrefixExponent(g[1]);
      Success((Whole(e.length * k, e.mass * k, e.time * k, (p + e.factor) * k), m.suffix))
  }

  /** What one token at the start of `unit` means, and the text left after it. */
  function ReadFactor(unit: string): (r: Result<(Dim, string), IoError>)
    ensures r.Success? ==> |r.value.1| < |unit| && r.value.1 == unit[|unit| - |r.value.1|..]
  {
    match MatchFactor(unit)
    case None => Failure(InvalidUnit(unit))
    case Some(m) =>
      MatchShape(m);
      assert unit == m.groups[0] + m.suffix;
      FactorOfMatch(m)
  }

  /** A token's dimension as parse_dim adds it: negated once a '/' has been seen. */
  function Signed(d: Dim, mode: int): Dim
  {
    if mode == -1 then Scaled(d, Make(-1, 1)) else d
  }

  /** The loop of parse_dim from a given point: `mode` is -1 once a '/' has been seen. */
  function ParseFrom(s: string, mode: int, acc: Dim): Result<Dim, IoError>
    decreases 2 * |s| + 1
  {
    match ReadFactor(s)
    case Failure(e) => Failure(e)
    case Success((d, rest)) => Continue(rest, mode, Sum(acc, Signed(d, mode)))
  }

  /** The loop condition of parse_dim: a leading '/' switches the mode, an empty rest ends. */
  function Continue(rest: string, mode: int, acc: Dim): Result<Dim, IoError>
    decreases 2 * |rest| + 2
  {
    var slash := |rest| > 0 && rest[0] == '/';
    var rest' := if slash then rest[1..] else rest;
    if rest' == [] then Success(acc) else ParseFrom(rest', if slash then -1 else mode, acc)
  }

  /** parse_dim: what the whole text means. */
  function ReadUnit(s: string): Result<Dim, IoError>
  {
    ParseFrom(s, 1, Dimensionless)
  }

  // ---------------------------------------------------------------------------------
  // The imperative parser.

  datatype State = Begin | Exp | Den

  /** The dimension built after the first `i` submatches, before the exponent is applied. */
  function Progress(m: Match, i: nat): Dim
    requires Shape(m)
  {
    var p := PrefixExponent(m.groups[1]);
    var e := SymbolExponents(m.groups[2][0]);
    if i <= 1 then Dimensionless
    else if i == 2 then Whole(0, 0, 0, p)
    else Whole(e.length, e.mass, e.time, p + e.factor)
  }

  /** The dimension a symbol token stands for, over a prefix of power `p`, before its exponent. */
  function SymbolDim(c: char, p: int): Dim
    requires IsSymbolLetter(c)
  {
    var e := SymbolExponents(c);
    Whole(e.length, e.mass, e.time, p + e.factor)
  }

  /**
   * What the symbol part of the loop body of parse_single_factor does to `dims` for a
   * one-character submatch `c`: g and t set the mass exponent's numerator and move the factor
   * by -3 and +3, m and s set the length and time numerators, J, W and N add JOULE_DIM,
   * WATT_DIM and NEWTON_DIM (the bridged predefined energy, power and force: see
   * RuntimeChecks.JouleIsEnergy, WattIsPower and NewtonIsForce); any other character changes
   * nothing.
   */
  function SymbolStep(d: Dim, c: char): Dim
  {
    match c
    case 'g' => d.(mass := d.mass.(num := 1), factor := Add(d.factor, Make(-3, 1)))
    case 'm' => d.(length := d.length.(num := 1))
    case 's' => d.(time := d.time.(num := 1))
    case 't' => d.(mass := d.mass.(num := 1), factor := Add(d.factor, Make(3, 1)))
    case 'J' => Sum(d, JouleDim)
    case 'W' => Sum(d, WattDim)
    case 'N' => Sum(d, NewtonDim)
    case _ => d
  }

  /** On top of a bare prefix of power `p`, a symbol step leaves exactly the symbol's dimension. */
  lemma SymbolStepOverPrefix(c: char, p: int)
    requires IsSymbolLetter(c)
    ensures SymbolStep(Whole(0, 0, 0, p), c) == SymbolDim(c, p)
  {
    var d := Whole(0, 0, 0, p);
    match c
    case 'g' =>
      assert Add(Int(p), Int(-3)) == Int(p - 3);
      assert SymbolStep(d, c) == Whole(0, 1, 0, p - 3);
    case 't' =>
      assert Add(Int(p), Int(3)) == Int(p + 3);
      assert SymbolStep(d, c) == Whole(0, 1, 0, p + 3);
    case 'm' => assert SymbolStep(d, c) == Whole(1, 0, 0, p);
    case 's' => assert SymbolStep(d, c) == Whole(0, 0, 1, p);
    case 'J' =>
      WholeSum(0, 0, 0, p, 2, 1, -2, 0);
      assert JouleDim == Whole(2, 1, -2, 0);
      assert SymbolStep(d, c) == Whole(2, 1, -2, p);
    case 'W' =>
      WholeSum(0, 0, 0, p, 2, 1, -3, 0);
      assert WattDim == Whole(2, 1, -3, 0);
      assert SymbolStep(d, c) == Whole(2, 1, -3, p);
    case 'N' =>
      WholeSum(0, 0, 0, p, 1, 1, -2, 0);
      assert NewtonDim == Whole(1, 1, -2, 0);
      assert SymbolStep(d, c) == Whole(1, 1, -2, p);
  }

  /** The symbol tests of the loop body of parse_single_factor, in the source's order. */
  method ApplySymbol(dims: Dimension, x: string)
    requires |x| == 1
    modifies dims
    ensures dims.Value() == SymbolStep(old(dims.Value()), x[0])
  {
    if x == "g" {
      dims.mass := dims.mass.(num := 1);
      dims.factor := Add(dims.factor, Make(-3, 1));
    }
    if x == "m" { dims.length := dims.length.(num := 1); }
    if x == "s" { dims.time := dims.time.(num := 1); }
    if x == "t" {
      dims.mass := dims.mass.(num := 1);
      dims.factor := Add(dims.factor, Make(3, 1));
    }
    if x == "J" {
      dims.AddAssign(JouleDim);
    }
    if x == "W" {
      dims.AddAssign(WattDim);
    }
    if x == "N" {
      dims.AddAssign(NewtonDim);
    }
  }

  /** Adding whole-number dimensions adds their exponents. */
  lemma WholeSum(l: int, m: int, t: int, f: int, l': int, m': int, t': int, f': int)
    ensures Sum(Whole(l, m, t, f), Whole(l', m', t', f')) == Whole(l + l', m + m', t + t', f + f')
  {
  }

  /** An exponent numerator always converts. */
  lemma StoiReadsIntegerText(x: string)
    requires IsIntegerText(x)
    ensures Stoi(x).Some?
  {
    if x[0] == '-' {
      DigitRunAll(x[1..]);
    } else {
      DigitRunAll(x);
    }
  }

  /** A '/' is neither a sign nor a digit, so std::stoi throws on "/q". */
  lemma StoiRejectsSlash(x: string)
    requires |x| > 0 && x[0] == '/'
    ensures Stoi(x) == None
  {
  }

  lemma MatchShape(m: Match)
    requires WellFormedMatch(m)
    ensures Shape(m)
  {
    var g := m.groups;
    assert g[3..][0] == g[3] && g[3..][1] == g[4] && g[3..][2] == g[5] && g[3..][3] == g[6];
    if g[4] != "" {
      StoiReadsIntegerText(g[4]);
    }
    if g[5] != "" {
      StoiRejectsSlash(g[5]);
    }
  }

  /** parse_single_factor: matches the token grammar, then walks the submatches. */
  method ParseSingleFactor(unit: string) returns (r: Result<(Dim, string), IoError>)
    ensures r == ReadFactor(unit)
  {
    var found := MatchFactor(unit);
    if found.None? {
      return Failure(InvalidUnit(unit));
    }
    MatchShape(found.value);
    r := WalkSubmatches(found.value);
  }

  /**
   * The loop of parse_single_factor over the submatches: the prefix adds to the factor,
   * the symbol sets its exponents, and the BEGIN/EXP/DEN state routes the exponent text
   * to std::stoi; the exponent then multiplies the whole dimension.
   */
  method WalkSubmatches(m: Match) returns (r: Result<(Dim, string), IoError>)
    requires Shape(m)
    ensures r == FactorOfMatch(m)
  {
    var dims := new Dimension();
    var exponent := Make(1, 1);
    var state := Begin;
    var matchCounter := 0;
    while matchCounter < |m.groups|
      invariant 0 <= matchCounter <= 7
      invariant state == if matchCounter >= 4 && m.groups[3] != "" then Exp else Begin
      invariant exponent == if matchCounter >= 5 then Ratio(ExponentOf(m), 1) else Ratio(1, 1)
      invariant matchCounter >= 2 ==> !(m.groups[1] != "" && SIPrefixes(m.groups[1][0]).None?)
      invariant matchCounter >= 6 ==> m.groups[5] == ""
      invariant dims.Value() == Progress(m, matchCounter)
    {
      var x := m.groups[matchCounter];
      matchCounter := matchCounter + 1;
      assert matchCounter == 3 ==> dims.Value() == Whole(0, 0, 0, dims.factor.num);
      assert matchCounter == 4 || matchCounter == 7 ==> |x| != 1;
      assert matchCounter == 5 && x != "" ==> state == Exp;
      if matchCounter == 1 {
        continue;
      }
      if |x| == 0 {
        continue;
      }
      if |x| == 1 {
        var firstChar := x[0];
        if matchCounter == 2 {
          var prefix := SIPrefixes(firstChar);
          if prefix.None? {
            return Failure(UnknownPrefix(firstChar));
          }
          assert prefix.value == Ratio(PrefixExponent(x), 1);
          dims.factor := Add(dims.factor, prefix.value);
          assert dims.Value() == Progress(m, 2);
          continue;
        }
        ghost var p := dims.factor.num;
        ApplySymbol(dims, x);
        if matchCounter == 3 {
          SymbolStepOverPrefix(firstChar, p);
        }
      }
      if state == Exp {
        match Stoi(x)
        case None => return Failure(InvalidArgument);
        case Some(v) => exponent := exponent.(num := v);
      }
      if state == Den {
        match Stoi(x)
        case None => return Failure(InvalidArgument);
        case Some(v) => exponent := exponent.(den := v);
      }
      if x[0] == '^' { state := Exp; }
      if x[0] == '/' { state := Den; }
    }
    dims.ScaleAssign(exponent);
    return Success((dims.Value(), m.suffix));
  }

  /** parse_dim: a do-while loop over the tokens; after a '/' every token is negated. */
  method ParseDim(unitS: string) returns (r: Result<Dim, IoError>)
    ensures r == ReadUnit(unitS)
  {
    var u := new Dimension();
    var mode := 1;
    var s := unitS;
    while true
      invariant ParseFrom(s, mode, u.Value()) == ReadUnit(unitS)
      decreases |s|
    {
      var parsed := ParseSingleFactor(s);
      if parsed.Failure? {
        return Failure(parsed.error);
      }
      var d := parsed.value.0;
      var p := new Dimension.Of(d.length, d.mass, d.time, d.factor);
      if mode == -1 {
        p.ScaleAssign(Make(-1, 1));
      }
      u.AddAssign(p.Value());
      s := parsed.value.1;
      if |s| > 0 && s[0] == '/' {
        mode := -1;
        s := s[1..];
      }
      if s == [] {
        break;
      }
    }
    return Success(u.Value());
  }
}
