/**
 * Unit texts built from tokens: a prefix letter or nothing, a symbol letter and an
 * integer exponent written as `^k` unless it is 1. What parse_dim (src/io.cpp) reads
 * from such a text, for every list of tokens at once.
 */
module UnitText {
  import opened Wrappers
  import opened Decimal
  import opened Ratios
  import opened Runtime
  import opened Scanner
  import opened Parser

  /**
   * `pre` (a prefix letter or nothing) and the symbol `c` start a token followed by `tail`:
   * with no prefix, `c` must not itself be read as a prefix of a following symbol.
   */
  predicate TokenStart(pre: string, c: char, tail: string)
  {
    |pre| <= 1 && (pre != "" ==> IsPrefixLetter(pre[0])) && IsSymbolLetter(c)
    && (pre == "" ==> !(IsPrefixLetter(c) && |tail| >= 1 && IsSymbolLetter(tail[0])))
  }

  /** Text that does not continue an exponent's digits or start a `/q` denominator. */
  predicate EndsExponent(rest: string)
  {
    rest == [] || (!IsDigit(rest[0]) && !(rest[0] == '/' && |rest| >= 2 && IsDigit(rest[1])))
  }

  /** The dimension of a token with prefix `pre`, symbol `c` and exponent `k`. */
  function TokenDim(pre: string, c: char, k: int): Dim
    requires IsSymbolLetter(c)
  {
    var e := SymbolExponents(c);
    Whole(e.length * k, e.mass * k, e.time * k, (PrefixExponent(pre) + e.factor) * k)
  }

  lemma MatchesToken(pre: string, c: char, tail: string)
    requires TokenStart(pre, c, tail)
    ensures MatchFactor(pre + [c] + tail) == Some(Assemble(pre, c, tail))
  {
    var s := pre + [c] + tail;
    if pre == "" {
      assert s[0] == c && s[1..] == tail;
    } else {
      assert s[..1] == pre && s[1] == c && s[2..] == tail;
    }
  }

  /** A token without an exponent. */
  lemma ReadPlainToken(pre: string, c: char, rest: string)
    requires TokenStart(pre, c, rest) && ExponentGroups(rest)[0] == ""
    ensures ReadFactor(pre + [c] + rest) == Success((TokenDim(pre, c, 1), rest))
  {
    MatchesToken(pre, c, rest);
    var m := Assemble(pre, c, rest);
    assert m.groups[1] == pre;
    assert m.groups[2] == [c];
    assert rest[0..] == rest;
  }

  /** `^k` at the start of the text is read as the integer exponent k. */
  lemma IntegerExponentGroups(k: int, rest: string)
    requires EndsExponent(rest)
    ensures ExponentGroups("^" + IntText(k) + rest) == ["^" + IntText(k), IntText(k), "", ""]
  {
    var t := IntText(k);
    assert IsIntegerText(t);
    IntegerTextGroups(t, rest);
  }

  /** `^` and integer text: the whole text is the exponent numerator, and nothing else matches. */
  lemma IntegerTextGroups(t: string, rest: string)
    requires IsIntegerText(t) && EndsExponent(rest)
    ensures ExponentGroups("^" + t + rest) == ["^" + t, t, "", ""]
  {
    var s := "^" + t + rest;
    if |rest| >= 2 && rest[0] == '/' {
      assert rest[1..][0] == rest[1];
    }
    assert |rest| >= 1 && rest[0] == '/' ==> DigitRun(rest[1..]) == 0;
    if t[0] == '-' {
      SignedTextGroups(s, t, rest, 1);
    } else {
      SignedTextGroups(s, t, rest, 0);
    }
  }

  /** After the '^' and the optional sign, the digit run covers exactly the digits of `t`. */
  lemma SignedTextGroups(s: string, t: string, rest: string, sign: nat)
    requires s == "^" + t + rest && IsIntegerText(t) && sign == (if t[0] == '-' then 1 else 0)
    requires EndsExponent(rest)
    ensures DigitRun(s[1 + sign..]) == |t| - sign
    ensures s[1..1 + |t|] == t && s[1 + |t|..] == rest
  {
    var digits := t[sign..];
    if sign == 0 {
      assert digits == t;
    }
    assert s[1 + sign..] == digits + rest;
    DigitRunStops(digits, rest);
  }

  /** A token with an integer exponent. */
  lemma ReadPowerToken(pre: string, c: char, k: int, rest: string)
    requires TokenStart(pre, c, "^" + IntText(k) + rest) && EndsExponent(rest)
    ensures ReadFactor(pre + [c] + ("^" + IntText(k) + rest)) == Success((TokenDim(pre, c, k), rest))
  {
    var tail := "^" + IntText(k) + rest;
    MatchesToken(pre, c, tail);
    IntegerExponentGroups(k, rest);
    StoiReadsIntText(k);
    var m := Assemble(pre, c, tail);
    assert m.groups[1] == pre;
    assert m.groups[2] == [c];
    assert m.groups[4] == IntText(k);
    assert m.suffix == rest;
    MatchShape(m);
    FactorOfToken(m, pre, c, k);
  }

  /** The submatches of a token with a known prefix mean the token's dimension. */
  lemma FactorOfToken(m: Match, pre: string, c: char, k: int)
    requires Shape(m) && m.groups[1] == pre && m.groups[2] == [c] && m.groups[5] == ""
    requires ExponentOf(m) == k && (pre != "" ==> IsPrefixLetter(pre[0]))
    ensures FactorOfMatch(m) == Success((TokenDim(pre, c, k), m.suffix))
  {
  }


  // ---------------------------------------------------------------------------------
  // Lists of tokens.

  datatype Token = Token(pre: string, sym: char, exp: int)

  predicate ValidToken(t: Token)
  {
    |t.pre| <= 1 && (t.pre != "" ==> IsPrefixLetter(t.pre[0])) && IsSymbolLetter(t.sym)
  }

  /** How a token is written: the exponent is left out when it is 1. */
  function TokenText(t: Token): string
  {
    t.pre + [t.sym] + (if t.exp == 1 then "" else "^" + IntText(t.exp))
  }

  function TokensText(ts: seq<Token>): string
  {
    if ts == [] then "" else TokenText(ts[0]) + TokensText(ts[1..])
  }

  predicate IsLetter(c: char) { IsPrefixLetter(c) || IsSymbolLetter(c) }

  /** What may follow a token: nothing, a letter, or a '/' that is last or before a letter. */
  predicate NextText(f: string)
  {
    f == [] || IsLetter(f[0]) || (f[0] == '/' && (|f| == 1 || IsLetter(f[1])))
  }

  /**
   * A token followed by `f` is read back as itself: a bare symbol that is also a prefix
   * letter must not be followed by a symbol letter.
   */
  predicate TokenFits(t: Token, f: string)
  {
    ValidToken(t) && NextText(f)
    && (t.pre == "" && t.exp == 1 ==> !(IsPrefixLetter(t.sym) && |f| >= 1 && IsSymbolLetter(f[0])))
  }

  /** Every token of `ts` fits what follows it, `tail` coming last. */
  predicate Fits(ts: seq<Token>, tail: string)
  {
    forall i :: 0 <= i < |ts| ==> TokenFits(ts[i], TokensText(ts[i + 1..]) + tail)
  }

  /** `acc` plus every token of `ts`, each negated when `mode` is -1. */
  function AddTokens(acc: Dim, ts: seq<Token>, mode: int): Dim
    requires forall i :: 0 <= i < |ts| ==> ValidToken(ts[i])
    decreases |ts|
  {
    if ts == [] then acc
    else
      assert ValidToken(ts[0]);
      AddTokens(Sum(acc, Signed(TokenDim(ts[0].pre, ts[0].sym, ts[0].exp), mode)), ts[1..], mode)
  }

  /** The text of a unit: the numerator tokens, then '/' and the denominator tokens if any. */
  function UnitString(num: seq<Token>, den: seq<Token>): string
  {
    TokensText(num) + (if den == [] then "" else "/" + TokensText(den))
  }

  /** One token followed by text it fits is read as the token's dimension. */
  lemma ReadToken(t: Token, f: string)
    requires TokenFits(t, f)
    ensures ReadFactor(TokenText(t) + f) == Success((TokenDim(t.pre, t.sym, t.exp), f))
  {
    if t.exp == 1 {
      assert TokenText(t) + f == t.pre + [t.sym] + f;
      ReadPlainToken(t.pre, t.sym, f);
    } else {
      assert TokenText(t) + f == t.pre + [t.sym] + ("^" + IntText(t.exp) + f);
      ReadPowerToken(t.pre, t.sym, t.exp, f);
    }
  }

  lemma FitsRest(ts: seq<Token>, tail: string)
    requires ts != [] && Fits(ts, tail)
    ensures TokenFits(ts[0], TokensText(ts[1..]) + tail) && Fits(ts[1..], tail)
  {
    forall i | 0 <= i < |ts[1..]|
      ensures TokenFits(ts[1..][i], TokensText(ts[1..][i + 1..]) + tail)
    {
      assert ts[1..][i + 1..] == ts[i + 2..];
      assert ts[1..][i] == ts[i + 1];
    }
  }

  lemma TokensStartWithLetter(ts: seq<Token>, tail: string)
    requires ts != [] && ValidToken(ts[0])
    ensures TokensText(ts) + tail != [] && IsLetter((TokensText(ts) + tail)[0])
  {
    var t := ts[0];
    var s := TokensText(ts) + tail;
    assert s[0] == TokenText(t)[0] by {
      assert TokensText(ts) == TokenText(t) + TokensText(ts[1..]);
    }
    assert TokenText(t)[0] == (if t.pre == "" then t.sym else t.pre[0]);
  }

  lemma FitsValid(ts: seq<Token>, tail: string)
    requires Fits(ts, tail)
    ensures forall i :: 0 <= i < |ts| ==> ValidToken(ts[i])
  {
    forall i | 0 <= i < |ts| ensures ValidToken(ts[i]) {
      assert TokenFits(ts[i], TokensText(ts[i + 1..]) + tail);
    }
  }

  /** One step of parse_dim over a token that fits what follows it. */
  lemma ParseToken(t: Token, f: string, mode: int, acc: Dim)
    requires TokenFits(t, f)
    ensures ParseFrom(TokenText(t) + f, mode, acc)
            == Continue(f, mode, Sum(acc, Signed(TokenDim(t.pre, t.sym, t.exp), mode)))
  {
    ReadToken(t, f);
  }

  /** Without a '/', parse_dim goes on in the same mode. */
  lemma ContinueWithoutSlash(f: string, mode: int, acc: Dim)
    requires f != [] && f[0] != '/'
    ensures Continue(f, mode, acc) == ParseFrom(f, mode, acc)
  {
  }

  lemma SplitText(ts: seq<Token>, tail: string)
    requires ts != []
    ensures TokensText(ts) + tail == TokenText(ts[0]) + (TokensText(ts[1..]) + tail)
  {
  }

  /** The first token fits the text of the other tokens and the tail. */
  lemma FirstFits(ts: seq<Token>, tail: string)
    requires ts != [] && Fits(ts, tail)
    ensures TokenFits(ts[0], TokensText(ts[1..]) + tail)
  {
    assert ts[0 + 1..] == ts[1..];
  }

  /** Reading the last token of a list leaves the tail. */
  lemma ParseOnlyToken(ts: seq<Token>, tail: string, mode: int, acc: Dim)
    requires |ts| == 1 && Fits(ts, tail)
    ensures ValidToken(ts[0])
    ensures ParseFrom(TokensText(ts) + tail, mode, acc)
            == Continue(tail, mode, Sum(acc, Signed(TokenDim(ts[0].pre, ts[0].sym, ts[0].exp), mode)))
  {
    FirstFits(ts, tail);
    assert TokensText(ts[1..]) + tail == tail;
    ParseToken(ts[0], tail, mode, acc);
    SplitText(ts, tail);
  }

  lemma LetterIsNoSlash(c: char)
    requires IsLetter(c)
    ensures c != '/'
  {
  }

  /** Reading the first of several tokens leaves the text of the others. */
  lemma ParseLeadingToken(ts: seq<Token>, tail: string, mode: int, acc: Dim)
    requires |ts| >= 2 && Fits(ts, tail)
    ensures ValidToken(ts[0])
    ensures ParseFrom(TokensText(ts) + tail, mode, acc)
            == ParseFrom(TokensText(ts[1..]) + tail, mode, Sum(acc, Signed(TokenDim(ts[0].pre, ts[0].sym, ts[0].exp), mode)))
  {
    var f := TokensText(ts[1..]) + tail;
    var acc' := Sum(acc, Signed(TokenDim(ts[0].pre, ts[0].sym, ts[0].exp), mode));
    FirstFits(ts, tail);
    assert ParseFrom(TokensText(ts) + tail, mode, acc) == Continue(f, mode, acc') by {
      ParseToken(ts[0], f, mode, acc);
      SplitText(ts, tail);
    }
    assert f != [] && f[0] != '/' by {
      FitsRest(ts, tail);
      FitsValid(ts[1..], tail);
      TokensStartWithLetter(ts[1..], tail);
      LetterIsNoSlash(f[0]);
    }
    ContinueWithoutSlash(f, mode, acc');
  }

  /**
   * parse_dim reads a list of fitting tokens one by one, adding each, and then goes on
   * after the '/' that may follow, from then on negating.
   */
  lemma {:induction false} ParseTokens(ts: seq<Token>, tail: string, mode: int, acc: Dim)
    requires ts != [] && Fits(ts, tail) && (tail == [] || tail[0] == '/')
    ensures forall i :: 0 <= i < |ts| ==> ValidToken(ts[i])
    ensures ParseFrom(TokensText(ts) + tail, mode, acc) == Continue(tail, mode, AddTokens(acc, ts, mode))
    decreases |ts|
  {
    FitsValid(ts, tail);
    if |ts| == 1 {
      ParseOnlyToken(ts, tail, mode, acc);
    } else {
      ParseLeadingToken(ts, tail, mode, acc);
      FitsRest(ts, tail);
      ParseTokens(ts[1..], tail, mode, Sum(acc, Signed(TokenDim(ts[0].pre, ts[0].sym, ts[0].exp), mode)));
    }
  }

  /** parse_dim of a unit text yields the numerator tokens minus the denominator tokens. */
  lemma ReadText(num: seq<Token>, den: seq<Token>)
    requires num != [] && Fits(num, if den == [] then "" else "/" + TokensText(den)) && Fits(den, "")
    ensures forall i :: 0 <= i < |num| ==> ValidToken(num[i])
    ensures forall i :: 0 <= i < |den| ==> ValidToken(den[i])
    ensures ReadUnit(UnitString(num, den)) == Success(AddTokens(AddTokens(Dimensionless, num, 1), den, -1))
  {
    FitsValid(den, "");
    var tail := if den == [] then "" else "/" + TokensText(den);
    ParseTokens(num, tail, 1, Dimensionless);
    var acc := AddTokens(Dimensionless, num, 1);
    if den != [] {
      TokensStartWithLetter(den, "");
      assert TokensText(den) + "" == TokensText(den);
      assert tail[1..] == TokensText(den) + "";
      ParseTokens(den, "", -1, acc);
    } else {
      assert TokensText(num) + tail == UnitString(num, den);
    }
  }

  // ---------------------------------------------------------------------------------
  // Whole-number exponents: what a list of tokens adds up to, as integers.

  /** The integer exponents and power of ten of one token. */
  function TokenExponents(t: Token): Exponents
    requires IsSymbolLetter(t.sym)
  {
    var e := SymbolExponents(t.sym);
    Exponents(e.length * t.exp, e.mass * t.exp, e.time * t.exp, (PrefixExponent(t.pre) + e.factor) * t.exp)
  }

  function Plus(a: Exponents, b: Exponents): Exponents
  {
    Exponents(a.length + b.length, a.mass + b.mass, a.time + b.time, a.factor + b.factor)
  }

  function Minus(a: Exponents, b: Exponents): Exponents
  {
    Exponents(a.length - b.length, a.mass - b.mass, a.time - b.time, a.factor - b.factor)
  }

  /** `acc` with `e` added in numerator mode (1) and subtracted in denominator mode (-1). */
  function Accumulate(acc: Exponents, e: Exponents, mode: int): Exponents
  {
    if mode == -1 then Minus(acc, e) else Plus(acc, e)
  }

  /** The exponents of all tokens of `ts`, added up. */
  function Total(ts: seq<Token>): Exponents
    requires forall i :: 0 <= i < |ts| ==> ValidToken(ts[i])
    decreases |ts|
  {
    if ts == [] then Exponents(0, 0, 0, 0)
    else
      assert ValidToken(ts[0]);
      Plus(TokenExponents(ts[0]), Total(ts[1..]))
  }

  function WholeOf(e: Exponents): Dim
  {
    Whole(e.length, e.mass, e.time, e.factor)
  }

  /** Adding a whole-number dimension, negated in denominator mode, acts on the integer exponents. */
  lemma SumSignedWhole(acc: Exponents, e: Exponents, mode: int)
    ensures Sum(WholeOf(acc), Signed(WholeOf(e), mode)) == WholeOf(Accumulate(acc, e, mode))
  {
  }

  /** A token's dimension is the whole-number dimension of its exponents. */
  lemma TokenDimWhole(t: Token)
    requires ValidToken(t)
    ensures TokenDim(t.pre, t.sym, t.exp) == WholeOf(TokenExponents(t))
  {
  }

  /** Adding the tokens one by one adds (or, after '/', subtracts) their total. */
  lemma {:induction false} AddTokensWhole(acc: Exponents, ts: seq<Token>, mode: int)
    requires forall i :: 0 <= i < |ts| ==> ValidToken(ts[i])
    ensures AddTokens(WholeOf(acc), ts, mode) == WholeOf(Accumulate(acc, Total(ts), mode))
    decreases |ts|
  {
    if ts != [] {
      var t := ts[0];
      assert ValidToken(t);
      TokenDimWhole(t);
      SumSignedWhole(acc, TokenExponents(t), mode);
      var acc' := Accumulate(acc, TokenExponents(t), mode);
      AddTokensWhole(acc', ts[1..], mode);
      assert Accumulate(acc', Total(ts[1..]), mode) == Accumulate(acc, Total(ts), mode);
    }
  }

  /**
   * parse_dim of a unit text yields the whole-number dimension whose exponents are those of
   * the numerator tokens minus those of the denominator tokens.
   */
  lemma ReadTextWhole(num: seq<Token>, den: seq<Token>)
    requires num != [] && Fits(num, if den == [] then "" else "/" + TokensText(den)) && Fits(den, "")
    ensures forall i :: 0 <= i < |num| ==> ValidToken(num[i])
    ensures forall i :: 0 <= i < |den| ==> ValidToken(den[i])
    ensures ReadUnit(UnitString(num, den)) == Success(WholeOf(Minus(Total(num), Total(den))))
  {
    ReadText(num, den);
    var zero := Exponents(0, 0, 0, 0);
    assert Dimensionless == WholeOf(zero);
    AddTokensWhole(zero, num, 1);
    assert Accumulate(zero, Total(num), 1) == Total(num);
    AddTokensWhole(Total(num), den, -1);
  }

  /** A trailing '/' after the numerator tokens ends the text without a denominator. */
  lemma ReadTextThenSlash(num: seq<Token>)
    requires num != [] && Fits(num, "/")
    ensures forall i :: 0 <= i < |num| ==> ValidToken(num[i])
    ensures ReadUnit(TokensText(num) + "/") == Success(WholeOf(Total(num)))
  {
    ParseTokens(num, "/", 1, Dimensionless);
    var zero := Exponents(0, 0, 0, 0);
    assert Dimensionless == WholeOf(zero);
    AddTokensWhole(zero, num, 1);
    assert Accumulate(zero, Total(num), 1) == Total(num);
  }

  // ---------------------------------------------------------------------------------
  // The same, in the form the examples use.

  /** `s` is the text of the tokens `num` over `den`, and each of them reads back as itself. */
  predicate Spelled(num: seq<Token>, den: seq<Token>, s: string)
  {
    num != [] && Fits(num, if den == [] then "" else "/" + TokensText(den)) && Fits(den, "")
    && UnitString(num, den) == s
  }

  lemma ReadSpelled(num: seq<Token>, den: seq<Token>, s: string, d: Dim)
    requires Spelled(num, den, s)
    requires WholeOf(Minus(Total(num), Total(den))) == d
    ensures ReadUnit(s) == Success(d)
  {
    ReadTextWhole(num, den);
  }

  lemma FitsOne(a: Token, tail: string)
    requires TokenFits(a, tail)
    ensures Fits([a], tail) && TokensText([a]) == TokenText(a)
  {
    assert [a][1..] == [];
  }

  lemma FitsTwo(a: Token, b: Token, tb: string, tail: string)
    requires TokenText(b) == tb && TokenFits(a, tb + tail) && TokenFits(b, tail)
    ensures Fits([a, b], tail) && TokensText([a, b]) == TokenText(a) + tb
  {
    assert [a, b][1..] == [b];
    FitsOne(b, tail);
    assert TokensText([b]) + tail == TokenText(b) + tail;
  }

  lemma TotalOfOne(a: Token)
    requires ValidToken(a)
    ensures Total([a]) == TokenExponents(a)
  {
    assert [a][1..] == [];
  }

  lemma TotalOfTwo(a: Token, b: Token)
    requires ValidToken(a) && ValidToken(b)
    ensures Total([a, b]) == Plus(TokenExponents(a), TokenExponents(b))
  {
    assert [a, b][1..] == [b];
    TotalOfOne(b);
  }

  /** Two numerator tokens over one denominator token, given the text of each. */
  lemma SpelledTwoOverOne(a: Token, b: Token, c: Token, ta: string, tb: string, tc: string, s: string)
    requires TokenText(a) == ta && TokenText(b) == tb && TokenText(c) == tc
    requires TokenFits(a, tb + "/" + tc) && TokenFits(b, "/" + tc) && TokenFits(c, "")
    requires ta + tb + "/" + tc == s
    ensures Spelled([a, b], [c], s)
  {
    FitsOne(c, "");
    assert "/" + tc == "/" + TokensText([c]);
    assert tb + "/" + tc == tb + ("/" + tc);
    FitsTwo(a, b, tb, "/" + tc);
  }

  /** After a '/', the denominator tokens, another '/' and more tokens are all subtracted. */
  lemma ParseAfterSecondSlash(den: seq<Token>, more: seq<Token>, acc: Dim)
    requires den != [] && more != [] && Fits(den, "/" + TokensText(more)) && Fits(more, "")
    ensures forall i :: 0 <= i < |den| ==> ValidToken(den[i])
    ensures forall i :: 0 <= i < |more| ==> ValidToken(more[i])
    ensures ParseFrom(TokensText(den) + ("/" + TokensText(more)), -1, acc)
            == Success(AddTokens(AddTokens(acc, den, -1), more, -1))
  {
    ParseTokens(den, "/" + TokensText(more), -1, acc);
    SlashThenTokens(more, AddTokens(acc, den, -1));
  }

  /** A '/' and then tokens up to the end: each token is subtracted. */
  lemma SlashThenTokens(more: seq<Token>, acc: Dim)
    requires more != [] && Fits(more, "")
    ensures forall i :: 0 <= i < |more| ==> ValidToken(more[i])
    ensures Continue("/" + TokensText(more), -1, acc) == Success(AddTokens(acc, more, -1))
  {
    FitsValid(more, "");
    TokensStartWithLetter(more, "");
    ContinueAfterSlash(TokensText(more), -1, acc);
    ParseTokens(more, "", -1, acc);
    assert TokensText(more) + "" == TokensText(more);
  }

  /** A '/' followed by more text: parse_dim goes on with the rest, negating from then on. */
  lemma ContinueAfterSlash(f: string, mode: int, acc: Dim)
    requires f != []
    ensures Continue("/" + f, mode, acc) == ParseFrom(f, -1, acc)
  {
    assert ("/" + f)[1..] == f;
  }

  /** Numerator tokens, '/', denominator tokens, '/', more tokens: a step of parse_dim per token. */
  lemma ParseTwoSlashes(num: seq<Token>, den: seq<Token>, more: seq<Token>, acc: Dim)
    requires num != [] && den != [] && more != []
    requires Fits(num, "/" + (TokensText(den) + ("/" + TokensText(more))))
    requires Fits(den, "/" + TokensText(more)) && Fits(more, "")
    ensures forall i :: 0 <= i < |num| ==> ValidToken(num[i])
    ensures forall i :: 0 <= i < |den| ==> ValidToken(den[i])
    ensures forall i :: 0 <= i < |more| ==> ValidToken(more[i])
    ensures ParseFrom(TokensText(num) + ("/" + (TokensText(den) + ("/" + TokensText(more)))), 1, acc)
            == Success(AddTokens(AddTokens(AddTokens(acc, num, 1), den, -1), more, -1))
  {
    var t2 := "/" + TokensText(more);
    var t1 := "/" + (TokensText(den) + t2);
    ParseTokens(num, t1, 1, acc);
    var acc1 := AddTokens(acc, num, 1);
    TokensStartWithLetter(den, t2);
    assert t1[1..] == TokensText(den) + t2;
    assert Continue(t1, 1, acc1) == ParseFrom(TokensText(den) + t2, -1, acc1);
    ParseAfterSecondSlash(den, more, acc1);
  }

  lemma SubtractTwiceWhole(num: seq<Token>, den: seq<Token>, more: seq<Token>)
    requires forall i :: 0 <= i < |num| ==> ValidToken(num[i])
    requires forall i :: 0 <= i < |den| ==> ValidToken(den[i])
    requires forall i :: 0 <= i < |more| ==> ValidToken(more[i])
    ensures AddTokens(AddTokens(AddTokens(Dimensionless, num, 1), den, -1), more, -1)
            == WholeOf(Minus(Minus(Total(num), Total(den)), Total(more)))
  {
    var zero := Exponents(0, 0, 0, 0);
    assert Dimensionless == WholeOf(zero);
    AddTokensWhole(zero, num, 1);
    assert Accumulate(zero, Total(num), 1) == Total(num);
    AddTokensWhole(Total(num), den, -1);
    AddTokensWhole(Minus(Total(num), Total(den)), more, -1);
  }

  /**
   * A second '/' keeps parse_dim in denominator mode: the tokens after it are subtracted
   * too, not added back.
   */
  lemma ReadTwoSlashes(num: seq<Token>, den: seq<Token>, more: seq<Token>)
    requires num != [] && den != [] && more != []
    requires Fits(num, "/" + (TokensText(den) + ("/" + TokensText(more))))
    requires Fits(den, "/" + TokensText(more)) && Fits(more, "")
    ensures forall i :: 0 <= i < |num| ==> ValidToken(num[i])
    ensures forall i :: 0 <= i < |den| ==> ValidToken(den[i])
    ensures forall i :: 0 <= i < |more| ==> ValidToken(more[i])
    ensures ReadUnit(TokensText(num) + ("/" + (TokensText(den) + ("/" + TokensText(more)))))
            == Success(WholeOf(Minus(Minus(Total(num), Total(den)), Total(more))))
  {
    ParseTwoSlashes(num, den, more, Dimensionless);
    SubtractTwiceWhole(num, den, more);
  }

  /** Three single tokens spelled with two slashes, each fitting what follows it. */
  lemma SpelledTwoSlashes(a: Token, b: Token, c: Token, ta: string, tb: string, tc: string, s: string)
    requires TokenText(a) == ta && TokenText(b) == tb && TokenText(c) == tc
    requires TokenFits(a, "/" + (tb + ("/" + tc))) && TokenFits(b, "/" + tc) && TokenFits(c, "")
    requires ta + ("/" + (tb + ("/" + tc))) == s
    ensures Fits([a], "/" + (TokensText([b]) + ("/" + TokensText([c]))))
    ensures Fits([b], "/" + TokensText([c])) && Fits([c], "")
    ensures TokensText([a]) + ("/" + (TokensText([b]) + ("/" + TokensText([c])))) == s
  {
    FitsOne(c, "");
    FitsOne(b, "/" + tc);
    FitsOne(a, "/" + (tb + ("/" + tc)));
  }

  /** The same, with the text and the expected dimension named, in the form the examples use. */
  lemma ReadTwoSlashesSpelled(num: seq<Token>, den: seq<Token>, more: seq<Token>, s: string, d: Dim)
    requires num != [] && den != [] && more != []
    requires Fits(num, "/" + (TokensText(den) + ("/" + TokensText(more))))
    requires Fits(den, "/" + TokensText(more)) && Fits(more, "")
    requires TokensText(num) + ("/" + (TokensText(den) + ("/" + TokensText(more)))) == s
    requires WholeOf(Minus(Minus(Total(num), Total(den)), Total(more))) == d
    ensures ReadUnit(s) == Success(d)
  {
    ReadTwoSlashes(num, den, more);
  }
}
