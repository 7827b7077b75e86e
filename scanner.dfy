/**
 * The token grammar of parse_single_factor (src/io.cpp): the regular expression
 *   ([pnumcdhkMGT]?)([gmstJWN])(\^(-?[[:d:]]+)(\/([[:d:]]+))?)?
 * searched with match_continuous, i.e. anchored at the start of the text. The scanner
 * returns the seven submatches (the whole match first; an unmatched group is "") and
 * the suffix after the match, choosing what the ECMAScript engine's greedy, backtracking
 * search chooses.
 */
module Scanner {
  import opened Wrappers
  import opened Decimal

  predicate IsPrefixLetter(c: char)
  {
    c in {'p', 'n', 'u', 'm', 'c', 'd', 'h', 'k', 'M', 'G', 'T'}
  }

  predicate IsSymbolLetter(c: char)
  {
    c in {'g', 'm', 's', 't', 'J', 'W', 'N'}
  }

  /** `-?[[:d:]]+`: an optional minus sign, then at least one digit. */
  predicate IsIntegerText(x: string)
  {
    if |x| > 0 && x[0] == '-' then |x| >= 2 && AllDigits(x[1..]) else |x| >= 1 && AllDigits(x)
  }

  /** What follows a prefix and symbol: "" or `^` integer, optionally `/` digits. */
  predicate WellFormedExponent(g: seq<string>)
  {
    |g| == 4
    && (g[0] == "" ==> g[1] == "" && g[2] == "" && g[3] == "")
    && (g[0] != "" ==> g[0] == "^" + g[1] + g[2] && IsIntegerText(g[1]))
    && (g[2] == "" <==> g[3] == "")
    && (g[2] != "" ==> g[2] == "/" + g[3] && |g[3]| >= 1 && AllDigits(g[3]))
  }

  /** The submatches of `(\^(-?[[:d:]]+)(\/([[:d:]]+))?)?` at the start of `s`. */
  function ExponentGroups(s: string): (g: seq<string>)
    ensures WellFormedExponent(g)
    ensures g[0] <= s
    ensures g[0] == "" <==> !(|s| >= 2 && s[0] == '^' && (IsDigit(s[1]) || (s[1] == '-' && |s| >= 3 && IsDigit(s[2]))))
  {
    if |s| == 0 || s[0] != '^' then ["", "", "", ""]
    else
      var sign := if |s| >= 2 && s[1] == '-' then 1 else 0;
      var k := DigitRun(s[1 + sign..]);
      SignedRun(s, sign, k);
      if k == 0 then ["", "", "", ""]
      else
        var num := s[1..1 + sign + k];
        var after := s[1 + sign + k..];
        var q := if |after| >= 1 && after[0] == '/' then DigitRun(after[1..]) else 0;
        DenominatorText(after, q);
        ExponentShape(s, num, after, q);
        if q == 0 then ["^" + num, num, "", ""]
        else ["^" + num + after[..1 + q], num, after[..1 + q], after[1..][..q]]
  }

  /** The `-?[[:d:]]+` part after a '^': present exactly when a digit follows the optional sign. */
  lemma SignedRun(s: string, sign: nat, k: nat)
    requires |s| >= 1 && s[0] == '^'
    requires sign == (if |s| >= 2 && s[1] == '-' then 1 else 0) && k == DigitRun(s[1 + sign..])
    ensures k == 0 <==> !(|s| >= 2 && (IsDigit(s[1]) || (s[1] == '-' && |s| >= 3 && IsDigit(s[2]))))
    ensures k > 0 ==> s == "^" + s[1..1 + sign + k] + s[1 + sign + k..] && IsIntegerText(s[1..1 + sign + k])
  {
    var t := s[1 + sign..];
    if k > 0 {
      var num := s[1..1 + sign + k];
      assert s == "^" + num + s[1 + sign + k..];
      if sign == 1 {
        assert num[1..] == t[..k];
      } else {
        assert num == t[..k];
      }
    } else if |t| > 0 {
      assert t[0] == s[1 + sign];
    }
  }

  /** The `(\/([[:d:]]+))?` part: a '/' and the q digits after it, when q is not zero. */
  lemma DenominatorText(after: string, q: nat)
    requires q == (if |after| >= 1 && after[0] == '/' then DigitRun(after[1..]) else 0)
    ensures q > 0 ==> |after| >= 1 + q && after[..1 + q] == "/" + after[1..][..q] && AllDigits(after[1..][..q])
  {
    if q > 0 {
      assert after[..1 + q] == "/" + after[1..][..q];
    }
  }

  /** The groups built from the integer text `num` and the denominator text of `after`. */
  lemma ExponentShape(s: string, num: string, after: string, q: nat)
    requires s == "^" + num + after && IsIntegerText(num)
    requires q > 0 ==> |after| >= 1 + q && after[..1 + q] == "/" + after[1..][..q] && AllDigits(after[1..][..q])
    ensures var g := if q == 0 then ["^" + num, num, "", ""]
                     else ["^" + num + after[..1 + q], num, after[..1 + q], after[1..][..q]];
            WellFormedExponent(g) && g[0] <= s && g[0] != ""
  {
    if q > 0 {
      assert s == "^" + num + after[..1 + q] + after[1 + q..];
    }
  }

  /** A `^` exponent of k digits, then `/` and a digit: the denominator group is not empty. */
  lemma DenominatorGroup(s: string, k: nat)
    requires |s| >= k + 3 && s[0] == '^' && k >= 1 && DigitRun(s[1..]) == k
    requires s[1 + k] == '/' && IsDigit(s[2 + k])
    ensures ExponentGroups(s)[2] != ""
  {
    assert s[1..][..k][0] == s[1];
    var after := s[1 + k..];
    assert after[0] == '/' && after[1..][0] == s[2 + k];
  }

  /** The seven submatches and the text after the match. */
  datatype Match = Match(groups: seq<string>, suffix: string)

  /** A match in the shape the grammar allows. */
  predicate WellFormedMatch(m: Match)
  {
    |m.groups| == 7
    && m.groups[0] == m.groups[1] + m.groups[2] + m.groups[3]
    && |m.groups[1]| <= 1 && (|m.groups[1]| == 1 ==> IsPrefixLetter(m.groups[1][0]))
    && |m.groups[2]| == 1 && IsSymbolLetter(m.groups[2][0])
    && WellFormedExponent(m.groups[3..])
  }

  /** The match made of a prefix (maybe empty), a symbol letter and the exponent groups of `rest`. */
  function Assemble(prefix: string, symbol: char, rest: string): (m: Match)
    requires |prefix| <= 1 && (|prefix| == 1 ==> IsPrefixLetter(prefix[0])) && IsSymbolLetter(symbol)
    ensures WellFormedMatch(m) && m.groups[1] == prefix
    ensures m.groups[0] + m.suffix == prefix + [symbol] + rest
  {
    var e := ExponentGroups(rest);
    AssembledShape(prefix, symbol, e, rest);
    Match([prefix + [symbol] + e[0], prefix, [symbol]] + e, rest[|e[0]|..])
  }

  lemma AssembledShape(prefix: string, symbol: char, e: seq<string>, rest: string)
    requires |prefix| <= 1 && (|prefix| == 1 ==> IsPrefixLetter(prefix[0])) && IsSymbolLetter(symbol)
    requires WellFormedExponent(e) && e[0] <= rest
    ensures var m := Match([prefix + [symbol] + e[0], prefix, [symbol]] + e, rest[|e[0]|..]);
            WellFormedMatch(m) && m.groups[1] == prefix && m.groups[0] + m.suffix == prefix + [symbol] + rest
  {
    var whole, suffix := prefix + [symbol] + e[0], rest[|e[0]|..];
    var groups := [whole, prefix, [symbol]] + e;
    assert groups[0] == whole && groups[1] == prefix && groups[2] == [symbol] && groups[3..] == e;
    assert e[0] + suffix == rest;
    assert whole + suffix == prefix + [symbol] + (e[0] + suffix);
  }

  /**
   * `regex_search(unit, m, e, match_continuous)`: the prefix letter is taken whenever a
   * symbol letter follows it, and the exponent group whenever it matches.
   */
  function MatchFactor(s: string): (r: Option<Match>)
    ensures r.None? <==>
              !(|s| >= 1 && IsSymbolLetter(s[0])) && !(|s| >= 2 && IsPrefixLetter(s[0]) && IsSymbolLetter(s[1]))
    ensures r.Some? ==> WellFormedMatch(r.value) && r.value.groups[0] + r.value.suffix == s
    ensures r.Some? && |s| >= 2 && IsPrefixLetter(s[0]) && IsSymbolLetter(s[1]) ==> r.value.groups[1] == s[..1]
  {
    if |s| >= 2 && IsPrefixLetter(s[0]) && IsSymbolLetter(s[1]) then
      assert s == s[..1] + [s[1]] + s[2..];
      Some(Assemble(s[..1], s[1], s[2..]))
    else if |s| >= 1 && IsSymbolLetter(s[0]) then
      assert s == "" + [s[0]] + s[1..];
      Some(Assemble("", s[0], s[1..]))
    else
      None
  }
}
