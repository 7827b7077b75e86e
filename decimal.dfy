/**
 * Decimal text of integers: what `std::ostream << intmax_t` writes and what
 * `std::stoi` reads back.
 */
module Decimal {
  import opened Wrappers

  predicate IsDigit(c: char) { '0' <= c <= '9' }

  predicate AllDigits(s: string) { forall i :: 0 <= i < |s| ==> IsDigit(s[i]) }

  function DigitValue(c: char): nat
    requires IsDigit(c)
  {
    (c as int - '0' as int) as nat
  }

  function DigitChar(d: nat): (c: char)
    requires d < 10
    ensures IsDigit(c) && DigitValue(c) == d
  {
    ('0' as int + d) as char
  }

  /** The decimal digits of `n`, most significant first, without leading zeros. */
  function NatText(n: nat): (s: string)
    ensures 1 <= |s| && AllDigits(s)
    ensures |s| > 1 ==> s[0] != '0'
    decreases n
  {
    if n < 10 then [DigitChar(n)] else NatText(n / 10) + [DigitChar(n % 10)]
  }

  /** How a signed integer is written to a stream: a '-' for negative values, then the digits. */
  function IntText(n: int): (s: string)
    ensures 1 <= |s|
    ensures n < 0 <==> s[0] == '-'
    ensures n < 0 ==> |s| >= 2 && AllDigits(s[1..])
    ensures n >= 0 ==> AllDigits(s)
  {
    if n < 0 then "-" + NatText(-n) else NatText(n)
  }

  /** The value of a run of decimal digits. */
  function DigitsValue(s: string): nat
    requires AllDigits(s)
    decreases |s|
  {
    if s == [] then 0 else DigitsValue(s[..|s| - 1]) * 10 + DigitValue(s[|s| - 1])
  }

  /** Length of the longest run of digits at the front of `s`. */
  function DigitRun(s: string): (k: nat)
    ensures k <= |s| && AllDigits(s[..k])
    ensures k < |s| ==> !IsDigit(s[k])
    decreases |s|
  {
    if s == [] || !IsDigit(s[0]) then 0
    else
      var k := DigitRun(s[1..]);
      assert s[..k + 1] == [s[0]] + s[1..][..k];
      k + 1
  }

  /**
   * std::stoi: an optional sign followed by at least one digit; the longest digit run is
   * converted. Anything else throws std::invalid_argument, modelled as None.
   */
  function Stoi(s: string): Option<int>
  {
    var signed := |s| > 0 && (s[0] == '-' || s[0] == '+');
    var body := if signed then s[1..] else s;
    var k := DigitRun(body);
    if k == 0 then None
    else
      var v: int := DigitsValue(body[..k]);
      Some(if signed && s[0] == '-' then -v else v)
  }

  lemma {:induction false} NatTextValue(n: nat)
    ensures DigitsValue(NatText(n)) == n
    decreases n
  {
    if n >= 10 {
      NatTextValue(n / 10);
      var s := NatText(n);
      assert s[..|s| - 1] == NatText(n / 10);
    }
  }

  lemma DigitRunAll(s: string)
    requires AllDigits(s)
    ensures DigitRun(s) == |s|
    decreases |s|
  {
    if s != [] { DigitRunAll(s[1..]); }
  }

  /** Reading back what the stream wrote gives the same integer. */
  lemma StoiReadsIntText(n: int)
    ensures Stoi(IntText(n)) == Some(n)
  {
    var s := IntText(n);
    if n < 0 {
      assert s[1..] == NatText(-n);
      DigitRunAll(NatText(-n));
      NatTextValue(-n);
      assert NatText(-n)[..|NatText(-n)|] == NatText(-n);
    } else {
      DigitRunAll(s);
      NatTextValue(n);
      assert s[..|s|] == s;
    }
  }

  /** A digit run ends where a non-digit starts: reading stops there. */
  lemma DigitRunStops(s: string, rest: string)
    requires AllDigits(s)
    requires rest == [] || !IsDigit(rest[0])
    ensures DigitRun(s + rest) == |s|
    decreases |s|
  {
    if s != [] {
      assert (s + rest)[1..] == s[1..] + rest;
      DigitRunStops(s[1..], rest);
    } else {
      assert s + rest == rest;
    }
  }
}
