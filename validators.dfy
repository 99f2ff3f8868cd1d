/**
 * The text filters of the conversation table (src/handlers/videos.py) and the
 * `int(...)` conversion applied to the text they accept.
 *
 * Strings are taken to be ASCII: Python's `\d` and `int()` also accept other
 * Unicode decimal digits and `$` also matches before a trailing newline; the
 * model reads `\d` as `[0-9]` and `$` as the end of the text.
 */
module Validators {
  predicate IsDigit(c: char) {
    '0' <= c <= '9'
  }

  predicate IsDigits(s: string) {
    forall i :: 0 <= i < |s| ==> IsDigit(s[i])
  }

  /** The filter `^[1-9][0-9]?$` of the percent state. */
  predicate MatchesPercentPattern(s: string) {
    (|s| == 1 || |s| == 2) && '1' <= s[0] <= '9' && (|s| == 2 ==> IsDigit(s[1]))
  }

  /** The filter `^\d+$` of the CRF state. */
  predicate MatchesCrfPattern(s: string) {
    |s| > 0 && IsDigits(s)
  }

  function DigitValue(c: char): (d: nat)
    requires IsDigit(c)
    ensures d < 10
  {
    c as int - '0' as int
  }

  function DigitChar(d: nat): (c: char)
    requires d < 10
    ensures IsDigit(c) && DigitValue(c) == d
  {
    (d + '0' as int) as char
  }

  /** `int(text)` on a nonempty string of decimal digits, read most significant first. */
  function ParseDecimal(s: string): nat
    requires MatchesCrfPattern(s)
  {
    if |s| == 1 then DigitValue(s[0])
    else ParseDecimal(s[..|s| - 1]) * 10 + DigitValue(s[|s| - 1])
  }

  /** `str(n)`: the decimal spelling of `n`, without leading zeros. */
  function DecimalString(n: nat): (s: string)
    ensures MatchesCrfPattern(s)
    ensures |s| > 1 ==> s[0] != '0'
    ensures n < 10 <==> |s| == 1
  {
    if n < 10 then [DigitChar(n)] else DecimalString(n / 10) + [DigitChar(n % 10)]
  }

  /** Parsing the decimal spelling of a number gives the number back. */
  lemma {:induction false} ParseDecimalString(n: nat)
    ensures ParseDecimal(DecimalString(n)) == n
  {
    if n >= 10 {
      var s := DecimalString(n);
      assert s[..|s| - 1] == DecimalString(n / 10);
      ParseDecimalString(n / 10);
    }
  }

  /**
   * Every text the percent filter accepts parses to a value in 1..99, and is
   * exactly the spelling of that value (no leading zero, no sign, no space).
   */
  lemma PercentTextIsCanonical(s: string)
    requires MatchesPercentPattern(s)
    ensures MatchesCrfPattern(s)
    ensures 1 <= ParseDecimal(s) <= 99
    ensures DecimalString(ParseDecimal(s)) == s
  {
    if |s| == 2 {
      var n := ParseDecimal(s);
      assert n == DigitValue(s[0]) * 10 + DigitValue(s[1]);
      assert n / 10 == DigitValue(s[0]) && n % 10 == DigitValue(s[1]);
      assert DecimalString(n) == [DigitChar(DigitValue(s[0]))] + [DigitChar(DigitValue(s[1]))];
    }
  }

  /** Conversely, the spelling of every value in 1..99 passes the percent filter. */
  lemma PercentFilterAcceptsRange(n: nat)
    requires 1 <= n <= 99
    ensures MatchesPercentPattern(DecimalString(n))
    ensures ParseDecimal(DecimalString(n)) == n
  {
    ParseDecimalString(n);
    if n >= 10 {
      assert DecimalString(n) == [DigitChar(n / 10)] + [DigitChar(n % 10)];
    }
  }

  /** The CRF filter accepts the spelling of every natural number, 52 and above included. */
  lemma CrfFilterAcceptsEveryNumber(n: nat)
    ensures MatchesCrfPattern(DecimalString(n))
    ensures ParseDecimal(DecimalString(n)) == n
  {
    ParseDecimalString(n);
  }

  /** A leading zero passes the CRF filter and does not change the parsed value. */
  lemma {:induction false} LeadingZeroIgnored(s: string)
    requires MatchesCrfPattern(s)
    ensures MatchesCrfPattern("0" + s)
    ensures ParseDecimal("0" + s) == ParseDecimal(s)
  {
    var z := "0" + s;
    if |s| > 1 {
      assert z[..|z| - 1] == "0" + s[..|s| - 1];
      LeadingZeroIgnored(s[..|s| - 1]);
    }
  }

  /** The percent filter is strictly narrower than the CRF filter. */
  lemma PercentFilterWithinCrfFilter(s: string)
    requires MatchesPercentPattern(s)
    ensures MatchesCrfPattern(s)
  {
  }
}
