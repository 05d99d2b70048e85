/**
 * Digit strings: the digit values `parseInt` accepts, the value of a run of digits
 * in a radix, the longest leading run, and the rendering of a natural number.
 */
module Numerals {

  /** The value of `c` as a digit in radices up to 36 ('0'-'9', then 'a'/'A' = 10 up to 'z'/'Z' = 35), or -1. */
  function CharValue(c: char): int {
    if '0' <= c <= '9' then c as int - '0' as int
    else if 'a' <= c <= 'z' then c as int - 'a' as int + 10
    else if 'A' <= c <= 'Z' then c as int - 'A' as int + 10
    else -1
  }

  predicate IsDigitIn(c: char, radix: nat) {
    0 <= CharValue(c) < radix
  }

  predicate AllDigitsIn(s: string, radix: nat) {
    forall i :: 0 <= i < |s| ==> IsDigitIn(s[i], radix)
  }

  /** The number written by the digit string `s` in `radix`, most significant digit first. */
  function DigitsValue(s: string, radix: nat): nat
    requires AllDigitsIn(s, radix)
  {
    if s == [] then 0
    else DigitsValue(s[..|s| - 1], radix) * radix + CharValue(s[|s| - 1])
  }

  /** The lower-case character for digit value `d`. */
  function DigitChar(d: nat): (c: char)
    requires d < 36
    ensures CharValue(c) == d
  {
    if d < 10 then ('0' as int + d) as char else ('a' as int + d - 10) as char
  }

  /**
   * `n` written in `radix` with lower-case letters and no leading zeros, as JavaScript
   * renders a non-negative integer (`${n}` in radix 10).
   */
  function NatToDigits(n: nat, radix: nat): (s: string)
    requires 2 <= radix <= 36
    ensures |s| > 0 && AllDigitsIn(s, radix)
    ensures DigitsValue(s, radix) == n
    ensures |s| > 1 ==> s[0] != '0'
    decreases n
  {
    if n < radix then [DigitChar(n)]
    else
      DivisionFacts(n, radix);
      var high := NatToDigits(n / radix, radix);
      var low := DigitChar(n % radix);
      var s := high + [low];
      assert s[..|s| - 1] == high;
      assert DigitsValue(s, radix) == (n / radix) * radix + n % radix;
      s
  }

  lemma DivisionFacts(n: nat, radix: nat)
    requires 2 <= radix <= n
    ensures 1 <= n / radix < n && 0 <= n % radix < radix
    ensures n == (n / radix) * radix + n % radix
  {
  }

  /** The longest prefix of `s` made of digits valid in `radix`. */
  function LeadingDigits(s: string, radix: nat): (p: string)
    ensures |p| <= |s| && p == s[..|p|]
    ensures AllDigitsIn(p, radix)
    ensures |p| == |s| || !IsDigitIn(s[|p|], radix)
  {
    if s != [] && IsDigitIn(s[0], radix) then [s[0]] + LeadingDigits(s[1..], radix) else []
  }

  /** A run of digits followed by a non-digit (or the end) is exactly the leading run. */
  lemma LeadingDigitsOfRun(digits: string, rest: string, radix: nat)
    requires AllDigitsIn(digits, radix)
    requires rest == [] || !IsDigitIn(rest[0], radix)
    ensures LeadingDigits(digits + rest, radix) == digits
  {
    var s := digits + rest;
    assert s[..|digits|] == digits;
  }
}
