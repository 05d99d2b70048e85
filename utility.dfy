/**
 * `parseSize`: a size given on the command line, either already a number or a string
 * read by `Number.parseInt` in base 16 when it ends in 'h' and in base 10 otherwise.
 */
module Utility {
  import opened Wrappers
  import opened Numerals

  /** The argument: a JavaScript number (taken as an integer) or a string. */
  datatype SizeArg = Number(n: int) | Text(s: string)

  /** The white space and line terminators `parseInt` skips before the number (StrWhiteSpaceChar). */
  predicate IsJsWhitespace(c: char) {
    var u := c as int;
    || u == 0x09 || u == 0x0A || u == 0x0B || u == 0x0C || u == 0x0D || u == 0x20
    || u == 0xA0 || u == 0x1680 || (0x2000 <= u <= 0x200A) || u == 0x2028 || u == 0x2029
    || u == 0x202F || u == 0x205F || u == 0x3000 || u == 0xFEFF
  }

  /** `s` without its leading white space. */
  function TrimStart(s: string): (t: string)
    ensures |t| <= |s| && t == s[|s| - |t|..]
    ensures t == [] || !IsJsWhitespace(t[0])
    ensures forall i :: 0 <= i < |s| - |t| ==> IsJsWhitespace(s[i])
  {
    if s != [] && IsJsWhitespace(s[0]) then TrimStart(s[1..]) else s
  }

  predicate HasHexPrefix(s: string) {
    |s| >= 2 && s[0] == '0' && (s[1] == 'x' || s[1] == 'X')
  }

  /**
   * `Number.parseInt(s, radix)` for radix 10 or 16: skip white space, take an optional sign,
   * for radix 16 drop a "0x"/"0X" prefix, then read the longest run of valid digits;
   * None (NaN) when that run is empty.
   */
  function ParseInt(s: string, radix: nat): (n: Option<int>)
    requires radix == 10 || radix == 16
    ensures TrimStart(s) == [] ==> n.None?
    ensures n.Some? && n.value < 0 ==> TrimStart(s) != [] && TrimStart(s)[0] == '-'
  {
    var t := TrimStart(s);
    var negative := t != [] && t[0] == '-';
    var unsigned := if t != [] && (t[0] == '-' || t[0] == '+') then t[1..] else t;
    var body := if radix == 16 && HasHexPrefix(unsigned) then unsigned[2..] else unsigned;
    var digits := LeadingDigits(body, radix);
    var magnitude: int := if digits == [] then 0 else DigitsValue(digits, radix);
    if digits == [] then None
    else if negative then Some(-magnitude)
    else Some(magnitude)
  }

  /** Base 16 exactly when the string ends in a lower-case 'h'. */
  function SizeRadix(s: string): (radix: nat)
    ensures radix == 16 <==> (s != [] && s[|s| - 1] == 'h')
    ensures radix == 10 || radix == 16
  {
    if s != [] && s[|s| - 1] == 'h' then 16 else 10
  }

  /** `parseSize`: a number is returned unchanged; a string is read by ParseInt or rejected. */
  function ParseSize(size: SizeArg): (r: Result<int, string>)
    ensures size.Number? ==> r == Success(size.n)
    ensures size.Text? ==> (r.Failure? <==> ParseInt(size.s, SizeRadix(size.s)).None?)
    ensures size.Text? && r.Failure? ==> r.error == "size '" + size.s + "' cannot be converted to a number"
  {
    match size
    case Number(n) => Success(n)
    case Text(s) =>
      match ParseInt(s, SizeRadix(s))
      case None => Failure("size '" + s + "' cannot be converted to a number")
      case Some(n) => Success(n)
  }

  /**
   * The value is that of the leading run of digits: reading stops at the first character
   * that is not a digit of the chosen base ("123d" is 123, "10h" is 16).
   */
  lemma ParseSizeLeadingRun(s: string, digits: string, rest: string)
    requires s == digits + rest && digits != []
    requires AllDigitsIn(digits, SizeRadix(s))
    requires rest == [] || !IsDigitIn(rest[0], SizeRadix(s))
    requires !(SizeRadix(s) == 16 && HasHexPrefix(s))
    ensures ParseSize(Text(s)) == Success(DigitsValue(digits, SizeRadix(s)))
  {
    ParseIntLeadingRun(s, digits, rest, SizeRadix(s));
  }

  /** ParseInt of an unsigned run of digits followed by a non-digit reads the run. */
  lemma ParseIntLeadingRun(s: string, digits: string, rest: string, radix: nat)
    requires radix == 10 || radix == 16
    requires s == digits + rest && digits != []
    requires AllDigitsIn(digits, radix)
    requires rest == [] || !IsDigitIn(rest[0], radix)
    requires !(radix == 16 && HasHexPrefix(s))
    ensures ParseInt(s, radix) == Some(DigitsValue(digits, radix))
  {
    assert s[0] == digits[0] && IsDigitIn(digits[0], radix);
    assert !IsJsWhitespace(s[0]) && s[0] != '-' && s[0] != '+';
    assert TrimStart(s) == s;
    LeadingDigitsOfRun(digits, rest, radix);
    assert LeadingDigits(s, radix) == digits;
  }

  /** A string whose first character starts no number fails. */
  lemma ParseSizeNoLeadingDigit(s: string)
    requires s == [] || (!IsJsWhitespace(s[0]) && s[0] != '-' && s[0] != '+' && !IsDigitIn(s[0], SizeRadix(s)))
    ensures ParseSize(Text(s)) == Failure("size '" + s + "' cannot be converted to a number")
  {
    if s != [] {
      assert TrimStart(s) == s;
      assert !HasHexPrefix(s);
    }
  }

  /** A decimal rendering of n reads back as n. */
  lemma ParseSizeDecimal(n: nat)
    ensures ParseSize(Text(NatToDigits(n, 10))) == Success(n)
  {
    var s := NatToDigits(n, 10);
    assert SizeRadix(s) == 10;
    ParseSizeLeadingRun(s, s, []);
  }

  /** A hexadecimal rendering of n with the 'h' suffix reads back as n. */
  lemma ParseSizeHex(n: nat)
    ensures ParseSize(Text(NatToDigits(n, 16) + "h")) == Success(n)
  {
    var d := NatToDigits(n, 16);
    var s := d + "h";
    assert SizeRadix(s) == 16;
    if |d| >= 2 {
      assert s[1] == d[1];
    }
    ParseSizeLeadingRun(s, d, "h");
  }

  /** "123d" is read in base 10 up to the 'd': 123. */
  lemma ParseSizeDecimalSuffixExample()
    ensures ParseSize(Text("123d")) == Success(123)
  {
    assert "123d" == "123" + "d";
    assert DigitsValue("123", 10) == 123 by {
      assert "123"[..2] == "12" && "12"[..1] == "1" && "1"[..0] == "";
    }
    ParseSizeLeadingRun("123d", "123", "d");
  }

  /** "10h" is read in base 16: 16. */
  lemma ParseSizeHexExample()
    ensures ParseSize(Text("10h")) == Success(16)
  {
    assert "10h" == "10" + "h";
    assert DigitsValue("10", 16) == 16 by {
      assert "10"[..1] == "1" && "1"[..0] == "";
    }
    ParseSizeLeadingRun("10h", "10", "h");
  }

  /** "what?" starts no number. */
  lemma ParseSizeRejectExample()
    ensures ParseSize(Text("what?")) == Failure("size 'what?' cannot be converted to a number")
  {
    var s := "what?";
    assert s[0] == 'w' && s[|s| - 1] == '?';
    assert SizeRadix(s) == 10;
    assert CharValue('w') == 32;
    ParseSizeNoLeadingDigit(s);
    var shown := "size '" + s + "' cannot be converted to a number";
    var expected := "size 'what?' cannot be converted to a number";
    assert |shown| == |expected|;
    forall i | 0 <= i < |shown|
      ensures shown[i] == expected[i]
    {
    }
    assert shown == expected;
  }
}
