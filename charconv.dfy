/**
 * The standard-library text conversions the solver relies on:
 * std::from_chars for a base-10 `int`, the `%d` conversion of printf
 * and the `%.20s` precision of printf.  A `char` here stands for one
 * byte of a C string: `%.20s`, the buffer sizes and the margins all count
 * bytes, so a multi-byte UTF-8 character counts as several and can be cut
 * between its bytes.
 */
module CharConv {

  const INT_MIN: int := -0x8000_0000
  const INT_MAX: int := 0x7FFF_FFFF

  /** A value of the C++ type `int` (32 bits, two's complement). */
  type Int32 = x: int | INT_MIN <= x <= INT_MAX

  /** Longest text printf's `%g` produces with the default precision, e.g. "-1.79769e+308". */
  const G_MAX_WIDTH: int := 13

  /** The text of one `%g` conversion; the floating-point value behind it is not modelled. */
  type GText = s: string | |s| <= G_MAX_WIDTH && '\n' !in s

  predicate IsDigit(ch: char) {
    '0' <= ch <= '9'
  }

  predicate AllDigits(s: string) {
    forall k :: 0 <= k < |s| ==> IsDigit(s[k])
  }

  function DigitValue(ch: char): nat
    requires IsDigit(ch)
  {
    ch as int - '0' as int
  }

  function DigitChar(d: nat): (ch: char)
    requires d < 10
    ensures IsDigit(ch) && DigitValue(ch) == d
  {
    ('0' as int + d) as char
  }

  /** The number of digit characters `s` starts with: the longest such prefix. */
  function DigitPrefixLength(s: string): (n: nat)
    ensures n <= |s| && AllDigits(s[..n])
    ensures n < |s| ==> !IsDigit(s[n])
    decreases |s|
  {
    if |s| == 0 || !IsDigit(s[0]) then 0 else 1 + DigitPrefixLength(s[1..])
  }

  /** The value of a string of decimal digits, most significant first. */
  function DigitsValue(s: string): nat
    requires AllDigits(s)
    decreases |s|
  {
    if |s| == 0 then 0 else 10 * DigitsValue(s[..|s| - 1]) + DigitValue(s[|s| - 1])
  }

  /** std::errc as from_chars reports it. */
  datatype Errc = Ok | InvalidArgument | ResultOutOfRange

  /**
   * What std::from_chars reports: how many characters it consumed (the
   * returned `ptr` minus the start), the error code and, when the code is
   * Ok, the value it stored.  On an error the target variable is left
   * unchanged; `value` is then 0 and means nothing.
   */
  datatype FromCharsResult = FromCharsResult(consumed: nat, ec: Errc, value: int)

  /**
   * std::from_chars(first, last, int&) in base 10: an optional '-' (no '+',
   * no leading blanks) followed by the longest run of digits.  No digit:
   * invalid_argument and nothing consumed.  A value outside `int`:
   * result_out_of_range, with the whole pattern consumed.
   */
  function FromChars(s: string): (r: FromCharsResult)
    ensures r.consumed <= |s|
    ensures r.ec == InvalidArgument <==> r.consumed == 0
    ensures r.ec == Ok ==> INT_MIN <= r.value <= INT_MAX
  {
    var sign := if |s| > 0 && s[0] == '-' then 1 else 0;
    var n := DigitPrefixLength(s[sign..]);
    if n == 0 then
      FromCharsResult(0, InvalidArgument, 0)
    else
      assert s[sign..sign + n] == s[sign..][..n];
      var magnitude := DigitsValue(s[sign..sign + n]);
      var value: int := if sign == 1 then -(magnitude as int) else magnitude;
      if INT_MIN <= value <= INT_MAX then FromCharsResult(sign + n, Ok, value)
      else FromCharsResult(sign + n, ResultOutOfRange, 0)
  }

  /** from_chars stops at the first character that cannot continue the number. */
  lemma FromCharsStopsAtNonDigit(s: string)
    ensures FromChars(s).consumed < |s| ==> !IsDigit(s[FromChars(s).consumed])
  {
  }

  /**
   * A whole decimal numeral as from_chars reads it: an optional '-' and at
   * least one digit, nothing else.
   */
  predicate IsNumeral(s: string) {
    if |s| > 0 && s[0] == '-' then |s| > 1 && AllDigits(s[1..]) else |s| > 0 && AllDigits(s)
  }

  function NumeralValue(s: string): int
    requires IsNumeral(s)
  {
    if s[0] == '-' then -(DigitsValue(s[1..]) as int) else DigitsValue(s)
  }

  /**
   * from_chars succeeds and consumes the whole string exactly when the
   * string is a numeral whose value fits in `int`.
   */
  lemma FromCharsWhole(s: string)
    ensures (FromChars(s).ec == Ok && FromChars(s).consumed == |s|)
            <==> (IsNumeral(s) && INT_MIN <= NumeralValue(s) <= INT_MAX)
    ensures FromChars(s).ec == Ok && FromChars(s).consumed == |s| ==> FromChars(s).value == NumeralValue(s)
  {
    var sign := if |s| > 0 && s[0] == '-' then 1 else 0;
    var n := DigitPrefixLength(s[sign..]);
    if IsNumeral(s) {
      assert AllDigits(s[sign..]);
      assert n == |s| - sign;
      assert s[sign..sign + n] == s[sign..];
    }
    if FromChars(s).ec == Ok && FromChars(s).consumed == |s| {
      assert n == |s| - sign && s[sign..] == s[sign..][..n];
    }
  }

  /** The digits of `n` without leading zeros, as `%d` prints them. */
  function NatToDigits(n: nat): (s: string)
    ensures |s| > 0 && AllDigits(s) && DigitsValue(s) == n
    decreases n
  {
    if n < 10 then [DigitChar(n)]
    else
      var s := NatToDigits(n / 10) + [DigitChar(n % 10)];
      assert s[..|s| - 1] == NatToDigits(n / 10);
      s
  }

  /** printf's `%d`. */
  function IntToString(n: int): string {
    if n < 0 then "-" + NatToDigits(-n) else NatToDigits(n)
  }

  function Pow10(k: nat): nat {
    if k == 0 then 1 else 10 * Pow10(k - 1)
  }

  lemma {:induction false} NatToDigitsLength(n: nat, k: nat)
    requires 1 <= k && n < Pow10(k)
    ensures |NatToDigits(n)| <= k
    decreases k
  {
    if n >= 10 {
      assert n / 10 < Pow10(k - 1);
      NatToDigitsLength(n / 10, k - 1);
    }
  }

  /** `%d` of an `int` takes one to eleven characters and contains no newline. */
  lemma IntToStringLength(n: Int32)
    ensures 1 <= |IntToString(n)| <= 11
    ensures '\n' !in IntToString(n)
  {
    assert Pow10(10) == 10_000_000_000 by {
      assert Pow10(5) == 100_000;
    }
    if n < 0 {
      NatToDigitsLength(-(n as int), 10);
    } else {
      NatToDigitsLength(n, 10);
    }
  }

  /** Reading back what `%d` printed: from_chars consumes all of it and yields the same `int`. */
  lemma FromCharsIntToString(n: Int32)
    ensures FromChars(IntToString(n)) == FromCharsResult(|IntToString(n)|, Ok, n)
  {
    var s := IntToString(n);
    if n < 0 {
      assert s[1..] == NatToDigits(-(n as int));
      assert IsNumeral(s) && NumeralValue(s) == n;
    } else {
      assert IsNumeral(s) && NumeralValue(s) == n;
    }
    FromCharsWhole(s);
  }

  /** printf's `%.<precision>s`: at most `precision` characters of `s`. */
  function Truncated(s: string, precision: nat): (r: string)
    ensures |r| <= precision
  {
    if |s| <= precision then s else s[..precision]
  }

  /** The truncated text is the first min(|s|, precision) characters of s: all of s when it fits. */
  lemma TruncatedPrefix(s: string, precision: nat)
    ensures Truncated(s, precision) <= s
    ensures |Truncated(s, precision)| == if |s| <= precision then |s| else precision
    ensures |s| <= precision ==> Truncated(s, precision) == s
  {
  }
}
