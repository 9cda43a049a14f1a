/** Decimal text of integers, as the planner's JavaScript produces and reads
    it: Number.prototype.toString on a whole number, String.prototype.padStart
    with '0', and the `parseInt(x) || 0` normalisation of word-count inputs. */
module Decimal {

  predicate IsDigit(c: char) {
    '0' <= c <= '9'
  }

  predicate AllDigits(s: string) {
    forall i :: 0 <= i < |s| ==> IsDigit(s[i])
  }

  function DigitChar(d: int): (c: char)
    requires 0 <= d < 10
    ensures IsDigit(c)
  {
    (d + '0' as int) as char
  }

  function DigitValue(c: char): (d: int)
    requires IsDigit(c)
    ensures 0 <= d < 10 && DigitChar(d) == c
  {
    c as int - '0' as int
  }

  /** The shortest decimal numeral of n: no leading zero except for 0 itself. */
  function NatToString(n: nat): (s: string)
    ensures |s| >= 1 && AllDigits(s)
    ensures |s| > 1 ==> s[0] != '0'
    decreases n
  {
    if n < 10 then [DigitChar(n)] else NatToString(n / 10) + [DigitChar(n % 10)]
  }

  /** Number.prototype.toString on an integer: a '-' before the numeral of
      a negative number. */
  function IntToString(i: int): string {
    if i < 0 then "-" + NatToString(-i) else NatToString(i)
  }

  /** The value of a string of decimal digits, most significant first. */
  function DigitsValue(s: string): (v: nat)
    requires AllDigits(s)
  {
    if s == [] then 0 else DigitsValue(s[..|s| - 1]) * 10 + DigitValue(s[|s| - 1])
  }

  /** Reading back a numeral gives the number. */
  lemma {:induction false} NatToStringRoundTrip(n: nat)
    ensures DigitsValue(NatToString(n)) == n
    decreases n
  {
    if n >= 10 {
      NatToStringRoundTrip(n / 10);
      var s := NatToString(n / 10);
      var t := NatToString(n);
      assert t == s + [DigitChar(n % 10)];
      assert t[..|t| - 1] == s;
    }
  }

  /** String.prototype.padStart(width, fill) with a one-character fill:
      fill characters are put in front until the string is width long. */
  function PadStart(s: string, width: nat, fill: char): string
    decreases width - |s|
  {
    if |s| >= width then s else PadStart([fill] + s, width, fill)
  }

  /** The padded string is width long (or s, when s is already that long),
      ends with s and is fill before it. */
  lemma {:induction false} PadStartShape(s: string, width: nat, fill: char)
    ensures var r := PadStart(s, width, fill);
      && |r| == (if |s| >= width then |s| else width)
      && r[|r| - |s|..] == s
      && forall i :: 0 <= i < |r| - |s| ==> r[i] == fill
    decreases width - |s|
  {
    if |s| < width {
      PadStartShape([fill] + s, width, fill);
      var r := PadStart(s, width, fill);
      assert r[|r| - |s| - 1..] == [fill] + s;
      assert r[|r| - |s|..] == ([fill] + s)[1..];
    }
  }

  /** The two-digit, zero-padded numeral of 0..99. */
  lemma PadStartTwoDigits(n: nat)
    requires n < 100
    ensures PadStart(IntToString(n), 2, '0') == [DigitChar(n / 10), DigitChar(n % 10)]
  {
    if n >= 10 {
      assert NatToString(n / 10) == [DigitChar(n / 10)];
    }
  }

  /** The longest prefix of s made of decimal digits. */
  function LeadingDigits(s: string): (p: string)
    ensures |p| <= |s| && p == s[..|p|] && AllDigits(p)
    ensures |p| < |s| ==> !IsDigit(s[|p|])
  {
    if s != [] && IsDigit(s[0]) then [s[0]] + LeadingDigits(s[1..]) else []
  }

  /** parseInt(x) || 0 on the value of a number input: an optional sign, then
      the leading decimal digits; no digits at all gives NaN, which `|| 0`
      turns into 0 (as it turns -0 into 0). Negative values are kept. */
  function ParseIntOrZero(x: string): int {
    var negative := x != [] && x[0] == '-';
    var rest := if x != [] && (x[0] == '-' || x[0] == '+') then x[1..] else x;
    var digits := LeadingDigits(rest);
    var magnitude: int := if digits == [] then 0 else DigitsValue(digits);
    if negative then -magnitude else magnitude
  }

  lemma {:induction false} LeadingDigitsOfNumeral(d: string, t: string)
    requires AllDigits(d)
    requires t == [] || !IsDigit(t[0])
    ensures LeadingDigits(d + t) == d
    decreases |d|
  {
    if d != [] {
      assert (d + t)[1..] == d[1..] + t;
      LeadingDigitsOfNumeral(d[1..], t);
    } else {
      assert d + t == t;
    }
  }

  /** Digits followed by a non-digit read as the digits' value. */
  lemma ParseIntOrZeroOfDigits(d: string, t: string)
    requires AllDigits(d) && d != []
    requires t == [] || !IsDigit(t[0])
    ensures ParseIntOrZero(d + t) == DigitsValue(d)
  {
    LeadingDigitsOfNumeral(d, t);
    assert (d + t)[0] == d[0];
  }

  /** A '-' before the digits negates their value. */
  lemma ParseIntOrZeroOfNegatedDigits(d: string, t: string)
    requires AllDigits(d) && d != []
    requires t == [] || !IsDigit(t[0])
    ensures ParseIntOrZero("-" + (d + t)) == 0 - DigitsValue(d)
  {
    LeadingDigitsOfNumeral(d, t);
    assert ("-" + (d + t))[1..] == d + t;
  }

  /** Whatever number a string starts with is what the input normalises to,
      whatever follows it ("12.5" is 12, "-3abc" is -3). */
  lemma ParseIntOrZeroOfNumeral(n: int, t: string)
    requires t == [] || !IsDigit(t[0])
    ensures ParseIntOrZero(IntToString(n) + t) == n
  {
    if n < 0 {
      var d := NatToString(-n);
      NatToStringRoundTrip(-n);
      assert IntToString(n) + t == "-" + (d + t);
      ParseIntOrZeroOfNegatedDigits(d, t);
    } else {
      NatToStringRoundTrip(n);
      ParseIntOrZeroOfDigits(NatToString(n), t);
    }
  }

  /** Input holding no digit at all, such as "" or "abc", normalises to 0. */
  lemma ParseIntOrZeroNoDigits(x: string)
    requires forall i :: 0 <= i < |x| ==> !IsDigit(x[i])
    ensures ParseIntOrZero(x) == 0
  {
    var rest := if x != [] && (x[0] == '-' || x[0] == '+') then x[1..] else x;
    assert rest != [] ==> !IsDigit(rest[0]);
  }

  /** A nonzero result comes from a digit in the input. */
  lemma ParseIntOrZeroNonzero(x: string)
    requires ParseIntOrZero(x) != 0
    ensures exists i :: 0 <= i < |x| && '1' <= x[i] <= '9'
  {
    var rest := if x != [] && (x[0] == '-' || x[0] == '+') then x[1..] else x;
    var digits := LeadingDigits(rest);
    NonzeroHasNonzeroDigit(digits);
    var j :| 0 <= j < |digits| && '1' <= digits[j] <= '9';
    if rest == x {
      assert x[j] == digits[j];
    } else {
      assert x[j + 1] == digits[j];
    }
  }

  lemma {:induction false} NonzeroHasNonzeroDigit(s: string)
    requires AllDigits(s) && DigitsValue(s) != 0
    ensures exists j :: 0 <= j < |s| && '1' <= s[j] <= '9'
    decreases |s|
  {
    var last := s[|s| - 1];
    if last == '0' {
      var init := s[..|s| - 1];
      NonzeroHasNonzeroDigit(init);
      var j :| 0 <= j < |init| && '1' <= init[j] <= '9';
      assert s[j] == init[j];
    } else {
      assert '1' <= s[|s| - 1] <= '9';
    }
  }
}
