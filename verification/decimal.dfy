/**
 * Decimal text for integers, as JavaScript produces and reads it:
 * the number-to-string conversion a template literal applies to an integer
 * (`${page}`), and `parseInt(text, 10)`.
 */
module Decimal {
  import opened Wrappers

  predicate IsDigit(c: char) {
    '0' <= c <= '9'
  }

  predicate AllDigits(s: string) {
    forall i :: 0 <= i < |s| ==> IsDigit(s[i])
  }

  function DigitChar(d: int): (c: char)
    requires 0 <= d < 10
    ensures IsDigit(c)
  {
    (d + '0' as int) as char
  }

  function DigitValue(c: char): (d: int)
    requires IsDigit(c)
    ensures 0 <= d < 10
    ensures DigitChar(d) == c
  {
    c as int - '0' as int
  }

  /** The value of a string of decimal digits, most significant first. */
  function DigitsValue(s: string): nat
    requires AllDigits(s)
  {
    if s == [] then 0 else DigitsValue(s[..|s| - 1]) * 10 + DigitValue(s[|s| - 1])
  }

  /** Shortest decimal text of a natural number. */
  function NatToString(n: nat): (s: string)
    ensures |s| > 0 && AllDigits(s)
    ensures |s| > 1 ==> s[0] != '0'
  {
    if n < 10 then [DigitChar(n)] else NatToString(n / 10) + [DigitChar(n % 10)]
  }

  /** The decimal text JavaScript gives an integer-valued number: a '-' sign, then the digits. */
  function IntToString(i: int): (s: string)
    ensures |s| > 0
    ensures s[0] == '-' <==> i < 0
    ensures i >= 0 ==> AllDigits(s)
  {
    if i < 0 then "-" + NatToString(-i) else NatToString(i)
  }

  lemma {:induction false} NatToStringRoundTrip(n: nat)
    ensures DigitsValue(NatToString(n)) == n
    decreases n
  {
    if n >= 10 {
      var s := NatToString(n);
      NatToStringRoundTrip(n / 10);
      assert s[..|s| - 1] == NatToString(n / 10);
    }
  }

  /** The white-space and line-terminator characters that `parseInt` skips before the number. */
  predicate IsJsSpace(c: char) {
    var k := c as int;
    k == 0x09 || k == 0x0A || k == 0x0B || k == 0x0C || k == 0x0D || k == 0x20
    || k == 0xA0 || k == 0x1680 || (0x2000 <= k <= 0x200A) || k == 0x2028 || k == 0x2029
    || k == 0x202F || k == 0x205F || k == 0x3000 || k == 0xFEFF
  }

  function SkipSpace(s: string): (r: string)
    ensures |r| <= |s| && r == s[|s| - |r|..]
    ensures forall i :: 0 <= i < |s| - |r| ==> IsJsSpace(s[i])
    ensures r == [] || !IsJsSpace(r[0])
  {
    if s != [] && IsJsSpace(s[0]) then SkipSpace(s[1..]) else s
  }

  /** The longest prefix of `s` made of decimal digits. */
  function DigitPrefix(s: string): (r: string)
    ensures AllDigits(r)
    ensures r <= s
    ensures |r| < |s| ==> !IsDigit(s[|r|])
  {
    if s != [] && IsDigit(s[0]) then [s[0]] + DigitPrefix(s[1..]) else []
  }

  /**
   * `parseInt(s, 10)`: skip leading white space, read an optional sign, then the
   * longest run of decimal digits; no digit at all yields `NaN`, written `None`.
   * Trailing text after the digits is ignored.
   */
  function ParseInt(s: string): (r: Option<int>)
    ensures r.None? <==> DigitPrefix(Unsigned(SkipSpace(s))) == []
  {
    var t := SkipSpace(s);
    var digits := DigitPrefix(Unsigned(t));
    var magnitude: int := if digits == [] then 0 else DigitsValue(digits);
    if digits == [] then None
    else if t[0] == '-' then Some(-magnitude)
    else Some(magnitude)
  }

  /** `t` with one leading sign character removed. */
  function Unsigned(t: string): (u: string)
    ensures t != [] && (t[0] == '-' || t[0] == '+') ==> u == t[1..]
    ensures !(t != [] && (t[0] == '-' || t[0] == '+')) ==> u == t
  {
    if t != [] && (t[0] == '-' || t[0] == '+') then t[1..] else t
  }

  lemma DigitPrefixOfDigits(s: string)
    requires AllDigits(s)
    ensures DigitPrefix(s) == s
  {
    if s != [] {
      DigitPrefixOfDigits(s[1..]);
    }
  }

  /** `parseInt` reads back every integer exactly from the text JavaScript writes for it. */
  lemma ParseIntRoundTrip(i: int)
    ensures ParseInt(IntToString(i)) == Some(i)
  {
    var s := IntToString(i);
    assert !IsJsSpace(s[0]);
    assert SkipSpace(s) == s;
    var n: nat := if i < 0 then -i else i;
    assert Unsigned(s) == NatToString(n);
    DigitPrefixOfDigits(NatToString(n));
    NatToStringRoundTrip(n);
  }

  /** The digits of a prefix decide the result: whatever follows the first non-digit is ignored. */
  lemma {:induction false} DigitPrefixStops(digits: string, tail: string)
    requires AllDigits(digits)
    requires tail == [] || !IsDigit(tail[0])
    ensures DigitPrefix(digits + tail) == digits
    decreases |digits|
  {
    if digits == [] {
      assert digits + tail == tail;
    } else {
      assert (digits + tail)[0] == digits[0];
      assert (digits + tail)[1..] == digits[1..] + tail;
      DigitPrefixStops(digits[1..], tail);
    }
  }

  /** A run of digits followed by anything that does not start with a digit parses as the run. */
  lemma ParseIntIgnoresTail(digits: string, tail: string)
    requires digits != [] && AllDigits(digits)
    requires tail == [] || !IsDigit(tail[0])
    ensures ParseInt(digits + tail) == Some(DigitsValue(digits))
  {
    var s := digits + tail;
    assert s[0] == digits[0];
    ParseIntDigitFirst(s);
    DigitPrefixStops(digits, tail);
  }

  /** Text that starts with a digit has no white space or sign to skip. */
  lemma ParseIntDigitFirst(s: string)
    requires s != [] && IsDigit(s[0])
    ensures ParseInt(s) == Some(DigitsValue(DigitPrefix(s)))
  {
    assert !IsJsSpace(s[0]);
    assert SkipSpace(s) == s;
    assert Unsigned(s) == s;
  }

  lemma ExampleParseIntTail()
    ensures ParseInt("2abc") == Some(2)
  {
    ExampleParseIntTailParts();
    ParseIntIgnoresTail("2", "abc");
  }

  lemma ExampleParseIntTailParts()
    ensures "2" + "abc" == "2abc"
    ensures AllDigits("2") && DigitsValue("2") == 2 && !IsDigit("abc"[0])
  {
  }

  lemma ExampleParseIntNaN()
    ensures ParseInt("abc") == None
    ensures ParseInt("") == None
  {
  }
}
