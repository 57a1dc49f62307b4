/** The part of java.lang the gateway relies on: the 32-bit `int` range,
    `Integer.valueOf(String)` (a radix-10 `parseInt`), the decimal text of an
    `int` (what `i + ","` appends) and the exceptions these raise. */
module JavaLang {
  import opened Wrappers

  /** The exceptions that can escape the gateway. */
  datatype Exception =
    | NumberFormatException(input: string)
    | StringIndexOutOfBoundsException(start: int, end: int, length: int)

  const INT_MIN: int := -0x8000_0000
  const INT_MAX: int := 0x7FFF_FFFF

  predicate IsInt32(x: int) {
    INT_MIN <= x <= INT_MAX
  }

  predicate IsDigit(c: char) {
    '0' <= c <= '9'
  }

  predicate AllDigits(s: string) {
    forall k :: 0 <= k < |s| ==> IsDigit(s[k])
  }

  function DigitValue(c: char): (d: nat)
    requires IsDigit(c)
    ensures d < 10
  {
    c as int - '0' as int
  }

  function DigitChar(d: nat): (c: char)
    requires d < 10
    ensures IsDigit(c) && DigitValue(c) == d
  {
    ('0' as int + d) as char
  }

  /** The value of a string of decimal digits, most significant first;
      leading zeros are allowed. */
  function DigitsValue(s: string): nat
    requires AllDigits(s)
  {
    if s == [] then 0 else 10 * DigitsValue(s[..|s| - 1]) + DigitValue(s[|s| - 1])
  }

  /** `Integer.valueOf(s)`: an optional `+` or `-`, then at least one decimal
      digit, denoting a value in the `int` range; `None` where Java throws
      `NumberFormatException`. */
  function ParseInt(s: string): (r: Option<int>)
    ensures r.Some? ==> IsInt32(r.value)
    ensures r.Some? ==> |s| >= 1 && (s[0] == '-' || s[0] == '+' ==> |s| >= 2)
    ensures r.Some? ==> forall k :: 0 <= k < |s| ==> IsDigit(s[k]) || (k == 0 && (s[k] == '-' || s[k] == '+'))
    ensures r.Some? ==> (r.value < 0 ==> s[0] == '-')
    ensures r.Some? && s[0] == '-' ==> r.value <= 0
  {
    if s == [] then None
    else
      var digits := if s[0] == '-' || s[0] == '+' then s[1..] else s;
      if digits == [] || !AllDigits(digits) then None
      else
        var magnitude: int := DigitsValue(digits);
        var v: int := if s[0] == '-' then -magnitude else magnitude;
        if IsInt32(v) then Some(v) else None
  }

  /** `Integer.toString(x)`: a minus sign for negative values, then the
      decimal digits of the magnitude. */
  function IntToString(x: int): (r: string)
    ensures r != []
    ensures forall k :: 0 <= k < |r| ==> IsDigit(r[k]) || (k == 0 && r[k] == '-')
    ensures r[0] == '-' <==> x < 0
    decreases if x < 0 then 1 - x else x
  {
    if x < 0 then "-" + IntToString(-x)
    else if x < 10 then [DigitChar(x)]
    else IntToString(x / 10) + [DigitChar(x % 10)]
  }

  /** The text of a non-negative number is all digits, denotes the number
      and has no leading zero. */
  lemma {:induction false} NaturalText(n: nat)
    ensures AllDigits(IntToString(n)) && DigitsValue(IntToString(n)) == n
    ensures IntToString(n)[0] == '0' ==> n == 0 && |IntToString(n)| == 1
    decreases n
  {
    if n >= 10 {
      var prefix := IntToString(n / 10);
      NaturalText(n / 10);
      assert IntToString(n)[..|IntToString(n)| - 1] == prefix;
    }
  }

  /** Reading back the text of an `int` gives the same `int`. */
  lemma ParseIntToString(x: int)
    requires IsInt32(x)
    ensures ParseInt(IntToString(x)) == Some(x)
  {
    var s := IntToString(x);
    if x < 0 {
      NaturalText(-x);
      assert s[1..] == IntToString(-x);
    } else {
      NaturalText(x);
    }
  }

  /** The value an optional sign and a string of digits denote. */
  function SignedValue(sign: string, digits: string): int
    requires AllDigits(digits)
  {
    if sign == "-" then -(DigitsValue(digits) as int) else DigitsValue(digits)
  }

  /** `Integer.valueOf` accepts every optional sign followed by decimal
      digits, leading zeros included, whose value is in the `int` range, and
      reads that value. */
  lemma {:induction false} ParseIntAccepts(sign: string, digits: string)
    requires sign == "" || sign == "+" || sign == "-"
    requires digits != [] && AllDigits(digits)
    requires IsInt32(SignedValue(sign, digits))
    ensures ParseInt(sign + digits) == Some(SignedValue(sign, digits))
  {
    var s := sign + digits;
    if sign == "" {
      assert s == digits;
      assert IsDigit(s[0]);
    } else {
      assert s[1..] == digits;
    }
  }

  /** A well-formed literal whose value is outside the `int` range is
      rejected. */
  lemma {:induction false} ParseIntRejectsOutOfRange(sign: string, digits: string)
    requires sign == "" || sign == "+" || sign == "-"
    requires digits != [] && AllDigits(digits)
    requires !IsInt32(SignedValue(sign, digits))
    ensures ParseInt(sign + digits) == None
  {
    var s := sign + digits;
    if sign == "" {
      assert s == digits;
      assert IsDigit(s[0]);
    } else {
      assert s[1..] == digits;
    }
  }

  /** Every accepted literal is an optional sign followed by digits, and its
      value is the one they denote. */
  lemma ParseIntDecomposes(s: string)
    requires ParseInt(s).Some?
    ensures var sign := if s[0] == '-' || s[0] == '+' then s[..1] else "";
            var digits := s[|sign|..];
            && s == sign + digits
            && (sign == "" || sign == "+" || sign == "-")
            && digits != [] && AllDigits(digits)
            && ParseInt(s).value == SignedValue(sign, digits)
  {
    if s[0] == '-' || s[0] == '+' {
      assert s[..1] == [s[0]];
      assert s == s[..1] + s[1..];
    }
  }

  /** `"+5"` reads as 5 and `"007"` as 7. */
  lemma SignAndLeadingZeros()
    ensures ParseInt("+5") == Some(5)
    ensures ParseInt("007") == Some(7)
  {
    assert "+5" == "+" + "5";
    assert DigitsValue("5") == 5;
    ParseIntAccepts("+", "5");
    assert "007" == "" + "007";
    assert "007"[..2] == "00" && "00"[..1] == "0";
    assert DigitsValue("007") == 7;
    ParseIntAccepts("", "007");
  }

  /** A literal padded with whitespace (any character up to U+0020) is not
      accepted: `Integer.valueOf` does not trim. */
  lemma ParseIntRejectsBlank(s: string, k: int)
    requires 0 <= k < |s| && s[k] <= ' '
    ensures ParseInt(s) == None
  {
  }
}
