/** Decimal text for crontab hour and minute fields.

    A field is "fixed" when it passes the digits-only test `^\d+$`; the
    database then casts it to an integer, and the computed integer is cast
    back to text. Digits are the ASCII digits '0'..'9'. */
module Decimal {

  import opened Wrappers

  predicate IsDigit(c: char) {
    '0' <= c <= '9'
  }

  function DigitValue(c: char): (d: nat)
    requires IsDigit(c)
    ensures d < 10
  {
    (c as int) - ('0' as int)
  }

  function DigitChar(d: nat): (c: char)
    requires d < 10
    ensures IsDigit(c) && DigitValue(c) == d
  {
    (('0' as int) + d) as char
  }

  /** Every character is a digit (the empty string included), read from the
      last character back, as `DecimalValue` reads the string. */
  predicate DigitsOnly(s: string)
    decreases |s|
  {
    s == [] || (IsDigit(s[|s| - 1]) && DigitsOnly(s[..|s| - 1]))
  }

  /** `DigitsOnly` says that every character is a digit. */
  lemma {:induction false} DigitsOnlyEverywhere(s: string)
    ensures DigitsOnly(s) <==> forall i :: 0 <= i < |s| ==> IsDigit(s[i])
    decreases |s|
  {
    if s != [] {
      var p := s[..|s| - 1];
      DigitsOnlyEverywhere(p);
      assert forall i :: 0 <= i < |p| ==> p[i] == s[i];
    }
  }

  /** The regular expression `^\d+$`: one or more digits and nothing else. */
  predicate IsAllDigits(s: string) {
    |s| > 0 && DigitsOnly(s)
  }

  /** The text a decimal cast of a non-negative integer produces: no leading
      zero unless the number is zero itself. */
  predicate IsCanonical(s: string) {
    IsAllDigits(s) && (s[0] != '0' || |s| == 1)
  }

  /** Ten to the power `k`. */
  function Pow10(k: nat): (p: nat)
    ensures p >= 1
  {
    if k == 0 then 1 else 10 * Pow10(k - 1)
  }

  /** The integer cast of a digit string; leading zeros are allowed. A string
      of `k` digits denotes a number below ten to the `k`. */
  function DecimalValue(s: string): (n: nat)
    requires DigitsOnly(s)
    ensures n < Pow10(|s|)
    decreases |s|
  {
    if s == [] then 0 else 10 * DecimalValue(s[..|s| - 1]) + DigitValue(s[|s| - 1])
  }

  /** The text cast of a non-negative integer. */
  function NatToDecimal(n: nat): (s: string)
    ensures IsCanonical(s)
    ensures |s| == 1 <==> n < 10
    decreases n
  {
    if n < 10 then [DigitChar(n)] else NatToDecimal(n / 10) + [DigitChar(n % 10)]
  }

  /** The text cast of any integer: a minus sign, then the digits of its
      absolute value. */
  function IntToDecimal(i: int): (s: string)
    ensures IsAllDigits(s) <==> i >= 0
    ensures i >= 0 ==> s == NatToDecimal(i)
  {
    if i < 0 then
      var s := "-" + NatToDecimal(-i);
      DigitsOnlyEverywhere(s);
      assert !IsDigit(s[0]);
      s
    else NatToDecimal(i)
  }

  /** Reads back what `IntToDecimal` writes; `None` for any other text. */
  function ParseInteger(s: string): (r: Option<int>)
    ensures IsAllDigits(s) ==> r == Some(DecimalValue(s))
    ensures r.Some? && r.value < 0 ==> |s| > 1 && s[0] == '-'
  {
    if IsAllDigits(s) then Some(DecimalValue(s))
    else if |s| > 1 && s[0] == '-' && IsAllDigits(s[1..]) then Some(0 - DecimalValue(s[1..]))
    else None
  }

  /** Printing a number and reading it back gives the number. */
  lemma {:induction false} NatToDecimalRoundTrip(n: nat)
    ensures DecimalValue(NatToDecimal(n)) == n
    decreases n
  {
    var s := NatToDecimal(n);
    if n >= 10 {
      NatToDecimalRoundTrip(n / 10);
      assert s[..|s| - 1] == NatToDecimal(n / 10);
    }
  }

  /** A digit string does not start with a zero, so it denotes a positive number. */
  lemma {:induction false} LeadingNonZeroIsPositive(s: string)
    requires IsAllDigits(s) && s[0] != '0'
    ensures DecimalValue(s) > 0
    decreases |s|
  {
    if |s| > 1 {
      LeadingNonZeroIsPositive(s[..|s| - 1]);
    }
  }

  /** Reading a canonical digit string and printing the number gives the string. */
  lemma {:induction false} DecimalValueRoundTrip(s: string)
    requires IsCanonical(s)
    ensures NatToDecimal(DecimalValue(s)) == s
    decreases |s|
  {
    var p := s[..|s| - 1];
    var d := DigitValue(s[|s| - 1]);
    if |s| == 1 {
      assert DecimalValue(s) == d;
      assert [DigitChar(d)] == s;
    } else {
      LeadingNonZeroIsPositive(p);
      DecimalValueRoundTrip(p);
      var v := DecimalValue(s);
      assert v == 10 * DecimalValue(p) + d;
      assert v / 10 == DecimalValue(p) && v % 10 == d;
      assert NatToDecimal(v) == p + [DigitChar(d)];
      assert p + [s[|s| - 1]] == s;
    }
  }

  /** A minus sign before digit text is read as the negated value. */
  lemma ParseNegative(t: string)
    requires IsAllDigits(t)
    ensures ParseInteger("-" + t) == Some(0 - DecimalValue(t))
  {
    var s := "-" + t;
    DigitsOnlyEverywhere(s);
    assert !IsDigit(s[0]);
    assert s[1..] == t;
  }

  /** Every integer survives the text cast and the reading back. */
  lemma IntToDecimalRoundTrip(i: int)
    ensures ParseInteger(IntToDecimal(i)) == Some(i)
  {
    if i < 0 {
      var t := NatToDecimal(-i);
      assert IntToDecimal(i) == "-" + t;
      ParseNegative(t);
      NatToDecimalRoundTrip(-i);
    } else {
      NatToDecimalRoundTrip(i);
    }
  }
}
