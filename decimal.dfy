/** Decimal text of non-negative integers, as Arduino's `String(n)` renders them,
    and the two-digit zero padding the sketch writes as `n < 10 ? "0" + String(n) : String(n)`. */
module Decimal {

  predicate IsDigit(c: char) {
    '0' <= c <= '9'
  }

  predicate AllDigits(s: string) {
    forall i :: 0 <= i < |s| ==> IsDigit(s[i])
  }

  function DigitChar(d: nat): (c: char)
    requires d < 10
    ensures IsDigit(c)
  {
    (48 + d) as char
  }

  function DigitValue(c: char): (d: nat)
    requires IsDigit(c)
    ensures d < 10
  {
    (c as int) - 48
  }

  /** `String(n)`: the decimal digits of `n`, most significant first, without leading zeros. */
  function DecimalString(n: nat): (s: string)
    ensures |s| >= 1 && AllDigits(s)
    ensures |s| > 1 ==> s[0] != '0'
    ensures n < 10 <==> |s| == 1
    decreases n
  {
    if n < 10 then [DigitChar(n)] else DecimalString(n / 10) + [DigitChar(n % 10)]
  }

  /** The value a string of decimal digits denotes; the reading-back partner of `DecimalString`. */
  function ParseDecimal(s: string): nat
    requires AllDigits(s)
  {
    if s == [] then 0 else ParseDecimal(s[..|s| - 1]) * 10 + DigitValue(s[|s| - 1])
  }

  /** Reading back the text of `n` gives `n`. */
  lemma {:induction false} ParseDecimalString(n: nat)
    ensures ParseDecimal(DecimalString(n)) == n
    decreases n
  {
    var s := DecimalString(n);
    if n >= 10 {
      ParseDecimalString(n / 10);
      assert s[..|s| - 1] == DecimalString(n / 10);
    }
  }

  lemma {:induction false} ParsePositive(s: string)
    requires |s| >= 1 && AllDigits(s) && s[0] != '0'
    ensures ParseDecimal(s) >= 1
    decreases |s|
  {
    if |s| > 1 {
      ParsePositive(s[..|s| - 1]);
    }
  }

  /** Every canonical digit string (no leading zero) is the text of the number it denotes. */
  lemma {:induction false} DecimalStringParse(s: string)
    requires |s| >= 1 && AllDigits(s)
    requires |s| > 1 ==> s[0] != '0'
    ensures DecimalString(ParseDecimal(s)) == s
    decreases |s|
  {
    var n := ParseDecimal(s);
    if |s| == 1 {
      assert s[..|s| - 1] == [];
      assert ParseDecimal(s[..|s| - 1]) == 0;
      assert DigitChar(n) == s[0];
    } else {
      var front := s[..|s| - 1];
      ParsePositive(front);
      DecimalStringParse(front);
      assert n / 10 == ParseDecimal(front);
      assert DigitChar(n % 10) == s[|s| - 1];
      assert s == front + [s[|s| - 1]];
    }
  }

  /** Four-digit numbers (years) have four-character text. */
  lemma DecimalStringLength(n: nat)
    requires 1000 <= n < 10000
    ensures |DecimalString(n)| == 4
  {
    var a, b, c := n / 10, n / 100, n / 1000;
    assert 100 <= a < 1000 && a / 10 == b;
    assert 10 <= b < 100 && b / 10 == c;
    assert 1 <= c < 10;
    assert |DecimalString(n)| == |DecimalString(a)| + 1;
    assert |DecimalString(a)| == |DecimalString(b)| + 1;
    assert |DecimalString(b)| == |DecimalString(c)| + 1;
  }

  /** Zero padding to two digits: `n < 10 ? "0" + String(n) : String(n)`. */
  function Pad2(n: nat): (s: string)
    ensures AllDigits(s) && |s| >= 2
    ensures n >= 10 ==> s == DecimalString(n)
  {
    if n < 10 then "0" + DecimalString(n) else DecimalString(n)
  }

  /** Below 100 the padded text is exactly two digits and reads back as `n`. */
  lemma Pad2Digits(n: nat)
    requires n < 100
    ensures |Pad2(n)| == 2
    ensures ParseDecimal(Pad2(n)) == n
  {
    var s := Pad2(n);
    ParseDecimalString(n);
    if n < 10 {
      assert s[..1] == "0";
      assert ParseDecimal(s[..1]) == 0;
    } else {
      assert DecimalString(n) == DecimalString(n / 10) + [DigitChar(n % 10)];
    }
  }

  /** Every two-digit string is the padded text of the number it denotes, so `Pad2`
      is a bijection between 0..99 and the two-digit strings. */
  lemma Pad2Parse(s: string)
    requires |s| == 2 && AllDigits(s)
    ensures ParseDecimal(s) < 100 && Pad2(ParseDecimal(s)) == s
  {
    var n := ParseDecimal(s);
    assert ParseDecimal(s[..1]) == DigitValue(s[0]);
    if s[0] == '0' {
      assert n == DigitValue(s[1]);
      assert DigitChar(n) == s[1];
      assert Pad2(n) == "0" + [DigitChar(n)];
    } else {
      DecimalStringParse(s);
    }
  }
}
