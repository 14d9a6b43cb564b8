/** Decimal text of integers, as JavaScript renders them with `Number.prototype.toString()`
    and `String.prototype.padStart(2, '0')`, and the value of a digit string read back. */
module Decimal {

  /** The regular-expression class `\d`: an ASCII decimal digit. */
  predicate IsDigit(c: char) {
    '0' <= c <= '9'
  }

  predicate AllDigits(s: string) {
    forall i :: 0 <= i < |s| ==> IsDigit(s[i])
  }

  function DigitChar(d: nat): (c: char)
    requires d < 10
    ensures IsDigit(c) && DigitValue(c) == d
  {
    (d + '0' as int) as char
  }

  function DigitValue(c: char): nat
    requires IsDigit(c)
  {
    c as int - '0' as int
  }

  /** The number written by a string of decimal digits, most significant first. */
  function Value(s: string): nat
    requires AllDigits(s)
  {
    if s == [] then 0 else 10 * Value(s[..|s| - 1]) + DigitValue(s[|s| - 1])
  }

  /** `n.toString()` for a non-negative integral Number: the shortest decimal
      numeral, so it starts with '0' only when it is "0". */
  function NatToString(n: nat): (s: string)
    ensures 1 <= |s| && AllDigits(s)
    ensures s[0] == '0' <==> n == 0
    decreases n
  {
    if n < 10 then [DigitChar(n)] else NatToString(n / 10) + [DigitChar(n % 10)]
  }

  /** `i.toString()` for an integral Number: a minus sign before a negative one. */
  function IntToString(i: int): (s: string)
    ensures |s| >= 1 && (s[0] == '-') == (i < 0)
    ensures i >= 0 ==> s == NatToString(i)
    ensures i < 0 ==> s[1..] == NatToString(-i)
  {
    if i < 0 then "-" + NatToString(-i) else NatToString(i)
  }

  /** `s.padStart(2, '0')`: zeros in front up to two characters; longer text is kept as is. */
  function PadStart2(s: string): (r: string)
    ensures |s| >= 2 ==> r == s
    ensures |s| < 2 ==> |r| == 2 && r[2 - |s|..] == s && forall i :: 0 <= i < 2 - |s| ==> r[i] == '0'
  {
    if |s| >= 2 then s else seq(2 - |s|, _ => '0') + s
  }

  /** The text `(n).toString().padStart(2, '0')` used for months, days and hours. */
  function TwoDigits(n: nat): string {
    PadStart2(NatToString(n))
  }

  lemma ValueSnoc(s: string, c: char)
    requires AllDigits(s) && IsDigit(c)
    ensures AllDigits(s + [c]) && Value(s + [c]) == 10 * Value(s) + DigitValue(c)
  {
    assert (s + [c])[..|s|] == s;
  }

  /** Reading back the text of `n` gives `n`. */
  lemma {:induction false} ValueOfNatToString(n: nat)
    ensures Value(NatToString(n)) == n
    decreases n
  {
    if n >= 10 {
      ValueOfNatToString(n / 10);
      ValueSnoc(NatToString(n / 10), DigitChar(n % 10));
    }
  }

  lemma {:induction false} ValuePositive(s: string)
    requires AllDigits(s) && |s| >= 1 && s[0] != '0'
    ensures Value(s) >= 1
    decreases |s|
  {
    if |s| > 1 {
      ValuePositive(s[..|s| - 1]);
    }
  }

  /** A digit string without a leading zero is exactly the text of its value. */
  lemma {:induction false} NatToStringOfValue(s: string)
    requires AllDigits(s) && |s| >= 1 && (|s| == 1 || s[0] != '0')
    ensures NatToString(Value(s)) == s
    decreases |s|
  {
    if |s| > 1 {
      var a := s[..|s| - 1];
      NatToStringOfValue(a);
      ValuePositive(a);
      assert s == a + [s[|s| - 1]];
    }
  }

  /** The text of an integer reads back as the integer: its digits are the magnitude,
      behind a minus sign exactly when it is negative. */
  lemma ValueOfIntToString(i: int)
    ensures i >= 0 ==> AllDigits(IntToString(i)) && Value(IntToString(i)) == i
    ensures i < 0 ==> IntToString(i)[0] == '-' && AllDigits(IntToString(i)[1..]) && Value(IntToString(i)[1..]) == -i
  {
    ValueOfNatToString(if i < 0 then -i else i);
  }

  /** Padding digit text with zeros keeps its value and gives at least two digits. */
  lemma PadStart2Value(s: string)
    requires AllDigits(s)
    ensures |PadStart2(s)| >= 2 && AllDigits(PadStart2(s)) && Value(PadStart2(s)) == Value(s)
  {
    if |s| == 1 {
      ValueSnoc(['0'], s[0]);
      assert PadStart2(s) == ['0'] + s == ['0', s[0]];
    } else if |s| == 0 {
      assert PadStart2(s) == ['0'] + ['0'];
      ValueSnoc(['0'], '0');
    }
  }

  /** Below 100 the padded text has exactly two digits and reads back as `n`. */
  lemma TwoDigitsValue(n: nat)
    requires n < 100
    ensures |TwoDigits(n)| == 2 && AllDigits(TwoDigits(n)) && Value(TwoDigits(n)) == n
  {
    ValueOfNatToString(n);
    var s := NatToString(n);
    if n >= 10 {
      assert NatToString(n / 10) == [DigitChar(n / 10)];
    } else {
      assert TwoDigits(n) == ['0'] + s;
      ValueSnoc(['0'], s[0]);
      assert ['0'] + s == ['0', s[0]];
    }
  }

  /** Any two-digit text is the padded text of its own value. */
  lemma TwoDigitsOfValue(s: string)
    requires |s| == 2 && AllDigits(s)
    ensures TwoDigits(Value(s)) == s
  {
    if s[0] == '0' {
      var t := s[1..];
      assert s == ['0'] + t;
      ValueSnoc(['0'], s[1]);
      assert ['0'] + t == ['0', s[1]];
      NatToStringOfValue(t);
      assert Value(s) == Value(t);
    } else {
      NatToStringOfValue(s);
    }
  }

  /** A digit string of length at most four reads as less than 10000. */
  lemma {:induction false} ValueBound(s: string)
    requires AllDigits(s)
    ensures |s| <= 4 ==> Value(s) < 10000
    ensures |s| <= 3 ==> Value(s) < 1000
    ensures |s| <= 2 ==> Value(s) < 100
    ensures |s| <= 1 ==> Value(s) < 10
    decreases |s|
  {
    if s != [] {
      ValueBound(s[..|s| - 1]);
    }
  }
}
