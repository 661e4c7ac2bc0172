/**
 Numbers as the installer reads and prints them: Python's `float(text)` on
 plain decimal numerals, `int(x)` (truncation toward zero) and `str(n)` for
 integers.
 */
module Numerals {
  import opened Optional
  import opened Text

  predicate IsDigit(c: char)
  {
    '0' <= c <= '9'
  }

  predicate AllDigits(s: string)
  {
    forall i :: 0 <= i < |s| ==> IsDigit(s[i])
  }

  function DigitValue(c: char): nat
    requires IsDigit(c)
  {
    c as int - '0' as int
  }

  function DigitChar(d: nat): (c: char)
    requires d < 10
    ensures IsDigit(c) && DigitValue(c) == d
  {
    ('0' as int + d) as char
  }

  /** The value of a run of decimal digits, most significant first. */
  function DigitsValue(s: string): nat
    requires AllDigits(s)
  {
    if |s| == 0 then 0 else 10 * DigitsValue(s[..|s| - 1]) + DigitValue(s[|s| - 1])
  }

  /** The text of a numeral after `float()` drops surrounding whitespace and one sign. */
  function Unsigned(t: string): string
  {
    if |t| > 0 && (t[0] == '-' || t[0] == '+') then t[1..] else t
  }

  /**
   `float(text)` for numerals of the form `[sign] digits [. digits]` or
   `[sign] . digits`, surrounded by optional whitespace; `None` stands for the
   `ValueError` Python raises on anything else.
   */
  function ParseDecimal(text: string): (r: Option<real>)
    ensures r.Some? ==> Strip(text) != []
    ensures r.Some? && r.value < 0.0 ==> Strip(text)[0] == '-'
  {
    var t := Strip(text);
    var body := Unsigned(t);
    var dot := IndexOf(body, '.');
    var whole := body[..dot];
    var frac := if dot < |body| then body[dot + 1..] else [];
    if AllDigits(whole) && AllDigits(frac) && |whole| + |frac| > 0 then
      var magnitude := Magnitude(whole, frac);
      Some(if |t| > 0 && t[0] == '-' then -magnitude else magnitude)
    else
      None
  }

  /** The value of `whole.frac`, both runs of digits. */
  function Magnitude(whole: string, frac: string): (m: real)
    requires AllDigits(whole) && AllDigits(frac)
    ensures m >= 0.0
    ensures frac == [] ==> m == DigitsValue(whole) as real
  {
    DigitsValue(whole) as real + Fraction(frac)
  }

  /** The value of the digits after the point, `0.frac`. */
  function Fraction(frac: string): (f: real)
    requires AllDigits(frac)
    ensures 0.0 <= f < 1.0
    ensures frac == [] ==> f == 0.0
  {
    if |frac| == 0 then 0.0 else (DigitValue(frac[0]) as real + Fraction(frac[1..])) / 10.0
  }

  /** Every character `float()` accepts is whitespace, a sign, a digit or the point. */
  lemma ParseDecimalChars(text: string, c: char)
    requires ParseDecimal(text).Some? && c in text
    ensures IsSpace(c) || c == '-' || c == '+' || c == '.' || IsDigit(c)
  {
    var t := Strip(text);
    var lt := LStrip(text);
    var i :| 0 <= i < |text| && text[i] == c;
    if i >= |text| - |lt| && i - (|text| - |lt|) < |t| {
      var j := i - (|text| - |lt|);
      assert t[j] == c;
      var body := Unsigned(t);
      if |t| > 0 && (t[0] == '-' || t[0] == '+') && j > 0 {
        assert body[j - 1] == c;
        DotSplitChars(body, j - 1);
      } else if !(|t| > 0 && (t[0] == '-' || t[0] == '+')) {
        assert body[j] == c;
        DotSplitChars(body, j);
      }
    }
  }

  lemma DotSplitChars(body: string, j: nat)
    requires j < |body|
    requires
      var dot := IndexOf(body, '.');
      AllDigits(body[..dot]) && AllDigits(if dot < |body| then body[dot + 1..] else [])
    ensures body[j] == '.' || IsDigit(body[j])
  {
    var dot := IndexOf(body, '.');
    if j < dot {
      assert body[..dot][j] == body[j];
    } else if j > dot {
      assert body[dot + 1..][j - dot - 1] == body[j];
    }
  }

  /** `str(n)` for a non-negative integer. */
  function NatToString(n: nat): (s: string)
    ensures |s| > 0 && AllDigits(s)
    ensures DigitsValue(s) == n
  {
    if n < 10 then [DigitChar(n)]
    else
      var s := NatToString(n / 10) + [DigitChar(n % 10)];
      assert s[..|s| - 1] == NatToString(n / 10);
      s
  }

  /** `str(i)` for any integer. */
  function IntToString(i: int): (s: string)
    ensures |s| > 0
    ensures i >= 0 ==> AllDigits(s)
    ensures i < 0 ==> s[0] == '-' && AllDigits(s[1..])
  {
    if i < 0 then "-" + NatToString(-i) else NatToString(i)
  }

  /** `int(x)`: truncation toward zero. */
  function Trunc(x: real): (k: int)
    ensures x >= 0.0 ==> 0 <= k && k as real <= x < k as real + 1.0
    ensures x < 0.0 ==> k <= 0 && k as real - 1.0 < x <= k as real
  {
    if x >= 0.0 then x.Floor else -((-x).Floor)
  }

  /** Whole numbers survive truncation unchanged. */
  lemma TruncWhole(k: int)
    ensures Trunc(k as real) == k
  {
  }

  /** Printing an integer and reading it back with `float()` gives the same number. */
  lemma {:induction false} IntToStringRoundTrip(i: int)
    ensures ParseDecimal(IntToString(i)) == Some(i as real)
  {
    var s := IntToString(i);
    var digits := IntDigits(i);
    IntStringNoSpace(i);
    StripNoSpace(s);
    NoDotInDigits(digits);
    assert digits[..|digits|] == digits;
  }

  /** A printed integer holds no whitespace. */
  lemma IntStringNoSpace(i: int)
    ensures NoSpace(IntToString(i))
  {
    var s := IntToString(i);
    var digits := if i < 0 then NatToString(-i) else NatToString(i);
    forall j | 0 <= j < |s| ensures !IsSpace(s[j]) {
      if i < 0 && j > 0 {
        assert s[j] == digits[j - 1];
      }
    }
  }

  /** The digits of a printed integer, its sign removed. */
  lemma IntDigits(i: int) returns (digits: string)
    ensures digits == if i < 0 then NatToString(-i) else NatToString(i)
    ensures Unsigned(IntToString(i)) == digits
  {
    digits := if i < 0 then NatToString(-i) else NatToString(i);
    if i < 0 {
      assert IntToString(i)[1..] == digits;
    }
  }

  lemma NoDotInDigits(s: string)
    requires AllDigits(s)
    ensures IndexOf(s, '.') == |s|
  {
    if |s| > 0 {
      assert s[0] != '.';
      NoDotInDigits(s[1..]);
    }
  }

  /** `float()` on a numeral of one digit, a point and one digit. */
  lemma PointValue(n: string, x: real)
    requires |n| == 3 && IsDigit(n[0]) && n[1] == '.' && IsDigit(n[2])
    requires x == DigitValue(n[0]) as real + DigitValue(n[2]) as real / 10.0
    ensures ParseDecimal(n) == Some(x)
  {
    assert NoSpace(n);
    StripNoSpace(n);
    assert Unsigned(n) == n;
    assert IndexOf(n, '.') == 1;
    assert n[..1] == [n[0]] && n[2..] == [n[2]];
    assert DigitsValue([n[0]]) == DigitValue(n[0]) by { assert [n[0]][..0] == ""; }
    assert Fraction([n[2]]) == DigitValue(n[2]) as real / 10.0 by { assert [n[2]][1..] == ""; }
  }
}
