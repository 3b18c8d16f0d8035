/** The decimal rendering `Number.prototype.toString()` gives an integral
    number, which is how the request timestamp becomes the `X-Time`
    signing segment; and its inverse, the parse a verifier would apply. */
module Decimal {
  import opened Wrappers

  predicate IsDigit(c: char) {
    '0' <= c <= '9'
  }

  predicate AllDigits(s: string) {
    forall i :: 0 <= i < |s| ==> IsDigit(s[i])
  }

  /** A digit string as toString writes it: non-empty, no leading zero. */
  predicate IsCanonical(s: string) {
    |s| >= 1 && AllDigits(s) && (|s| > 1 ==> s[0] != '0')
  }

  function DigitChar(d: int): (c: char)
    requires 0 <= d < 10
    ensures IsDigit(c) && c as int - '0' as int == d
  {
    ('0' as int + d) as char
  }

  /** The decimal digits of `n`, most significant first. */
  function Digits(n: nat): (s: string)
    ensures IsCanonical(s)
    ensures s == "0" <==> n == 0
    decreases n
  {
    if n < 10 then [DigitChar(n)] else Digits(n / 10) + [DigitChar(n % 10)]
  }

  /** The value of a string of decimal digits. */
  function DigitsValue(s: string): nat
    requires AllDigits(s)
  {
    if |s| == 0 then 0
    else DigitsValue(s[..|s| - 1]) * 10 + (s[|s| - 1] as int - '0' as int)
  }

  /** `toString` of an integral number: an optional minus sign, then digits. */
  function NumberToString(t: int): (s: string)
    ensures |s| >= 1
    ensures s[0] == '-' <==> t < 0
    ensures t < 0 ==> IsCanonical(s[1..])
    ensures t >= 0 ==> IsCanonical(s)
    ensures forall i :: 0 <= i < |s| ==> IsDigit(s[i]) || (i == 0 && s[i] == '-')
  {
    if t < 0 then "-" + Digits(-t) else Digits(t)
  }

  /** Reads back what `NumberToString` writes; rejects anything else that
      is not an optional minus sign followed by digits. */
  function ParseInteger(s: string): Option<int>
  {
    if |s| > 0 && s[0] == '-' then
      if |s| > 1 && AllDigits(s[1..]) then Some(-(DigitsValue(s[1..]) as int)) else None
    else if |s| > 0 && AllDigits(s) then Some(DigitsValue(s))
    else None
  }

  lemma {:induction false} DigitsValueOfDigits(n: nat)
    ensures DigitsValue(Digits(n)) == n
    decreases n
  {
    if n >= 10 {
      var d := Digits(n / 10);
      assert (d + [DigitChar(n % 10)])[..|d|] == d;
      DigitsValueOfDigits(n / 10);
    }
  }

  /** A canonical digit string with more than one digit stands for a
      positive number. */
  lemma {:induction false} CanonicalPositive(s: string)
    requires IsCanonical(s) && |s| > 1
    ensures DigitsValue(s) >= 10
    decreases |s|
  {
    var p := s[..|s| - 1];
    assert IsCanonical(p) && p[0] == s[0];
    if |p| > 1 {
      CanonicalPositive(p);
    }
  }

  /** Every canonical digit string is the rendering of its value. */
  lemma {:induction false} DigitsOfDigitsValue(s: string)
    requires IsCanonical(s)
    ensures Digits(DigitsValue(s)) == s
    decreases |s|
  {
    if |s| > 1 {
      var p := s[..|s| - 1];
      assert IsCanonical(p) && p[0] == s[0];
      CanonicalPositive(s);
      var v := DigitsValue(s);
      var d := s[|s| - 1] as int - '0' as int;
      assert v / 10 == DigitsValue(p) && v % 10 == d;
      DigitsOfDigitsValue(p);
      assert s == p + [s[|s| - 1]];
    }
  }

  /** Parsing inverts rendering: distinct timestamps give distinct `X-Time`
      segments. */
  lemma ParseNumberToString(t: int)
    ensures ParseInteger(NumberToString(t)) == Some(t)
  {
    var s := NumberToString(t);
    if t < 0 {
      assert s[1..] == Digits(-t);
      DigitsValueOfDigits(-t);
    } else {
      DigitsValueOfDigits(t);
    }
  }

  /** Rendering inverts parsing on canonical inputs: the renderings are
      exactly the canonical strings, with or without a sign ("-0" aside). */
  lemma NumberToStringOfParse(s: string)
    requires IsCanonical(s) || (|s| > 1 && s[0] == '-' && IsCanonical(s[1..]) && s[1..] != "0")
    ensures ParseInteger(s).Some? && NumberToString(ParseInteger(s).value) == s
  {
    if s[0] == '-' {
      DigitsOfDigitsValue(s[1..]);
      assert s == "-" + s[1..];
    } else {
      DigitsOfDigitsValue(s);
    }
  }
}
