/** Decimal text of natural numbers, plain and zero-padded. */
module Decimal {
  import opened SemVer

  function DigitChar(d: nat): (c: char)
    requires d < 10
    ensures IsDigit(c) && DigitValue(c) == d
  {
    (d + '0' as int) as char
  }

  /** `std::to_string`: no leading zeros. */
  function Print(n: nat): (s: string)
    ensures Digits(s) && s != ""
  {
    if n < 10 then [DigitChar(n)] else Print(n / 10) + [DigitChar(n % 10)]
  }

  /** `%0*d`: exactly `width` digits, the low ones. */
  function Padded(n: nat, width: nat): (s: string)
    ensures Digits(s) && |s| == width
  {
    if width == 0 then "" else Padded(n / 10, width - 1) + [DigitChar(n % 10)]
  }

  lemma {:induction false} ValueOfPrint(n: nat)
    ensures NumericValue(Print(n)) == n
    ensures NoLeadingZero(Print(n))
  {
    if n >= 10 {
      ValueOfPrint(n / 10);
      assert Print(n)[..|Print(n)| - 1] == Print(n / 10);
      assert n / 10 > 0;
    } else {
      assert Print(n)[..0] == "";
    }
  }

  lemma {:induction false} ValueOfPadded(n: nat, width: nat)
    requires n < Pow10(width)
    ensures NumericValue(Padded(n, width)) == n
  {
    if width > 0 {
      ValueOfPadded(n / 10, width - 1);
      assert Padded(n, width)[..width - 1] == Padded(n / 10, width - 1);
    }
  }

  lemma DigitOfValue(c: char)
    requires IsDigit(c)
    ensures DigitChar(DigitValue(c)) == c
  {
  }

  lemma {:induction false} PrintOfValue(s: string)
    requires Digits(s) && s != "" && NoLeadingZero(s)
    ensures Print(NumericValue(s)) == s
  {
    var front, last := s[..|s| - 1], s[|s| - 1];
    DigitOfValue(last);
    assert s == front + [last];
    if front == "" {
      assert NumericValue(s) == DigitValue(last);
    } else {
      assert front[0] == s[0] && front[0] != '0';
      NumericValueBound(front);
      assert NumericValue(front) >= Pow10(|front| - 1) > 0;
      PrintOfValue(front);
      var v, d := NumericValue(front), DigitValue(last);
      assert (v * 10 + d) / 10 == v && (v * 10 + d) % 10 == d;
    }
  }

  lemma {:induction false} PaddedOfValue(s: string)
    requires Digits(s)
    ensures Padded(NumericValue(s), |s|) == s
  {
    if s != "" {
      var front, last := s[..|s| - 1], s[|s| - 1];
      PaddedOfValue(front);
      DigitOfValue(last);
      var v, d := NumericValue(front), DigitValue(last);
      assert (v * 10 + d) / 10 == v && (v * 10 + d) % 10 == d;
      assert s == front + [last];
    }
  }
}
