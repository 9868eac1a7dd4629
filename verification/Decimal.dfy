/** Decimal text of naturals, and reading it back. */
module Decimal {

  predicate IsDigit(c: char) { '0' <= c <= '9' }

  function DigitChar(d: nat): (c: char)
    requires d < 10
    ensures IsDigit(c) && DigitValue(c) == d
  {
    '0' + d as char
  }

  function DigitValue(c: char): nat
    requires IsDigit(c)
  {
    (c - '0') as nat
  }

  predicate AllDigits(s: string) {
    forall i :: 0 <= i < |s| ==> IsDigit(s[i])
  }

  function Text(n: nat): (s: string)
    ensures s != [] && AllDigits(s) && (n != 0 ==> s[0] != '0')
  {
    if n < 10 then [DigitChar(n)] else Text(n / 10) + [DigitChar(n % 10)]
  }

  function Value(s: string): nat
    requires AllDigits(s)
  {
    if s == "" then 0 else 10 * Value(s[..|s| - 1]) + DigitValue(s[|s| - 1])
  }

  lemma {:induction false} ValueOfText(n: nat)
    ensures Value(Text(n)) == n
  {
    if n >= 10 {
      ValueOfText(n / 10);
      assert Text(n)[..|Text(n)| - 1] == Text(n / 10);
    }
  }

  function Zeros(k: nat): (s: string)
    ensures |s| == k && AllDigits(s)
  {
    seq(k, _ => '0')
  }

  lemma {:induction false} LeadingZeros(k: nat, s: string)
    requires AllDigits(s)
    ensures AllDigits(Zeros(k) + s) && Value(Zeros(k) + s) == Value(s)
    decreases k + |s|
  {
    if s != "" {
      assert (Zeros(k) + s)[..k + |s| - 1] == Zeros(k) + s[..|s| - 1];
      LeadingZeros(k, s[..|s| - 1]);
    } else if k > 0 {
      assert (Zeros(k) + s)[..k - 1] == Zeros(k - 1) + s;
      LeadingZeros(k - 1, s);
    }
  }

  // The format code 0<width>d for a natural number.
  function Padded(n: nat, width: nat): (s: string)
    ensures AllDigits(s) && s != ""
  {
    var text := Text(n);
    if |text| < width then Zeros(width - |text|) + text else text
  }

  lemma ValueOfPadded(n: nat, width: nat)
    ensures Value(Padded(n, width)) == n
  {
    ValueOfText(n);
    var text := Text(n);
    if |text| < width {
      LeadingZeros(width - |text|, text);
    }
  }

  // Digits in their order, and the most significant first.
  lemma DigitsInOrder(d: nat)
    requires d < 10
    ensures DigitChar(d) == "0123456789"[d] && DigitValue("0123456789"[d]) == d
  {}

  lemma TextOfTens(n: nat, d: nat)
    requires d < 10 && n > 0
    ensures Text(10 * n + d) == Text(n) + [DigitChar(d)]
  {}

  function Power10(k: nat): (p: nat)
    ensures p > 0
  {
    if k == 0 then 1 else 10 * Power10(k - 1)
  }

  lemma {:induction false} TextLength(n: nat, k: nat)
    requires k > 0
    ensures |Text(n)| <= k <==> n < Power10(k)
  {
    if k == 1 {
      assert Power10(1) == 10 * Power10(0);
    } else if n >= 10 {
      TextLength(n / 10, k - 1);
      assert n / 10 < Power10(k - 1) <==> n < 10 * Power10(k - 1);
    } else {
      assert Power10(k) == 10 * Power10(k - 1);
    }
  }

  /** Padding fills up to the width with zeros, exactly for numbers that are
      shorter, and never cuts. */
  lemma PaddedShape(n: nat, width: nat)
    requires width > 0
    ensures n < Power10(width) ==> |Padded(n, width)| == width
    ensures n >= Power10(width) ==> |Padded(n, width)| > width && Padded(n, width) == Text(n)
  {
    TextLength(n, width);
  }

  /** Any text of digits is the decimal of its value after some zeros. */
  lemma {:induction false} DigitsAreZerosAndText(s: string) returns (z: nat)
    requires AllDigits(s) && s != ""
    ensures s == Zeros(z) + Text(Value(s))
  {
    var front, d := s[..|s| - 1], DigitValue(s[|s| - 1]);
    assert s == front + [DigitChar(d)];
    if front == "" {
      z := 0;
    } else {
      z := DigitsAreZerosAndText(front);
      if Value(front) == 0 {
        z := z + 1;
        assert front == Zeros(z);
      } else {
        TextOfTens(Value(front), d);
      }
    }
  }
}
