/** Decimal text: printing natural numbers and reading them back. */
module Decimal {

  function Pow10(n: nat): (p: nat)
    ensures p > 0
  {
    if n == 0 then 1 else 10 * Pow10(n - 1)
  }

  function DigitChar(d: nat): char
    requires d < 10
  {
    '0' + d as char
  }

  predicate IsDigit(c: char) {
    '0' <= c <= '9'
  }

  function DigitValue(c: char): nat
    requires IsDigit(c)
  {
    (c - '0') as nat
  }

  predicate AllDigits(s: string) {
    forall i :: 0 <= i < |s| ==> IsDigit(s[i])
  }

  /** The shortest decimal text of `n`. */
  function Print(n: nat): string {
    if n < 10 then [DigitChar(n)] else Print(n / 10) + [DigitChar(n % 10)]
  }

  /** The `width` lowest decimal digits of `n`, zeros included. */
  function PrintFixed(n: nat, width: nat): string
    decreases width
  {
    if width == 0 then "" else PrintFixed(n / 10, width - 1) + [DigitChar(n % 10)]
  }

  function Parse(s: string): nat
    requires AllDigits(s)
  {
    if s == "" then 0 else 10 * Parse(s[..|s| - 1]) + DigitValue(s[|s| - 1])
  }

  /** `n` without its `d` lowest decimal digits: the quotient of `n` by `10^d`. */
  function Whole(n: nat, d: nat): nat
    decreases n, d
  {
    if d == 0 then n else Whole(n / 10, d - 1)
  }

  /** The `d` lowest decimal digits of `n`: the remainder of `n` by `10^d`. */
  function Fraction(n: nat, d: nat): nat
    decreases n, d
  {
    if d == 0 then 0 else 10 * Fraction(n / 10, d - 1) + n % 10
  }

  lemma {:induction false} DecimalSplit(n: nat, d: nat)
    ensures n == Whole(n, d) * Pow10(d) + Fraction(n, d)
    ensures Fraction(n, d) < Pow10(d)
    decreases d
  {
    if d != 0 {
      DecimalSplit(n / 10, d - 1);
      var w := Whole(n, d);
      assert w * Pow10(d) == 10 * (w * Pow10(d - 1));
    }
  }

  lemma {:induction false} PrintDigits(n: nat)
    ensures AllDigits(Print(n)) && Print(n) != ""
  {
    if n >= 10 { PrintDigits(n / 10); }
  }

  lemma {:induction false} ParsePrint(n: nat)
    ensures AllDigits(Print(n)) && Parse(Print(n)) == n
  {
    PrintDigits(n);
    if n >= 10 {
      ParsePrint(n / 10);
      assert Print(n)[..|Print(n)| - 1] == Print(n / 10);
    } else {
      assert Print(n)[..0] == "";
    }
  }

  lemma {:induction false} PrintFixedDigits(n: nat, width: nat)
    ensures |PrintFixed(n, width)| == width && AllDigits(PrintFixed(n, width))
    decreases width
  {
    if width > 0 { PrintFixedDigits(n / 10, width - 1); }
  }

  lemma {:induction false} ParsePrintFixed(n: nat, width: nat)
    requires n < Pow10(width)
    ensures AllDigits(PrintFixed(n, width)) && Parse(PrintFixed(n, width)) == n
    decreases width
  {
    PrintFixedDigits(n, width);
    if width > 0 {
      ParsePrintFixed(n / 10, width - 1);
      assert PrintFixed(n, width)[..width - 1] == PrintFixed(n / 10, width - 1);
    }
  }

  /** Zero padding by adding `10^width` and dropping the leading one. */
  lemma {:induction false} LeadingOne(n: nat, width: nat)
    requires n < Pow10(width)
    ensures Print(Pow10(width) + n) == "1" + PrintFixed(n, width)
    decreases width
  {
    if width > 0 {
      LeadingOne(n / 10, width - 1);
      var m := Pow10(width) + n;
      assert m / 10 == Pow10(width - 1) + n / 10 && m % 10 == n % 10;
      assert "1" + PrintFixed(n, width) == ("1" + PrintFixed(n / 10, width - 1)) + [DigitChar(n % 10)];
    }
  }

  lemma {:induction false} ParseConcat(s: string, t: string)
    requires AllDigits(s) && AllDigits(t)
    ensures AllDigits(s + t) && Parse(s + t) == Parse(s) * Pow10(|t|) + Parse(t)
    decreases |t|
  {
    if t == "" {
      assert s + t == s;
    } else {
      var n := |t| - 1;
      ParseConcat(s, t[..n]);
      assert (s + t)[..|s + t| - 1] == s + t[..n];
      TenTimes(Parse(s), n);
    }
  }

  lemma {:induction false} Pow10Add(m: nat, n: nat)
    ensures Pow10(m + n) == Pow10(m) * Pow10(n)
    decreases n
  {
    if n > 0 {
      Pow10Add(m, n - 1);
      TenTimes(Pow10(m), n - 1);
    }
  }

  lemma {:induction false} TenTimes(x: nat, n: nat)
    ensures x * Pow10(n + 1) == 10 * (x * Pow10(n))
  {
  }
}
