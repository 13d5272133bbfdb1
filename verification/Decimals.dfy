/** Decimal text and unbounded integers. */
module Decimals {

  predicate IsDigit(c: char) { '0' <= c <= '9' }

  predicate IsDigits(text: string) {
    forall i {:trigger text[i]} :: 0 <= i < |text| ==> IsDigit(text[i])
  }

  function DigitValue(c: char): nat
    requires IsDigit(c)
  {
    c as int - '0' as int
  }

  function Digit(n: nat): (c: char)
    requires n < 10
    ensures IsDigit(c) && DigitValue(c) == n
  {
    (n + '0' as int) as char
  }

  /** The number that digits write; nothing written is zero. */
  function Number(digits: string): nat
    requires IsDigits(digits)
  {
    if digits == "" then 0 else 10 * Number(digits[..|digits| - 1]) + DigitValue(digits[|digits| - 1])
  }

  /** How an integer is printed. */
  function Text(n: nat): string {
    if n < 10 then [Digit(n)] else Text(n / 10) + [Digit(n % 10)]
  }

  function Pow10(k: nat): (p: nat)
    ensures p >= 1
  {
    if k == 0 then 1 else 10 * Pow10(k - 1)
  }

  /** A number times 10^places. */
  function Shifted(n: nat, places: nat): nat {
    if places == 0 then n else 10 * Shifted(n, places - 1)
  }

  lemma {:induction false} ShiftedTimes(n: nat, places: nat)
    ensures Shifted(n, places) == n * Pow10(places)
  {
    if places > 0 {
      ShiftedTimes(n, places - 1);
      TimesTen(n, Pow10(places - 1));
    }
  }

  /** The product of two counts or prices. */
  function Times(a: nat, b: nat): nat {
    a * b
  }

  function Zeros(n: nat): (text: string)
    ensures |text| == n && IsDigits(text) && forall i :: 0 <= i < n ==> text[i] == '0'
  {
    if n == 0 then "" else Zeros(n - 1) + ['0']
  }

  function PadEnd(text: string, width: nat): string {
    if |text| < width then text + Zeros(width - |text|) else text
  }

  function PadStart(text: string, width: nat): string {
    if |text| < width then Zeros(width - |text|) + text else text
  }

  /** Without the zeros at the end. */
  function StripZeros(text: string): string {
    if text != "" && text[|text| - 1] == '0' then StripZeros(text[..|text| - 1]) else text
  }

  /** Zero, or digits that do not start with one. */
  predicate WholeNumber(text: string) {
    text == "0" || (text != "" && IsDigits(text) && text[0] != '0')
  }

  // ----- Printing and reading integers

  lemma NumberSnoc(digits: string, c: char)
    requires IsDigits(digits) && IsDigit(c)
    ensures IsDigits(digits + [c]) && Number(digits + [c]) == 10 * Number(digits) + DigitValue(c)
  {
    assert (digits + [c])[..|digits|] == digits;
  }

  lemma {:induction false} TextNumber(n: nat)
    ensures WholeNumber(Text(n)) && IsDigits(Text(n)) && Number(Text(n)) == n
    ensures n > 0 ==> Text(n)[0] != '0'
  {
    if n < 10 {
      assert Text(n)[..0] == "";
    } else {
      TextNumber(n / 10);
      NumberSnoc(Text(n / 10), Digit(n % 10));
    }
  }

  lemma {:induction false} NumberText(text: string)
    requires WholeNumber(text)
    ensures IsDigits(text) && Text(Number(text)) == text
  {
    var less, c := text[..|text| - 1], text[|text| - 1];
    if |text| == 1 {
      assert less == "" && text == [c];
      DigitBack(c);
    } else {
      NumberText(less);
      NumberPositive(less);
      DigitBack(c);
      assert text == less + [c];
      var n := Number(text);
      assert n / 10 == Number(less) && n % 10 == DigitValue(c);
    }
  }

  lemma DigitBack(c: char)
    requires IsDigit(c)
    ensures Digit(DigitValue(c)) == c
  {
  }

  lemma {:induction false} NumberPositive(text: string)
    requires text != "" && IsDigits(text) && text[0] != '0'
    ensures Number(text) > 0
  {
    if |text| > 1 {
      NumberPositive(text[..|text| - 1]);
    }
  }

  lemma {:induction false} NumberBound(digits: string)
    requires IsDigits(digits)
    ensures Number(digits) < Pow10(|digits|)
  {
    if digits != "" {
      NumberBound(digits[..|digits| - 1]);
    }
  }

  lemma {:induction false} NumberAppend(a: string, b: string)
    requires IsDigits(a) && IsDigits(b)
    ensures IsDigits(a + b) && Number(a + b) == Shifted(Number(a), |b|) + Number(b)
  {
    if b == "" {
      assert a + b == a;
    } else {
      var less, c := b[..|b| - 1], b[|b| - 1];
      NumberAppend(a, less);
      assert a + b == a + less + [c] && b == less + [c];
      NumberSnoc(a + less, c);
      NumberSnoc(less, c);
    }
  }

  lemma TimesTen(x: nat, p: nat)
    ensures x * (10 * p) == 10 * (x * p)
  {
  }

  lemma {:induction false} NumberZeros(n: nat)
    ensures Number(Zeros(n)) == 0
  {
    if n > 0 {
      NumberZeros(n - 1);
      NumberSnoc(Zeros(n - 1), '0');
    }
  }

  /** Digits of one width write a number in one way. */
  lemma {:induction false} NumberInjective(a: string, b: string)
    requires IsDigits(a) && IsDigits(b) && |a| == |b| && Number(a) == Number(b)
    ensures a == b
  {
    if a != "" {
      var lessA, lessB := a[..|a| - 1], b[..|b| - 1];
      NumberInjective(lessA, lessB);
      assert a == lessA + [a[|a| - 1]] && b == lessB + [b[|b| - 1]];
    }
  }

  /** A number takes as many digits as its power of ten allows. */
  lemma {:induction false} TextWidth(n: nat, k: nat)
    requires k > 0
    ensures |Text(n)| <= k <==> n < Pow10(k)
  {
    if n >= 10 {
      if k > 1 {
        TextWidth(n / 10, k - 1);
      } else {
        assert |Text(n / 10)| >= 1;
      }
    }
  }

  lemma {:induction false} PowText(k: nat)
    ensures |Text(Pow10(k))| == k + 1
  {
    if k > 0 {
      PowText(k - 1);
      assert Pow10(k) / 10 == Pow10(k - 1);
    }
  }

  // ----- Padding and stripping

  lemma PadStartNumber(text: string, width: nat)
    requires IsDigits(text) && |text| <= width
    ensures IsDigits(PadStart(text, width)) && |PadStart(text, width)| == width
      && Number(PadStart(text, width)) == Number(text)
  {
    if |text| < width {
      NumberAppend(Zeros(width - |text|), text);
      NumberZeros(width - |text|);
      ShiftedTimes(0, |text|);
    }
  }

  lemma {:induction false} StripPad(text: string, width: nat)
    requires |text| == width
    ensures PadEnd(StripZeros(text), width) == text
    ensures |StripZeros(text)| <= width && (IsDigits(text) ==> IsDigits(StripZeros(text)))
  {
    if text != "" && text[width - 1] == '0' {
      var less := text[..width - 1];
      StripPad(less, width - 1);
      var stripped := StripZeros(less);
      assert text == less + ['0'];
      assert Zeros(width - |stripped|) == Zeros(width - 1 - |stripped|) + ['0'];
      assert stripped + Zeros(width - 1 - |stripped|) == less;
    }
  }

  predicate EndsInZero(text: string) {
    text != "" && text[|text| - 1] == '0'
  }

  lemma {:induction false} StripEnds(text: string)
    ensures !EndsInZero(StripZeros(text))
  {
    if EndsInZero(text) {
      StripEnds(text[..|text| - 1]);
    }
  }

  lemma {:induction false} StripPadded(text: string, n: nat)
    requires !EndsInZero(text)
    ensures StripZeros(text + Zeros(n)) == text
  {
    if n == 0 {
      assert text + Zeros(0) == text;
    } else {
      assert (text + Zeros(n))[..|text| + n - 1] == text + Zeros(n - 1);
      StripPadded(text, n - 1);
    }
  }
}
