/** Prices taken over from a catalog in dollars. */
module ModelCatalog {
  import opened Decimals
  import opened Money

  function DecimalToMicros(text: string): Result<nat> {
    ParseScaled(text, PRICE_PLACES)
  }

  function MicrosToDecimalString(value: nat): string {
    WithFraction(Text(value / 1_000_000), StripZeros(PadStart(Text(value % 1_000_000), 6)))
  }

  /** The catalog's printer and reader undo each other; canonical text comes back as it was. */
  lemma MicrosRoundTrip(value: nat, text: string)
    ensures Accepted(MicrosToDecimalString(value), PRICE_PLACES)
      && DecimalToMicros(MicrosToDecimalString(value)) == Ok(value)
    ensures DecimalToMicros(text).Ok? ==>
      (MicrosToDecimalString(DecimalToMicros(text).value) == text <==> Canonical(text))
  {
    MillionIsPower();
    PrintThenRead(value, PRICE_PLACES);
    PrintedForm(value, PRICE_PLACES);
    if Accepted(text, PRICE_PLACES) {
      ReadThenPrint(text, PRICE_PLACES, ScaledValue(text, PRICE_PLACES));
      PrintedForm(ScaledValue(text, PRICE_PLACES), PRICE_PLACES);
    }
  }

  lemma MillionIsPower()
    ensures Pow10(6) == 1_000_000
  {
    assert Pow10(2) == 100;
    assert Pow10(4) == 10_000;
  }

  const LIMIT_MICROS: int := 1_000_000_000

  /** A price in dollars times a rate, rounded half up to micros, and limited. */
  function ConvertedMicros(usdPerMillion: string, rate: string): Result<nat> {
    var usdMicros :- DecimalToMicros(usdPerMillion);
    var rateMicros :- DecimalToMicros(rate);
    var rounded := (Times(usdMicros, rateMicros) + 500_000) / 1_000_000;
    if rounded > LIMIT_MICROS then Err(AmountOverflow) else Ok(rounded)
  }

  function ConvertUsdPrice(usdPerMillion: string, rate: string): Result<string> {
    var micros :- ConvertedMicros(usdPerMillion, rate);
    Ok(MicrosToDecimalString(micros))
  }

  /** There is a converted price exactly when both texts are accepted and the product rounds to the
      limit at most. */
  lemma ConversionExactly(usdPerMillion: string, rate: string)
    ensures ConvertUsdPrice(usdPerMillion, rate).Ok? <==>
            && DecimalToMicros(usdPerMillion).Ok? && DecimalToMicros(rate).Ok?
            && Times(DecimalToMicros(usdPerMillion).value, DecimalToMicros(rate).value) <
               (LIMIT_MICROS + 1) * 1_000_000 - 500_000
  {
    var usd, other := DecimalToMicros(usdPerMillion), DecimalToMicros(rate);
    if usd.Ok? && other.Ok? {
      RoundsPastLimit(Times(usd.value, other.value));
    }
  }

  lemma RoundsPastLimit(product: int)
    ensures (product + 500_000) / 1_000_000 > LIMIT_MICROS <==> product >= (LIMIT_MICROS + 1) * 1_000_000 - 500_000
  {
  }

  lemma RoundedNear(usdPerMillion: string, rate: string)
    requires ConvertedMicros(usdPerMillion, rate).Ok?
    ensures -500_000 < ConvertedMicros(usdPerMillion, rate).value * 1_000_000
                       - Times(DecimalToMicros(usdPerMillion).value, DecimalToMicros(rate).value) <= 500_000
  {
    RoundHalfUp(Times(DecimalToMicros(usdPerMillion).value, DecimalToMicros(rate).value), 1_000_000);
  }

  /** The converted price is accepted, and within half a micro of the exact product. */
  lemma ConversionRounds(usdPerMillion: string, rate: string, converted: string, exact: nat)
    requires ConvertUsdPrice(usdPerMillion, rate) == Ok(converted)
    requires exact == Times(DecimalToMicros(usdPerMillion).value, DecimalToMicros(rate).value)
    ensures DecimalToMicros(converted).Ok? && -500_000 < DecimalToMicros(converted).value * 1_000_000 - exact <= 500_000
  {
    RoundedNear(usdPerMillion, rate);
    MicrosRoundTrip(ConvertedMicros(usdPerMillion, rate).value, "");
  }

  // ----- Numbers printed with an exponent

  /** A number as it is printed in exponent form: one digit, perhaps a fraction, and a power of ten. */
  datatype Scientific = Scientific(lead: char, fraction: string, exponent: int) {
    predicate Printed() {
      IsDigit(lead) && lead != '0' && IsDigits(fraction)
    }

    function Digits(): string {
      [lead] + fraction
    }
  }

  /** Where the catalog puts the point into the digits. */
  function PlacePoint(n: Scientific): (string, string) {
    var digits := n.Digits();
    var point := |digits| + n.exponent;
    if point <= 0 then ("0", Zeros(-point) + digits)
    else if point >= |digits| then (digits + Zeros(point - |digits|), "")
    else (digits[..point], digits[point..])
  }

  /** The catalog's decimal literal for such a number. */
  function NumberToDecimalString(n: Scientific): string {
    WithFraction(PlacePoint(n).0, PlacePoint(n).1)
  }

  /** mantissa * 10^exponent */
  datatype Decimal = Decimal(mantissa: nat, exponent: int)

  predicate SameValue(a: Decimal, b: Decimal) {
    if a.exponent <= b.exponent then a.mantissa == Shifted(b.mantissa, b.exponent - a.exponent)
    else Shifted(a.mantissa, a.exponent - b.exponent) == b.mantissa
  }

  function ScientificValue(n: Scientific): Decimal
    requires n.Printed()
  {
    Decimal(Number(n.Digits()), n.exponent - |n.fraction|)
  }

  function TextValue(text: string): Decimal
    requires IsDigits(IntegerPart(text)) && IsDigits(FractionPart(text))
  {
    Decimal(Number(IntegerPart(text) + FractionPart(text)), -|FractionPart(text)|)
  }

  lemma {:induction false} ShiftedTwice(n: nat, a: nat, b: nat)
    ensures Shifted(Shifted(n, a), b) == Shifted(n, a + b)
  {
    if b > 0 {
      ShiftedTwice(n, a, b - 1);
    }
  }

  lemma {:induction false} ShiftedPositive(n: nat, k: nat)
    requires n > 0
    ensures Shifted(n, k) > 0
  {
    if k > 0 {
      ShiftedPositive(n, k - 1);
    }
  }

  lemma {:induction false} ShiftedApart(n: nat, a: nat, b: nat)
    requires n > 0
    ensures Shifted(n, a) == Shifted(n, b) <==> a == b
    decreases a + b
  {
    if a > 0 && b > 0 {
      ShiftedApart(n, a - 1, b - 1);
    } else if a > 0 {
      ShiftedUp(n, a - 1);
    } else if b > 0 {
      ShiftedUp(n, b - 1);
    }
  }

  lemma {:induction false} ShiftedUp(n: nat, k: nat)
    requires n > 0
    ensures Shifted(n, k) >= n
  {
    if k > 0 {
      ShiftedUp(n, k - 1);
    }
  }

  /** The same digits have the same value under one exponent only. */
  lemma OneExponent(n: nat, shift: nat, exponent: int, other: int)
    requires n > 0
    ensures SameValue(Decimal(Shifted(n, shift), exponent - shift), Decimal(n, other)) <==> exponent == other
  {
    var a := exponent - shift;
    if a <= other {
      ShiftedApart(n, shift, other - a);
    } else {
      ShiftedTwice(n, shift, a - other);
      ShiftedApart(n, shift + (a - other), 0);
    }
  }

  /** The value of a text, part by part. */
  lemma PartsValue(integer: string, fraction: string)
    requires IsDigits(integer) && IsDigits(fraction)
    ensures var text := WithFraction(integer, fraction);
            && IsDigits(IntegerPart(text)) && IsDigits(FractionPart(text)) && IsDigits(integer + fraction)
            && TextValue(text) == Decimal(Number(integer + fraction), -|fraction|)
  {
    PartsOf(integer, fraction);
  }

  /** Zeros before the digits do not count, and zeros behind them shift. */
  lemma PlacedNumber(n: Scientific)
    requires n.Printed()
    ensures var (integer, fraction) := PlacePoint(n);
            && IsDigits(integer) && IsDigits(fraction) && IsDigits(integer + fraction) && IsDigits(n.Digits())
            && Number(integer + fraction) == Shifted(Number(n.Digits()), if n.exponent > 0 then n.exponent else 0)
            && -|fraction| == if n.exponent > 0 then 0 else n.exponent
  {
    var digits := n.Digits();
    var point := |digits| + n.exponent;
    if point <= 0 {
      LeadingZeros(-point, digits);
    } else if point >= |digits| {
      TrailingZeros(digits, point - |digits|);
    } else {
      Joined(digits, point);
    }
  }

  lemma Joined(digits: string, point: nat)
    requires point <= |digits|
    ensures digits[..point] + digits[point..] == digits
  {
  }

  lemma TrailingZeros(digits: string, n: nat)
    requires IsDigits(digits)
    ensures IsDigits(digits + Zeros(n) + "") && Number(digits + Zeros(n) + "") == Shifted(Number(digits), n)
  {
    assert digits + Zeros(n) + "" == digits + Zeros(n);
    NumberAppend(digits, Zeros(n));
    NumberZeros(n);
  }

  lemma LeadingZeros(n: nat, digits: string)
    requires IsDigits(digits)
    ensures IsDigits("0" + (Zeros(n) + digits)) && Number("0" + (Zeros(n) + digits)) == Number(digits)
  {
    assert "0" + (Zeros(n) + digits) == "0" + Zeros(n) + digits;
    NumberZeros(1);
    assert Zeros(1) == "0";
    NumberAppend("0", Zeros(n));
    NumberZeros(n);
    ShiftedTimes(0, n);
    NumberAppend("0" + Zeros(n), digits);
    ShiftedTimes(0, |digits|);
  }

  /** The literal keeps the value exactly when the printed number has no fraction: the point is
      moved from the end of the digits, not from behind the first. */
  lemma ValueKeptExactly(n: Scientific)
    requires n.Printed()
    ensures var text := NumberToDecimalString(n);
            && IsDigits(IntegerPart(text)) && IsDigits(FractionPart(text))
            && (SameValue(TextValue(text), ScientificValue(n)) <==> n.fraction == "")
  {
    PlacedValue(n);
    NumberPositive(n.Digits());
    OneExponent(Number(n.Digits()), Shift(n), n.exponent, n.exponent - |n.fraction|);
  }

  /** How far the digits of a large number are shifted. */
  function Shift(n: Scientific): nat {
    if n.exponent > 0 then n.exponent else 0
  }

  /** The literal has the digits shifted, at the exponent itself. */
  lemma PlacedValue(n: Scientific)
    requires n.Printed()
    ensures var text := NumberToDecimalString(n);
            && IsDigits(n.Digits()) && IsDigits(IntegerPart(text)) && IsDigits(FractionPart(text))
            && TextValue(text) == Decimal(Shifted(Number(n.Digits()), Shift(n)), n.exponent - Shift(n))
  {
    PlacedNumber(n);
    PartsValue(PlacePoint(n).0, PlacePoint(n).1);
  }
}
