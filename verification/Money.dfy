/** Exact prices and costs: decimal text in, unbounded integers inside, one rounding at the end. */
module Money {
  import opened Decimals

  datatype Error = BadPrice | BadScale | NegativeTokens | AmountOverflow

  datatype Result<+T> = Ok(value: T) | Err(error: Error) {
    predicate IsFailure() { Err? }
    function PropagateFailure<U>(): Result<U>
      requires IsFailure()
    {
      Err(error)
    }
    function Extract(): T
      requires !IsFailure()
    {
      value
    }
  }

  const PRICE_PLACES: nat := 6
  const UNIT_PLACES: nat := 12
  const NANO_PER_UNIT: int := 1_000_000_000
  const MAX_SQLITE_INTEGER: int := 9_223_372_036_854_775_807

  // ----- Decimal text

  /** The position of the first point from `from` on, or the length of the text. */
  function PointFrom(text: string, from: nat): (n: nat)
    requires from <= |text|
    ensures from <= n <= |text| && (n < |text| ==> text[n] == '.') && forall i :: from <= i < n ==> text[i] != '.'
    decreases |text| - from
  {
    if from == |text| || text[from] == '.' then from else PointFrom(text, from + 1)
  }

  function PointAt(text: string): nat {
    PointFrom(text, 0)
  }

  function IntegerPart(text: string): string {
    text[..PointAt(text)]
  }

  /** What follows the point; nothing without one. */
  function FractionPart(text: string): string {
    if PointAt(text) < |text| then text[PointAt(text) + 1..] else ""
  }

  /** A whole number, then perhaps a point and one to `places` digits. */
  predicate Accepted(text: string, places: nat) {
    && WholeNumber(IntegerPart(text))
    && (PointAt(text) < |text| ==> 1 <= |FractionPart(text)| <= places && IsDigits(FractionPart(text)))
  }

  function ScaledValue(text: string, places: nat): nat
    requires Accepted(text, places)
  {
    PadEndDigits(FractionPart(text), places);
    Shifted(Number(IntegerPart(text)), places) + Number(PadEnd(FractionPart(text), places))
  }

  lemma PadEndDigits(text: string, width: nat)
    requires IsDigits(text)
    ensures IsDigits(PadEnd(text, width)) && |PadEnd(text, width)| == if |text| < width then width else |text|
  {
  }

  /** Read a decimal text as an integer of 10^-places. */
  function ParseScaled(text: string, places: nat): Result<nat> {
    if !Accepted(text, places) then Err(BadPrice) else Ok(ScaledValue(text, places))
  }

  function PricePerMillionToMicros(text: string): Result<nat> {
    ParseScaled(text, PRICE_PLACES)
  }

  function PricePerMillionToUnits(text: string): Result<nat> {
    ParseScaled(text, UNIT_PLACES)
  }

  function WithFraction(integer: string, fraction: string): string {
    if fraction == "" then integer else integer + "." + fraction
  }

  /** Print an integer of 1/units, which must be a power of ten, without trailing zeros. */
  function DecimalString(value: int, units: int): Result<string> {
    if value < 0 || units < 1 then Err(BadScale)
    else
      var scale := |Text(units)| - 1;
      if Pow10(scale) != units then Err(BadScale)
      else Ok(WithFraction(Text(Quotient(value, units)), StripZeros(PadStart(Text(Remainder(value, units)), scale))))
  }

  function Quotient(value: nat, units: nat): nat
    requires units > 0
  {
    value / units
  }

  function Remainder(value: nat, units: nat): nat
    requires units > 0
  {
    value % units
  }

  // ----- Printing and reading undo each other

  lemma PartsOf(integer: string, fraction: string)
    requires IsDigits(integer)
    ensures IntegerPart(WithFraction(integer, fraction)) == integer
    ensures FractionPart(WithFraction(integer, fraction)) == fraction
    ensures PointAt(WithFraction(integer, fraction)) < |WithFraction(integer, fraction)| <==> fraction != ""
  {
    var text := WithFraction(integer, fraction);
    var n := PointAt(text);
    if fraction != "" {
      assert text == integer + "." + fraction;
      assert text[|integer|] == '.';
      assert forall i :: 0 <= i < |integer| ==> text[i] == integer[i];
      assert n == |integer|;
      assert text[n + 1..] == fraction;
    } else {
      assert n == |text|;
    }
  }

  lemma PartsBack(text: string)
    requires PointAt(text) < |text| ==> FractionPart(text) != ""
    ensures WithFraction(IntegerPart(text), FractionPart(text)) == text
  {
    var n := PointAt(text);
    if n < |text| {
      AroundPoint(text, n);
    }
  }

  lemma AroundPoint(text: string, n: nat)
    requires n < |text| && text[n] == '.'
    ensures text[..n] + "." + text[n + 1..] == text
  {
  }

  /** The digits printed behind the point. */
  function FractionText(remainder: nat, places: nat): string {
    StripZeros(PadStart(Text(remainder), places))
  }

  lemma FractionDigits(remainder: nat, places: nat)
    requires remainder < Pow10(places)
    ensures var fraction := FractionText(remainder, places);
            && IsDigits(fraction) && |fraction| <= places && !EndsInZero(fraction)
            && IsDigits(PadEnd(fraction, places)) && Number(PadEnd(fraction, places)) == remainder
  {
    TextNumber(remainder);
    StripEnds(PadStart(Text(remainder), places));
    if places > 0 {
      TextWidth(remainder, places);
      PadStartNumber(Text(remainder), places);
      StripPad(PadStart(Text(remainder), places), places);
    } else {
      assert Text(0) == "0" && PadStart("0", 0) == "0";
      assert StripZeros("0") == StripZeros("0"[..0]) == "";
    }
  }

  lemma PrintedForm(value: nat, places: nat)
    ensures DecimalString(value, Pow10(places)) ==
            Ok(WithFraction(Text(Quotient(value, Pow10(places))),
              FractionText(Remainder(value, Pow10(places)), places)))
  {
    PowText(places);
  }

  /** Printing succeeds exactly for values that are not negative and scales that are powers of ten. */
  lemma PrintsExactly(value: int, units: int)
    ensures DecimalString(value, units).Ok? <==> value >= 0 && exists k: nat :: units == Pow10(k)
  {
    if value >= 0 && exists k: nat :: units == Pow10(k) {
      var k: nat :| units == Pow10(k);
      PrintedForm(value, k);
    }
  }

  lemma ReadParts(integer: string, fraction: string, places: nat)
    requires WholeNumber(integer) && IsDigits(integer) && IsDigits(fraction) && |fraction| <= places
    ensures Accepted(WithFraction(integer, fraction), places)
    ensures IsDigits(PadEnd(fraction, places))
    ensures ScaledValue(WithFraction(integer, fraction), places) ==
      Shifted(Number(integer), places) + Number(PadEnd(fraction, places))
  {
    PartsOf(integer, fraction);
    PadEndDigits(fraction, places);
  }

  /** The parts of what is printed, and the numbers that they write. */
  lemma PrintedParts(value: nat, places: nat) returns (integer: string, fraction: string)
    ensures DecimalString(value, Pow10(places)) == Ok(WithFraction(integer, fraction))
    ensures WholeNumber(integer) && IsDigits(integer) && IsDigits(fraction) && |fraction| <= places
    ensures IsDigits(PadEnd(fraction, places))
      && Shifted(Number(integer), places) + Number(PadEnd(fraction, places)) == value
  {
    var units := Pow10(places);
    var quotient, remainder := Quotient(value, units), Remainder(value, units);
    Recompose(value, units);
    ShiftedTimes(quotient, places);
    PrintedForm(value, places);
    integer, fraction := PartsWritten(quotient, remainder, places);
  }

  lemma PartsWritten(quotient: nat, remainder: nat, places: nat) returns (integer: string, fraction: string)
    requires remainder < Pow10(places)
    ensures integer == Text(quotient) && fraction == FractionText(remainder, places)
    ensures WholeNumber(integer) && IsDigits(integer) && Number(integer) == quotient
    ensures IsDigits(fraction) && |fraction| <= places && IsDigits(PadEnd(fraction, places))
      && Number(PadEnd(fraction, places)) == remainder
  {
    integer, fraction := Text(quotient), FractionText(remainder, places);
    TextNumber(quotient);
    FractionDigits(remainder, places);
  }

  /** What is printed is accepted, and read back as what was printed. */
  lemma PrintThenRead(value: nat, places: nat)
    ensures var text := DecimalString(value, Pow10(places));
            text.Ok? && Accepted(text.value, places) && ParseScaled(text.value, places) == Ok(value)
  {
    var integer, fraction := PrintedParts(value, places);
    PartsParsed(integer, fraction, places, value, WithFraction(integer, fraction));
  }

  lemma PartsParsed(integer: string, fraction: string, places: nat, value: nat, text: string)
    requires WholeNumber(integer) && IsDigits(integer) && IsDigits(fraction) && |fraction| <= places
    requires IsDigits(PadEnd(fraction, places))
      && Shifted(Number(integer), places) + Number(PadEnd(fraction, places)) == value
    requires text == WithFraction(integer, fraction)
    ensures Accepted(text, places) && ParseScaled(text, places) == Ok(value)
  {
    ReadParts(integer, fraction, places);
  }

  lemma Recompose(value: nat, units: nat)
    requires units > 0
    ensures value / units * units + value % units == value && value % units < units
  {
  }

  /** Text without zeros at the end of its fraction. */
  predicate Canonical(text: string) {
    !EndsInZero(FractionPart(text))
  }

  lemma PadBound(fraction: string, places: nat)
    requires IsDigits(fraction) && |fraction| <= places
    ensures IsDigits(PadEnd(fraction, places)) && |PadEnd(fraction, places)| == places
    ensures Number(PadEnd(fraction, places)) < Pow10(places)
  {
    PadEndDigits(fraction, places);
    NumberBound(PadEnd(fraction, places));
  }

  /** Of the texts that fill up to one, only the one without a zero at its end is printed. */
  lemma OneStripped(fraction: string, printed: string, places: nat)
    requires |fraction| <= places && |printed| <= places && PadEnd(fraction, places) == PadEnd(printed, places)
    requires !EndsInZero(printed)
    ensures printed == fraction <==> !EndsInZero(fraction)
  {
    PaddedForm(fraction, places);
    PaddedForm(printed, places);
    if !EndsInZero(fraction) {
      StripPadded(fraction, places - |fraction|);
      StripPadded(printed, places - |printed|);
    }
  }

  /** The fraction that is printed for what was read is the one read, without zeros at its end. */
  lemma FractionBack(fraction: string, places: nat, remainder: nat)
    requires IsDigits(fraction) && |fraction| <= places
    requires IsDigits(PadEnd(fraction, places)) && remainder == Number(PadEnd(fraction, places))
    ensures FractionText(remainder, places) == fraction <==> !EndsInZero(fraction)
  {
    PadBound(fraction, places);
    FractionDigits(remainder, places);
    var printed := FractionText(remainder, places);
    PadBound(printed, places);
    NumberInjective(PadEnd(fraction, places), PadEnd(printed, places));
    OneStripped(fraction, printed, places);
  }

  lemma PaddedForm(text: string, width: nat)
    requires |text| <= width
    ensures PadEnd(text, width) == text + Zeros(width - |text|)
  {
    assert text + Zeros(0) == text;
  }

  /** What is read is printed back as the same text exactly when it has no zeros at its end. */
  lemma ReadThenPrint(text: string, places: nat, value: nat)
    requires ParseScaled(text, places) == Ok(value)
    ensures DecimalString(value, Pow10(places)) == Ok(text) <==> Canonical(text)
  {
    var quotient, remainder := PartsRead(text, places, value);
    ReadBack(text, places, IntegerPart(text), FractionPart(text), quotient, remainder);
  }

  /** The two numbers that a text was read as. */
  lemma PartsRead(text: string, places: nat, value: nat) returns (quotient: nat, remainder: nat)
    requires ParseScaled(text, places) == Ok(value)
    ensures value == Shifted(quotient, places) + remainder
    ensures IsDigits(IntegerPart(text)) && Text(quotient) == IntegerPart(text)
    ensures IsDigits(PadEnd(FractionPart(text), places))
      && remainder == Number(PadEnd(FractionPart(text), places)) < Pow10(places)
  {
    PadBound(FractionPart(text), places);
    NumberText(IntegerPart(text));
    quotient, remainder := Number(IntegerPart(text)), Number(PadEnd(FractionPart(text), places));
  }

  lemma ReadBack(text: string, places: nat, integer: string, fraction: string, quotient: nat, remainder: nat)
    requires Accepted(text, places) && integer == IntegerPart(text) && fraction == FractionPart(text)
    requires Text(quotient) == integer && IsDigits(integer)
    requires IsDigits(PadEnd(fraction, places)) && remainder == Number(PadEnd(fraction, places)) < Pow10(places)
    ensures DecimalString(Shifted(quotient, places) + remainder, Pow10(places)) == Ok(text) <==> !EndsInZero(fraction)
  {
    PrintParts(quotient, remainder, places);
    FractionBack(fraction, places, remainder);
    SameParts(text, integer, FractionText(remainder, places));
  }

  /** Two texts with one integer part are the same exactly when their fractions are. */
  lemma SameParts(text: string, integer: string, fraction: string)
    requires integer == IntegerPart(text) && IsDigits(integer)
    requires PointAt(text) < |text| ==> FractionPart(text) != ""
    ensures WithFraction(integer, fraction) == text <==> fraction == FractionPart(text)
  {
    PartsBack(text);
    PartsOf(integer, fraction);
  }

  lemma PrintParts(quotient: nat, remainder: nat, places: nat)
    requires remainder < Pow10(places)
    ensures DecimalString(Shifted(quotient, places) + remainder, Pow10(places)) ==
            Ok(WithFraction(Text(quotient), FractionText(remainder, places)))
  {
    ShiftedTimes(quotient, places);
    var value := Shifted(quotient, places) + remainder;
    DivideBack(value, Pow10(places), quotient, remainder);
    PrintedForm(value, places);
  }

  lemma DivideBack(n: nat, units: nat, quotient: nat, remainder: nat)
    requires remainder < units && n == quotient * units + remainder
    ensures n / units == quotient && n % units == remainder
  {
    var q := n / units;
    assert q * units <= n < q * units + units;
    MultiplyOrder(q, quotient, units);
    MultiplyOrder(quotient, q, units);
  }

  lemma MultiplyOrder(a: nat, b: nat, units: nat)
    ensures a < b ==> a * units + units <= b * units
  {
    if a < b {
      var d := b - a - 1;
      Distribute(d, a + 1, units);
      Distribute(a, 1, units);
      assert d * units >= 0;
    }
  }

  lemma Distribute(a: nat, b: nat, units: nat)
    ensures (a + b) * units == a * units + b * units
  {
  }

  // ----- Effective prices

  /** A configured price times its multiplier, or times one. */
  function EffectivePricePerMillion(price: string, multiplier: Option<string>): Result<string> {
    var priceMicros :- PricePerMillionToMicros(price);
    var multiplierMicros :- PricePerMillionToMicros(Factor(multiplier));
    DecimalString(Times(priceMicros, multiplierMicros), Pow10(UNIT_PLACES))
  }

  datatype Option<+T> = None | Some(value: T)

  function Factor(multiplier: Option<string>): string {
    if multiplier.Some? then multiplier.value else "1"
  }

  /** Nothing is lost: the effective price reads back as the exact product, and there is one
      exactly when both factors are accepted. */
  lemma EffectiveExact(price: string, multiplier: Option<string>)
    ensures EffectivePricePerMillion(price, multiplier).Ok? <==>
            Accepted(price, PRICE_PLACES) && Accepted(Factor(multiplier), PRICE_PLACES)
    ensures EffectivePricePerMillion(price, multiplier).Ok? ==>
              PricePerMillionToUnits(EffectivePricePerMillion(price, multiplier).value)
              == Ok(Times(ScaledValue(price, PRICE_PLACES), ScaledValue(Factor(multiplier), PRICE_PLACES)))
  {
    if Accepted(price, PRICE_PLACES) && Accepted(Factor(multiplier), PRICE_PLACES) {
      var product := Times(ScaledValue(price, PRICE_PLACES), ScaledValue(Factor(multiplier), PRICE_PLACES));
      PrintThenRead(product, UNIT_PLACES);
    }
  }

  /** A price without a multiplier keeps its value: its units are its micros times a million. */
  lemma PlainPriceKept(price: string)
    requires Accepted(price, PRICE_PLACES)
    ensures EffectivePricePerMillion(price, None).Ok?
    ensures PricePerMillionToUnits(EffectivePricePerMillion(price, None).value) ==
      Ok(ScaledValue(price, PRICE_PLACES) * 1_000_000)
  {
    OneIsMillion();
    EffectiveExact(price, None);
  }

  lemma OneIsMillion()
    ensures Accepted("1", PRICE_PLACES) && ScaledValue("1", PRICE_PLACES) == 1_000_000
  {
    assert Zeros(6) == "000000";
    assert PadEnd("", 6) == Zeros(6);
    assert Pow10(6) == 1_000_000;
    NumberZeros(6);
    OneReads();
  }

  lemma OneReads()
    ensures WholeNumber("1") && PointAt("1") == 1 && IntegerPart("1") == "1" && FractionPart("1") == ""
    ensures Number("1") == 1
  {
    assert "1"[..0] == "";
  }

  // ----- Costs

  /** The product of a token count and a price. */
  function Amount(tokens: int, units: nat): (product: int)
    ensures tokens >= 0 ==> product >= 0
  {
    tokens * units
  }

  datatype Buckets = Buckets(inputUncached: int, output: int, cacheRead: int, cacheWrite: int) {
    function Plus(other: Buckets): Buckets {
      Buckets(inputUncached + other.inputUncached, output + other.output, cacheRead + other.cacheRead,
        cacheWrite + other.cacheWrite)
    }

    function Total(): int {
      inputUncached + output + cacheRead + cacheWrite
    }

    predicate NonNegative() {
      inputUncached >= 0 && output >= 0 && cacheRead >= 0 && cacheWrite >= 0
    }
  }

  const NoBuckets := Buckets(0, 0, 0, 0)

  datatype UnitPrice = UnitPrice(input: string, output: string, cacheRead: string, cacheWrite: string) {
    predicate Readable() {
      Accepted(input, UNIT_PLACES) && Accepted(output, UNIT_PLACES) && Accepted(cacheRead, UNIT_PLACES)
        && Accepted(cacheWrite, UNIT_PLACES)
    }
  }

  datatype Cost = Cost(breakdown: Buckets, nano: int, totalProduct: int)

  /** The four products of one request, in 10^-18 yuan. */
  function Products(usage: Buckets, price: UnitPrice): Result<Buckets> {
    var input :- PricePerMillionToUnits(price.input);
    var output :- PricePerMillionToUnits(price.output);
    var cacheRead :- PricePerMillionToUnits(price.cacheRead);
    var cacheWrite :- PricePerMillionToUnits(price.cacheWrite);
    Ok(Buckets(Amount(usage.inputUncached, input), Amount(usage.output, output),
               Amount(usage.cacheRead, cacheRead), Amount(usage.cacheWrite, cacheWrite)))
  }

  function CalculateCost(usage: Buckets, price: UnitPrice): Result<Cost> {
    if !usage.NonNegative() then Err(NegativeTokens)
    else
      var breakdown :- Products(usage, price);
      var totalProduct := breakdown.Total();
      var nano := (totalProduct + 500_000_000) / NANO_PER_UNIT;
      if nano > MAX_SQLITE_INTEGER then Err(AmountOverflow) else Ok(Cost(breakdown, nano, totalProduct))
  }

  lemma ProductsNonNegative(usage: Buckets, price: UnitPrice)
    requires usage.NonNegative()
    ensures Products(usage, price).Ok? <==> price.Readable()
    ensures Products(usage, price).Ok? ==> Products(usage, price).value.NonNegative()
  {
  }

  /** The exact product of a token count and the price text it is charged at. */
  function Charge(tokens: int, price: string): int
    requires Accepted(price, UNIT_PLACES)
  {
    tokens * ScaledValue(price, UNIT_PLACES)
  }

  /** Each token count is charged at its own price, and the total is their sum. */
  lemma CostItemized(usage: Buckets, price: UnitPrice)
    requires CalculateCost(usage, price).Ok?
    ensures price.Readable()
    ensures var cost := CalculateCost(usage, price).value;
            && cost.breakdown.inputUncached == Charge(usage.inputUncached, price.input)
            && cost.breakdown.output == Charge(usage.output, price.output)
            && cost.breakdown.cacheRead == Charge(usage.cacheRead, price.cacheRead)
            && cost.breakdown.cacheWrite == Charge(usage.cacheWrite, price.cacheWrite)
            && cost.totalProduct ==
               Charge(usage.inputUncached, price.input) + Charge(usage.output, price.output)
               + Charge(usage.cacheRead, price.cacheRead) + Charge(usage.cacheWrite, price.cacheWrite)
  {
  }

  /** The cost is the exact total rounded once, half up, to a whole nanoyuan. */
  lemma CostRounded(usage: Buckets, price: UnitPrice)
    requires CalculateCost(usage, price).Ok?
    ensures var cost := CalculateCost(usage, price).value;
            && cost.totalProduct == cost.breakdown.Total()
            && -500_000_000 < cost.nano * NANO_PER_UNIT - cost.totalProduct <= 500_000_000
            && 0 <= cost.nano <= MAX_SQLITE_INTEGER
  {
    var total := CalculateCost(usage, price).value.totalProduct;
    assert total >= 0 by {
      ProductsNonNegative(usage, price);
    }
    NanoRounded(total);
  }

  lemma NanoRounded(total: int)
    requires total >= 0
    ensures var nano := (total + 500_000_000) / NANO_PER_UNIT;
            nano >= 0 && -500_000_000 < nano * NANO_PER_UNIT - total <= 500_000_000
  {
    RoundHalfUp(total, NANO_PER_UNIT);
  }

  /** What a request costs in all, when its prices can be read. */
  function TotalProduct(usage: Buckets, price: UnitPrice): int
    requires price.Readable()
  {
    Charge(usage.inputUncached, price.input) + Charge(usage.output, price.output)
    + Charge(usage.cacheRead, price.cacheRead) + Charge(usage.cacheWrite, price.cacheWrite)
  }

  lemma ProductsTotal(usage: Buckets, price: UnitPrice)
    requires price.Readable()
    ensures Products(usage, price).Ok? && Products(usage, price).value.Total() == TotalProduct(usage, price)
  {
  }

  /** The first total that rounds to more than can be stored. */
  const FIRST_OVERFLOW: int := (MAX_SQLITE_INTEGER + 1) * NANO_PER_UNIT - 500_000_000

  /** There is a cost exactly for token counts that are not negative, readable prices, and a total
      that rounds to a storable amount; each failure has its own error. */
  lemma CostExactly(usage: Buckets, price: UnitPrice)
    ensures CalculateCost(usage, price).Ok? <==>
            usage.NonNegative() && price.Readable() && TotalProduct(usage, price) < FIRST_OVERFLOW
    ensures CalculateCost(usage, price) == Err(NegativeTokens) <==> !usage.NonNegative()
    ensures CalculateCost(usage, price) == Err(BadPrice) <==> usage.NonNegative() && !price.Readable()
    ensures CalculateCost(usage, price) == Err(AmountOverflow) <==>
            usage.NonNegative() && price.Readable() && TotalProduct(usage, price) >= FIRST_OVERFLOW
  {
    if usage.NonNegative() && price.Readable() {
      ProductsTotal(usage, price);
      RoundsAbove(TotalProduct(usage, price), NANO_PER_UNIT, MAX_SQLITE_INTEGER);
    }
  }

  /** Rounding passes a limit exactly from half a unit above it on. */
  lemma RoundsAbove(product: int, units: int, limit: int)
    requires units > 0 && units % 2 == 0
    ensures (product + units / 2) / units > limit <==> product >= (limit + 1) * units - units / 2
  {
    var rounded := (product + units / 2) / units;
    DivisionBounds(product + units / 2, units);
    ProductOrder(limit + 1, rounded, units);
    ProductOrder(rounded + 1, limit + 1, units);
    Distribute2(rounded, units);
  }

  lemma DivisionBounds(n: int, units: int)
    requires units > 0
    ensures n / units * units <= n < n / units * units + units
  {
  }

  lemma ProductOrder(a: int, b: int, units: int)
    requires units > 0
    ensures a <= b ==> a * units <= b * units
  {
    if a <= b {
      assert (b - a) * units >= 0;
    }
  }

  lemma Distribute2(a: int, units: int)
    ensures (a + 1) * units == a * units + units
  {
  }

  /** Adding half and dividing is the nearest multiple, the upper of two as near. */
  lemma RoundHalfUp(product: int, units: int)
    requires product >= 0 && units > 0 && units % 2 == 0
    ensures var rounded := (product + units / 2) / units;
            rounded >= 0 && -(units / 2) < rounded * units - product <= units / 2
  {
    DivisionBounds(product + units / 2, units);
  }
}
