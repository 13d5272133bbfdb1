/** Local timestamps as text: fixed-width fields and the UTC offset of the moment. Read as text they
    are ordered by the local clock, read as dates by the instant. */
module Timestamps {
  import opened Decimals

  /** A reading of the local clock; `offset` is how many minutes it is ahead of UTC. */
  datatype LocalTime = LocalTime(
    year: nat, month: nat, day: nat, hours: nat, minutes: nat, seconds: nat, milliseconds: nat, offset: int)

  predicate LeapYear(year: nat) {
    year % 4 == 0 && (year % 100 != 0 || year % 400 == 0)
  }

  function DaysInMonth(year: nat, month: nat): nat {
    if month == 2 then (if LeapYear(year) then 29 else 28)
    else if month in {4, 6, 9, 11} then 30
    else 31
  }

  predicate ValidOffset(offset: int) {
    -1440 < offset < 1440
  }

  /** Years have four digits, as on every clock that writes a log. */
  predicate IsTime(t: LocalTime) {
    && 1000 <= t.year <= 9999 && 1 <= t.month <= 12 && 1 <= t.day <= DaysInMonth(t.year, t.month)
    && t.hours < 24 && t.minutes < 60 && t.seconds < 60 && t.milliseconds < 1000 && ValidOffset(t.offset)
  }

  // ----- The text

  /** The last `width` digits of a number, with leading zeros. */
  function Pad(n: nat, width: nat): string {
    if width == 0 then "" else Pad(n / 10, width - 1) + [Digit(n % 10)]
  }

  function OffsetText(offset: int): string {
    var minutes := if offset >= 0 then offset else -offset;
    (if offset >= 0 then "+" else "-") + (Pad(minutes / 60, 2) + (":" + Pad(minutes % 60, 2)))
  }

  function TimeText(t: LocalTime): string {
    Pad(t.hours, 2) + (":" + (Pad(t.minutes, 2) + (":" + (Pad(t.seconds, 2) + ("." +
    (Pad(t.milliseconds, 3) + OffsetText(t.offset)))))))
  }

  function FormatLocalIso(t: LocalTime): string {
    Pad(t.year, 4) + ("-" + (Pad(t.month, 2) + ("-" + (Pad(t.day, 2) + ("T" + TimeText(t))))))
  }

  /** The order of texts, character by character. */
  predicate Before(a: string, b: string) {
    b != "" && (a == "" || a[0] < b[0] || (a[0] == b[0] && Before(a[1..], b[1..])))
  }

  lemma {:induction false} Irreflexive(a: string)
    ensures !Before(a, a)
  {
    if a != "" {
      Irreflexive(a[1..]);
    }
  }

  lemma {:induction false} NotBoth(a: string, b: string)
    requires Before(a, b)
    ensures !Before(b, a)
  {
    if a != "" && a[0] == b[0] {
      NotBoth(a[1..], b[1..]);
    }
  }

  /** Behind two texts of one length, the rest only counts when they are the same. */
  lemma {:induction false} BehindHeads(a: string, b: string, x: string, y: string)
    requires |a| == |b|
    ensures Before(a + x, b + y) <==> Before(a, b) || (a == b && Before(x, y))
  {
    if a == "" {
      assert a + x == x && b + y == y;
    } else {
      assert (a + x)[1..] == a[1..] + x && (b + y)[1..] == b[1..] + y;
      BehindHeads(a[1..], b[1..], x, y);
      assert a == b <==> a[0] == b[0] && a[1..] == b[1..];
    }
  }

  function Power10(n: nat): (p: nat)
    ensures p >= 1
  {
    if n == 0 then 1 else 10 * Power10(n - 1)
  }

  lemma {:induction false} PadSize(n: nat, width: nat)
    ensures |Pad(n, width)| == width
  {
    if width > 0 {
      PadSize(n / 10, width - 1);
    }
  }

  lemma LastDigits(a: string, b: string, i: nat, j: nat)
    requires |a| == |b| && i < 10 && j < 10
    ensures Before(a + [Digit(i)], b + [Digit(j)]) <==> Before(a, b) || (a == b && i < j)
    ensures a + [Digit(i)] == b + [Digit(j)] <==> a == b && i == j
  {
    var x, y := [Digit(i)], [Digit(j)];
    BehindHeads(a, b, x, y);
    assert Before(x, y) <==> i < j;
    assert (a + x)[..|a|] == a && (b + y)[..|a|] == b && (a + x)[|a|] == x[0] && (b + y)[|a|] == y[0];
  }

  lemma {:induction false} PadOrder(m: nat, n: nat, width: nat)
    requires m < Power10(width) && n < Power10(width)
    ensures Before(Pad(m, width), Pad(n, width)) <==> m < n
    ensures Pad(m, width) == Pad(n, width) <==> m == n
  {
    if width > 0 {
      var a, b := Pad(m / 10, width - 1), Pad(n / 10, width - 1);
      PadOrder(m / 10, n / 10, width - 1);
      PadSize(m / 10, width - 1);
      PadSize(n / 10, width - 1);
      LastDigits(a, b, m % 10, n % 10);
    }
  }

  /** One field, then the rest. */
  lemma FieldOrder(m: nat, n: nat, width: nat, x: string, y: string)
    requires m < Power10(width) && n < Power10(width)
    ensures Before(Pad(m, width) + x, Pad(n, width) + y) <==> m < n || (m == n && Before(x, y))
  {
    PadOrder(m, n, width);
    PadSize(m, width);
    PadSize(n, width);
    BehindHeads(Pad(m, width), Pad(n, width), x, y);
  }

  lemma MarkOrder(mark: string, x: string, y: string)
    ensures Before(mark + x, mark + y) <==> Before(x, y)
  {
    Irreflexive(mark);
    BehindHeads(mark, mark, x, y);
  }

  lemma Powers()
    ensures Power10(2) == 100 && Power10(3) == 1000 && Power10(4) == 10000
  {
    assert Power10(1) == 10;
  }

  // ----- The order of the fields

  ghost predicate SameDay(a: LocalTime, b: LocalTime) {
    a.year == b.year && a.month == b.month && a.day == b.day
  }

  ghost predicate DayBefore(a: LocalTime, b: LocalTime) {
    a.year < b.year || (a.year == b.year && (a.month < b.month || (a.month == b.month && a.day < b.day)))
  }

  function MillisOfDay(t: LocalTime): nat {
    ((t.hours * 60 + t.minutes) * 60 + t.seconds) * 1000 + t.milliseconds
  }

  lemma TimeTextOrder(a: LocalTime, b: LocalTime)
    requires IsTime(a) && IsTime(b)
    ensures Before(TimeText(a), TimeText(b)) <==>
            || MillisOfDay(a) < MillisOfDay(b)
            || (MillisOfDay(a) == MillisOfDay(b) && Before(OffsetText(a.offset), OffsetText(b.offset)))
  {
    Powers();
    var x3, y3 := Pad(a.milliseconds, 3) + OffsetText(a.offset), Pad(b.milliseconds, 3) + OffsetText(b.offset);
    FieldOrder(a.milliseconds, b.milliseconds, 3, OffsetText(a.offset), OffsetText(b.offset));
    MarkOrder(".", x3, y3);
    FieldOrder(a.seconds, b.seconds, 2, "." + x3, "." + y3);
    var x2, y2 := Pad(a.seconds, 2) + ("." + x3), Pad(b.seconds, 2) + ("." + y3);
    MarkOrder(":", x2, y2);
    FieldOrder(a.minutes, b.minutes, 2, ":" + x2, ":" + y2);
    var x1, y1 := Pad(a.minutes, 2) + (":" + x2), Pad(b.minutes, 2) + (":" + y2);
    MarkOrder(":", x1, y1);
    FieldOrder(a.hours, b.hours, 2, ":" + x1, ":" + y1);
  }

  lemma TextOrder(a: LocalTime, b: LocalTime)
    requires IsTime(a) && IsTime(b)
    ensures Before(FormatLocalIso(a), FormatLocalIso(b)) <==>
            DayBefore(a, b) || (SameDay(a, b) && Before(TimeText(a), TimeText(b)))
  {
    Powers();
    MarkOrder("T", TimeText(a), TimeText(b));
    FieldOrder(a.day, b.day, 2, "T" + TimeText(a), "T" + TimeText(b));
    var x2, y2 := Pad(a.day, 2) + ("T" + TimeText(a)), Pad(b.day, 2) + ("T" + TimeText(b));
    MarkOrder("-", x2, y2);
    FieldOrder(a.month, b.month, 2, "-" + x2, "-" + y2);
    var x1, y1 := Pad(a.month, 2) + ("-" + x2), Pad(b.month, 2) + ("-" + y2);
    MarkOrder("-", x1, y1);
    FieldOrder(a.year, b.year, 4, "-" + x1, "-" + y1);
  }

  // ----- The instant

  function DaysBeforeMonth(year: nat, month: nat): nat {
    if month <= 1 then 0 else DaysBeforeMonth(year, month - 1) + DaysInMonth(year, month - 1)
  }

  function DaysBeforeYear(year: nat): nat {
    if year == 0 then 0 else DaysBeforeYear(year - 1) + DaysBeforeMonth(year - 1, 13)
  }

  function DayNumber(t: LocalTime): nat {
    DaysBeforeYear(t.year) + DaysBeforeMonth(t.year, t.month) + t.day
  }

  const MILLIS_PER_DAY: nat := 86400000

  /** The day number of the first day of 1970. */
  const EPOCH_DAY: nat := 719529

  /** What the local clock shows, in milliseconds. */
  function Local(t: LocalTime): nat {
    DayNumber(t) * MILLIS_PER_DAY + MillisOfDay(t)
  }

  /** The moment that the text names, in milliseconds since 1970. */
  function Instant(t: LocalTime): int {
    Local(t) - t.offset * 60000 - EPOCH_DAY * MILLIS_PER_DAY
  }

  lemma {:induction false} MonthsGrow(year: nat, m: nat, n: nat)
    requires 1 <= m < n
    ensures DaysBeforeMonth(year, m) + DaysInMonth(year, m) <= DaysBeforeMonth(year, n)
  {
    if m + 1 < n {
      MonthsGrow(year, m, n - 1);
    }
  }

  lemma {:induction false} YearsGrow(m: nat, n: nat)
    requires m < n
    ensures DaysBeforeYear(m) + DaysBeforeMonth(m, 13) <= DaysBeforeYear(n)
  {
    if m + 1 < n {
      YearsGrow(m, n - 1);
    }
  }

  lemma DaysOrdered(a: LocalTime, b: LocalTime)
    requires IsTime(a) && IsTime(b) && DayBefore(a, b)
    ensures DayNumber(a) < DayNumber(b)
  {
    MonthsGrow(a.year, a.month, 13);
    if a.year < b.year {
      YearsGrow(a.year, b.year);
    } else if a.month < b.month {
      MonthsGrow(a.year, a.month, b.month);
    }
  }

  lemma LocalOrder(a: LocalTime, b: LocalTime)
    requires IsTime(a) && IsTime(b)
    ensures Local(a) < Local(b) <==> DayBefore(a, b) || (SameDay(a, b) && MillisOfDay(a) < MillisOfDay(b))
    ensures Local(a) == Local(b) <==> SameDay(a, b) && MillisOfDay(a) == MillisOfDay(b)
  {
    assert MillisOfDay(a) < MILLIS_PER_DAY && MillisOfDay(b) < MILLIS_PER_DAY;
    if DayBefore(a, b) {
      DaysOrdered(a, b);
      DayApart(a, b);
    } else if DayBefore(b, a) {
      DaysOrdered(b, a);
      DayApart(b, a);
    }
  }

  lemma DayApart(a: LocalTime, b: LocalTime)
    requires DayNumber(a) < DayNumber(b) && MillisOfDay(a) < MILLIS_PER_DAY
    ensures Local(a) < Local(b)
  {
    assert (DayNumber(a) + 1) * MILLIS_PER_DAY <= DayNumber(b) * MILLIS_PER_DAY;
  }

  /** Texts are ordered by what the local clock showed; only at the same reading does the offset count. */
  lemma TextIsLocal(a: LocalTime, b: LocalTime)
    requires IsTime(a) && IsTime(b)
    ensures Before(FormatLocalIso(a), FormatLocalIso(b)) <==>
            Local(a) < Local(b) || (Local(a) == Local(b) && Before(OffsetText(a.offset), OffsetText(b.offset)))
  {
    TextOrder(a, b);
    TimeTextOrder(a, b);
    LocalOrder(a, b);
  }

  /** Under one UTC offset, text and instant give one order. */
  lemma TextIsInstant(a: LocalTime, b: LocalTime)
    requires IsTime(a) && IsTime(b) && a.offset == b.offset
    ensures Before(FormatLocalIso(a), FormatLocalIso(b)) <==> Instant(a) < Instant(b)
  {
    TextIsLocal(a, b);
    Irreflexive(OffsetText(a.offset));
  }

  /** Text and instant disagree exactly when the local clock moved less than the offset did. */
  lemma Disagree(a: LocalTime, b: LocalTime)
    requires IsTime(a) && IsTime(b)
    ensures Before(FormatLocalIso(b), FormatLocalIso(a)) && Instant(a) < Instant(b) <==>
            && (Local(b) < Local(a) || (Local(a) == Local(b) && Before(OffsetText(b.offset), OffsetText(a.offset))))
            && Local(a) - Local(b) < (a.offset - b.offset) * 60000
  {
    TextIsLocal(b, a);
  }

  /** Once the clock is put back, a later moment has the earlier text: ten past two in winter time
      comes after ten to three in summer time. */
  lemma ClockPutBack(summer: LocalTime, winter: LocalTime)
    requires IsTime(summer) && IsTime(winter) && SameDay(summer, winter)
    requires summer.hours == 2 && summer.minutes == 50 && summer.offset == 120
    requires winter.hours == 2 && winter.minutes == 10 && winter.offset == 60
    ensures Before(FormatLocalIso(winter), FormatLocalIso(summer)) && Instant(summer) < Instant(winter)
  {
    Disagree(summer, winter);
  }

  /** Two offsets have a pair of times that text and instant order differently. */
  lemma TwoOffsets(a: int, b: int) returns (early: LocalTime, late: LocalTime)
    requires ValidOffset(a) && ValidOffset(b) && a > b
    ensures IsTime(early) && IsTime(late) && early.offset == a && late.offset == b
    ensures Before(FormatLocalIso(late), FormatLocalIso(early)) && Instant(early) < Instant(late)
  {
    early := LocalTime(2026, 1, 1, 0, 0, 0, 1, a);
    late := LocalTime(2026, 1, 1, 0, 0, 0, 0, b);
    OneMilliApart(early, late);
    Disagree(early, late);
  }

  lemma OneMilliApart(a: LocalTime, b: LocalTime)
    requires SameDay(a, b) && MillisOfDay(a) == MillisOfDay(b) + 1
    ensures Local(a) == Local(b) + 1
  {
  }

  // ----- The calendar and the text, checked against their definitions

  /** The number of the first day of a year, as ECMA-262 has it in section 21.4.1. */
  function DayFromYear(year: int): int {
    365 * (year - 1970) + (year - 1969) / 4 - (year - 1901) / 100 + (year - 1601) / 400
  }

  /** The days of a year before each month, without a leap day. */
  function MonthStart(month: nat): nat
    requires 1 <= month <= 12
  {
    [0, 31, 59, 90, 120, 151, 181, 212, 243, 273, 304, 334][month - 1]
  }

  lemma {:induction false} MonthDays(year: nat, month: nat)
    requires 1 <= month <= 12
    ensures DaysBeforeMonth(year, month) == MonthStart(month) + if month > 2 && LeapYear(year) then 1 else 0
  {
    if month > 1 {
      MonthDays(year, month - 1);
    }
  }

  lemma YearLength(year: nat)
    ensures DaysBeforeMonth(year, 13) == if LeapYear(year) then 366 else 365
  {
    MonthDays(year, 12);
  }

  lemma {:induction false} YearDays(year: nat)
    ensures DaysBeforeYear(year) == DayFromYear(year) + 719528
  {
    if year > 0 {
      YearDays(year - 1);
      YearLength(year - 1);
      YearStep(year - 1);
    }
  }

  lemma YearStep(year: nat)
    ensures DayFromYear(year + 1) - DayFromYear(year) == if LeapYear(year) then 366 else 365
  {
    FloorStep(year - 1969, 4);
    FloorStep(year - 1901, 100);
    FloorStep(year - 1601, 400);
    LeapCases(year);
    Multiples(year);
  }

  lemma LeapCases(year: nat)
    ensures (year - 1968) % 4 == year % 4 && (year - 1900) % 100 == year % 100 && (year - 1600) % 400 == year % 400
  {
    SameRemainder(year, year / 4 - 492, 4);
    SameRemainder(year, year / 100 - 19, 100);
    SameRemainder(year, year / 400 - 4, 400);
  }

  lemma Multiples(year: nat)
    ensures (year % 400 == 0 ==> year % 100 == 0) && (year % 100 == 0 ==> year % 4 == 0)
  {
    if year % 400 == 0 {
      SameRemainder(0, 4 * (year / 400), 100);
    }
    if year % 100 == 0 {
      SameRemainder(0, 25 * (year / 100), 4);
    }
  }

  /** Whole multiples less leave the remainder. */
  lemma SameRemainder(year: nat, q: int, d: int)
    requires d in {4, 100, 400}
    ensures (q * d + year % d) % d == year % d
  {
  }

  lemma FloorStep(a: int, d: int)
    requires d in {4, 100, 400}
    ensures (a + 1) / d - a / d == if (a + 1) % d == 0 then 1 else 0
  {
  }

  /** The moment of a reading by the calendar of ECMA-262, less the offset of its clock. */
  lemma InstantIs(t: LocalTime)
    requires IsTime(t)
    ensures var leap := if t.month > 2 && LeapYear(t.year) then 1 else 0;
            var minutes := (DayFromYear(t.year) + MonthStart(t.month) + leap + t.day - 1) * 1440 + t.hours * 60
              + t.minutes;
            Instant(t) == (minutes - t.offset) * 60000 + t.seconds * 1000 + t.milliseconds
  {
    YearDays(t.year);
    MonthDays(t.year, t.month);
    assert DayNumber(t) - EPOCH_DAY ==
           DayFromYear(t.year) + MonthStart(t.month) + (if t.month > 2 && LeapYear(t.year) then 1 else 0) + t.day - 1;
  }

  /** The text is digits, and the number they spell is this. */
  ghost predicate Spells(text: string, n: nat, width: nat) {
    |text| == width && IsDigits(text) && Number(text) == n
  }

  lemma {:induction false} PadSpells(n: nat, width: nat)
    requires n < Power10(width)
    ensures Spells(Pad(n, width), n, width)
  {
    if width > 0 {
      PadSpells(n / 10, width - 1);
      var less := Pad(n / 10, width - 1);
      assert (less + [Digit(n % 10)])[..|less|] == less;
    }
  }

  /** A field in front of the rest of a text. */
  lemma FieldSpells(n: nat, width: nat, rest: string)
    requires n < Power10(width)
    ensures var text := Pad(n, width) + rest;
            |text| == width + |rest| && Spells(text[..width], n, width) && text[width..] == rest
  {
    PadSpells(n, width);
  }

  /** The text of an offset: its sign, hours and minutes. */
  lemma OffsetSpells(offset: int)
    requires ValidOffset(offset)
    ensures var text, minutes := OffsetText(offset), if offset < 0 then -offset else offset;
            && |text| == 6 && text[0] == (if offset < 0 then '-' else '+')
            && Spells(text[1..3], minutes / 60, 2) && text[3] == ':' && Spells(text[4..6], minutes % 60, 2)
  {
    Powers();
    var minutes := if offset >= 0 then offset else -offset;
    PadSpells(minutes / 60, 2);
    PadSpells(minutes % 60, 2);
    var text := OffsetText(offset);
    assert text[1..3] == Pad(minutes / 60, 2) && text[4..6] == Pad(minutes % 60, 2);
  }

  /** The text of a day time: hours, minutes, seconds and milliseconds, and then the offset. */
  lemma TimeSpells(t: LocalTime)
    requires IsTime(t)
    ensures var text := TimeText(t);
            && |text| == 18 && text[2] == ':' && text[5] == ':' && text[8] == '.'
            && Spells(text[0..2], t.hours, 2) && Spells(text[3..5], t.minutes, 2)
            && Spells(text[6..8], t.seconds, 2) && Spells(text[9..12], t.milliseconds, 3)
            && text[12..] == OffsetText(t.offset)
  {
    Powers();
    OffsetSpells(t.offset);
    var text := TimeText(t);
    PadSpells(t.hours, 2);
    PadSpells(t.minutes, 2);
    PadSpells(t.seconds, 2);
    PadSpells(t.milliseconds, 3);
    assert text[0..2] == Pad(t.hours, 2) && text[3..5] == Pad(t.minutes, 2);
    assert text[6..8] == Pad(t.seconds, 2) && text[9..12] == Pad(t.milliseconds, 3);
  }

  /** The text of a reading has every field at its place, so it names one reading only. */
  lemma TextSpells(t: LocalTime)
    requires IsTime(t)
    ensures var text := FormatLocalIso(t);
            && |text| == 29 && text[4] == '-' && text[7] == '-' && text[10] == 'T'
            && Spells(text[0..4], t.year, 4) && Spells(text[5..7], t.month, 2) && Spells(text[8..10], t.day, 2)
            && text[11..] == TimeText(t)
  {
    Powers();
    TimeSpells(t);
    var text := FormatLocalIso(t);
    PadSpells(t.year, 4);
    PadSpells(t.month, 2);
    PadSpells(t.day, 2);
    assert text[0..4] == Pad(t.year, 4) && text[5..7] == Pad(t.month, 2) && text[8..10] == Pad(t.day, 2);
  }
}
