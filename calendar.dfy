/**
 * Python's naive `datetime.datetime` as far as the pipeline uses it: the constructor's range
 * checks, the ordering `<`/`>`, a microsecond time line to subtract hours on, and
 * `strftime('%m-%d-%Y')`.
 */
module Calendar {

  /** The seven fields of a naive `datetime` (no time zone). */
  datatype DateTime = DateTime(year: int, month: int, day: int,
                               hour: int, minute: int, second: int, microsecond: int)

  const MinYear := 1
  const MaxYear := 9999

  predicate IsLeap(y: int) {
    y % 4 == 0 && (y % 100 != 0 || y % 400 == 0)
  }

  function DaysInYear(y: int): int {
    if IsLeap(y) then 366 else 365
  }

  function DaysInMonth(y: int, m: int): int
    requires 1 <= m <= 12
  {
    if m == 2 then (if IsLeap(y) then 29 else 28)
    else if m == 4 || m == 6 || m == 9 || m == 11 then 30
    else 31
  }

  /** The ranges `datetime(year, month, day, hour, minute, second, microsecond)` accepts;
      outside them the constructor raises ValueError. */
  predicate Valid(d: DateTime) {
    && MinYear <= d.year <= MaxYear
    && 1 <= d.month <= 12
    && 1 <= d.day <= DaysInMonth(d.year, d.month)
    && 0 <= d.hour < 24
    && 0 <= d.minute < 60
    && 0 <= d.second < 60
    && 0 <= d.microsecond < 1000000
  }

  /** A value a `datetime` object can hold. */
  type Instant = d: DateTime | Valid(d) witness DateTime(1, 1, 1, 0, 0, 0, 0)

  /** Days in the years before `y` (proleptic Gregorian calendar). */
  function DaysBeforeYear(y: int): int
    requires y >= 1
  {
    var p := y - 1;
    p * 365 + p / 4 - p / 100 + p / 400
  }

  /** Days in the months of year `y` before month `m`. */
  function DaysBeforeMonth(y: int, m: int): int
    requires 1 <= m <= 12
  {
    [0, 31, 59, 90, 120, 151, 181, 212, 243, 273, 304, 334][m - 1]
      + (if m > 2 && IsLeap(y) then 1 else 0)
  }

  /** `date.toordinal()`: 0001-01-01 is day 1. */
  function Ordinal(d: Instant): int {
    DaysBeforeYear(d.year) + DaysBeforeMonth(d.year, d.month) + d.day
  }

  const MicrosPerSecond := 1000000
  const MicrosPerHour := 3600 * MicrosPerSecond
  const MicrosPerDay := 24 * MicrosPerHour

  /** Microseconds since midnight. */
  function TimeOfDay(d: Instant): int {
    ((d.hour * 60 + d.minute) * 60 + d.second) * MicrosPerSecond + d.microsecond
  }

  /** The position of `d` on a single time line, in microseconds since 0001-01-01 00:00. */
  function Micros(d: Instant): int {
    (Ordinal(d) - 1) * MicrosPerDay + TimeOfDay(d)
  }

  /** The calendar day of `a` comes before that of `b`. */
  predicate DayBefore(a: DateTime, b: DateTime) {
    if a.year != b.year then a.year < b.year
    else if a.month != b.month then a.month < b.month
    else a.day < b.day
  }

  /** Python's `a < b` on two naive datetimes: the tuples (year, month, day, hour, minute,
      second, microsecond) compared lexicographically. */
  predicate Before(a: DateTime, b: DateTime) {
    if a.year != b.year || a.month != b.month || a.day != b.day then DayBefore(a, b)
    else if a.hour != b.hour then a.hour < b.hour
    else if a.minute != b.minute then a.minute < b.minute
    else if a.second != b.second then a.second < b.second
    else a.microsecond < b.microsecond
  }

  lemma DaysBeforeYearStep(y: int)
    requires y >= 1
    ensures DaysBeforeYear(y + 1) == DaysBeforeYear(y) + DaysInYear(y)
  {
    var p := y - 1;
    assert (p + 1) / 4 == p / 4 + (if y % 4 == 0 then 1 else 0);
    assert (p + 1) / 100 == p / 100 + (if y % 100 == 0 then 1 else 0);
    assert (p + 1) / 400 == p / 400 + (if y % 400 == 0 then 1 else 0);
  }

  /** A whole year fits before any later year begins. */
  lemma {:induction false} DaysBeforeYearGrows(y1: int, y2: int)
    requires 1 <= y1 < y2
    ensures DaysBeforeYear(y1) + DaysInYear(y1) <= DaysBeforeYear(y2)
    decreases y2
  {
    DaysBeforeYearStep(y2 - 1);
    if y1 < y2 - 1 {
      DaysBeforeYearGrows(y1, y2 - 1);
    }
  }

  lemma DaysBeforeMonthStep(y: int, m: int)
    requires 1 <= m < 12
    ensures DaysBeforeMonth(y, m + 1) == DaysBeforeMonth(y, m) + DaysInMonth(y, m)
  {
  }

  /** A whole month fits before any later month of the same year begins, and the last month
      ends with the year. */
  lemma {:induction false} DaysBeforeMonthGrows(y: int, m1: int, m2: int)
    requires 1 <= m1 < m2 <= 12
    ensures DaysBeforeMonth(y, m1) + DaysInMonth(y, m1) <= DaysBeforeMonth(y, m2)
    decreases m2
  {
    DaysBeforeMonthStep(y, m2 - 1);
    if m1 < m2 - 1 {
      DaysBeforeMonthGrows(y, m1, m2 - 1);
    }
  }

  lemma DayOfYearBounds(d: Instant)
    ensures 1 <= DaysBeforeMonth(d.year, d.month) + d.day <= DaysInYear(d.year)
  {
    assert DaysBeforeMonth(d.year, 12) + DaysInMonth(d.year, 12) == DaysInYear(d.year);
    if d.month < 12 {
      DaysBeforeMonthGrows(d.year, d.month, 12);
    }
  }

  /** Strictly earlier calendar days have strictly smaller ordinals. */
  lemma OrdinalGrows(a: Instant, b: Instant)
    requires DayBefore(a, b)
    ensures Ordinal(a) < Ordinal(b)
  {
    DayOfYearBounds(a);
    DayOfYearBounds(b);
    if a.year < b.year {
      DaysBeforeYearGrows(a.year, b.year);
    } else if a.month < b.month {
      DaysBeforeMonthGrows(a.year, a.month, b.month);
    }
  }

  lemma TimeOfDayBounds(d: Instant)
    ensures 0 <= TimeOfDay(d) < MicrosPerDay
  {
  }

  lemma EarlierDayEarlierMicros(a: Instant, b: Instant)
    requires DayBefore(a, b)
    ensures Micros(a) < Micros(b)
  {
    OrdinalGrows(a, b);
    TimeOfDayBounds(a);
    TimeOfDayBounds(b);
  }

  lemma SameDayOrder(a: Instant, b: Instant)
    requires a.year == b.year && a.month == b.month && a.day == b.day
    ensures Before(a, b) <==> TimeOfDay(a) < TimeOfDay(b)
  {
  }

  /** Python's field-by-field order on datetimes is the order of their positions on the time
      line: comparing `Micros` decides exactly what `<` decides. */
  lemma MicrosOrderIsChronological(a: Instant, b: Instant)
    ensures Before(a, b) <==> Micros(a) < Micros(b)
  {
    if DayBefore(a, b) {
      EarlierDayEarlierMicros(a, b);
    } else if DayBefore(b, a) {
      EarlierDayEarlierMicros(b, a);
    } else {
      SameDayOrder(a, b);
      assert Ordinal(a) == Ordinal(b);
    }
  }

  /** The first microsecond after `datetime.max`, 9999-12-31 23:59:59.999999. */
  const MicrosEnd := DaysBeforeYear(MaxYear + 1) * MicrosPerDay

  /** A position on the time line that a `datetime` can hold; arithmetic whose result falls
      outside raises OverflowError. */
  predicate OnTimeLine(m: int) {
    0 <= m < MicrosEnd
  }

  /** Every `datetime` lies on the time line, from `datetime.min` at 0 up to `datetime.max`. */
  lemma MicrosOnTimeLine(d: Instant)
    ensures OnTimeLine(Micros(d))
  {
    var o := Ordinal(d);
    OrdinalOnCalendar(d);
    TimeOfDayBounds(d);
    DaysScale(o - 1, DaysBeforeYear(MaxYear + 1) - 1);
  }

  /** The day ordinal of a `datetime` lies between 1 and the last day of year 9999. */
  lemma OrdinalOnCalendar(d: Instant)
    ensures 1 <= Ordinal(d) <= DaysBeforeYear(MaxYear + 1)
  {
    DayOfYearBounds(d);
    var p := d.year - 1;
    assert p / 4 >= p / 100 >= p / 400 >= 0;
    if d.year < MaxYear {
      DaysBeforeYearGrows(d.year, MaxYear + 1);
    } else {
      DaysBeforeYearStep(d.year);
    }
  }

  /** Whole days before a later day end no later on the time line. */
  lemma DaysScale(a: int, b: int)
    requires 0 <= a <= b
    ensures 0 <= a * MicrosPerDay && a * MicrosPerDay + MicrosPerDay <= (b + 1) * MicrosPerDay
  {
  }

  predicate IsDigit(c: char) {
    '0' <= c <= '9'
  }

  function DigitChar(n: int): char
    requires 0 <= n < 10
  {
    ('0' as int + n) as char
  }

  function Pow10(w: nat): nat {
    if w == 0 then 1 else 10 * Pow10(w - 1)
  }

  /** `n` in decimal, left-padded with zeros to `width` digits (the last `width` digits when
      `n` is longer). */
  function ZeroPadded(n: nat, width: nat): (r: string)
    ensures |r| == width
    ensures forall i :: 0 <= i < |r| ==> IsDigit(r[i])
  {
    if width == 0 then [] else ZeroPadded(n / 10, width - 1) + [DigitChar(n % 10)]
  }

  /** `s` is a string of decimal digits that reads as `v`. */
  ghost predicate ReadsAs(s: string, v: int) {
    (forall i :: 0 <= i < |s| ==> IsDigit(s[i])) && DecimalValue(s) == v
  }

  /** The number a string of decimal digits denotes. */
  function DecimalValue(s: string): nat
    requires forall i :: 0 <= i < |s| ==> IsDigit(s[i])
  {
    if s == [] then 0
    else
      var last := s[|s| - 1];
      assert IsDigit(last);
      10 * DecimalValue(s[..|s| - 1]) + (last as int - '0' as int)
  }

  /** Reading a zero-padded number back gives the number, when it fits the width. */
  lemma {:induction false} ZeroPaddedRoundTrip(n: nat, width: nat)
    requires n < Pow10(width)
    ensures DecimalValue(ZeroPadded(n, width)) == n
  {
    if width > 0 {
      ZeroPaddedRoundTrip(n / 10, width - 1);
      var r := ZeroPadded(n, width);
      assert r[..|r| - 1] == ZeroPadded(n / 10, width - 1);
    }
  }

  /** `d.strftime('%m-%d-%Y')`: two-digit month, two-digit day, four-digit year. */
  function FormatMonthDayYear(d: Instant): (r: string)
    ensures |r| == 10 && r[2] == '-' && r[5] == '-'
    ensures forall i :: 0 <= i < 10 && i != 2 && i != 5 ==> IsDigit(r[i])
    ensures DecimalValue(r[..2]) == d.month
    ensures DecimalValue(r[3..5]) == d.day
    ensures DecimalValue(r[6..]) == d.year
  {
    var mm, dd, yyyy := ZeroPadded(d.month, 2), ZeroPadded(d.day, 2), ZeroPadded(d.year, 4);
    ZeroPaddedRoundTrip(d.month, 2);
    ZeroPaddedRoundTrip(d.day, 2);
    ZeroPaddedRoundTrip(d.year, 4);
    var r := mm + "-" + dd + "-" + yyyy;
    assert r[..2] == mm && r[3..5] == dd && r[6..] == yyyy;
    r
  }
}
