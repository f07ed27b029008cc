/**
 * Calendar dates as `Date.UTC` counts them (section 21.4.1 of ECMA-262), and the day, week, fortnight
 * and month that contain a date.
 */
module Calendar {

  datatype CalendarDate = CalendarDate(y: int, m: int, d: int)

  predicate IsLeap(y: int) {
    y % 4 == 0 && (y % 100 != 0 || y % 400 == 0)
  }

  function DaysInYear(y: int): int {
    if IsLeap(y) then 366 else 365
  }

  /** Day number of the first of January, counted from the first of January 1970. */
  function DayFromYear(y: int): int
    decreases if y < 1970 then 1970 - y else y - 1970
  {
    if y == 1970 then 0
    else if y > 1970 then DayFromYear(y - 1) + DaysInYear(y - 1)
    else DayFromYear(y + 1) - DaysInYear(y)
  }

  lemma YearLength(y: int)
    ensures DayFromYear(y + 1) == DayFromYear(y) + DaysInYear(y)
  {
  }

  /** The closed formula of section 21.4.1.3 of ECMA-262. */
  function EcmaDayFromYear(y: int): int {
    365 * (y - 1970) + (y - 1969) / 4 - (y - 1901) / 100 + (y - 1601) / 400
  }

  lemma FourStep(y: int)
    ensures (y - 1968) / 4 == (y - 1969) / 4 + if y % 4 == 0 then 1 else 0
  {
  }

  lemma HundredStep(y: int)
    ensures (y - 1900) / 100 == (y - 1901) / 100 + if y % 100 == 0 then 1 else 0
  {
  }

  lemma FourHundredStep(y: int)
    ensures (y - 1600) / 400 == (y - 1601) / 400 + if y % 400 == 0 then 1 else 0
  {
  }

  lemma LeapDivides(y: int)
    ensures y % 400 == 0 ==> y % 100 == 0
    ensures y % 100 == 0 ==> y % 4 == 0
  {
  }

  lemma EcmaStep(y: int)
    ensures EcmaDayFromYear(y + 1) == EcmaDayFromYear(y) + DaysInYear(y)
  {
    var four, hundred, fourHundred := (y - 1969) / 4, (y - 1901) / 100, (y - 1601) / 400;
    FourStep(y);
    HundredStep(y);
    FourHundredStep(y);
    LeapDivides(y);
  }

  /** Adding up the lengths of the years gives the closed formula. */
  lemma {:induction false} DayFromYearFormula(y: int)
    ensures DayFromYear(y) == EcmaDayFromYear(y)
    decreases if y < 1970 then 1970 - y else y - 1970
  {
    if y == 1970 {
      assert EcmaDayFromYear(1970) == 0;
    } else if y > 1970 {
      DayFromYearFormula(y - 1);
      EcmaStep(y - 1);
    } else {
      DayFromYearFormula(y + 1);
      EcmaStep(y);
    }
  }

  function DaysBeforeMonth(y: int, m: int): int {
    var leap := if IsLeap(y) then 1 else 0;
    if m <= 1 then 0
    else if m == 2 then 31
    else if m == 3 then 59 + leap
    else if m == 4 then 90 + leap
    else if m == 5 then 120 + leap
    else if m == 6 then 151 + leap
    else if m == 7 then 181 + leap
    else if m == 8 then 212 + leap
    else if m == 9 then 243 + leap
    else if m == 10 then 273 + leap
    else if m == 11 then 304 + leap
    else if m == 12 then 334 + leap
    else 365 + leap
  }

  function DaysInMonth(y: int, m: int): int {
    DaysBeforeMonth(y, m + 1) - DaysBeforeMonth(y, m)
  }

  /** A date of the (proleptic Gregorian) calendar. */
  predicate Real(date: CalendarDate) {
    1 <= date.m <= 12 && 1 <= date.d <= DaysInMonth(date.y, date.m)
  }

  function DayNumber(date: CalendarDate): int {
    DayFromYear(date.y) + DaysBeforeMonth(date.y, date.m) + date.d - 1
  }

  /** `Date.UTC` in days: months and days may overflow, and years 0 to 99 mean 1900 to 1999. */
  function UtcDay(y: int, month: int, d: int): int {
    FirstOfMonth((if 0 <= y <= 99 then 1900 + y else y) + month / 12, month % 12 + 1) + d - 1
  }

  function FirstOfMonth(y: int, m: int): int {
    DayFromYear(y) + DaysBeforeMonth(y, m)
  }

  function YearFrom(day: int, y: int): (r: int)
    ensures DayFromYear(r) <= day < DayFromYear(r + 1)
    decreases if day < DayFromYear(y) then 1 else 0,
              if day < DayFromYear(y) then DayFromYear(y) - day else day - DayFromYear(y)
  {
    if day < DayFromYear(y) then YearFrom(day, y - 1)
    else if day >= DayFromYear(y + 1) then YearFrom(day, y + 1)
    else y
  }

  function MonthFrom(y: int, dayOfYear: int, m: int): (r: int)
    requires 1 <= m <= 12 && DaysBeforeMonth(y, m) <= dayOfYear < DaysBeforeMonth(y, 13)
    ensures m <= r <= 12 && DaysBeforeMonth(y, r) <= dayOfYear < DaysBeforeMonth(y, r + 1)
    decreases 12 - m
  {
    if dayOfYear < DaysBeforeMonth(y, m + 1) then m else MonthFrom(y, dayOfYear, m + 1)
  }

  /** The calendar date of a day number, as the getters of a date object read it. */
  function FromDay(day: int): (date: CalendarDate)
    ensures Real(date) && DayNumber(date) == day
  {
    var y := YearFrom(day, 1970);
    YearLength(y);
    var m := MonthFrom(y, day - DayFromYear(y), 1);
    CalendarDate(y, m, day - DayFromYear(y) - DaysBeforeMonth(y, m) + 1)
  }

  lemma {:induction false} YearsInOrder(a: int, b: int)
    requires a < b
    ensures DayFromYear(a + 1) <= DayFromYear(b)
    decreases b - a
  {
    if a + 1 < b {
      YearsInOrder(a, b - 1);
      YearLength(b - 1);
    }
  }

  lemma LongGap(a: int, b: int)
    requires a + 1 < b
    ensures DayFromYear(a) + 365 <= DayFromYear(b)
  {
    YearLength(a);
    YearsInOrder(a, b);
  }

  lemma {:induction false} MonthsInOrder(y: int, a: int, b: int)
    requires 1 <= a < b <= 13
    ensures DaysBeforeMonth(y, a + 1) <= DaysBeforeMonth(y, b)
    decreases b - a
  {
    if a + 1 < b {
      MonthsInOrder(y, a, b - 1);
    }
  }

  /** Day numbers order real dates as calendars do, so a date and its number determine each other. */
  lemma DayNumberOrders(a: CalendarDate, b: CalendarDate)
    requires Real(a) && Real(b)
    ensures DayNumber(a) < DayNumber(b)
       <==> a.y < b.y || (a.y == b.y && (a.m < b.m || (a.m == b.m && a.d < b.d)))
  {
    if a.y < b.y {
      LaterYear(a, b);
    } else if b.y < a.y {
      LaterYear(b, a);
    } else if a.m < b.m {
      MonthsInOrder(a.y, a.m, b.m);
    } else if b.m < a.m {
      MonthsInOrder(a.y, b.m, a.m);
    }
  }

  lemma LaterYear(a: CalendarDate, b: CalendarDate)
    requires Real(a) && Real(b) && a.y < b.y
    ensures DayNumber(a) < DayNumber(b)
  {
    YearsInOrder(a.y, b.y);
    YearLength(a.y);
    if a.m < 12 {
      MonthsInOrder(a.y, a.m, 13);
    }
  }

  lemma FromDayInverse(date: CalendarDate)
    requires Real(date)
    ensures FromDay(DayNumber(date)) == date
  {
    DayNumberOrders(FromDay(DayNumber(date)), date);
    DayNumberOrders(date, FromDay(DayNumber(date)));
  }

  /** Years are right from the day number alone. */
  lemma YearOfDay(day: int, y: int)
    ensures FromDay(day).y >= y <==> day >= DayFromYear(y)
  {
    var date := FromDay(day);
    var first := CalendarDate(y, 1, 1);
    assert Real(first) && DayNumber(first) == DayFromYear(y);
    DayNumberOrders(date, first);
  }

  /** The first of January of the year 100, the earliest date `Date.UTC` counts as it is written. */
  const FIRST_DAY := -683003

  lemma NearFirstYear(day: int, y: int)
    requires 98 < y < 101
    ensures FromDay(day).y >= y <==> day >= FIRST_DAY - (100 - y) * 365
  {
    YearOfDay(day, y);
    DayFromYearFormula(y);
  }

  lemma WellAfterFirstYear(year: int, y: int)
    requires 99 < y < 101 && year > y + 1
    ensures DayFromYear(year) >= FIRST_DAY + 365
  {
    DayFromYearFormula(y);
    LongGap(y, year);
  }

  // ----- date keys -----

  /** A `YYYY-MM-DD` key is accepted when `Date.UTC` gives its own parts back. */
  predicate IsValidDateKey(y: int, m: int, d: int) {
    FromDay(UtcDay(y, m - 1, d)) == CalendarDate(y, m, d)
  }

  lemma UtcDayPlain(y: int, month: int, d: int)
    requires y >= 100 && 0 <= month <= 11
    ensures UtcDay(y, month, d) == FirstOfMonth(y, month + 1) + d - 1
  {
    assert month / 12 == 0 && month % 12 == month;
  }

  lemma UtcDayNextYear(y: int, d: int)
    requires y >= 100
    ensures UtcDay(y, 12, d) == DayFromYear(y + 1) + d - 1
  {
  }

  lemma MonthNonNegative(y: int, m: int)
    ensures DaysBeforeMonth(y, m) >= 0
  {
  }

  /** `Date.UTC` never yields a date of a year below 100 from a key of such a year. */
  lemma OldKeysMoveOn(y: int, m: int, d: int)
    requires 0 <= y <= 99 && 0 <= m <= 99 && 0 <= d
    ensures FromDay(UtcDay(y, m - 1, d)).y >= 100
  {
    var year := 1900 + y + (m - 1) / 12;
    assert (m - 1) / 12 >= -1;
    MonthNonNegative(year, (m - 1) % 12 + 1);
    assert UtcDay(y, m - 1, d) >= DayFromYear(year) - 1;
    WellAfterFirstYear(year, 100);
    NearFirstYear(UtcDay(y, m - 1, d), 100);
  }

  /**
   * Among four-digit years and two-digit months and days, the accepted keys are the real dates from
   * the year 100 on: a year below 100 is read as one of the twentieth century and does not come back.
   */
  lemma ValidDateKeys(y: int, m: int, d: int)
    requires 0 <= y <= 9999 && 0 <= m <= 99 && 0 <= d <= 99
    ensures IsValidDateKey(y, m, d) <==> y >= 100 && Real(CalendarDate(y, m, d))
  {
    var date := CalendarDate(y, m, d);
    if y <= 99 {
      OldKeysMoveOn(y, m, d);
    } else if Real(date) {
      UtcDayPlain(y, m - 1, d);
      FromDayInverse(date);
    }
  }

  // ----- arithmetic -----

  function AddDays(date: CalendarDate, days: int): CalendarDate {
    FromDay(UtcDay(date.y, date.m - 1, date.d + days))
  }

  function AddMonths(date: CalendarDate, months: int): CalendarDate {
    var first := FromDay(UtcDay(date.y, date.m - 1 + months, 1));
    CalendarDate(first.y, first.m, 1)
  }

  /** 0 is Sunday; the first of January 1970 was a Thursday. */
  function Weekday(day: int): int {
    (day + 4) % 7
  }

  /** The day number at which the service places the local midnight of a date. */
  function WallDay(date: CalendarDate): int {
    UtcDay(date.y, date.m - 1, date.d)
  }

  lemma WallDayIsDayNumber(date: CalendarDate)
    requires Real(date) && date.y >= 100
    ensures WallDay(date) == DayNumber(date)
  {
    UtcDayPlain(date.y, date.m - 1, date.d);
  }

  // ----- report periods -----

  datatype Period = Day | Week | Fortnight | Month

  datatype DateRange = DateRange(start: CalendarDate, end: CalendarDate)

  /** Days since the week of `day` started. */
  function WeekDelta(day: int, weekStart: int): int {
    (Weekday(day) - weekStart + 7) % 7
  }

  /** The first date of the period that contains `date`, and the first after it. */
  function ResolveRange(period: Period, date: CalendarDate, weekStart: int): DateRange {
    match period
    case Day => DateRange(date, AddDays(date, 1))
    case Week =>
      var start := AddDays(date, -WeekDelta(WallDay(date), weekStart));
      DateRange(start, AddDays(start, 7))
    case Fortnight =>
      var start := CalendarDate(date.y, date.m, if date.d <= 15 then 1 else 16);
      DateRange(start, if date.d <= 15 then CalendarDate(date.y, date.m, 16) else AddMonths(start, 1))
    case Month =>
      var first := CalendarDate(date.y, date.m, 1);
      DateRange(first, AddMonths(first, 1))
  }

  datatype Span = Span(from: int, to: int)

  function WeekFrom(day: int, weekStart: int): int {
    day - WeekDelta(day, weekStart)
  }

  function NextMonth(y: int, m: int): int {
    DayFromYear(y) + DaysBeforeMonth(y, m + 1)
  }

  /** The period of a day, in day numbers. */
  function SpanOf(period: Period, day: int, weekStart: int): Span {
    var date := FromDay(day);
    var first := DayNumber(CalendarDate(date.y, date.m, 1));
    match period
    case Day => Span(day, day + 1)
    case Week => Span(WeekFrom(day, weekStart), WeekFrom(day, weekStart) + 7)
    case Fortnight => if date.d <= 15 then Span(first, first + 15) else Span(first + 15, NextMonth(date.y, date.m))
    case Month => Span(first, NextMonth(date.y, date.m))
  }

  lemma MonthLengths(y: int, m: int)
    requires 1 <= m <= 12
    ensures 28 <= DaysInMonth(y, m) <= 31
  {
  }

  lemma WeekQuotient(day: int, weekStart: int)
    requires 0 <= weekStart <= 6
    ensures WeekFrom(day, weekStart) == 7 * ((day + 4 - weekStart) / 7) - 4 + weekStart
  {
    assert Weekday(day) == day + 4 - 7 * ((day + 4) / 7);
  }

  /** A week holds its day and starts on the configured weekday. */
  lemma WeekContains(day: int, weekStart: int)
    requires 0 <= weekStart <= 6
    ensures WeekFrom(day, weekStart) <= day < WeekFrom(day, weekStart) + 7
    ensures Weekday(WeekFrom(day, weekStart)) == weekStart
  {
    WeekQuotient(day, weekStart);
    SevenTimes((day + 4 - weekStart) / 7, weekStart);
  }

  lemma SevenTimes(q: int, r: int)
    requires 0 <= r <= 6
    ensures (7 * q + r) % 7 == r
  {
  }

  lemma MonthContains(date: CalendarDate)
    requires Real(date)
    ensures FirstOfMonth(date.y, date.m) <= DayNumber(date) < NextMonth(date.y, date.m)
    ensures FirstOfMonth(date.y, date.m) + 28 <= NextMonth(date.y, date.m)
  {
    MonthLengths(date.y, date.m);
  }

  /** A period contains its day; a week has seven days and starts on the configured weekday. */
  lemma SpanContains(period: Period, day: int, weekStart: int)
    requires 0 <= weekStart <= 6
    ensures SpanOf(period, day, weekStart).from <= day < SpanOf(period, day, weekStart).to
    ensures period == Week ==> SpanOf(period, day, weekStart).to - SpanOf(period, day, weekStart).from == 7
                               && Weekday(SpanOf(period, day, weekStart).from) == weekStart
  {
    match period {
      case Day =>
      case Week => WeekContains(day, weekStart);
      case Fortnight => MonthContains(FromDay(day));
      case Month => MonthContains(FromDay(day));
    }
  }

  lemma WeekStable(day: int, other: int, weekStart: int)
    requires 0 <= weekStart <= 6
    requires WeekFrom(day, weekStart) <= other < WeekFrom(day, weekStart) + 7
    ensures WeekFrom(other, weekStart) == WeekFrom(day, weekStart)
  {
    WeekQuotient(day, weekStart);
    WeekQuotient(other, weekStart);
    SameQuotient((day + 4 - weekStart) / 7, other + 4 - weekStart);
  }

  lemma SameQuotient(q: int, x: int)
    requires 7 * q <= x < 7 * q + 7
    ensures x / 7 == q
  {
  }

  /** A day of the month of `date` has the same year and month. */
  lemma MonthStable(date: CalendarDate, other: int)
    requires Real(date)
    requires DayNumber(CalendarDate(date.y, date.m, 1)) <= other < NextMonth(date.y, date.m)
    ensures FromDay(other) == CalendarDate(date.y, date.m, other - DayNumber(CalendarDate(date.y, date.m, 1)) + 1)
  {
    FromDayInverse(CalendarDate(date.y, date.m, other - DayNumber(CalendarDate(date.y, date.m, 1)) + 1));
  }

  /** Every day of a period has the same period. */
  lemma SpanStable(period: Period, day: int, other: int, weekStart: int)
    requires 0 <= weekStart <= 6
    requires SpanOf(period, day, weekStart).from <= other < SpanOf(period, day, weekStart).to
    ensures SpanOf(period, other, weekStart) == SpanOf(period, day, weekStart)
  {
    var date := FromDay(day);
    MonthLengths(date.y, date.m);
    match period {
      case Day =>
      case Week => WeekStable(day, other, weekStart);
      case Fortnight => MonthStable(date, other);
      case Month => MonthStable(date, other);
    }
  }

  /** The periods of two days coincide or are disjoint. */
  lemma SpansCoincideOrDisjoint(period: Period, a: int, b: int, weekStart: int)
    requires 0 <= weekStart <= 6
    ensures var x, y := SpanOf(period, a, weekStart), SpanOf(period, b, weekStart);
      x == y || x.to <= y.from || y.to <= x.from
  {
    var x, y := SpanOf(period, a, weekStart), SpanOf(period, b, weekStart);
    SpanContains(period, a, weekStart);
    SpanContains(period, b, weekStart);
    if x.from <= y.from < x.to {
      SpanStable(period, a, y.from, weekStart);
      SpanStable(period, b, y.from, weekStart);
    } else if y.from <= x.from < y.to {
      SpanStable(period, a, x.from, weekStart);
      SpanStable(period, b, x.from, weekStart);
    }
  }

  /** Of two days the later one has the same period, or one that starts when the earlier one's is over. */
  lemma SpansInOrder(period: Period, a: int, b: int, weekStart: int)
    requires 0 <= weekStart <= 6 && a <= b
    ensures var s, t := SpanOf(period, a, weekStart), SpanOf(period, b, weekStart);
      if b < s.to then t == s else s.to <= t.from
  {
    SpanContains(period, a, weekStart);
    SpanContains(period, b, weekStart);
    if b < SpanOf(period, a, weekStart).to {
      SpanStable(period, a, b, weekStart);
    } else {
      SpansCoincideOrDisjoint(period, a, b, weekStart);
    }
  }

  /** The periods tile the calendar: where one ends the next starts. */
  lemma SpansTile(period: Period, day: int, weekStart: int)
    requires 0 <= weekStart <= 6
    ensures var x := SpanOf(period, day, weekStart); SpanOf(period, x.to, weekStart).from == x.to
  {
    var x := SpanOf(period, day, weekStart);
    SpanContains(period, day, weekStart);
    SpanContains(period, x.to, weekStart);
    SpansCoincideOrDisjoint(period, day, x.to, weekStart);
  }

  lemma AddMonthsNext(first: CalendarDate)
    requires 1 <= first.m <= 12 && first.y >= 100
    ensures WallDay(AddMonths(first, 1)) == NextMonth(first.y, first.m)
  {
    var next := if first.m == 12 then CalendarDate(first.y + 1, 1, 1) else CalendarDate(first.y, first.m + 1, 1);
    MonthLengths(next.y, next.m);
    YearLength(first.y);
    assert DayNumber(next) == NextMonth(first.y, first.m);
    assert UtcDay(first.y, first.m, 1) == DayNumber(next) by {
      if first.m == 12 {
        UtcDayNextYear(first.y, 1);
      } else {
        UtcDayPlain(first.y, first.m, 1);
      }
    }
    FromDayInverse(next);
    WallDayIsDayNumber(next);
  }

  /** The period starts no earlier than the year 100, as every period but a week always does. */
  predicate StartsInRange(period: Period, date: CalendarDate, weekStart: int) {
    period == Week ==> WeekFrom(DayNumber(date), weekStart) >= FIRST_DAY
  }

  /** A date of the year 99 has its local midnight placed in the year 1999. */
  lemma Year99IsPlacedLate(start: CalendarDate)
    requires Real(start) && start.y == 99
    ensures WallDay(start) >= FIRST_DAY + 365
  {
    var year := 1900 + start.y;
    assert (start.m - 1) / 12 == 0;
    MonthNonNegative(year, (start.m - 1) % 12 + 1);
    WellAfterFirstYear(year, 100);
  }

  lemma EarlyWeekStart(day: int, weekStart: int)
    requires 0 <= weekStart <= 6 && WeekFrom(day, weekStart) < FIRST_DAY <= day
    ensures FromDay(WeekFrom(day, weekStart)).y == 99 && day < FIRST_DAY + 7
  {
    NearFirstYear(WeekFrom(day, weekStart), 99);
    NearFirstYear(WeekFrom(day, weekStart), 100);
  }

  lemma EarlyWeek(date: CalendarDate, weekStart: int)
    requires Real(date) && date.y >= 100 && 0 <= weekStart <= 6 && !StartsInRange(Week, date, weekStart)
    ensures WallDay(ResolveRange(Week, date, weekStart).start) > DayNumber(date)
  {
    var day := DayNumber(date);
    FromDayInverse(date);
    WeekStartDate(date, weekStart);
    NearFirstYear(day, 100);
    EarlyWeekStart(day, weekStart);
    Year99IsPlacedLate(FromDay(WeekFrom(day, weekStart)));
  }

  lemma DaysBack(date: CalendarDate, day: int, delta: int)
    requires 1 <= date.m <= 12 && date.y >= 100 && day == DayNumber(date)
    ensures AddDays(date, -delta) == FromDay(day - delta)
  {
    AddDaysPlain(date, -delta);
  }

  lemma WeekStartBack(date: CalendarDate, day: int, weekStart: int, delta: int)
    requires 1 <= date.m <= 12 && date.y >= 100 && day == DayNumber(date) == WallDay(date)
    requires delta == WeekDelta(day, weekStart)
    ensures ResolveRange(Week, date, weekStart).start == FromDay(day - delta)
  {
    DaysBack(date, day, delta);
  }

  /** The week of a date starts, as a date, at the week's first day. */
  lemma WeekStartDate(date: CalendarDate, weekStart: int)
    requires Real(date) && date.y >= 100 && 0 <= weekStart <= 6
    ensures ResolveRange(Week, date, weekStart).start == FromDay(WeekFrom(DayNumber(date), weekStart))
  {
    var day := DayNumber(date);
    WallDayIsDayNumber(date);
    WeekStartBack(date, day, weekStart, WeekDelta(day, weekStart));
  }

  lemma AddDaysPlain(date: CalendarDate, days: int)
    requires 1 <= date.m <= 12 && date.y >= 100
    ensures AddDays(date, days) == FromDay(DayNumber(date) + days)
  {
    UtcDayPlain(date.y, date.m - 1, date.d + days);
  }

  /** From the year 100 on, days added stay where they are counted. */
  lemma LaterDay(day: int, days: nat)
    requires day >= FIRST_DAY
    ensures WallDay(FromDay(day)) == day
    ensures WallDay(AddDays(FromDay(day), days)) == day + days
  {
    var date := FromDay(day);
    NearFirstYear(day, 100);
    NearFirstYear(day + days, 100);
    WallDayIsDayNumber(date);
    AddDaysPlain(date, days);
    WallDayIsDayNumber(FromDay(day + days));
  }

  lemma WeekRange(date: CalendarDate, weekStart: int)
    requires Real(date) && date.y >= 100 && 0 <= weekStart <= 6 && StartsInRange(Week, date, weekStart)
    ensures var r := ResolveRange(Week, date, weekStart);
      Span(WallDay(r.start), WallDay(r.end)) == SpanOf(Week, DayNumber(date), weekStart)
  {
    WeekStartDate(date, weekStart);
    LaterDay(WeekFrom(DayNumber(date), weekStart), 7);
  }

  lemma MonthStartRange(date: CalendarDate, d: int)
    requires Real(date) && date.y >= 100 && (d == 1 || d == 16)
    ensures WallDay(CalendarDate(date.y, date.m, d)) == DayNumber(CalendarDate(date.y, date.m, 1)) + d - 1
  {
    MonthLengths(date.y, date.m);
    WallDayIsDayNumber(CalendarDate(date.y, date.m, d));
  }

  lemma FortnightRange(date: CalendarDate, weekStart: int)
    requires Real(date) && date.y >= 100
    ensures var r := ResolveRange(Fortnight, date, weekStart);
      Span(WallDay(r.start), WallDay(r.end)) == SpanOf(Fortnight, DayNumber(date), weekStart)
  {
    FromDayInverse(date);
    MonthStartRange(date, 1);
    MonthStartRange(date, 16);
    AddMonthsNext(CalendarDate(date.y, date.m, 16));
  }

  lemma MonthRange(date: CalendarDate, weekStart: int)
    requires Real(date) && date.y >= 100
    ensures var r := ResolveRange(Month, date, weekStart);
      Span(WallDay(r.start), WallDay(r.end)) == SpanOf(Month, DayNumber(date), weekStart)
  {
    FromDayInverse(date);
    MonthStartRange(date, 1);
    AddMonthsNext(CalendarDate(date.y, date.m, 1));
  }

  lemma DayRange(date: CalendarDate, weekStart: int)
    requires Real(date) && date.y >= 100
    ensures var r := ResolveRange(Day, date, weekStart);
      Span(WallDay(r.start), WallDay(r.end)) == SpanOf(Day, DayNumber(date), weekStart)
  {
    FromDayInverse(date);
    NearFirstYear(DayNumber(date), 100);
    LaterDay(DayNumber(date), 1);
  }

  /**
   * The dates a report period resolves to are the period of the date exactly when the period starts no
   * earlier than the year 100. A week that starts in the year 99 is placed in 1999, and misses its date.
   */
  lemma RangeIsSpan(period: Period, date: CalendarDate, weekStart: int)
    requires Real(date) && date.y >= 100 && 0 <= weekStart <= 6
    ensures var r := ResolveRange(period, date, weekStart);
      && (StartsInRange(period, date, weekStart) <==>
            Span(WallDay(r.start), WallDay(r.end)) == SpanOf(period, DayNumber(date), weekStart))
      && (StartsInRange(period, date, weekStart) <==> WallDay(r.start) <= DayNumber(date) < WallDay(r.end))
  {
    SpanContains(period, DayNumber(date), weekStart);
    if !StartsInRange(period, date, weekStart) {
      EarlyWeek(date, weekStart);
    } else {
      match period {
        case Day => DayRange(date, weekStart);
        case Week => WeekRange(date, weekStart);
        case Fortnight => FortnightRange(date, weekStart);
        case Month => MonthRange(date, weekStart);
      }
    }
  }

  /** The first of January of the year 100 was a Friday, so its ISO week starts in the year 99. */
  lemma FirstWeekOfYear100(date: CalendarDate, weekStart: int)
    requires date.y == 100 && date.m == 1 && date.d == 1 && weekStart == 1
    ensures !StartsInRange(Week, date, weekStart)
    ensures WallDay(ResolveRange(Week, date, weekStart).start) > DayNumber(date)
  {
    DayFromYearFormula(date.y);
    EarlyWeek(date, weekStart);
  }
}
