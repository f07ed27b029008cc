/** Which days share a report period, and the calendar facts that this rests on. */
module CalendarLaws {
  import opened Calendar

  /** Thirty days have the fourth, sixth, ninth and eleventh month, and the second has one more in leap years. */
  lemma MonthsHave(y: int, m: int)
    requires 1 <= m <= 12
    ensures DaysInMonth(y, m)
         == if m == 4 || m == 6 || m == 9 || m == 11 then 30
            else if m == 2 then (if IsLeap(y) then 29 else 28)
            else 31
    ensures DaysBeforeMonth(y, 1) == 0
  {
  }

  /** Every fourth year is a leap year, but of the centuries only every fourth. */
  lemma LeapYears(y: int)
    ensures IsLeap(y) <==> if y % 100 == 0 then y % 400 == 0 else y % 4 == 0
  {
    LeapDivides(y);
  }

  /** The first of January 2000, a Saturday, is day 10957. */
  lemma Anchor2000()
    ensures DayNumber(CalendarDate(2000, 1, 1)) == 10957 && Weekday(10957) == 6
  {
    DayFromYearFormula(2000);
  }

  /**
   * Two days share a period: they are the same day; no week starts after the first and up to the second; they are in
   * the same month; or in the same half of it, the first fifteen days or the rest.
   */
  ghost predicate SharePeriod(period: Period, a: int, b: int, weekStart: int) {
    var x, y := FromDay(a), FromDay(b);
    match period
    case Day => a == b
    case Week => forall day :: a < day <= b ==> Weekday(day) != weekStart
    case Month => x.y == y.y && x.m == y.m
    case Fortnight => x.y == y.y && x.m == y.m && (x.d <= 15 <==> y.d <= 15)
  }

  lemma WeekStartsItself(day: int, weekStart: int)
    requires 0 <= weekStart <= 6
    ensures Weekday(day) == weekStart <==> WeekFrom(day, weekStart) == day
  {
    WeekContains(day, weekStart);
  }

  lemma WeeksExactly(a: int, b: int, weekStart: int)
    requires 0 <= weekStart <= 6 && a <= b
    ensures b < WeekFrom(a, weekStart) + 7 <==> forall day :: a < day <= b ==> Weekday(day) != weekStart
  {
    var next := WeekFrom(a, weekStart) + 7;
    WeekContains(a, weekStart);
    if b < next {
      forall day | a < day <= b ensures Weekday(day) != weekStart {
        WeekStable(a, day, weekStart);
        WeekStartsItself(day, weekStart);
      }
    } else {
      WeekAfter(a, weekStart);
      assert a < next <= b && Weekday(next) == weekStart;
    }
  }

  lemma WeekAfter(a: int, weekStart: int)
    requires 0 <= weekStart <= 6
    ensures Weekday(WeekFrom(a, weekStart) + 7) == weekStart
  {
    WeekQuotient(a, weekStart);
    SevenTimes((a + 4 - weekStart) / 7 + 1, weekStart);
  }

  lemma MonthsExactly(a: int, b: int)
    requires a <= b
    ensures var x, y := FromDay(a), FromDay(b);
      b < NextMonth(x.y, x.m) <==> x.y == y.y && x.m == y.m
  {
    var x, y := FromDay(a), FromDay(b);
    MonthContains(x);
    if b < NextMonth(x.y, x.m) {
      MonthStable(x, b);
    }
    MonthContains(y);
  }

  /** A later day is in the period of an earlier one exactly when the two share it. */
  lemma SpansExactly(period: Period, a: int, b: int, weekStart: int)
    requires 0 <= weekStart <= 6 && a <= b
    ensures b < SpanOf(period, a, weekStart).to <==> SharePeriod(period, a, b, weekStart)
  {
    match period {
      case Day =>
      case Week => WeeksExactly(a, b, weekStart);
      case Month => MonthsExactly(a, b);
      case Fortnight => FortnightsExactly(a, b);
    }
  }

  lemma FortnightsExactly(a: int, b: int)
    requires a <= b
    ensures var x, y := FromDay(a), FromDay(b);
      b < SpanOf(Fortnight, a, 0).to <==> x.y == y.y && x.m == y.m && (x.d <= 15 <==> y.d <= 15)
  {
    var x := FromDay(a);
    MonthsExactly(a, b);
    MonthContains(x);
    if b < NextMonth(x.y, x.m) {
      MonthStable(x, b);
    }
  }
}
