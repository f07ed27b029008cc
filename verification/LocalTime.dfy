/**
 * Local midnights. A zone is its offset from UTC, in milliseconds, at each instant; nothing else is
 * assumed of it but what each statement says.
 */
module LocalTime {
  import opened Calendar

  const MS_PER_DAY := 24 * 60 * 60 * 1000

  type Zone = int -> int

  /** The local clock at an instant, counted like an instant. */
  function LocalClock(offset: Zone, instant: int): int {
    instant + offset(instant)
  }

  /** The offset the second pass takes away from `wall`. */
  function UsedOffset(offset: Zone, wall: int): int {
    offset(wall - offset(wall))
  }

  /** The instant the service takes for the local time `wall`: two passes over the offset. */
  function ZonedTimeToUtc(offset: Zone, wall: int): int {
    wall - UsedOffset(offset, wall)
  }

  function Midnight(offset: Zone, date: CalendarDate): int {
    ZonedTimeToUtc(offset, WallDay(date) * MS_PER_DAY)
  }

  function LocalDate(offset: Zone, instant: int): CalendarDate {
    FromDay(LocalClock(offset, instant) / MS_PER_DAY)
  }

  /** Around `wall` the zone changes at most once: from `before` to `after`, at `change`. */
  ghost predicate ChangesOnce(offset: Zone, wall: int, change: int, before: int, after: int) {
    && (forall t :: -MS_PER_DAY <= offset(t) <= MS_PER_DAY)
    && (forall t :: wall - MS_PER_DAY <= t <= wall + MS_PER_DAY ==> offset(t) == if t < change then before else after)
  }

  /** Some instant has the local time `wall`. */
  ghost predicate Exists(offset: Zone, wall: int) {
    exists t :: LocalClock(offset, t) == wall
  }

  /** `wall` is skipped when the clock goes forward at `change`. */
  predicate InGap(wall: int, change: int, before: int, after: int) {
    change + before <= wall < change + after
  }

  /**
   * With at most one change of offset nearby, the two passes find an instant whose local time is the
   * one asked for exactly when that local time exists, which is when it is not in a forward gap. In a
   * gap they miss it by the size of the gap, backwards when the change is still ahead of `wall` read as
   * UTC and forwards otherwise.
   */
  lemma TwoPassesExact(offset: Zone, wall: int, change: int, before: int, after: int)
    requires ChangesOnce(offset, wall, change, before, after)
    ensures LocalClock(offset, ZonedTimeToUtc(offset, wall)) == wall <==> !InGap(wall, change, before, after)
    ensures Exists(offset, wall) <==> !InGap(wall, change, before, after)
    ensures InGap(wall, change, before, after) ==>
              LocalClock(offset, ZonedTimeToUtc(offset, wall))
              == if wall < change then wall - (after - before) else wall + (after - before)
  {
  }

  /** So the start of a local day lies on that day, unless its midnight does not exist. */
  lemma MidnightOnItsDate(offset: Zone, date: CalendarDate, change: int, before: int, after: int)
    requires Real(date) && date.y >= 100
    requires ChangesOnce(offset, WallDay(date) * MS_PER_DAY, change, before, after)
    requires !InGap(WallDay(date) * MS_PER_DAY, change, before, after)
    ensures LocalClock(offset, Midnight(offset, date)) == DayNumber(date) * MS_PER_DAY
    ensures LocalDate(offset, Midnight(offset, date)) == date
  {
    TwoPassesExact(offset, WallDay(date) * MS_PER_DAY, change, before, after);
    WallDayIsDayNumber(date);
    DateAtMidnight(offset, Midnight(offset, date), date);
  }

  lemma WholeDays(n: int)
    ensures (n * MS_PER_DAY) / MS_PER_DAY == n
  {
  }

  lemma DateAtMidnight(offset: Zone, t: int, date: CalendarDate)
    requires Real(date) && LocalClock(offset, t) == DayNumber(date) * MS_PER_DAY
    ensures LocalDate(offset, t) == date
  {
    FromDayInverse(date);
    WholeDays(DayNumber(date));
  }

  // ----- how the offset is read -----

  const FIRST_INSTANT := FIRST_DAY * MS_PER_DAY

  /** The year as it is written, without its era. */
  function ShownYear(y: int): int {
    if y > 0 then y else 1 - y
  }

  /** The day `Date.UTC` makes of the written parts of a local day. */
  function ReadDay(day: int): int {
    var date := FromDay(day);
    UtcDay(ShownYear(date.y), date.m - 1, date.d)
  }

  /** The parts of a local clock, written to the second, put together again. */
  function ReadClock(clock: int): int {
    ReadDay(clock / MS_PER_DAY) * MS_PER_DAY + (clock % MS_PER_DAY) / 1000 * 1000
  }

  function ReadWith(read: int -> int, offset: Zone): Zone {
    (t: int) => read(LocalClock(offset, t)) - t
  }

  /** The offset as the service reads it off a formatted instant. */
  function ReadOffset(offset: Zone): Zone {
    ReadWith(ReadClock, offset)
  }

  lemma SameMonth(date: CalendarDate)
    requires Real(date)
    ensures (date.m - 1) / 12 == 0 && (date.m - 1) % 12 + 1 == date.m
  {
  }

  /** From the year 100 on a date is read as it is; before, as one most of a year later at least. */
  lemma DateRead(date: CalendarDate)
    requires Real(date)
    ensures var read := UtcDay(ShownYear(date.y), date.m - 1, date.d);
      if date.y >= 100 then read == DayNumber(date) else read >= DayNumber(date) + 364
  {
    SameMonth(date);
    if date.y < 100 {
      var shown := ShownYear(date.y);
      LongGap(date.y, if shown <= 99 then 1900 + shown else shown);
    }
  }

  lemma ReadDayExactly(day: int)
    ensures if day >= FIRST_DAY then ReadDay(day) == day else ReadDay(day) >= day + 364
  {
    NearFirstYear(day, 100);
    DateRead(FromDay(day));
  }

  lemma Thousands(x: int, q: int, r: int)
    requires x == 1000 * q + r && 0 <= r < 1000
    ensures x % 1000 == r
  {
  }

  lemma ClockParts(clock: int)
    ensures (clock / MS_PER_DAY) * MS_PER_DAY + (clock % MS_PER_DAY) / 1000 * 1000 == clock - clock % 1000
    ensures clock / MS_PER_DAY >= FIRST_DAY <==> clock >= FIRST_INSTANT
  {
    var day, rest := clock / MS_PER_DAY, clock % MS_PER_DAY;
    ClockDay(clock, FIRST_DAY);
    assert clock == 1000 * (86400 * day + rest / 1000) + rest % 1000;
    Thousands(clock, 86400 * day + rest / 1000, rest % 1000);
  }

  lemma PutTogether(clock: int, day: int)
    ensures var read := day * MS_PER_DAY + (clock % MS_PER_DAY) / 1000 * 1000;
      && read % 1000 == 0
      && (day == clock / MS_PER_DAY ==> read == clock - clock % 1000)
      && (day >= clock / MS_PER_DAY + 364 ==> read >= clock + 363 * MS_PER_DAY)
  {
    ClockParts(clock);
    var second := (clock % MS_PER_DAY) / 1000;
    Thousands(day * MS_PER_DAY + second * 1000, 86400 * day + second, 0);
  }

  lemma ReadClockExactly(clock: int)
    ensures clock >= FIRST_INSTANT ==> ReadClock(clock) == clock - clock % 1000
    ensures clock < FIRST_INSTANT ==> ReadClock(clock) >= clock + 363 * MS_PER_DAY
    ensures ReadClock(clock) % 1000 == 0
  {
    var day := clock / MS_PER_DAY;
    ReadDayExactly(day);
    PutTogether(clock, ReadDay(day));
    ClockParts(clock);
  }

  /** `read` gives a clock from the year 100 on to the second, and an earlier one most of a year late at least. */
  predicate ReadsAt(read: int -> int, clock: int) {
    && read(clock) % 1000 == 0
    && if clock >= FIRST_INSTANT then read(clock) == clock - clock % 1000 else read(clock) >= clock + 363 * MS_PER_DAY
  }

  ghost predicate Reads(read: int -> int) {
    forall clock :: ReadsAt(read, clock)
  }

  lemma ReadClockReads()
    ensures Reads(ReadClock)
  {
    forall clock ensures ReadsAt(ReadClock, clock) {
      ReadClockExactly(clock);
    }
  }

  ghost predicate WholeSeconds(offset: Zone) {
    forall t :: -MS_PER_DAY <= offset(t) <= MS_PER_DAY && offset(t) % 1000 == 0
  }

  /** `read` is the zone's offset where the local date is in the year 100 or later, and most of a year elsewhere. */
  predicate ReadAt(offset: Zone, read: Zone, t: int) {
    && read(t) % 1000 == 0
    && if LocalClock(offset, t) >= FIRST_INSTANT then read(t) == offset(t) else read(t) >= 362 * MS_PER_DAY
  }

  lemma WholeSecondsAdd(t: int, p: int, clock: int)
    requires t % 1000 == 0 && p % 1000 == 0 && clock % 1000 == 0
    ensures (t + p) % 1000 == 0 && (clock - t) % 1000 == 0
  {
  }

  ghost predicate ReadsFrom(offset: Zone, read: Zone) {
    forall t :: t % 1000 == 0 ==> ReadAt(offset, read, t)
  }

  lemma ReadWithReads(read: int -> int, offset: Zone)
    requires WholeSeconds(offset) && Reads(read)
    ensures ReadsFrom(offset, ReadWith(read, offset))
  {
    forall t | t % 1000 == 0 ensures ReadAt(offset, ReadWith(read, offset), t) {
      assert -MS_PER_DAY <= offset(t) <= MS_PER_DAY && offset(t) % 1000 == 0;
      assert ReadsAt(read, LocalClock(offset, t));
      WholeSecondsAdd(t, offset(t), read(LocalClock(offset, t)));
    }
  }

  lemma ReadOffsetReads(offset: Zone)
    requires WholeSeconds(offset)
    ensures ReadsFrom(offset, ReadOffset(offset))
  {
    ReadClockReads();
    ReadWithReads(ReadClock, offset);
  }

  /** The second pass reads `second` where the zone has `q`, after a first that read `first` where it has `p`. */
  lemma SecondPassReads(wall: int, p: int, q: int, first: int, second: int, at: int)
    requires -MS_PER_DAY <= p <= MS_PER_DAY && -MS_PER_DAY <= q <= MS_PER_DAY && -MS_PER_DAY <= at <= MS_PER_DAY
    requires if wall + p >= FIRST_INSTANT then first == p else first >= 362 * MS_PER_DAY
    requires if wall - first + at >= FIRST_INSTANT then second == at else second >= 362 * MS_PER_DAY
    requires first == p ==> at == q
    ensures second == q <==> wall + p >= FIRST_INSTANT && wall - p + q >= FIRST_INSTANT
  {
  }

  /**
   * The passes over the offset as it is read give the instant of the passes over the zone's offset exactly when
   * both look at instants whose local date is in the year 100 or later.
   */
  lemma ReadExactly(offset: Zone, wall: int)
    requires WholeSeconds(offset) && wall % 1000 == 0
    ensures ZonedTimeToUtc(ReadOffset(offset), wall) == ZonedTimeToUtc(offset, wall)
       <==> LocalClock(offset, wall) >= FIRST_INSTANT && LocalClock(offset, wall - offset(wall)) >= FIRST_INSTANT
  {
    ReadOffsetReads(offset);
    PassesRead(offset, ReadOffset(offset), wall);
  }

  lemma PassesRead(offset: Zone, read: Zone, wall: int)
    requires WholeSeconds(offset) && ReadsFrom(offset, read) && wall % 1000 == 0
    ensures ZonedTimeToUtc(read, wall) == ZonedTimeToUtc(offset, wall)
       <==> LocalClock(offset, wall) >= FIRST_INSTANT && LocalClock(offset, wall - offset(wall)) >= FIRST_INSTANT
  {
    var p, first := offset(wall), read(wall);
    var q, at := offset(wall - p), offset(wall - first);
    assert -MS_PER_DAY <= p <= MS_PER_DAY && -MS_PER_DAY <= q <= MS_PER_DAY && -MS_PER_DAY <= at <= MS_PER_DAY;
    assert ReadAt(offset, read, wall) && ReadAt(offset, read, wall - first);
    SecondPassReads(wall, p, q, first, read(wall - first), at);
  }

  lemma FromTheThirdDay(day: int, p: int, q: int)
    requires day >= FIRST_DAY + 2 && -MS_PER_DAY <= p <= MS_PER_DAY && -MS_PER_DAY <= q <= MS_PER_DAY
    ensures var wall := day * MS_PER_DAY;
      wall % 1000 == 0 && wall + p >= FIRST_INSTANT && wall - p + q >= FIRST_INSTANT
  {
    Thousands(day * MS_PER_DAY, 86400 * day, 0);
  }

  lemma MidnightAt(offset: Zone, date: CalendarDate, wall: int)
    requires Real(date) && date.y >= 100 && wall == DayNumber(date) * MS_PER_DAY
    ensures Midnight(offset, date) == ZonedTimeToUtc(offset, wall)
  {
    WallDayIsDayNumber(date);
  }

  lemma LateWallsRead(offset: Zone, read: Zone, day: int)
    requires WholeSeconds(offset) && ReadsFrom(offset, read) && day >= FIRST_DAY + 2
    ensures ZonedTimeToUtc(read, day * MS_PER_DAY) == ZonedTimeToUtc(offset, day * MS_PER_DAY)
  {
    var wall := day * MS_PER_DAY;
    assert -MS_PER_DAY <= offset(wall) <= MS_PER_DAY;
    assert -MS_PER_DAY <= offset(wall - offset(wall)) <= MS_PER_DAY;
    FromTheThirdDay(day, offset(wall), offset(wall - offset(wall)));
    PassesRead(offset, read, wall);
  }

  /** So every midnight from the third of January of the year 100 on is what reading the zone's offset gives. */
  lemma MidnightsAreRead(offset: Zone, date: CalendarDate)
    requires WholeSeconds(offset) && Real(date) && date.y >= 100 && DayNumber(date) >= FIRST_DAY + 2
    ensures Midnight(ReadOffset(offset), date) == Midnight(offset, date)
  {
    ReadOffsetReads(offset);
    LateWallsRead(offset, ReadOffset(offset), DayNumber(date));
    MidnightAt(offset, date, DayNumber(date) * MS_PER_DAY);
    MidnightAt(ReadOffset(offset), date, DayNumber(date) * MS_PER_DAY);
  }

  lemma FirstWall(date: CalendarDate)
    requires date == CalendarDate(100, 1, 1)
    ensures Real(date) && DayNumber(date) == FIRST_DAY
  {
    DayFromYearFormula(100);
  }

  /** West of UTC the first of January of the year 100 is missed: its first pass reads the local year 99 as 1999. */
  lemma FirstMidnightMisread(offset: Zone, date: CalendarDate)
    requires WholeSeconds(offset) && date == CalendarDate(100, 1, 1) && offset(FIRST_INSTANT) < 0
    ensures Midnight(ReadOffset(offset), date) != Midnight(offset, date)
  {
    FirstWall(date);
    MidnightAt(offset, date, FIRST_INSTANT);
    MidnightAt(ReadOffset(offset), date, FIRST_INSTANT);
    ReadExactly(offset, FIRST_INSTANT);
  }

  // ----- report ranges as instants -----

  datatype Instants = Instants(start: int, end: int)

  function ReportRange(offset: Zone, period: Period, date: CalendarDate, weekStart: int): Instants {
    var r := ResolveRange(period, date, weekStart);
    Instants(Midnight(offset, r.start), Midnight(offset, r.end))
  }

  /** In any zone, the range of the first date after a period starts at the instant the period's ends. */
  lemma RangesTile(offset: Zone, period: Period, date: CalendarDate, weekStart: int)
    requires Real(date) && date.y >= 100 && 0 <= weekStart <= 6 && StartsInRange(period, date, weekStart)
    ensures var next := FromDay(SpanOf(period, DayNumber(date), weekStart).to);
      ReportRange(offset, period, next, weekStart).start == ReportRange(offset, period, date, weekStart).end
  {
    var day := DayNumber(date);
    var s := SpanOf(period, day, weekStart);
    RangeInstants(offset, period, date, weekStart);
    SpanContains(period, day, weekStart);
    SpansTile(period, day, weekStart);
    FromDayInverse(date);
    NearFirstYear(day, 100);
    NearFirstYear(s.to, 100);
    RangeInstants(offset, period, FromDay(s.to), weekStart);
  }

  /** In any zone, dates of the same period have the same range. */
  lemma SamePeriodSameRange(offset: Zone, period: Period, a: CalendarDate, b: CalendarDate, weekStart: int)
    requires Real(a) && Real(b) && a.y >= 100 && b.y >= 100 && 0 <= weekStart <= 6
    requires StartsInRange(period, a, weekStart)
    requires SpanOf(period, DayNumber(a), weekStart).from <= DayNumber(b) < SpanOf(period, DayNumber(a), weekStart).to
    ensures ReportRange(offset, period, a, weekStart) == ReportRange(offset, period, b, weekStart)
  {
    SpanStable(period, DayNumber(a), DayNumber(b), weekStart);
    RangeInstants(offset, period, a, weekStart);
    RangeInstants(offset, period, b, weekStart);
  }

  /** The range of a period from its first day to its last, as instants. */
  function SpanInstants(offset: Zone, s: Span): Instants {
    Instants(ZonedTimeToUtc(offset, s.from * MS_PER_DAY), ZonedTimeToUtc(offset, s.to * MS_PER_DAY))
  }

  lemma RangeInstants(offset: Zone, period: Period, date: CalendarDate, weekStart: int)
    requires Real(date) && date.y >= 100 && 0 <= weekStart <= 6 && StartsInRange(period, date, weekStart)
    ensures ReportRange(offset, period, date, weekStart)
        == SpanInstants(offset, SpanOf(period, DayNumber(date), weekStart))
  {
    RangeIsSpan(period, date, weekStart);
  }

  // ----- the order of local midnights -----

  /** From the midnight of day `a` to that of day `b` the offset gains no more than the time between them. */
  predicate GainsAtMost(offset: Zone, a: int, b: int) {
    UsedOffset(offset, b * MS_PER_DAY) - UsedOffset(offset, a * MS_PER_DAY) <= (b - a) * MS_PER_DAY
  }

  predicate GainsLess(offset: Zone, a: int, b: int) {
    UsedOffset(offset, b * MS_PER_DAY) - UsedOffset(offset, a * MS_PER_DAY) < (b - a) * MS_PER_DAY
  }

  /** Two local midnights are in order exactly when the offset gains less than the time between them. */
  lemma MidnightsInOrder(offset: Zone, a: int, b: int)
    ensures var x, y := ZonedTimeToUtc(offset, a * MS_PER_DAY), ZonedTimeToUtc(offset, b * MS_PER_DAY);
      (x <= y <==> GainsAtMost(offset, a, b)) && (x < y <==> GainsLess(offset, a, b))
  {
    assert (b - a) * MS_PER_DAY == b * MS_PER_DAY - a * MS_PER_DAY;
  }

  predicate Near(t: int, a: int, b: int) {
    (a - 1) * MS_PER_DAY <= t <= (b + 1) * MS_PER_DAY
  }

  /** From a day before the midnight of day `a` to a day after that of day `b` offsets differ by at most `ms`. */
  ghost predicate VariesAtMost(offset: Zone, a: int, b: int, ms: int) {
    && (forall t :: -MS_PER_DAY <= offset(t) <= MS_PER_DAY)
    && forall t, u ::
         Near(t, a, b) && Near(u, a, b) ==> offset(t) - offset(u) <= ms
  }

  lemma NearDays(a: int, b: int, x: int, y: int, p: int, q: int)
    requires a <= b && x == a * MS_PER_DAY && y == b * MS_PER_DAY
    ensures -MS_PER_DAY <= p <= MS_PER_DAY ==> Near(x - p, a, b)
    ensures -MS_PER_DAY <= q <= MS_PER_DAY ==> Near(y - q, a, b)
    ensures (b - a) * MS_PER_DAY == y - x && (a < b ==> y - x >= MS_PER_DAY)
  {
  }

  lemma VaryingLittleKeepsOrder(offset: Zone, a: int, b: int, ms: int)
    requires a <= b && VariesAtMost(offset, a, b, ms)
    ensures a < b && ms <= MS_PER_DAY ==> GainsAtMost(offset, a, b)
    ensures a < b && ms < MS_PER_DAY ==> GainsLess(offset, a, b)
    ensures GainsAtMost(offset, a, a)
  {
    var x, y := a * MS_PER_DAY, b * MS_PER_DAY;
    NearDays(a, b, x, y, offset(x), offset(y));
    assert -MS_PER_DAY <= offset(x) <= MS_PER_DAY && -MS_PER_DAY <= offset(y) <= MS_PER_DAY;
    assert offset(y - offset(y)) - offset(x - offset(x)) <= ms;
  }

  /**
   * The range of a date holds the date's midnight exactly when the offset gains no more than the time from
   * the period's first midnight to the date's, and less than the time from there to the midnight after the
   * period. It does in any zone whose offsets vary by less than a day around the period.
   */
  lemma RangeHoldsItsDate(offset: Zone, period: Period, date: CalendarDate, weekStart: int)
    requires Real(date) && date.y >= 100 && 0 <= weekStart <= 6 && StartsInRange(period, date, weekStart)
    ensures var x := ReportRange(offset, period, date, weekStart);
      var s, day := SpanOf(period, DayNumber(date), weekStart), DayNumber(date);
      && (x.start <= Midnight(offset, date) < x.end
          <==> GainsAtMost(offset, s.from, day) && GainsLess(offset, day, s.to))
      && (VariesAtMost(offset, s.from, s.to, MS_PER_DAY - 1) ==> x.start <= Midnight(offset, date) < x.end)
  {
    var s, day := SpanOf(period, DayNumber(date), weekStart), DayNumber(date);
    RangeInstants(offset, period, date, weekStart);
    SpanContains(period, day, weekStart);
    WallDayIsDayNumber(date);
    MidnightsInOrder(offset, s.from, day);
    MidnightsInOrder(offset, day, s.to);
    if VariesAtMost(offset, s.from, s.to, MS_PER_DAY - 1) {
      VariesWithin(offset, s.from, s.to, s.from, day, MS_PER_DAY - 1);
      VariesWithin(offset, s.from, s.to, day, s.to, MS_PER_DAY - 1);
      VaryingLittleKeepsOrder(offset, s.from, day, MS_PER_DAY - 1);
      VaryingLittleKeepsOrder(offset, day, s.to, MS_PER_DAY - 1);
    }
  }

  lemma VariesWithin(offset: Zone, a: int, b: int, c: int, d: int, ms: int)
    requires VariesAtMost(offset, a, b, ms) && a <= c <= d <= b
    ensures VariesAtMost(offset, c, d, ms)
  {
    assert (a - 1) * MS_PER_DAY <= (c - 1) * MS_PER_DAY && (d + 1) * MS_PER_DAY <= (b + 1) * MS_PER_DAY;
  }

  /**
   * Of two dates the ranges coincide when their periods do. Otherwise the range of the earlier period is over
   * when the later one starts exactly when the offset gains no more than the time between the two midnights
   * that face each other, as it does when offsets vary by at most a day around these.
   */
  lemma RangesDisjoint(offset: Zone, period: Period, a: CalendarDate, b: CalendarDate, weekStart: int)
    requires Real(a) && Real(b) && a.y >= 100 && b.y >= 100 && 0 <= weekStart <= 6
    requires StartsInRange(period, a, weekStart) && StartsInRange(period, b, weekStart)
    requires DayNumber(a) <= DayNumber(b)
    ensures var x, y := ReportRange(offset, period, a, weekStart), ReportRange(offset, period, b, weekStart);
      var s, t := SpanOf(period, DayNumber(a), weekStart), SpanOf(period, DayNumber(b), weekStart);
      if DayNumber(b) < s.to then x == y
      else
        && s.to <= t.from
        && (x.end <= y.start <==> GainsAtMost(offset, s.to, t.from))
        && (VariesAtMost(offset, s.to, t.from, MS_PER_DAY) ==> x.end <= y.start)
  {
    RangeInstants(offset, period, a, weekStart);
    RangeInstants(offset, period, b, weekStart);
    SpansInOrder(period, DayNumber(a), DayNumber(b), weekStart);
    SpansFollow(offset, SpanOf(period, DayNumber(a), weekStart), SpanOf(period, DayNumber(b), weekStart));
  }

  lemma SpansFollow(offset: Zone, s: Span, t: Span)
    ensures SpanInstants(offset, s).end <= SpanInstants(offset, t).start <==> GainsAtMost(offset, s.to, t.from)
    ensures s.to <= t.from && VariesAtMost(offset, s.to, t.from, MS_PER_DAY) ==> GainsAtMost(offset, s.to, t.from)
  {
    MidnightsInOrder(offset, s.to, t.from);
    if s.to <= t.from && VariesAtMost(offset, s.to, t.from, MS_PER_DAY) {
      VaryingLittleKeepsOrder(offset, s.to, t.from, MS_PER_DAY);
    }
  }

  // ----- midnights around one change -----

  /** The clock around a single change, and the two passes over it. */
  function ClockOnce(t: int, change: int, before: int, after: int): int {
    t + if t < change then before else after
  }

  function PassesOnce(wall: int, change: int, before: int, after: int): int {
    var first := wall - if wall < change then before else after;
    wall - if first < change then before else after
  }

  predicate WithinADay(before: int, after: int) {
    -MS_PER_DAY <= before <= MS_PER_DAY && -MS_PER_DAY <= after <= MS_PER_DAY
  }

  lemma OnceAround(offset: Zone, wall: int, change: int, before: int, after: int, t: int)
    requires ChangesOnce(offset, wall, change, before, after)
    ensures ZonedTimeToUtc(offset, wall) == PassesOnce(wall, change, before, after)
    ensures wall - MS_PER_DAY <= t <= wall + MS_PER_DAY ==> LocalClock(offset, t) == ClockOnce(t, change, before, after)
  {
  }

  /**
   * Of two times just one is skipped, and it is read on the far side of the change from the other: the first
   * of them read as UTC not before the change with the second after the gap, or the second of them read as UTC
   * before the change with the first before the gap.
   */
  predicate Straddles(x: int, y: int, change: int, before: int, after: int) {
    || (InGap(x, change, before, after) && change <= x && change + after <= y)
    || (InGap(y, change, before, after) && y < change && x < change + before)
  }

  lemma PassesOutOfOrder(x: int, y: int, change: int, before: int, after: int)
    requires x < y
    ensures var p, q := PassesOnce(x, change, before, after), PassesOnce(y, change, before, after);
      && (p > q <==> y - x < after - before && Straddles(x, y, change, before, after))
      && (p >= q <==> y - x <= after - before && Straddles(x, y, change, before, after))
  {
  }

  /**
   * Around a single change two midnights are out of order exactly when the change skips more than the time
   * between them and they straddle it, and coincide exactly when it skips just that time. Otherwise the offset
   * gains less than the time between them.
   */
  lemma MidnightsOutOfOrderExactly(offset: Zone, a: int, b: int, change: int, before: int, after: int)
    requires a < b
    requires ChangesOnce(offset, a * MS_PER_DAY, change, before, after)
    requires ChangesOnce(offset, b * MS_PER_DAY, change, before, after)
    ensures var x, y, skipped := a * MS_PER_DAY, b * MS_PER_DAY, after - before;
      && (ZonedTimeToUtc(offset, x) > ZonedTimeToUtc(offset, y)
          <==> skipped > (b - a) * MS_PER_DAY && Straddles(x, y, change, before, after))
      && (ZonedTimeToUtc(offset, x) == ZonedTimeToUtc(offset, y)
          <==> skipped == (b - a) * MS_PER_DAY && Straddles(x, y, change, before, after))
      && (GainsAtMost(offset, a, b)
          <==> !(skipped > (b - a) * MS_PER_DAY && Straddles(x, y, change, before, after)))
      && (GainsLess(offset, a, b)
          <==> !(skipped >= (b - a) * MS_PER_DAY && Straddles(x, y, change, before, after)))
  {
    var x, y := a * MS_PER_DAY, b * MS_PER_DAY;
    assert x < y && y - x == (b - a) * MS_PER_DAY;
    OnceAround(offset, x, change, before, after, x);
    OnceAround(offset, y, change, before, after, y);
    PassesOutOfOrder(x, y, change, before, after);
    MidnightsInOrder(offset, a, b);
  }

  /** So a period's range holds no instant exactly when a change skips its length or more and its ends straddle it. */
  lemma RangeEmptyExactly(offset: Zone, period: Period, date: CalendarDate, weekStart: int,
                          change: int, before: int, after: int)
    requires Real(date) && date.y >= 100 && 0 <= weekStart <= 6 && StartsInRange(period, date, weekStart)
    requires var s := SpanOf(period, DayNumber(date), weekStart);
      && ChangesOnce(offset, s.from * MS_PER_DAY, change, before, after)
      && ChangesOnce(offset, s.to * MS_PER_DAY, change, before, after)
    ensures var s, x := SpanOf(period, DayNumber(date), weekStart), ReportRange(offset, period, date, weekStart);
      x.end <= x.start
      <==> after - before >= (s.to - s.from) * MS_PER_DAY
           && Straddles(s.from * MS_PER_DAY, s.to * MS_PER_DAY, change, before, after)
  {
    RangeInstants(offset, period, date, weekStart);
    SpanContains(period, DayNumber(date), weekStart);
    SpanEmptyExactly(offset, SpanOf(period, DayNumber(date), weekStart), change, before, after);
  }

  lemma SpanEmptyExactly(offset: Zone, s: Span, change: int, before: int, after: int)
    requires s.from < s.to
    requires ChangesOnce(offset, s.from * MS_PER_DAY, change, before, after)
    requires ChangesOnce(offset, s.to * MS_PER_DAY, change, before, after)
    ensures var x := SpanInstants(offset, s);
      x.end <= x.start
      <==> after - before >= (s.to - s.from) * MS_PER_DAY
           && Straddles(s.from * MS_PER_DAY, s.to * MS_PER_DAY, change, before, after)
  {
    MidnightsOutOfOrderExactly(offset, s.from, s.to, change, before, after);
  }

  const MS_PER_HOUR := 60 * 60 * 1000

  lemma SkippedDayWalls(offset: Zone, wall: int)
    requires forall t :: offset(t) == if t < wall + 10 * MS_PER_HOUR then -10 * MS_PER_HOUR else 14 * MS_PER_HOUR
    ensures ZonedTimeToUtc(offset, wall - MS_PER_DAY) == ZonedTimeToUtc(offset, wall)
    ensures LocalClock(offset, wall - 14 * MS_PER_HOUR) == wall - MS_PER_DAY
  {
  }

  /**
   * The condition can fail. When a zone moves from ten hours behind to fourteen hours ahead at the local
   * midnight after a date, skipping a day, the date gets an empty range, although instants have it.
   */
  lemma DayBeforeSkippedDayIsEmpty(offset: Zone, date: CalendarDate, wall: int)
    requires Real(date) && date.y >= 100 && wall == (DayNumber(date) + 1) * MS_PER_DAY
    requires forall t :: offset(t) == if t < wall + 10 * MS_PER_HOUR then -10 * MS_PER_HOUR else 14 * MS_PER_HOUR
    ensures ReportRange(offset, Day, date, 0).start == ReportRange(offset, Day, date, 0).end
    ensures LocalDate(offset, wall - 14 * MS_PER_HOUR) == date
  {
    SkippedDayWalls(offset, wall);
    assert DayNumber(date) * MS_PER_DAY == wall - MS_PER_DAY;
    DateAtMidnight(offset, wall - 14 * MS_PER_HOUR, date);
    RangeInstants(offset, Day, date, 0);
  }

  lemma SkippedWall(offset: Zone, wall: int)
    requires forall t :: offset(t) == if t < wall + 4 * MS_PER_HOUR then -4 * MS_PER_HOUR else -3 * MS_PER_HOUR
    ensures ChangesOnce(offset, wall, wall + 4 * MS_PER_HOUR, -4 * MS_PER_HOUR, -3 * MS_PER_HOUR)
    ensures InGap(wall, wall + 4 * MS_PER_HOUR, -4 * MS_PER_HOUR, -3 * MS_PER_HOUR)
    ensures LocalClock(offset, ZonedTimeToUtc(offset, wall)) == wall - MS_PER_HOUR
  {
    TwoPassesExact(offset, wall, wall + 4 * MS_PER_HOUR, -4 * MS_PER_HOUR, -3 * MS_PER_HOUR);
  }

  /**
   * A skipped midnight, where the clocks go from four to three hours behind at midnight: the service takes
   * an instant of the day before.
   */
  lemma SkippedMidnightMissed(offset: Zone, date: CalendarDate, wall: int)
    requires Real(date) && date.y >= 100 && wall == DayNumber(date) * MS_PER_DAY
    requires forall t :: offset(t) == if t < wall + 4 * MS_PER_HOUR then -4 * MS_PER_HOUR else -3 * MS_PER_HOUR
    ensures ChangesOnce(offset, wall, wall + 4 * MS_PER_HOUR, -4 * MS_PER_HOUR, -3 * MS_PER_HOUR)
    ensures InGap(wall, wall + 4 * MS_PER_HOUR, -4 * MS_PER_HOUR, -3 * MS_PER_HOUR)
    ensures LocalClock(offset, Midnight(offset, date)) == wall - MS_PER_HOUR
    ensures LocalDate(offset, Midnight(offset, date)) == FromDay(DayNumber(date) - 1)
  {
    SkippedWall(offset, wall);
    WallDayIsDayNumber(date);
    LastHour(DayNumber(date));
  }

  lemma LastHour(day: int)
    ensures (day * MS_PER_DAY - MS_PER_HOUR) / MS_PER_DAY == day - 1
  {
  }

  // ----- which instants have a date of the range -----

  lemma ClockDay(clock: int, day: int)
    ensures clock / MS_PER_DAY >= day <==> clock >= day * MS_PER_DAY
  {
  }

  /** From the instant taken for `wall` on, and not before, the local clock shows `wall` or later. */
  ghost predicate SplitsAt(offset: Zone, wall: int) {
    forall t :: LocalClock(offset, t) >= wall <==> t >= ZonedTimeToUtc(offset, wall)
  }

  /** `wall` comes twice when the clock goes back at `change`. */
  predicate InOverlap(wall: int, change: int, before: int, after: int) {
    change + after <= wall < change + before
  }

  /**
   * `wall` is not skipped, unless it is the first time skipped and read as UTC not before the change; nor
   * repeated, unless it is the first time repeated and read as UTC before the change.
   */
  predicate CleanCut(wall: int, change: int, before: int, after: int) {
    && (InGap(wall, change, before, after) ==> wall == change + before >= change)
    && (InOverlap(wall, change, before, after) ==> wall == change + after < change)
  }

  /** An instant near `wall` that shows a cut not to be clean. */
  function Witness(wall: int, change: int, before: int, after: int): int {
    if InGap(wall, change, before, after) && wall < change then PassesOnce(wall, change, before, after)
    else if InGap(wall, change, before, after) || wall < change then change
    else wall - before
  }

  lemma WitnessShows(wall: int, change: int, before: int, after: int)
    requires WithinADay(before, after) && !CleanCut(wall, change, before, after)
    ensures var t := Witness(wall, change, before, after);
      && wall - MS_PER_DAY <= t <= wall + MS_PER_DAY
      && !(ClockOnce(t, change, before, after) >= wall <==> t >= PassesOnce(wall, change, before, after))
  {
  }

  /** With at most one change of offset nearby, that is exactly when the instant splits time at `wall`. */
  lemma SplitsExactly(offset: Zone, wall: int, change: int, before: int, after: int)
    requires ChangesOnce(offset, wall, change, before, after) && WithinADay(before, after)
    ensures SplitsAt(offset, wall) <==> CleanCut(wall, change, before, after)
  {
    var t := Witness(wall, change, before, after);
    OnceAround(offset, wall, change, before, after, t);
    if CleanCut(wall, change, before, after) {
      forall u ensures LocalClock(offset, u) >= wall <==> u >= ZonedTimeToUtc(offset, wall) {
        OnceAround(offset, wall, change, before, after, u);
        assert -MS_PER_DAY <= offset(u) <= MS_PER_DAY;
      }
    } else {
      WitnessShows(wall, change, before, after);
      assert !(LocalClock(offset, t) >= wall <==> t >= ZonedTimeToUtc(offset, wall));
    }
  }

  /** The instants whose local date lies in the period are those of the range. */
  ghost predicate CollectsItsDates(offset: Zone, s: Span, x: Instants) {
    forall t :: s.from <= DayNumber(LocalDate(offset, t)) < s.to <==> x.start <= t < x.end
  }

  lemma LocalDayClock(offset: Zone, t: int, day: int)
    ensures DayNumber(LocalDate(offset, t)) >= day <==> LocalClock(offset, t) >= day * MS_PER_DAY
  {
    ClockDay(LocalClock(offset, t), day);
  }

  lemma InSpanClock(offset: Zone, t: int, s: Span)
    ensures s.from <= DayNumber(LocalDate(offset, t)) < s.to
       <==> s.from * MS_PER_DAY <= LocalClock(offset, t) < s.to * MS_PER_DAY
  {
    LocalDayClock(offset, t, s.from);
    LocalDayClock(offset, t, s.to);
  }

  lemma SplitEndsCollect(offset: Zone, s: Span)
    requires SplitsAt(offset, s.from * MS_PER_DAY) && SplitsAt(offset, s.to * MS_PER_DAY)
    ensures CollectsItsDates(offset, s, SpanInstants(offset, s))
  {
    forall t ensures s.from <= DayNumber(LocalDate(offset, t)) < s.to
                <==> SpanInstants(offset, s).start <= t < SpanInstants(offset, s).end
    {
      InSpanClock(offset, t, s);
      assert LocalClock(offset, t) >= s.from * MS_PER_DAY <==> t >= SpanInstants(offset, s).start;
      assert LocalClock(offset, t) >= s.to * MS_PER_DAY <==> t >= SpanInstants(offset, s).end;
    }
  }

  /**
   * For a period of several days the instants of the range are those whose local date lies in the period
   * exactly when both its midnights split time, however often the offset changes.
   */
  lemma RangeCollectsItsDates(offset: Zone, period: Period, date: CalendarDate, weekStart: int)
    requires Real(date) && date.y >= 100 && 0 <= weekStart <= 6 && StartsInRange(period, date, weekStart)
    requires period != Day && forall t :: -MS_PER_DAY <= offset(t) <= MS_PER_DAY
    ensures var s := SpanOf(period, DayNumber(date), weekStart);
      CollectsItsDates(offset, s, ReportRange(offset, period, date, weekStart))
      <==> SplitsAt(offset, s.from * MS_PER_DAY) && SplitsAt(offset, s.to * MS_PER_DAY)
  {
    var s := SpanOf(period, DayNumber(date), weekStart);
    RangeInstants(offset, period, date, weekStart);
    SeveralDays(period, DayNumber(date), weekStart);
    if SplitsAt(offset, s.from * MS_PER_DAY) && SplitsAt(offset, s.to * MS_PER_DAY) {
      SplitEndsCollect(offset, s);
    }
    if CollectsItsDates(offset, s, SpanInstants(offset, s)) {
      LongSpanSplits(offset, s);
    }
  }

  lemma SeveralDays(period: Period, day: int, weekStart: int)
    requires 0 <= weekStart <= 6 && period != Day
    ensures var s := SpanOf(period, day, weekStart); s.to >= s.from + 7
  {
    if period == Week {
      WeekContains(day, weekStart);
    } else {
      MonthContains(FromDay(day));
    }
  }

  lemma LongSpanSplits(offset: Zone, s: Span)
    requires s.to >= s.from + 7 && forall t :: -MS_PER_DAY <= offset(t) <= MS_PER_DAY
    requires CollectsItsDates(offset, s, SpanInstants(offset, s))
    ensures SplitsAt(offset, s.from * MS_PER_DAY) && SplitsAt(offset, s.to * MS_PER_DAY)
  {
    var x := SpanInstants(offset, s);
    assert s.to * MS_PER_DAY >= s.from * MS_PER_DAY + 7 * MS_PER_DAY;
    forall t
      ensures LocalClock(offset, t) >= s.from * MS_PER_DAY <==> t >= x.start
      ensures LocalClock(offset, t) >= s.to * MS_PER_DAY <==> t >= x.end
    {
      InSpanClock(offset, t, s);
      assert -MS_PER_DAY <= offset(t) <= MS_PER_DAY;
      assert s.from <= DayNumber(LocalDate(offset, t)) < s.to <==> x.start <= t < x.end;
    }
  }

  ghost predicate CollectsItsDate(offset: Zone, date: CalendarDate, x: Instants) {
    forall t :: LocalDate(offset, t) == date <==> x.start <= t < x.end
  }

  /**
   * For a single day, with at most one change of offset around it, one that skips no more than a day,
   * exactly when neither of its two midnights is skipped or repeated, but for the first time of a gap or
   * overlap that the passes resolve to its edge.
   */
  lemma DayCollectsItsDate(offset: Zone, date: CalendarDate, change: int, before: int, after: int)
    requires Real(date) && date.y >= 100 && WithinADay(before, after) && after - before <= MS_PER_DAY
    requires ChangesOnce(offset, DayNumber(date) * MS_PER_DAY, change, before, after)
    requires ChangesOnce(offset, (DayNumber(date) + 1) * MS_PER_DAY, change, before, after)
    ensures CollectsItsDate(offset, date, ReportRange(offset, Day, date, 0))
       <==> CleanCut(DayNumber(date) * MS_PER_DAY, change, before, after)
            && CleanCut((DayNumber(date) + 1) * MS_PER_DAY, change, before, after)
  {
    var day := DayNumber(date);
    RangeInstants(offset, Day, date, 0);
    OneDate(offset, date, SpanInstants(offset, Span(day, day + 1)));
    DayIsClean(offset, day, change, before, after);
  }

  lemma OneDate(offset: Zone, date: CalendarDate, x: Instants)
    requires Real(date)
    ensures CollectsItsDate(offset, date, x)
        <==> CollectsItsDates(offset, Span(DayNumber(date), DayNumber(date) + 1), x)
  {
    forall t
      ensures LocalDate(offset, t) == date
         <==> DayNumber(date) <= DayNumber(LocalDate(offset, t)) < DayNumber(date) + 1
    {
      FromDayInverse(date);
    }
  }

  /** One instant of the period's dates outside the range, or the other way round. */
  lemma Misplaced(offset: Zone, s: Span, x: Instants, t: int)
    requires !(s.from * MS_PER_DAY <= LocalClock(offset, t) < s.to * MS_PER_DAY <==> x.start <= t < x.end)
    ensures !CollectsItsDates(offset, s, x)
  {
    InSpanClock(offset, t, s);
    assert !(s.from <= DayNumber(LocalDate(offset, t)) < s.to <==> x.start <= t < x.end);
  }

  lemma DayIsClean(offset: Zone, day: int, change: int, before: int, after: int)
    requires WithinADay(before, after) && after - before <= MS_PER_DAY
    requires ChangesOnce(offset, day * MS_PER_DAY, change, before, after)
    requires ChangesOnce(offset, (day + 1) * MS_PER_DAY, change, before, after)
    ensures CollectsItsDates(offset, Span(day, day + 1), SpanInstants(offset, Span(day, day + 1)))
       <==> CleanCut(day * MS_PER_DAY, change, before, after) && CleanCut((day + 1) * MS_PER_DAY, change, before, after)
  {
    var s, wall, next := Span(day, day + 1), day * MS_PER_DAY, (day + 1) * MS_PER_DAY;
    if CleanCut(wall, change, before, after) && CleanCut(next, change, before, after) {
      SplitsExactly(offset, wall, change, before, after);
      SplitsExactly(offset, next, change, before, after);
      SplitEndsCollect(offset, s);
    } else {
      var t := DayWitness(wall, change, before, after);
      assert next == wall + MS_PER_DAY;
      OnceAround(offset, wall, change, before, after, t);
      OnceAround(offset, next, change, before, after, t);
      DayWitnessShows(wall, change, before, after);
      Misplaced(offset, s, SpanInstants(offset, s), t);
    }
  }

  /** An instant around the day that belongs to its date or to its range, but not to both. */
  function DayWitness(wall: int, change: int, before: int, after: int): int {
    if !CleanCut(wall, change, before, after) then Witness(wall, change, before, after)
    else Witness(wall + MS_PER_DAY, change, before, after)
  }

  lemma DayWitnessShows(wall: int, change: int, before: int, after: int)
    requires WithinADay(before, after) && after - before <= MS_PER_DAY
    requires !CleanCut(wall, change, before, after) || !CleanCut(wall + MS_PER_DAY, change, before, after)
    ensures var t := DayWitness(wall, change, before, after);
      && wall - MS_PER_DAY <= t <= wall + 2 * MS_PER_DAY
      && !(wall <= ClockOnce(t, change, before, after) < wall + MS_PER_DAY
           <==> PassesOnce(wall, change, before, after) <= t < PassesOnce(wall + MS_PER_DAY, change, before, after))
  {
  }

  /**
   * A repeated midnight, where the clocks go back to it from one o'clock, three and then two hours ahead: the
   * range starts at the second one, and the first, which has the date as well, lies before it.
   */
  lemma FirstMidnightLeftOut(offset: Zone, date: CalendarDate, wall: int)
    requires Real(date) && date.y >= 100 && wall == DayNumber(date) * MS_PER_DAY
    requires forall t :: offset(t) == if t < wall - 2 * MS_PER_HOUR then 3 * MS_PER_HOUR else 2 * MS_PER_HOUR
    ensures LocalDate(offset, wall - 3 * MS_PER_HOUR) == date
    ensures wall - 3 * MS_PER_HOUR < ReportRange(offset, Day, date, 0).start
  {
    SecondTaken(offset, wall);
    DateAtMidnight(offset, wall - 3 * MS_PER_HOUR, date);
    RangeInstants(offset, Day, date, 0);
  }

  lemma SecondTaken(offset: Zone, wall: int)
    requires forall t :: offset(t) == if t < wall - 2 * MS_PER_HOUR then 3 * MS_PER_HOUR else 2 * MS_PER_HOUR
    ensures ZonedTimeToUtc(offset, wall) == wall - 2 * MS_PER_HOUR
    ensures LocalClock(offset, wall - 3 * MS_PER_HOUR) == wall
  {
  }
}
