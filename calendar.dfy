/**
 * Proleptic Gregorian calendar arithmetic for the scraper's timestamps.
 *
 * Every timestamp of the feed lives in one fixed-offset zone, so an instant is
 * a (year, month, day, hour, minute, second) record and two instants compare
 * by the number of seconds since the start of day 1 of the calendar. Day
 * numbers follow the ordinal numbering of Python's datetime module (0001-01-01
 * is day 1, a Monday), which is what `date + timedelta(days=n)` and
 * `isoweekday()` are computed from.
 */
module Calendar {

  datatype DateTime = DateTime(year: int, month: int, day: int, hour: int, minute: int, second: int)

  predicate IsLeapYear(y: int) {
    y % 4 == 0 && (y % 100 != 0 || y % 400 == 0)
  }

  function DaysInMonth(y: int, m: int): int
    requires 1 <= m <= 12
  {
    if m == 2 then (if IsLeapYear(y) then 29 else 28)
    else if m == 4 || m == 6 || m == 9 || m == 11 then 30
    else 31
  }

  function DaysInYear(y: int): int {
    if IsLeapYear(y) then 366 else 365
  }

  /** A calendar date that exists (datetime refuses any other). */
  predicate ValidDate(d: DateTime) {
    1 <= d.year && 1 <= d.month <= 12 && 1 <= d.day <= DaysInMonth(d.year, d.month)
  }

  predicate Valid(d: DateTime) {
    ValidDate(d) && 0 <= d.hour < 24 && 0 <= d.minute < 60 && 0 <= d.second < 60
  }

  /** A datetime value on whole seconds; unlike Python's, its year has no upper bound. */
  type Instant = d: DateTime | Valid(d) witness DateTime(2007, 1, 1, 0, 0, 0)

  /** Days in the years before `y`, as datetime's _days_before_year computes them. */
  function DaysBeforeYear(y: int): int
    requires 1 <= y
  {
    var n := y - 1;
    n * 365 + n / 4 - n / 100 + n / 400
  }

  /**
   * Days in the months of year `y` before month `m`: datetime's
   * _days_before_month, whose table is the running sum of the month lengths.
   */
  function DaysBeforeMonth(y: int, m: int): int
    requires 1 <= m <= 12
  {
    if m == 1 then 0 else DaysBeforeMonth(y, m - 1) + DaysInMonth(y, m - 1)
  }

  /** The day number of a date: 0001-01-01 is day 1 (datetime.toordinal). */
  function Ordinal(d: DateTime): int
    requires ValidDate(d)
  {
    DaysBeforeYear(d.year) + DaysBeforeMonth(d.year, d.month) + d.day
  }

  /** The ISO weekday of day number o: day 1 (0001-01-01) is a Monday. */
  function WeekdayOf(o: int): (w: int)
    ensures 1 <= w <= 7
  {
    (o + 6) % 7 + 1
  }

  /** Monday is 1, Sunday is 7 (datetime.isoweekday). */
  function IsoWeekday(d: DateTime): (w: int)
    requires ValidDate(d)
    ensures 1 <= w <= 7
  {
    WeekdayOf(Ordinal(d))
  }

  lemma ModAddMultiple(q: int, t: int)
    ensures (7 * q + t) % 7 == t % 7
  {
    var p := t / 7;
    assert t == 7 * p + t % 7;
    assert 7 * q + t == 7 * (q + p) + t % 7;
  }

  /** Day number o is a Sunday exactly when it is a multiple of seven. */
  lemma WeekdayOfSunday(o: int)
    ensures WeekdayOf(o) == 7 <==> o % 7 == 0
  {
    ModAddMultiple(o / 7, o % 7 + 6);
    assert o + 6 == 7 * (o / 7) + (o % 7 + 6);
  }

  /** k days later is k weekdays further on, counted round the week. */
  lemma WeekdayOfShift(o: int, k: int)
    ensures WeekdayOf(o + k) == (WeekdayOf(o) - 1 + k) % 7 + 1
  {
    var q := (o + 6) / 7;
    assert o + 6 == 7 * q + (o + 6) % 7;
    ModAddMultiple(q, (o + 6) % 7 + k);
    assert o + k + 6 == 7 * q + ((o + 6) % 7 + k);
  }

  /** Sundays are exactly the days whose day number is a multiple of seven. */
  lemma SundayOrdinal(d: DateTime)
    requires ValidDate(d)
    ensures IsoWeekday(d) == 7 <==> Ordinal(d) % 7 == 0
  {
    WeekdayOfSunday(Ordinal(d));
  }

  /** A date k days after another falls k weekdays further on. */
  lemma IsoWeekdayShift(a: DateTime, b: DateTime, k: int)
    requires ValidDate(a) && ValidDate(b) && Ordinal(b) == Ordinal(a) + k
    ensures IsoWeekday(b) == (IsoWeekday(a) - 1 + k) % 7 + 1
  {
    WeekdayOfShift(Ordinal(a), k);
  }

  /** 2007-01-01, the first day of the archive, was a Monday. */
  lemma FirstDayIsMonday()
    ensures IsoWeekday(DateTime(2007, 1, 1, 0, 0, 0)) == 1
  {
    assert DaysBeforeYear(2007) == 732676;
  }

  /** 2023-12-31 was a Sunday. */
  lemma NewYearsEveIsSunday()
    ensures IsoWeekday(DateTime(2023, 12, 31, 0, 0, 0)) == 7
  {
    assert DaysBeforeYear(2023) == 738520;
    assert DaysBeforeMonth(2023, 12) == 334;
  }

  /** Seconds counted from the start of day number 0 (the day before day 1); the order of instants in the single zone. */
  function Seconds(d: Instant): int {
    Ordinal(d) * 86400 + d.hour * 3600 + d.minute * 60 + d.second
  }

  /** `a < b` on aware datetimes of one fixed offset. */
  predicate Before(a: Instant, b: Instant) {
    Seconds(a) < Seconds(b)
  }

  /** `a <= b` on aware datetimes of one fixed offset. */
  predicate AtOrBefore(a: Instant, b: Instant) {
    Seconds(a) <= Seconds(b)
  }

  /** The same date at midnight plus `second` seconds: `replace(hour=0, minute=0)`. */
  function StartOfDay(d: Instant): (r: Instant)
    ensures r.year == d.year && r.month == d.month && r.day == d.day
    ensures r.hour == 0 && r.minute == 0 && r.second == d.second
  {
    d.(hour := 0, minute := 0)
  }

  /** The following calendar date, time of day unchanged. */
  function NextDay(d: Instant): (r: Instant) {
    if d.day < DaysInMonth(d.year, d.month) then d.(day := d.day + 1)
    else if d.month < 12 then d.(month := d.month + 1, day := 1)
    else d.(year := d.year + 1, month := 1, day := 1)
  }

  /** `d + timedelta(days=n)`, one day at a time. */
  function AddDays(d: Instant, n: nat): (r: Instant)
    ensures r.hour == d.hour && r.minute == d.minute && r.second == d.second
    decreases n
  {
    if n == 0 then d else AddDays(NextDay(d), n - 1)
  }

  /** The first day of the month after the one `d` falls in, at midnight plus d.second. */
  function NextMonthStart(d: Instant): (r: Instant)
    ensures r.day == 1 && r.hour == 0 && r.minute == 0 && r.second == d.second
  {
    var (carry, month) := (d.month / 12, d.month % 12);
    DateTime(d.year + carry, month + 1, 1, 0, 0, d.second)
  }

  /** 1 for true, 0 for false. */
  function Indicator(b: bool): int {
    if b then 1 else 0
  }

  /** Integer division by 4, 100 and 400 grows by one exactly at the multiples. */
  lemma DivStep(y: int)
    ensures y / 4 - (y - 1) / 4 == Indicator(y % 4 == 0)
    ensures y / 100 - (y - 1) / 100 == Indicator(y % 100 == 0)
    ensures y / 400 - (y - 1) / 400 == Indicator(y % 400 == 0)
  {
  }

  lemma DivisibleBy100(y: int)
    requires y % 400 == 0
    ensures y % 100 == 0
  {
    assert y == 100 * (4 * (y / 400));
  }

  lemma DivisibleBy4(y: int)
    requires y % 100 == 0
    ensures y % 4 == 0
  {
    assert y == 4 * (25 * (y / 100));
  }

  /** The Gregorian leap rule as a count: one day for every 4th year, less every 100th, plus every 400th. */
  lemma LeapDays(y: int)
    ensures DaysInYear(y) == 365 + Indicator(y % 4 == 0) - Indicator(y % 100 == 0) + Indicator(y % 400 == 0)
  {
    if y % 400 == 0 {
      DivisibleBy100(y);
    }
    if y % 100 == 0 {
      DivisibleBy4(y);
    }
  }

  lemma DaysBeforeYearStep(y: int)
    requires 1 <= y
    ensures DaysBeforeYear(y + 1) == DaysBeforeYear(y) + DaysInYear(y)
  {
    DivStep(y);
    LeapDays(y);
  }

  /** The twelve months together make up the year. */
  lemma MonthsMakeYear(y: int)
    ensures DaysBeforeMonth(y, 12) + DaysInMonth(y, 12) == DaysInYear(y)
  {
    var leap := Indicator(IsLeapYear(y));
    assert DaysBeforeMonth(y, 2) == 31;
    assert DaysBeforeMonth(y, 3) == 59 + leap;
    assert DaysBeforeMonth(y, 4) == 90 + leap;
    assert DaysBeforeMonth(y, 5) == 120 + leap;
    assert DaysBeforeMonth(y, 6) == 151 + leap;
    assert DaysBeforeMonth(y, 7) == 181 + leap;
    assert DaysBeforeMonth(y, 8) == 212 + leap;
    assert DaysBeforeMonth(y, 9) == 243 + leap;
    assert DaysBeforeMonth(y, 10) == 273 + leap;
    assert DaysBeforeMonth(y, 11) == 304 + leap;
    assert DaysBeforeMonth(y, 12) == 334 + leap;
  }

  /** The day after a date has the next day number. */
  lemma NextDayOrdinal(d: Instant)
    ensures Ordinal(NextDay(d)) == Ordinal(d) + 1
  {
    if d.day == DaysInMonth(d.year, d.month) {
      if d.month == 12 {
        DaysBeforeYearStep(d.year);
        MonthsMakeYear(d.year);
      }
    }
  }

  /** Adding n days adds n to the day number, as timedelta arithmetic does. */
  lemma {:induction false} AddDaysOrdinal(d: Instant, n: nat)
    ensures Ordinal(AddDays(d, n)) == Ordinal(d) + n
    decreases n
  {
    if n > 0 {
      NextDayOrdinal(d);
      AddDaysOrdinal(NextDay(d), n - 1);
    }
  }

  /** The next month's first day is as many days away as remain in the month, plus one. */
  lemma NextMonthStartOrdinal(d: Instant)
    ensures Ordinal(NextMonthStart(d)) == Ordinal(d) + DaysInMonth(d.year, d.month) - d.day + 1
  {
    var r := NextMonthStart(d);
    if d.month < 12 {
      assert r == DateTime(d.year, d.month + 1, 1, 0, 0, d.second);
    } else {
      assert r == DateTime(d.year + 1, 1, 1, 0, 0, d.second);
      DaysBeforeYearStep(d.year);
      MonthsMakeYear(d.year);
    }
  }

  /** A later day number with the same or an earlier time of day is a later instant. */
  lemma LaterDayIsLater(a: Instant, b: Instant)
    requires Ordinal(a) < Ordinal(b)
    requires b.hour == 0 && b.minute == 0 && b.second == a.second
    ensures Before(a, b)
  {
  }

  /** Instants in order have day numbers in order. */
  lemma OrdinalOfOrdered(a: Instant, b: Instant)
    requires AtOrBefore(a, b)
    ensures Ordinal(a) <= Ordinal(b)
  {
  }
}
