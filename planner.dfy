/**
 * The crawl-window planner of ffs.py: from a cursor and the current time it
 * picks the largest complete calendar unit (month, week starting on Sunday, or
 * day) to fetch next, names it by a lower-case window id such as
 * `month=jan.2007` or `day=jan1.2007`, recovers the unit from that id, and
 * advances the cursor by it.
 *
 * The wall clock is a parameter: `now` is the current instant in the feed's
 * zone and `today` the current local date used by `dt_is_today`.
 */
module Planner {
  import opened Options
  import opened Calendar
  import opened Text

  datatype Mode = Month | Week | Day

  datatype PlanError =
    | InvalidMode(mode: string)   // ValueError: not a proper mode
    | NotCompleted(id: string)    // ValueError: the day at the cursor is not completed yet

  function ModeName(m: Mode): string {
    match m
    case Month => "month"
    case Week => "week"
    case Day => "day"
  }

  function ParseMode(s: string): (r: Option<Mode>)
    ensures r.Some? <==> s == "month" || s == "week" || s == "day"
    ensures r.Some? ==> ModeName(r.value) == s
  {
    if s == "month" then Some(Month)
    else if s == "week" then Some(Week)
    else if s == "day" then Some(Day)
    else None
  }

  /** get_next_dt for a mode it accepts: the start of the following unit. */
  function Advance(d: Instant, m: Mode): (r: Instant)
    ensures r.hour == 0 && r.minute == 0 && r.second == d.second
    ensures Before(d, r)
    ensures m == Month ==> r.day == 1 && r.year * 12 + r.month == d.year * 12 + d.month + 1
    ensures m == Week ==> Ordinal(r) == Ordinal(d) + 7
    ensures m == Day ==> Ordinal(r) == Ordinal(d) + 1
  {
    match m
    case Month =>
      NextMonthStartOrdinal(d);
      LaterDayIsLater(d, NextMonthStart(d));
      NextMonthStart(d)
    case Week =>
      AddDaysOrdinal(StartOfDay(d), 7);
      LaterDayIsLater(d, AddDays(StartOfDay(d), 7));
      AddDays(StartOfDay(d), 7)
    case Day =>
      AddDaysOrdinal(StartOfDay(d), 1);
      LaterDayIsLater(d, AddDays(StartOfDay(d), 1));
      AddDays(StartOfDay(d), 1)
  }

  /**
   * get_next_dt(date, mode): day 1 of the next month, or the date seven or one
   * days on; hour and minute reset, seconds carried; any other mode is refused.
   */
  function GetNextDt(d: Instant, mode: string): (r: Result<Instant, PlanError>)
    ensures r.Err? <==> !(mode == "month" || mode == "week" || mode == "day")
    ensures r.Err? ==> r.error == InvalidMode(mode)
    ensures r.Ok? ==> Before(d, r.value)
    ensures r.Ok? ==> r.value.hour == 0 && r.value.minute == 0 && r.value.second == d.second
    ensures mode == "month" ==>
      r.Ok? && r.value.day == 1 && r.value.year * 12 + r.value.month == d.year * 12 + d.month + 1
    ensures mode == "week" ==> r.Ok? && Ordinal(r.value) == Ordinal(d) + 7
    ensures mode == "day" ==> r.Ok? && Ordinal(r.value) == Ordinal(d) + 1
  {
    match ParseMode(mode)
    case Some(m) => Ok(Advance(d, m))
    case None => Err(InvalidMode(mode))
  }

  /** The month part of a window id: the abbreviation after `.lower()`. */
  function MonthId(m: int): string
    requires 1 <= m <= 12
  {
    if m == 1 then "jan" else if m == 2 then "feb" else if m == 3 then "mar"
    else if m == 4 then "apr" else if m == 5 then "may" else if m == 6 then "jun"
    else if m == 7 then "jul" else if m == 8 then "aug" else if m == 9 then "sep"
    else if m == 10 then "oct" else if m == 11 then "nov" else "dec"
  }

  /** strftime('%b') in the C locale: the month id with a capital first letter ("Jan"). */
  function MonthAbbr(m: int): string
    requires 1 <= m <= 12
  {
    MonthIdLetters(m);
    var id := MonthId(m);
    [(id[0] as int - 32) as char] + id[1..]
  }

  /** Lowering the abbreviation gives back the month id. */
  lemma LowerMonthAbbr(m: int)
    requires 1 <= m <= 12
    ensures Lower(MonthAbbr(m)) == MonthId(m)
  {
    MonthIdLetters(m);
    var id, a := MonthId(m), MonthAbbr(m);
    assert |Lower(a)| == 3;
    assert forall i :: 0 <= i < 3 ==> Lower(a)[i] == LowerChar(a[i]);
    assert LowerChar(a[0]) == id[0];
    assert a[1] == id[1] && a[2] == id[2];
  }

  /** Every month id is three lower-case letters. */
  lemma MonthIdLetters(m: int)
    requires 1 <= m <= 12
    ensures |MonthId(m)| == 3
    ensures forall i :: 0 <= i < 3 ==> 'a' <= MonthId(m)[i] <= 'z'
  {
  }

  /**
   * dt_to_str for a mode it accepts: `mmm.yyyy` for a month (strftime
   * '%b.%Y'), `mmmD.yyyy` for a week or a day ('{d:%b}{d.day}.{d:%Y}'), both
   * lowered; lowering leaves the digits and the dot as they are.
   */
  function Format(d: Instant, m: Mode): string {
    match m
    case Month => MonthId(d.month) + "." + NatStr(d.year)
    case Week => MonthId(d.month) + NatStr(d.day) + "." + NatStr(d.year)
    case Day => MonthId(d.month) + NatStr(d.day) + "." + NatStr(d.year)
  }

  /** Format is the lowered strftime text. */
  lemma FormatIsLowered(d: Instant)
    ensures Format(d, Month) == Lower(MonthAbbr(d.month) + "." + NatStr(d.year))
    ensures Format(d, Day) == Lower(MonthAbbr(d.month) + NatStr(d.day) + "." + NatStr(d.year))
    ensures Format(d, Week) == Format(d, Day)
  {
    var abbr, ys, ds := MonthAbbr(d.month), NatStr(d.year), NatStr(d.day);
    LowerMonthAbbr(d.month);
    LowerDigits(ys);
    LowerDigits(ds);
    assert Lower(".") == ".";
    LowerConcat(abbr + ".", ys);
    LowerConcat(abbr, ".");
    LowerConcat(abbr + ds + ".", ys);
    LowerConcat(abbr + ds, ".");
    LowerConcat(abbr, ds);
  }

  /** dt_to_str(date, mode) */
  function DtToStr(d: Instant, mode: string): (r: Result<string, PlanError>)
    ensures r.Err? <==> !(mode == "month" || mode == "week" || mode == "day")
    ensures r.Err? ==> r.error == InvalidMode(mode)
    ensures r.Ok? ==> r.value == Format(d, ParseMode(mode).value)
  {
    match ParseMode(mode)
    case Some(m) => Ok(Format(d, m))
    case None => Err(InvalidMode(mode))
  }

  /** The month whose id is `s`. */
  function MonthOfId(s: string): (r: Option<int>)
    ensures r.Some? ==> 1 <= r.value <= 12
  {
    if |s| != 3 then None
    else
      var key := (s[0], s[1], s[2]);
      if key == ('j', 'a', 'n') then Some(1) else if key == ('f', 'e', 'b') then Some(2)
      else if key == ('m', 'a', 'r') then Some(3) else if key == ('a', 'p', 'r') then Some(4)
      else if key == ('m', 'a', 'y') then Some(5) else if key == ('j', 'u', 'n') then Some(6)
      else if key == ('j', 'u', 'l') then Some(7) else if key == ('a', 'u', 'g') then Some(8)
      else if key == ('s', 'e', 'p') then Some(9) else if key == ('o', 'c', 't') then Some(10)
      else if key == ('n', 'o', 'v') then Some(11) else if key == ('d', 'e', 'c') then Some(12)
      else None
  }

  lemma MonthOfIdRoundTrip(m: int)
    requires 1 <= m <= 12
    ensures MonthOfId(MonthId(m)) == Some(m)
  {
  }

  /** The position of the first '.' in s, or |s| if there is none. */
  function DotIndex(s: string): (k: nat)
    ensures k <= |s| && (k < |s| ==> s[k] == '.')
    ensures forall i :: 0 <= i < k ==> s[i] != '.'
  {
    if s == [] || s[0] == '.' then 0 else 1 + DotIndex(s[1..])
  }

  /** Reads a month id `mmm.yyyy` back into (year, month). */
  function ParseMonthId(id: string): Option<(int, int)> {
    if |id| < 4 || id[3] != '.' then None
    else match (MonthOfId(id[..3]), ParseNat(id[4..]))
      case (Some(m), Some(y)) => Some((y, m))
      case _ => None
  }

  /** Reads a week or day id `mmmD.yyyy` back into (year, month, day). */
  function ParseDayId(id: string): Option<(int, int, int)> {
    if |id| < 3 then None
    else
      var rest := id[3..];
      var k := DotIndex(rest);
      if k == |rest| then None
      else match (MonthOfId(id[..3]), ParseNat(rest[..k]), ParseNat(rest[k + 1..]))
        case (Some(m), Some(day), Some(y)) => Some((y, m, day))
        case _ => None
  }

  lemma LowerDigits(s: string)
    requires AllDigits(s)
    ensures Lower(s) == s
  {
  }

  lemma LowerConcat(a: string, b: string)
    ensures Lower(a + b) == Lower(a) + Lower(b)
  {
    assert forall i :: 0 <= i < |a + b| ==> Lower(a + b)[i] == (Lower(a) + Lower(b))[i];
  }

  lemma NoDotInDigits(s: string)
    requires AllDigits(s)
    ensures DotIndex(s + "." ) == |s|
  {
    var t := s + ".";
    assert forall i :: 0 <= i < |s| ==> t[i] != '.';
    assert t[|s|] == '.';
  }

  lemma ParseMonthIdOf(la: string, ys: string, month: int, year: nat)
    requires |la| == 3 && MonthOfId(la) == Some(month) && ParseNat(ys) == Some(year)
    ensures ParseMonthId(la + "." + ys) == Some((year, month))
  {
    var id := la + "." + ys;
    assert id[..3] == la && id[3] == '.' && id[4..] == ys;
  }

  lemma ParseDayIdOf(la: string, ds: string, ys: string, month: int, day: nat, year: nat)
    requires |la| == 3 && MonthOfId(la) == Some(month)
    requires ParseNat(ds) == Some(day) && ParseNat(ys) == Some(year)
    ensures ParseDayId(la + ds + "." + ys) == Some((year, month, day))
  {
    var id := la + ds + "." + ys;
    assert id[..3] == la;
    var rest := id[3..];
    assert rest == (ds + ".") + ys;
    NoDotInDigits(ds);
    DotIndexPrefix(ds + ".", ys);
    assert rest[..|ds|] == ds && rest[|ds| + 1..] == ys;
  }

  /** A window id reads back into the calendar fields it was made from. */
  lemma FormatRoundTrip(d: Instant)
    ensures ParseMonthId(Format(d, Month)) == Some((d.year, d.month))
    ensures ParseDayId(Format(d, Day)) == Some((d.year, d.month, d.day))
    ensures ParseDayId(Format(d, Week)) == Some((d.year, d.month, d.day))
  {
    MonthIdLetters(d.month);
    MonthOfIdRoundTrip(d.month);
    NatStrRoundTrip(d.year);
    NatStrRoundTrip(d.day);
    var la := MonthId(d.month);
    ParseMonthIdOf(la, NatStr(d.year), d.month, d.year);
    ParseDayIdOf(la, NatStr(d.day), NatStr(d.year), d.month, d.day, d.year);
  }

  lemma {:induction false} DotIndexPrefix(a: string, b: string)
    requires DotIndex(a) < |a|
    ensures DotIndex(a + b) == DotIndex(a)
  {
    if a[0] != '.' {
      assert (a + b)[1..] == a[1..] + b;
      DotIndexPrefix(a[1..], b);
    }
  }

  /** dt_is_complete(date, mode): the unit starting at `d` has ended by `now`. */
  predicate DtIsComplete(d: Instant, m: Mode, now: Instant) {
    AtOrBefore(Advance(d, m), now)
  }

  /** dt_is_start_of_week(date): isoweekday() % 7 == 0, i.e. a Sunday. */
  predicate DtIsStartOfWeek(d: Instant) {
    IsoWeekday(d) % 7 == 0
  }

  /** dt_is_start_of_month(date) */
  predicate DtIsStartOfMonth(d: Instant) {
    d.day == 1
  }

  /** dt_is_today(date), against the local calendar date `today`. */
  predicate DtIsToday(d: Instant, today: Instant) {
    today.year == d.year && today.month == d.month && today.day == d.day
  }

  /** The week branch's list comprehension: some day of the week starting at `d` is a 1st. */
  predicate WeekHasMonthStart(d: Instant, now: Instant) {
    exists x :: 0 <= x < 7 && DtIsStartOfMonth(AddDays(d, x)) && DtIsComplete(d, Month, now)
  }

  /**
   * The unit dt_to_url chooses: a month when the cursor is a 1st and that month
   * is over, else a week when it is a Sunday and that week is over (narrowed to
   * a day when a 1st falls inside the week), else a day when the day is over or
   * is today; None when no window is ready.
   */
  function WindowUnit(d: Instant, now: Instant, today: Instant): (r: Option<Mode>)
    ensures r.Some? <==> DtIsComplete(d, Day, now) || DtIsToday(d, today)
  {
    LongerUnitsEndLater(d);
    if DtIsStartOfMonth(d) && DtIsComplete(d, Month, now) then Some(Month)
    else if DtIsStartOfWeek(d) && DtIsComplete(d, Week, now) then
      if WeekHasMonthStart(d, now) then Some(Day) else Some(Week)
    else if DtIsComplete(d, Day, now) || DtIsToday(d, today) then Some(Day)
    else None
  }

  /** The relative url that fetches the window of unit `m` starting at `d`. */
  function Url(m: Mode, d: Instant): string {
    "calendar.php?" + ModeName(m) + "=" + Format(d, m)
  }

  /** dt_to_url(date): the url of the chosen window, or ValueError when none is ready. */
  function DtToUrl(d: Instant, now: Instant, today: Instant): (r: Result<string, PlanError>)
    ensures r.Ok? <==> DtIsComplete(d, Day, now) || DtIsToday(d, today)
    ensures r.Err? ==> r.error == NotCompleted(Format(d, Day))
    ensures r.Ok? ==> r.value == Url(WindowUnit(d, now, today).value, d)
  {
    match WindowUnit(d, now, today)
    case Some(m) => Ok(Url(m, d))
    case None => Err(NotCompleted(Format(d, Day)))
  }

  /** A month or a week starting at `d` never ends before the day starting at `d`. */
  lemma LongerUnitsEndLater(d: Instant)
    ensures AtOrBefore(Advance(d, Day), Advance(d, Week))
    ensures AtOrBefore(Advance(d, Day), Advance(d, Month))
  {
    NextMonthStartOrdinal(d);
  }

  /** Days inside the month keep the month: d + x is the (day + x)-th. */
  lemma {:induction false} AddDaysWithinMonth(d: Instant, x: nat)
    requires d.day + x <= DaysInMonth(d.year, d.month)
    ensures AddDays(d, x) == d.(day := d.day + x)
    decreases x
  {
    if x > 0 {
      AddDaysWithinMonth(NextDay(d), x - 1);
    }
  }

  /**
   * A 1st that falls on one of the six days after `d` is the start of the month
   * after d's, and is no later than d + 7 days.
   */
  lemma FirstInsideWeek(d: Instant, x: nat)
    requires 1 <= x < 7 && AddDays(d, x).day == 1
    ensures Ordinal(NextMonthStart(d)) <= Ordinal(d) + x
  {
    NextMonthStartOrdinal(d);
    if d.day + x <= DaysInMonth(d.year, d.month) {
      AddDaysWithinMonth(d, x);
      assert false;
    }
  }

  /** Sunday windows of a whole week never reach into another month. */
  predicate StaysInMonth(d: Instant) {
    forall x :: 1 <= x < 7 ==> AddDays(d, x).day != 1
  }

  /** When a complete week holds a later 1st, the month before that 1st is complete too. */
  lemma NarrowingWhenMonthStartInside(d: Instant, now: Instant)
    requires DtIsComplete(d, Week, now) && !StaysInMonth(d)
    ensures WeekHasMonthStart(d, now)
  {
    var x :| 1 <= x < 7 && AddDays(d, x).day == 1;
    FirstInsideWeek(d, x);
    assert DtIsComplete(d, Month, now);
    assert DtIsStartOfMonth(AddDays(d, x));
  }

  /** dt_to_url picks the month window exactly when the cursor is a 1st and that month is over. */
  lemma MonthWindowIff(d: Instant, now: Instant, today: Instant)
    ensures WindowUnit(d, now, today) == Some(Month) <==> d.day == 1 && DtIsComplete(d, Month, now)
  {
  }

  /**
   * dt_to_url picks the week window exactly when the cursor is a Sunday, the
   * week is over, none of the six following days is a 1st, and the cursor is
   * not the 1st of a month that is over.
   */
  lemma WeekWindowIff(d: Instant, now: Instant, today: Instant)
    ensures WindowUnit(d, now, today) == Some(Week) <==>
      && DtIsStartOfWeek(d)
      && DtIsComplete(d, Week, now)
      && StaysInMonth(d)
      && !(d.day == 1 && DtIsComplete(d, Month, now))
  {
    if DtIsStartOfWeek(d) && DtIsComplete(d, Week, now) && !StaysInMonth(d) {
      NarrowingWhenMonthStartInside(d, now);
    }
    if StaysInMonth(d) && !(d.day == 1 && DtIsComplete(d, Month, now)) {
      assert AddDays(d, 0) == d;
      assert !WeekHasMonthStart(d, now);
    }
  }

  /**
   * get_mode(url): the text between a '?' and the last '=' after it (the regex
   * `(?<=\?).*(?=\=)`, whose `.` does not cross a newline); None when no such
   * text exists.
   */
  function GetMode(url: string): Option<string> {
    SearchFrom(url, 0)
  }

  /** The leftmost regex match starting at position p or later. */
  function SearchFrom(url: string, p: nat): Option<string>
    requires p <= |url|
    decreases |url| - p
  {
    var last := if p >= 1 && url[p - 1] == '?' then LastEquals(url, p, None) else None;
    if last.Some? then Some(url[p..last.value])
    else if p == |url| then None
    else SearchFrom(url, p + 1)
  }

  /** The last '=' at position k or later that `.*` can reach from k without crossing a newline. */
  function LastEquals(url: string, k: nat, last: Option<nat>): (r: Option<nat>)
    requires k <= |url|
    requires last.Some? ==> last.value < k
    ensures r.Some? ==> r.value < |url| && (r == last || k <= r.value)
    decreases |url| - k
  {
    if k == |url| || url[k] == '\n' then last
    else LastEquals(url, k + 1, if url[k] == '=' then Some(k) else last)
  }

  lemma {:induction false} LastEqualsSkips(url: string, k: nat, j: nat, last: Option<nat>)
    requires k <= j <= |url|
    requires last.Some? ==> last.value < k
    requires forall i :: k <= i < j ==> url[i] != '=' && url[i] != '\n'
    ensures LastEquals(url, k, last) == LastEquals(url, j, last)
    decreases j - k
  {
    if k < j {
      LastEqualsSkips(url, k + 1, j, last);
    }
  }

  lemma {:induction false} LastEqualsTail(url: string, k: nat, last: Option<nat>)
    requires k <= |url|
    requires last.Some? ==> last.value < k
    requires forall i :: k <= i < |url| ==> url[i] != '='
    ensures LastEquals(url, k, last) == last
    decreases |url| - k
  {
    if k < |url| && url[k] != '\n' {
      LastEqualsTail(url, k + 1, last);
    }
  }

  lemma {:induction false} SearchSkips(url: string, p: nat, q: nat)
    requires p <= q <= |url|
    requires forall i :: 0 <= i < q - 1 ==> url[i] != '?'
    ensures SearchFrom(url, p) == SearchFrom(url, q)
    decreases q - p
  {
    if p < q {
      SearchSkips(url, p + 1, q);
    }
  }

  /** get_mode recovers the unit name from any `calendar.php?<name>=<id>` url. */
  lemma GetModeOfQuery(name: string, id: string)
    requires NoChar(name, '=') && NoChar(name, '\n') && NoChar(id, '=')
    ensures GetMode("calendar.php?" + name + "=" + id) == Some(name)
  {
    var url := "calendar.php?" + name + "=" + id;
    var j := 13 + |name|;
    assert url[12] == '?' && url[j] == '=';
    SearchSkips(url, 0, 13);
    LastEqualsSkips(url, 13, j, None);
    LastEqualsTail(url, j + 1, Some(j));
    assert url[13..j] == name;
  }

  /** A window id has no '=' in it. */
  lemma FormatHasNoEquals(d: Instant, m: Mode)
    ensures NoChar(Format(d, m), '=')
  {
    MonthIdLetters(d.month);
    var la, ds, ys := MonthId(d.month), NatStr(d.day), NatStr(d.year);
    DigitsHaveNo(ds, '=');
    DigitsHaveNo(ys, '=');
    assert NoChar(".", '=');
    NoCharConcat(la, ".", '=');
    NoCharConcat(la + ".", ys, '=');
    NoCharConcat(la, ds, '=');
    NoCharConcat(la + ds, ".", '=');
    NoCharConcat(la + ds + ".", ys, '=');
  }

  /**
   * Whatever window dt_to_url names, get_mode reads back that window's unit,
   * and get_next_dt with that unit advances the cursor to the unit's end.
   */
  lemma UrlRoundTrip(m: Mode, d: Instant)
    ensures GetMode(Url(m, d)) == Some(ModeName(m))
    ensures ParseMode(ModeName(m)) == Some(m)
    ensures GetNextDt(d, ModeName(m)) == Ok(Advance(d, m))
  {
    FormatHasNoEquals(d, m);
    GetModeOfQuery(ModeName(m), Format(d, m));
  }

  /** A Sunday cursor advanced by a week is again a Sunday, and the days between are not. */
  lemma WeekStartsRecur(d: Instant)
    requires DtIsStartOfWeek(d)
    ensures DtIsStartOfWeek(Advance(d, Week))
    ensures forall x :: 1 <= x < 7 ==> !DtIsStartOfWeek(AddDays(d, x))
  {
    WeekdayAfter(d, Advance(d, Week), 7);
    forall x | 1 <= x < 7
      ensures !DtIsStartOfWeek(AddDays(d, x))
    {
      NotSundayWithinWeek(d, x);
    }
  }

  lemma NotSundayWithinWeek(d: Instant, x: nat)
    requires DtIsStartOfWeek(d) && 1 <= x < 7
    ensures IsoWeekday(AddDays(d, x)) == x
    ensures !DtIsStartOfWeek(AddDays(d, x))
  {
    AddDaysOrdinal(d, x);
    WeekdayAfter(d, AddDays(d, x), x);
  }

  /** The day k days after a Sunday, for k from 1 to 7, has weekday k (Sunday being 7). */
  lemma WeekdayAfter(d: Instant, e: Instant, k: int)
    requires DtIsStartOfWeek(d) && 1 <= k <= 7 && Ordinal(e) == Ordinal(d) + k
    ensures IsoWeekday(e) == k
  {
    IsoWeekdayShift(d, e, k);
    assert IsoWeekday(d) == 7;
    WeekWrap(k);
  }

  lemma WeekWrap(k: int)
    requires 1 <= k <= 7
    ensures (7 - 1 + k) % 7 + 1 == k
  {
  }

  /** A window is only planned for a cursor whose day has begun by `now` or is today. */
  lemma PlannedDayNotInFuture(d: Instant, now: Instant, today: Instant)
    requires WindowUnit(d, now, today).Some?
    ensures Ordinal(d) < Ordinal(now) || Ordinal(d) == Ordinal(today)
  {
    if DtIsComplete(d, Day, now) {
      OrdinalOfOrdered(Advance(d, Day), now);
    }
  }

  /** Starting from 2007-01-01 (a Monday) with now 2007-01-08 12:00, the first window is that day. */
  lemma FirstWindowOfTheArchive()
    ensures var d: Instant := DateTime(2007, 1, 1, 0, 0, 0);
      var now: Instant := DateTime(2007, 1, 8, 12, 0, 0);
      WindowUnit(d, now, now) == Some(Day)
  {
    var d: Instant := DateTime(2007, 1, 1, 0, 0, 0);
    var now: Instant := DateTime(2007, 1, 8, 12, 0, 0);
    assert Ordinal(d) == 732677;
    assert !DtIsStartOfWeek(d);
    assert Advance(d, Month) == DateTime(2007, 2, 1, 0, 0, 0);
    assert !DtIsComplete(d, Month, now);
    assert Advance(d, Day) == DateTime(2007, 1, 2, 0, 0, 0) by {
      assert NextDay(StartOfDay(d)) == DateTime(2007, 1, 2, 0, 0, 0);
    }
    assert DtIsComplete(d, Day, now);
  }

  /** The id of the day window for 2007-01-01. */
  lemma FirstWindowUrl()
    ensures Url(Day, DateTime(2007, 1, 1, 0, 0, 0)) == "calendar.php?day=jan1.2007"
  {
    assert NatStr(2007) == "2007" by {
      assert NatStr(2) == "2";
      assert NatStr(20) == "20";
      assert NatStr(200) == "200";
    }
    assert NatStr(1) == "1";
  }

  /** With now 2020-03-15 10:00, March 2020 is not yet a month window. */
  lemma CurrentMonthNotPlanned()
    ensures var now: Instant := DateTime(2020, 3, 15, 10, 0, 0);
      WindowUnit(DateTime(2020, 3, 1, 0, 0, 0), now, now) != Some(Month)
  {
    var d: Instant := DateTime(2020, 3, 1, 0, 0, 0);
    var now: Instant := DateTime(2020, 3, 15, 10, 0, 0);
    assert Advance(d, Month) == DateTime(2020, 4, 1, 0, 0, 0);
    assert !DtIsComplete(d, Month, now);
    MonthWindowIff(d, now, now);
  }

  /** With now 2020-03-15 10:00, January 2020 is a month window. */
  lemma PastMonthPlanned()
    ensures var now: Instant := DateTime(2020, 3, 15, 10, 0, 0);
      WindowUnit(DateTime(2020, 1, 1, 0, 0, 0), now, now) == Some(Month)
  {
    var d: Instant := DateTime(2020, 1, 1, 0, 0, 0);
    var now: Instant := DateTime(2020, 3, 15, 10, 0, 0);
    assert Advance(d, Month) == DateTime(2020, 2, 1, 0, 0, 0);
    assert DtIsComplete(d, Month, now);
    MonthWindowIff(d, now, now);
  }
}
