/**
 * Decoding of the two cells that carry the time of an event in the calendar
 * table of ffs.py: the date label, read with strptime in a given year, and the
 * time text, read as "All Day", a pending marker, or a 12-hour clock time.
 */
module Cells {
  import opened Options
  import opened Calendar
  import opened Text
  import opened Planner

  // ---------------------------------------------------------------------------
  // strptime(year + ',' + label, '%Y,%a%b %d')
  // ---------------------------------------------------------------------------

  /** strftime('%a') lowered: Monday is 1. */
  function WeekdayId(w: int): string
    requires 1 <= w <= 7
  {
    if w == 1 then "mon" else if w == 2 then "tue" else if w == 3 then "wed"
    else if w == 4 then "thu" else if w == 5 then "fri" else if w == 6 then "sat" else "sun"
  }

  /** `s` is a weekday abbreviation, compared without regard to case as strptime does. */
  predicate IsWeekdayId(s: string) {
    |s| == 3 &&
    var key := (s[0], s[1], s[2]);
    key == ('m', 'o', 'n') || key == ('t', 'u', 'e') || key == ('w', 'e', 'd') || key == ('t', 'h', 'u')
    || key == ('f', 'r', 'i') || key == ('s', 'a', 't') || key == ('s', 'u', 'n')
  }

  /** The `%d` field: one digit 1-9, or two digits from 01 to 31. */
  function DayField(s: string): (r: Option<int>)
    ensures r.Some? ==> 1 <= r.value <= 31
    ensures r.Some? <==> s != [] && AllDigits(s) && |s| <= 2 && 1 <= DigitsValue(s) <= 31
  {
    if s != [] && |s| <= 2 && AllDigits(s) && 1 <= DigitsValue(s) <= 31 then Some(DigitsValue(s)) else None
  }

  /**
   * The `%a%b %d` part of the format: a weekday and a month abbreviation (any
   * case), one or more whitespace characters, the day of the month. The weekday
   * is read but, as in strptime, not checked against the date.
   */
  function ParseLabel(text: string): (r: Option<(int, int)>)
    ensures r.Some? ==> 1 <= r.value.0 <= 12 && 1 <= r.value.1 <= 31
  {
    if |text| < 6 then None
    else
      var rest := text[6..];
      var digits := TrimLeft(rest);
      if !IsWeekdayId(Lower(text[..3])) || |digits| == |rest| then None
      else match (MonthOfId(Lower(text[3..6])), DayField(digits))
        case (Some(m), Some(day)) => Some((m, day))
        case _ => None
  }

  /**
   * datetime.strptime(str(year) + ',' + label, '%Y,%a%b %d'): `%Y` takes exactly
   * four digits, and a day past the end of the month is refused; None stands for
   * the ValueError.
   */
  function StrpDate(year: int, text: string): (r: Option<Instant>)
    ensures r.Some? ==> 1000 <= year <= 9999 && r.value.year == year
    ensures r.Some? ==> r.value.hour == 0 && r.value.minute == 0 && r.value.second == 0
  {
    if !(1000 <= year <= 9999) then None
    else match ParseLabel(text)
      case Some((m, day)) =>
        if day <= DaysInMonth(year, m) then Some(DateTime(year, m, day, 0, 0, 0)) else None
      case None => None
  }

  // ---------------------------------------------------------------------------
  // The time cell
  // ---------------------------------------------------------------------------

  /**
   * The time branch for a non-blank, stripped time text `t` and running date
   * `d`: "All Day" and other texts holding "Day" become 23:59:59, texts holding
   * "Data" the pending marker 00:00:01, anything else is read as a 12-hour clock
   * `h:mmam` / `hh:mmpm`. None stands for the ValueError of int() or of replace().
   */
  function DecodeTime(d: Instant, t: string): (r: Option<Instant>)
    ensures r.Some? ==> r.value.year == d.year && r.value.month == d.month && r.value.day == d.day
  {
    if Contains(t, "Day") then Some(d.(hour := 23, minute := 59, second := 59))
    else if Contains(t, "Data") then Some(d.(hour := 0, minute := 0, second := 1))
    else DecodeClock(d, t)
  }

  /**
   * `h:mmam` or `hh:mmpm`: a seven-character text has a two-digit hour, read by
   * int() from the first one or two characters; the minute is int() of the two
   * characters after the colon; "pm" is whatever follows them.
   */
  function ClockFields(t: string): (r: Option<(int, int)>)
    ensures r.Some? ==> 0 <= r.value.0 < 24 && 0 <= r.value.1 < 60
  {
    var i := if |t| == 7 then 1 else 0;
    ClockOf(PyInt(Slice(t, 0, 1 + i)), PyInt(Slice(t, 2 + i, 4 + i)), Slice(t, 4 + i, |t|) == "pm")
  }

  /**
   * The hour is the number read modulo 12, plus 12 in the afternoon; a minute
   * outside 0..59 makes replace() raise.
   */
  function ClockOf(hour: Option<int>, minute: Option<int>, pm: bool): (r: Option<(int, int)>)
    ensures r.Some? ==> 0 <= r.value.0 < 24 && 0 <= r.value.1 < 60
  {
    if hour.None? || minute.None? || !(0 <= minute.value < 60) then None
    else Some((hour.value % 12 + (if pm then 12 else 0), minute.value))
  }

  /** The clock branch: the running date at the time the text names, on a whole minute. */
  function DecodeClock(d: Instant, t: string): (r: Option<Instant>)
    ensures r.Some? ==> r.value.year == d.year && r.value.month == d.month && r.value.day == d.day
    ensures r.Some? ==> r.value.second == 0
  {
    match ClockFields(t)
    case Some((h, mi)) => Some(d.(hour := h, minute := mi, second := 0))
    case None => None
  }

  /** The usual 12-hour to 24-hour conversion: 12am is 0, 12pm is 12. */
  function Hour24(h: int, pm: bool): int
    requires 1 <= h <= 12
  {
    if h == 12 then (if pm then 12 else 0) else if pm then h + 12 else h
  }

  /** The minute as two digits. */
  function TwoDigits(m: nat): string
    requires m < 100
  {
    [DigitChar(m / 10), DigitChar(m % 10)]
  }

  function MeridiemText(pm: bool): string {
    if pm then "pm" else "am"
  }

  /** A time as the calendar shows it, e.g. "8:30am" or "12:05pm". */
  function ClockText(h: int, m: nat, pm: bool): string
    requires 1 <= h <= 12 && m < 60
  {
    NatStr(h) + ":" + TwoDigits(m) + MeridiemText(pm)
  }

  /** strftime('%a') in the C locale: the weekday id with a capital first letter ("Mon"). */
  function WeekdayAbbr(w: int): string
    requires 1 <= w <= 7
  {
    WeekdayIdLetters(w);
    var id := WeekdayId(w);
    [(id[0] as int - 32) as char] + id[1..]
  }

  /** Every weekday id is three lower-case letters and is recognised as one. */
  lemma WeekdayIdLetters(w: int)
    requires 1 <= w <= 7
    ensures |WeekdayId(w)| == 3 && IsWeekdayId(WeekdayId(w))
    ensures forall i :: 0 <= i < 3 ==> 'a' <= WeekdayId(w)[i] <= 'z'
  {
  }

  /** Lowering the abbreviation gives back the weekday id. */
  lemma LowerWeekdayAbbr(w: int)
    requires 1 <= w <= 7
    ensures Lower(WeekdayAbbr(w)) == WeekdayId(w)
  {
    WeekdayIdLetters(w);
    var id, a := WeekdayId(w), WeekdayAbbr(w);
    assert |Lower(a)| == 3;
    assert forall i :: 0 <= i < 3 ==> Lower(a)[i] == LowerChar(a[i]);
    assert LowerChar(a[0]) == id[0];
    assert a[1] == id[1] && a[2] == id[2];
  }

  /** The date label the calendar prints for a day, e.g. "MonJan 1" (the cell's line break removed). */
  function Label(w: int, m: int, day: nat): string
    requires 1 <= w <= 7 && 1 <= m <= 12
  {
    WeekdayAbbr(w) + MonthAbbr(m) + " " + NatStr(day)
  }

  /** Leading whitespace before a numeral is all that TrimLeft removes. */
  lemma TrimLeftBeforeDigits(s: string)
    requires s != [] && AllDigits(s)
    ensures TrimLeft(" " + s) == s
  {
    assert (" " + s)[1..] == s;
    assert !IsSpace(s[0]);
  }

  /** A printed label reads back as its month and day, whichever weekday it names. */
  lemma LabelRoundTrip(w: int, m: int, day: nat)
    requires 1 <= w <= 7 && 1 <= m <= 12 && 1 <= day <= 31
    ensures ParseLabel(Label(w, m, day)) == Some((m, day))
  {
    var text := Label(w, m, day);
    LabelSlices(w, m, day);
    WeekdayIdLetters(w);
    LowerWeekdayAbbr(w);
    LowerMonthAbbr(m);
    MonthOfIdRoundTrip(m);
    TrimLeftBeforeDigits(NatStr(day));
    DayFieldOfNatStr(day);
    ParseLabelOfParts(text, m, day);
  }

  lemma LabelSlices(w: int, m: int, day: nat)
    requires 1 <= w <= 7 && 1 <= m <= 12
    ensures var text := Label(w, m, day);
      |text| >= 6 && text[..3] == WeekdayAbbr(w) && text[3..6] == MonthAbbr(m) && text[6..] == " " + NatStr(day)
  {
    var wa, ma, ds := WeekdayAbbr(w), MonthAbbr(m), NatStr(day);
    var text := Label(w, m, day);
    MonthIdLetters(m);
    WeekdayIdLetters(w);
    assert text[..3] == wa && text[3..6] == ma;
    assert text[6..] == " " + ds;
  }

  /** The day of the month, printed, is read back by the `%d` field. */
  lemma DayFieldOfNatStr(day: nat)
    requires 1 <= day <= 31
    ensures DayField(NatStr(day)) == Some(day)
  {
    NatStrLength(day);
    NatStrRoundTrip(day);
  }

  /** ParseLabel, given what each of its three fields reads. */
  lemma ParseLabelOfParts(text: string, m: int, day: int)
    requires |text| >= 6 && IsWeekdayId(Lower(text[..3])) && MonthOfId(Lower(text[3..6])) == Some(m)
    requires |TrimLeft(text[6..])| != |text[6..]| && DayField(TrimLeft(text[6..])) == Some(day)
    ensures ParseLabel(text) == Some((m, day))
  {
  }

  /**
   * strptime accepts a printed label exactly when the day exists in that year's
   * month, and then yields that date at midnight.
   */
  lemma StrpDateOfLabel(year: int, w: int, m: int, day: nat)
    requires 1000 <= year <= 9999 && 1 <= w <= 7 && 1 <= m <= 12 && 1 <= day <= 31
    ensures StrpDate(year, Label(w, m, day)).Some? <==> day <= DaysInMonth(year, m)
    ensures StrpDate(year, Label(w, m, day)).Some? ==>
      StrpDate(year, Label(w, m, day)).value == DateTime(year, m, day, 0, 0, 0)
  {
    LabelRoundTrip(w, m, day);
  }

  /** A string none of whose characters starts `sub` does not contain it. */
  lemma {:induction false} NotContains(s: string, sub: string)
    requires sub != [] && NoChar(s, sub[0])
    ensures !Contains(s, sub)
    decreases |s|
  {
    if s != [] {
      NotContains(s[1..], sub);
      if |sub| <= |s| {
        assert s[..|sub|][0] == s[0];
      }
    }
  }

  /** Two digit characters read as a two-digit number. */
  lemma DigitPairValue(s: string)
    requires |s| == 2 && AllDigits(s)
    ensures DigitsValue(s) == (s[0] as int - '0' as int) * 10 + (s[1] as int - '0' as int)
  {
    assert s[..1][..0] == [];
    assert s[..1][0] == s[0];
    assert DigitsValue(s[..1]) == s[0] as int - '0' as int;
  }

  /** Two digits read back as the number they print. */
  lemma TwoDigitsValue(m: nat)
    requires m < 100
    ensures PyInt(TwoDigits(m)) == Some(m)
  {
    var s := TwoDigits(m);
    assert s[0] as int - '0' as int == m / 10;
    assert s[1] as int - '0' as int == m % 10;
    DigitPairValue(s);
    PyIntDigits(s);
  }

  /** The slices of a text made of four pieces. */
  lemma FourPieces(a: string, b: string, c: string, e: string)
    ensures var t := a + b + c + e;
      Slice(t, 0, |a|) == a && Slice(t, |a| + |b|, |a| + |b| + |c|) == c && Slice(t, |a| + |b| + |c|, |t|) == e
  {
    var t := a + b + c + e;
    assert t[..|a|] == a;
    assert t[|a| + |b|..|a| + |b| + |c|] == c;
    assert t[|a| + |b| + |c|..] == e;
  }

  /** A clock text holds no capital D, so neither "Day" nor "Data". */
  lemma ClockTextHasNoD(h: int, m: nat, pm: bool)
    requires 1 <= h <= 12 && m < 60
    ensures NoChar(ClockText(h, m, pm), 'D')
  {
    var hs, ms, ap := NatStr(h), TwoDigits(m), MeridiemText(pm);
    DigitsHaveNo(hs, 'D');
    DigitsHaveNo(ms, 'D');
    NoCharConcat(hs, ":", 'D');
    NoCharConcat(hs + ":", ms, 'D');
    NoCharConcat(hs + ":" + ms, ap, 'D');
  }

  /** The 12-hour reading of the clock branch agrees with the usual conversion. */
  lemma HourOfClock(h: int, pm: bool)
    requires 1 <= h <= 12
    ensures h % 12 + (if pm then 12 else 0) == Hour24(h, pm)
  {
  }

  /** The clock fields, named by the three slices of the text they are read from. */
  lemma ClockFieldsOfSlices(t: string, hs: string, ms: string, ap: string)
    requires var i := if |t| == 7 then 1 else 0;
      hs == Slice(t, 0, 1 + i) && ms == Slice(t, 2 + i, 4 + i) && ap == Slice(t, 4 + i, |t|)
    ensures ClockFields(t) == ClockOf(PyInt(hs), PyInt(ms), ap == "pm")
  {
  }

  /** The clock fields of a printed 12-hour time are the 24-hour hour and the minute it names. */
  lemma ClockFieldsOfText(h: int, m: nat, pm: bool)
    requires 1 <= h <= 12 && m < 60
    ensures ClockFields(ClockText(h, m, pm)) == Some((Hour24(h, pm), m))
  {
    var hs, ms, ap := NatStr(h), TwoDigits(m), MeridiemText(pm);
    var t := ClockText(h, m, pm);
    NatStrLength(h);
    FourPieces(hs, ":", ms, ap);
    ClockFieldsOfSlices(t, hs, ms, ap);
    PyIntOfNatStr(h);
    TwoDigitsValue(m);
    MeridiemIsPm(pm);
    HourOfClock(h, pm);
  }

  lemma MeridiemIsPm(pm: bool)
    ensures (MeridiemText(pm) == "pm") == pm
  {
    assert MeridiemText(pm)[0] == (if pm then 'p' else 'a');
  }

  /** The time branch reads a printed 12-hour clock time back as the 24-hour time it names. */
  lemma ClockRoundTrip(d: Instant, h: int, m: nat, pm: bool)
    requires 1 <= h <= 12 && m < 60
    ensures DecodeTime(d, ClockText(h, m, pm)) == Some(d.(hour := Hour24(h, pm), minute := m, second := 0))
  {
    var t := ClockText(h, m, pm);
    ClockTextHasNoD(h, m, pm);
    NotContains(t, "Day");
    NotContains(t, "Data");
    ClockFieldsOfText(h, m, pm);
  }

  /**
   * The decoded time carries the pending marker (second 1) exactly when the text
   * says "Data" and not "Day", at midnight; "Day" gives the last second of the day.
   */
  lemma PendingMarker(d: Instant, t: string)
    requires DecodeTime(d, t).Some?
    ensures DecodeTime(d, t).value.second == 1 <==> Contains(t, "Data") && !Contains(t, "Day")
    ensures Contains(t, "Day") ==>
      DecodeTime(d, t).value.hour == 23 && DecodeTime(d, t).value.minute == 59 && DecodeTime(d, t).value.second == 59
    ensures Contains(t, "Data") && !Contains(t, "Day") ==>
      DecodeTime(d, t).value.hour == 0 && DecodeTime(d, t).value.minute == 0
  {
  }

  /** A printed label has no surrounding whitespace and no line break. */
  lemma LabelIsPlain(w: int, m: int, day: nat)
    requires 1 <= w <= 7 && 1 <= m <= 12
    ensures Strip(Label(w, m, day)) == Label(w, m, day)
    ensures NoChar(Label(w, m, day), '\n')
  {
    var wa, ma, ds := WeekdayAbbr(w), MonthAbbr(m), NatStr(day);
    WeekdayIdLetters(w);
    MonthIdLetters(m);
    assert NoChar(wa, '\n') && NoChar(ma, '\n') && NoChar(" ", '\n');
    DigitsHaveNo(ds, '\n');
    NoCharConcat(wa, ma, '\n');
    NoCharConcat(wa + ma, " ", '\n');
    NoCharConcat(wa + ma + " ", ds, '\n');
    var text := Label(w, m, day);
    assert text[0] == wa[0] && text[|text| - 1] == ds[|ds| - 1];
    StripPlain(text);
  }

  /** A printed clock time has no surrounding whitespace. */
  lemma ClockTextIsPlain(h: int, m: nat, pm: bool)
    requires 1 <= h <= 12 && m < 60
    ensures Strip(ClockText(h, m, pm)) == ClockText(h, m, pm)
  {
    var t := ClockText(h, m, pm);
    assert t[0] == NatStr(h)[0] && t[|t| - 1] == 'm';
    StripPlain(t);
  }
}
