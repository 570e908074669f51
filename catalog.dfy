/**
 * Where a run of the scraper starts: the timestamp at the head of the last
 * line of the catalog file `forex_factory_catalog.csv`, or the archive's first
 * day when there is nothing to resume from.
 *
 * The catalog is a sequence of bytes. Its lines are written by the csv module
 * with "\r\n" terminators, and each starts with `str(datetime)` of an aware
 * timestamp, the 25 bytes "YYYY-MM-DD HH:MM:SS+HH:MM".
 */
module Catalog {
  import opened Options
  import opened Calendar

  newtype byte = x: int | 0 <= x < 256

  const NL: byte := 10
  const CR: byte := 13
  const SPACE: byte := 32
  const PLUS: byte := 43
  const DASH: byte := 45
  const COLON: byte := 58

  /** The first day of the archive, 2007-01-01 at midnight. */
  const Epoch: Instant := DateTime(2007, 1, 1, 0, 0, 0)

  // ---------------------------------------------------------------------------
  // Timestamps as text

  /** A UTC offset in whole minutes, as the zones of the feed have. */
  datatype Offset = Offset(negative: bool, hours: nat, minutes: nat)

  predicate ValidOffset(off: Offset) {
    off.hours < 24 && off.minutes < 60
  }

  function Digit(n: nat): (b: byte)
    requires n < 10
    ensures 48 <= b <= 57
  {
    (48 + n) as byte
  }

  predicate IsDigitByte(b: byte) {
    48 <= b <= 57
  }

  function DigitValue(b: byte): int {
    b as int - 48
  }

  /** The two-digit numeral at s[i], s[i + 1]. */
  function Two(s: seq<byte>, i: nat): int
    requires i + 1 < |s|
  {
    DigitValue(s[i]) * 10 + DigitValue(s[i + 1])
  }

  predicate TwoDigitsAt(s: seq<byte>, i: nat)
    requires i + 1 < |s|
  {
    IsDigitByte(s[i]) && IsDigitByte(s[i + 1])
  }

  /** The tens digit of a two-digit number. */
  function Hi(n: nat): (b: byte)
    requires n < 100
    ensures 48 <= b <= 57
  {
    Digit(n / 10)
  }

  /** The units digit of a two-digit number. */
  function Lo(n: nat): (b: byte)
    requires n < 100
    ensures 48 <= b <= 57
  {
    Digit(n % 10)
  }

  /**
   * str() of an aware datetime with no microseconds and a four-digit year:
   * "YYYY-MM-DD HH:MM:SS+HH:MM".
   */
  function IsoBytes(d: Instant, off: Offset): (r: seq<byte>)
    requires d.year <= 9999 && ValidOffset(off)
    ensures |r| == 25
  {
    var (century, y) := (d.year / 100, d.year % 100);
    [Hi(century), Lo(century), Hi(y), Lo(y), DASH, Hi(d.month), Lo(d.month), DASH, Hi(d.day), Lo(d.day), SPACE,
     Hi(d.hour), Lo(d.hour), COLON, Hi(d.minute), Lo(d.minute), COLON, Hi(d.second), Lo(d.second),
     if off.negative then DASH else PLUS, Hi(off.hours), Lo(off.hours), COLON, Hi(off.minutes), Lo(off.minutes)]
  }

  datatype ResumeError =
    | NotText   // bytes.decode() raises UnicodeDecodeError
    | NotIso    // datetime.fromisoformat raises ValueError

  /** Every byte is ASCII, so bytes.decode() succeeds and yields one character per byte. */
  predicate Ascii(s: seq<byte>) {
    forall i :: 0 <= i < |s| ==> s[i] < 128
  }

  /**
   * The 25-character form "YYYY-MM-DD?HH:MM:SS+HH:MM": digits, dashes and
   * colons in place, any separator between date and time, a signed offset.
   */
  predicate IsoShape(s: seq<byte>) {
    |s| == 25
    && TwoDigitsAt(s, 0) && TwoDigitsAt(s, 2) && s[4] == DASH
    && TwoDigitsAt(s, 5) && s[7] == DASH && TwoDigitsAt(s, 8)
    && TwoDigitsAt(s, 11) && s[13] == COLON && TwoDigitsAt(s, 14) && s[16] == COLON && TwoDigitsAt(s, 17)
    && (s[19] == PLUS || s[19] == DASH) && TwoDigitsAt(s, 20) && s[22] == COLON && TwoDigitsAt(s, 23)
  }

  /**
   * datetime.fromisoformat(s.decode()) for the form the catalog is written in:
   * the date must exist, the time of day be in range and the offset be
   * shorter than a day. The offset is checked and then dropped (one zone).
   */
  function ParseIso(s: seq<byte>): (r: Result<Instant, ResumeError>)
    ensures r.Ok? ==> Ascii(s) && IsoShape(s) && r.value.year <= 9999 && r.value.second == Two(s, 17)
  {
    if !Ascii(s) then Err(NotText)
    else if !IsoShape(s) then Err(NotIso)
    else
      var year := Two(s, 0) * 100 + Two(s, 2);
      var month := Two(s, 5);
      var day := Two(s, 8);
      var hour := Two(s, 11);
      var minute := Two(s, 14);
      var second := Two(s, 17);
      if 1 <= year && 1 <= month <= 12 && 1 <= day <= DaysInMonth(year, month)
        && hour < 24 && minute < 60 && second < 60 && Two(s, 20) * 60 + Two(s, 23) < 1440
      then Ok(DateTime(year, month, day, hour, minute, second))
      else Err(NotIso)
  }

  lemma TwoOfDigits(s: seq<byte>, i: nat, n: nat)
    requires i + 1 < |s| && n < 100 && s[i] == Hi(n) && s[i + 1] == Lo(n)
    ensures TwoDigitsAt(s, i) && Two(s, i) == n
  {
  }

  lemma IsoBytesAscii(d: Instant, off: Offset)
    requires d.year <= 9999 && ValidOffset(off)
    ensures Ascii(IsoBytes(d, off))
  {
    var s := IsoBytes(d, off);
    assert forall i :: 0 <= i < 25 ==> s[i] < 128;
  }

  lemma CenturySplit(y: int)
    requires 0 <= y < 10000
    ensures y / 100 < 100 && 100 * (y / 100) + y % 100 == y
  {
  }

  lemma IsoBytesYear(d: Instant, off: Offset)
    requires d.year <= 9999 && ValidOffset(off)
    ensures var s := IsoBytes(d, off);
      TwoDigitsAt(s, 0) && TwoDigitsAt(s, 2) && Two(s, 0) * 100 + Two(s, 2) == d.year
  {
    var s := IsoBytes(d, off);
    var (century, y) := (d.year / 100, d.year % 100);
    CenturySplit(d.year);
    TwoOfDigits(s, 0, century);
    TwoOfDigits(s, 2, y);
  }

  lemma IsoBytesDate(d: Instant, off: Offset)
    requires d.year <= 9999 && ValidOffset(off)
    ensures var s := IsoBytes(d, off);
      TwoDigitsAt(s, 5) && TwoDigitsAt(s, 8) && Two(s, 5) == d.month && Two(s, 8) == d.day
  {
    var s := IsoBytes(d, off);
    TwoOfDigits(s, 5, d.month);
    TwoOfDigits(s, 8, d.day);
  }

  lemma IsoBytesTime(d: Instant, off: Offset)
    requires d.year <= 9999 && ValidOffset(off)
    ensures var s := IsoBytes(d, off);
      TwoDigitsAt(s, 11) && TwoDigitsAt(s, 14) && TwoDigitsAt(s, 17) && TwoDigitsAt(s, 20) && TwoDigitsAt(s, 23)
      && Two(s, 11) == d.hour && Two(s, 14) == d.minute && Two(s, 17) == d.second
      && Two(s, 20) == off.hours && Two(s, 23) == off.minutes
  {
    var s := IsoBytes(d, off);
    TwoOfDigits(s, 11, d.hour);
    TwoOfDigits(s, 14, d.minute);
    TwoOfDigits(s, 17, d.second);
    TwoOfDigits(s, 20, off.hours);
    TwoOfDigits(s, 23, off.minutes);
  }

  /** The fields of a written timestamp sit where fromisoformat looks for them. */
  lemma IsoBytesFields(d: Instant, off: Offset)
    requires d.year <= 9999 && ValidOffset(off)
    ensures var s := IsoBytes(d, off);
      Ascii(s) && IsoShape(s)
      && Two(s, 0) * 100 + Two(s, 2) == d.year && Two(s, 5) == d.month && Two(s, 8) == d.day
      && Two(s, 11) == d.hour && Two(s, 14) == d.minute && Two(s, 17) == d.second
      && Two(s, 20) == off.hours && Two(s, 23) == off.minutes
  {
    IsoBytesAscii(d, off);
    IsoBytesYear(d, off);
    IsoBytesDate(d, off);
    IsoBytesTime(d, off);
  }

  /** fromisoformat of well-shaped text whose fields make a valid timestamp is that timestamp. */
  lemma ParseIsoOfFields(s: seq<byte>, d: Instant)
    requires Ascii(s) && IsoShape(s)
    requires Two(s, 0) * 100 + Two(s, 2) == d.year && Two(s, 5) == d.month && Two(s, 8) == d.day
    requires Two(s, 11) == d.hour && Two(s, 14) == d.minute && Two(s, 17) == d.second
    requires Two(s, 20) * 60 + Two(s, 23) < 1440
    ensures ParseIso(s) == Ok(d)
  {
  }

  /** What str() writes for a timestamp, fromisoformat reads back. */
  lemma IsoRoundTrip(d: Instant, off: Offset)
    requires d.year <= 9999 && ValidOffset(off)
    ensures ParseIso(IsoBytes(d, off)) == Ok(d)
  {
    IsoBytesFields(d, off);
    ParseIsoOfFields(IsoBytes(d, off), d);
  }

  // ---------------------------------------------------------------------------
  // The last line

  /**
   * The newline found by stepping back from position p one byte at a time,
   * never looking at position 0: the highest q with 1 <= q <= p and c[q] == NL.
   */
  function LastNewline(c: seq<byte>, p: int): (r: Option<nat>)
    requires p < |c|
    ensures r.Some? ==> 1 <= r.value <= p
    decreases p
  {
    if p < 1 then None
    else if c[p] == NL then Some(p)
    else LastNewline(c, p - 1)
  }

  /**
   * The search finds the highest newline from position 1 up to p, and finds
   * nothing exactly when there is none.
   */
  lemma {:induction false} LastNewlineIsLast(c: seq<byte>, p: int)
    requires p < |c|
    ensures var r := LastNewline(c, p);
      (r.Some? ==> c[r.value] == NL && forall q :: r.value < q <= p ==> c[q] != NL)
      && (r.None? <==> forall q :: 1 <= q <= p ==> c[q] != NL)
    decreases p
  {
    if p >= 1 && c[p] != NL {
      LastNewlineIsLast(c, p - 1);
    }
  }

  /** file.readline() from position `from`: up to and including the next newline, or to the end. */
  function ReadLine(c: seq<byte>, from: nat): (r: seq<byte>)
    requires from <= |c|
    ensures from + |r| <= |c|
    decreases |c| - from
  {
    if from == |c| then []
    else if c[from] == NL then [NL]
    else [c[from]] + ReadLine(c, from + 1)
  }

  /** The line read holds no newline but its last byte, which is a newline unless the file ended. */
  lemma {:induction false} ReadLineEnds(c: seq<byte>, from: nat)
    requires from <= |c|
    ensures var r := ReadLine(c, from);
      r == c[from..from + |r|]
      && (forall i :: 0 <= i < |r| - 1 ==> r[i] != NL)
      && (r == [] || r[|r| - 1] == NL || from + |r| == |c|)
      && (from < |c| ==> r != [])
    decreases |c| - from
  {
    if from < |c| && c[from] != NL {
      ReadLineEnds(c, from + 1);
      var r := ReadLine(c, from + 1);
      assert ReadLine(c, from) == [c[from]] + r;
    }
  }

  /** bytes[:25] */
  function Head(line: seq<byte>): (r: seq<byte>)
    ensures |r| <= 25 && r <= line
  {
    if |line| <= 25 then line else line[..25]
  }

  /** datetime.fromisoformat(file.readline()[:25].decode()) with the file at position `from`. */
  function LineStart(c: seq<byte>, from: nat): Result<Instant, ResumeError>
    requires from <= |c|
  {
    ParseIso(Head(ReadLine(c, from)))
  }

  /** The start timestamp and the catalog's contents afterwards. */
  datatype Resumed = Resumed(start: Result<Instant, ResumeError>, contents: seq<byte>)

  /**
   * get_start_dt: an absent catalog, or one of at most two bytes, resumes at
   * the epoch untouched. Otherwise the bytes from the end back to position 1,
   * the final two excluded, are searched for a newline; the line after it
   * gives the start. A catalog without one is emptied and resumes at the epoch.
   */
  function StartPoint(present: bool, c: seq<byte>): (r: Resumed)
    ensures !present || |c| <= 2 ==> r == Resumed(Ok(Epoch), c)
    ensures r.contents == c || (r.contents == [] && r.start == Ok(Epoch))
  {
    if !present || |c| <= 2 then Resumed(Ok(Epoch), c)
    else
      match LastNewline(c, |c| - 2)
      case None => Resumed(Ok(Epoch), [])
      case Some(p) => Resumed(LineStart(c, p + 1), c)
  }

  /**
   * The catalog is changed exactly when it exists, holds more than two bytes
   * and has no newline from position 1 up to the last two bytes.
   */
  lemma {:induction false} TruncatedExactly(present: bool, c: seq<byte>)
    ensures StartPoint(present, c).contents != c <==>
      (present && |c| > 2 && forall q :: 1 <= q <= |c| - 2 ==> c[q] != NL)
  {
    if present && |c| > 2 {
      LastNewlineIsLast(c, |c| - 2);
      match LastNewline(c, |c| - 2)
      case None =>
        StartPointNotFound(c);
      case Some(p) =>
        StartPointFound(c, p);
    }
  }

  /** A catalog whose search finds the newline at p starts at the line after it. */
  lemma {:induction false} StartPointFound(c: seq<byte>, p: nat)
    requires |c| > 2 && LastNewline(c, |c| - 2) == Some(p)
    ensures StartPoint(true, c) == Resumed(LineStart(c, p + 1), c)
  {
  }

  /** A catalog whose search finds no newline is emptied. */
  lemma {:induction false} StartPointNotFound(c: seq<byte>)
    requires |c| > 2 && LastNewline(c, |c| - 2) == None
    ensures StartPoint(true, c) == Resumed(Ok(Epoch), [])
  {
  }

  /** The file object: whether the catalog exists, and its bytes. */
  class CatalogFile {
    var present: bool
    var contents: seq<byte>

    constructor (present: bool, contents: seq<byte>)
      ensures this.present == present && this.contents == contents
    {
      this.present := present;
      this.contents := contents;
    }

    /**
     * get_start_dt on this file: seek to two bytes before the end and step
     * back, reading one byte at a time, until a newline is read or the
     * remaining count runs out; then either parse the next line's head or
     * truncate the file.
     */
    method GetStartDt() returns (start: Result<Instant, ResumeError>)
      modifies this
      ensures Resumed(start, contents) == StartPoint(old(present), old(contents))
      ensures present == old(present)
    {
      if !present {
        return Ok(Epoch);
      }
      var fileSize := |contents| - 2;
      var remaining := fileSize;
      if fileSize > 0 {
        var pos := |contents| - 2;
        while remaining > 0
          invariant pos == remaining && 0 <= remaining <= fileSize
          invariant LastNewline(contents, fileSize) == LastNewline(contents, remaining)
        {
          var b := contents[pos];
          pos := pos + 1;
          if b == NL {
            StartPointFound(contents, pos - 1);
            return LineStart(contents, pos);
          }
          pos := pos - 2;
          remaining := remaining - 1;
        }
        StartPointNotFound(contents);
        contents := [];
      }
      return Ok(Epoch);
    }
  }

  // ---------------------------------------------------------------------------
  // Properties

  /** The line read after the newline ending `prev` is the next whole line. */
  lemma {:induction false} ReadLineAfter(prev: seq<byte>, line: seq<byte>)
    requires line != [] && line[|line| - 1] == NL && forall i :: 0 <= i < |line| - 1 ==> line[i] != NL
    ensures ReadLine(prev + line, |prev|) == line
  {
    var c := prev + line;
    var r := ReadLine(c, |prev|);
    ReadLineEnds(c, |prev|);
    assert forall i :: 0 <= i < |line| ==> c[|prev| + i] == line[i];
    assert |r| == |line|;
  }

  /** One CSV record: its timestamp, the rest of its fields without a newline, and "\r\n". */
  function Record(d: Instant, off: Offset, fields: seq<byte>): (r: seq<byte>)
    requires d.year <= 9999 && ValidOffset(off)
    ensures |r| == 27 + |fields|
  {
    IsoBytes(d, off) + fields + [CR, NL]
  }

  lemma RecordLine(d: Instant, off: Offset, fields: seq<byte>)
    requires d.year <= 9999 && ValidOffset(off) && NL !in fields
    ensures forall i :: 0 <= i < |Record(d, off, fields)| - 1 ==> Record(d, off, fields)[i] != NL
    ensures Record(d, off, fields)[|Record(d, off, fields)| - 1] == NL
    ensures Head(Record(d, off, fields)) == IsoBytes(d, off)
  {
    var r := Record(d, off, fields);
    assert r[..25] == IsoBytes(d, off);
    forall i | 0 <= i < |r| - 1
      ensures r[i] != NL
    {
      if i < 25 {
        assert r[i] == IsoBytes(d, off)[i];
      } else if i < 25 + |fields| {
        assert r[i] == fields[i - 25];
      }
    }
  }

  /**
   * A catalog whose earlier lines end in a newline (at position 1 or later)
   * resumes at the timestamp of the record appended last, and is left as it is.
   */
  lemma {:induction false} ResumeAfterAppend(prev: seq<byte>, d: Instant, off: Offset, fields: seq<byte>)
    requires |prev| >= 2 && prev[|prev| - 1] == NL
    requires d.year <= 9999 && ValidOffset(off) && NL !in fields
    ensures var c := prev + Record(d, off, fields);
      StartPoint(true, c) == Resumed(Ok(d), c)
  {
    var line := Record(d, off, fields);
    RecordLine(d, off, fields);
    NewlineEndsPrevious(prev, line);
    StartPointFound(prev + line, |prev| - 1);
    ReadLineAfter(prev, line);
    IsoRoundTrip(d, off);
  }

  /** Searching back from the end of a line finds the newline that ends the lines before it. */
  lemma {:induction false} NewlineEndsPrevious(prev: seq<byte>, line: seq<byte>)
    requires |prev| >= 2 && prev[|prev| - 1] == NL
    requires |line| >= 2 && forall i :: 0 <= i < |line| - 1 ==> line[i] != NL
    ensures LastNewline(prev + line, |prev + line| - 2) == Some(|prev| - 1)
  {
    var c := prev + line;
    LastNewlineIsLast(c, |c| - 2);
    assert forall q :: |prev| <= q < |c| - 1 ==> c[q] == line[q - |prev|];
    assert c[|prev| - 1] == NL;
  }

  /**
   * A catalog holding a single record has no newline before its last two
   * bytes, so it is emptied and the run starts over from the epoch.
   */
  lemma {:induction false} SingleRecordIsDiscarded(d: Instant, off: Offset, fields: seq<byte>)
    requires d.year <= 9999 && ValidOffset(off) && NL !in fields
    ensures StartPoint(true, Record(d, off, fields)) == Resumed(Ok(Epoch), [])
  {
    var c := Record(d, off, fields);
    RecordLine(d, off, fields);
    LastNewlineIsLast(c, |c| - 2);
    StartPointNotFound(c);
  }

  /** Looking for the start a second time finds the same start and changes nothing more. */
  lemma {:induction false} StartPointIdempotent(present: bool, c: seq<byte>)
    ensures var r := StartPoint(present, c);
      StartPoint(present, r.contents) == r
  {
  }
}
