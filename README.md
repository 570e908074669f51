# Forex Factory calendar scraper — a Dafny model

This project models the core of the Forex Factory economic-calendar scraper
(`ffs.py`) and of its duplicate checker (`dataset_util.py`):

- **Planner** — how the crawl cursor moves. `get_next_dt` advances a cursor by a
  day, a week or a month. `dt_to_str` and `dt_to_url` choose the calendar page to
  fetch next: a finished month starting on its 1st, a finished week starting on
  a Sunday with no 1st after its first day, or else one day. `get_mode` reads the unit back from the url. The
  predicates `dt_is_complete`, `dt_is_start_of_week`, `dt_is_start_of_month` and
  `dt_is_today` are modelled too.
- **Cells** — the date label (`strptime(..., '%Y,%a%b %d')`) and the clock text
  of one calendar row, each with its printed form and a round-trip lemma.
- **Normalizer** — the row loop of one calendar window. It carries a running
  date from row to row, decodes the date and time cells, and sorts each row
  into one of five outcomes:
  - appended to the catalog;
  - skipped, because it is at or before the cursor;
  - logged as "(Data For Past Month)";
  - a `break`, because it is at or after now;
  - an exception that nothing catches.
- **Scraper** — the outer `while True` of `scrap`. It is a terminating function
  `Crawl`, plus the method `Scrap` that follows it loop by loop.
- **Catalog** — `get_start_dt`, the resume point. The catalog file is a class
  whose contents are a byte sequence. The method walks back from the end one
  byte at a time, parses the 25-byte ISO timestamp after the last newline, or
  truncates the file. The timestamp text `str(datetime)` is modelled with its
  UTC offset.
- **Duplicates** — the loop of `dataset_util.py`. A three-level dictionary
  counts rows by timestamp, event and currency. Every repeat of a key among
  the economic rows goes into `lockAt`.

Supporting modules:

- `Calendar`: proleptic Gregorian dates, ordinals and ISO weekdays, as Python's
  `datetime` computes them.
- `Text`: ASCII `strip`, `lower`, `replace`, `in`, slicing, `str(int)` and
  `int(str)`.
- `Options`: `Option` and `Result`.

The clock (`datetime.now()`), the browser and the file system are parameters.
`now` is an aware instant and `today` is the local calendar date. `fetch` maps a
relative url to the rows of the page's calendar table. The catalog's bytes are
a field of `Catalog.CatalogFile`.

Behaviour of the code worth knowing:

- The resume step never cuts the catalog back to a shorter line. It empties the
  whole file, and only when there is no newline at byte positions 1 to size−2. A file holding a single record is one such file, so the run starts
  over from 2007-01-01 (`Catalog.SingleRecordIsDiscarded`). A file whose last
  line does not parse is not repaired: `fromisoformat` raises, which the model
  returns as an error.
- A row error is not always contained in its window. A missing running date
  (a time cell before any date cell) raises AttributeError, which nothing
  catches, so the run ends (`Normalizer.FirstRowNeedsDate`,
  `Scraper.CrashEndsTheCrawl`).
- After a `break`, the cursor still advances by the whole unit named in the url,
  not by the last accepted row (`Scraper.StopEndsOnlyTheWindow`).

## Model

| member | source | states |
|---|---|---|
| Planner.ParseMode | ffs.py:173-180 | exactly "month", "week" and "day" are modes; any other string is refused |
| Planner.Advance | ffs.py:173-179 | the next cursor is at midnight, strictly later, keeps the seconds, and is the 1st of the following month, or 7 or 1 days on |
| Planner.GetNextDt | ffs.py:162-180 | ValueError exactly for an unknown mode; for each mode, the later instant at midnight one month, week or day on |
| Planner.FormatIsLowered | ffs.py:204-208 | the window id is the lowered strftime text `%b.%Y`, or `%b` day `.%Y` |
| Planner.DtToStr | ffs.py:204-209 | ValueError exactly for an unknown mode; otherwise the id Format gives for that mode |
| Planner.Format | ffs.py:205-208 | the window id of a unit; its meaning is stated by FormatIsLowered and FormatRoundTrip |
| Planner.GetMode | ffs.py:212-214 | the regex search of get_mode; its partner lemmas are GetModeOfQuery and UrlRoundTrip |
| Planner.DtIsComplete | ffs.py:217-218 | the unit starting at the cursor ends at or before now; used by WindowUnit, MonthWindowIff and WeekWindowIff |
| Planner.DtIsStartOfWeek | ffs.py:221-222 | isoweekday() % 7 == 0; WeekStartsRecur and NotSundayWithinWeek state which days it holds for |
| Planner.DtIsStartOfMonth | ffs.py:225-226 | the day is the 1st; used by MonthWindowIff and WeekWindowIff |
| Planner.DtIsToday | ffs.py:229-231 | same year, month and day as the local date; used by WindowUnit and PlannedDayNotInFuture |
| Planner.Url | ffs.py:193-200 | `calendar.php?<unit>=<id>`; UrlRoundTrip reads the unit back from it |
| Planner.FormatRoundTrip | ffs.py:204-208 | a month id reads back as (year, month) and a week or day id as (year, month, day) |
| Planner.WindowUnit | ffs.py:192-201 | some window is chosen exactly when the cursor's day is over or is today |
| Planner.DtToUrl | ffs.py:183-201 | a url exactly when the day is over or is today, the url of the unit WindowUnit chooses; otherwise ValueError naming the day |
| Planner.MonthWindowIff | ffs.py:192-193 | a month page is chosen iff the cursor is a 1st and that month is over |
| Planner.WeekWindowIff | ffs.py:194-198 | a week page is chosen iff the cursor is a Sunday, the week is over, no later day of the week is a 1st, and the month rule did not apply |
| Planner.NarrowingWhenMonthStartInside | ffs.py:194-197 | when a finished week holds a later 1st, the month test inside the week loop holds, so a day page is chosen |
| Planner.LongerUnitsEndLater | ffs.py:217-218 | the day ends no later than the week or the month from the same cursor |
| Planner.GetModeOfQuery | ffs.py:212-214 | the regex match between `?` and the last `=` is the query name |
| Planner.UrlRoundTrip | ffs.py:212-214 | get_mode of a planned url gives the unit it was built from, and get_next_dt accepts it |
| Planner.WeekStartsRecur | ffs.py:221-222 | a Sunday plus a week is a Sunday, and days 1 to 6 after it are not |
| Planner.NotSundayWithinWeek | ffs.py:221-222 | day x after a Sunday has isoweekday x |
| Planner.PlannedDayNotInFuture | ffs.py:199-201 | a planned cursor's day is before now's day or is today |
| Planner.FirstWindowOfTheArchive | ffs.py:192-200 | 2007-01-01, a Monday, one week later is planned as a day page |
| Planner.FirstWindowUrl | ffs.py:199-200 | that page's url is `calendar.php?day=jan1.2007` |
| Planner.CurrentMonthNotPlanned | ffs.py:192-193 | the month in progress is not fetched as a month page |
| Planner.PastMonthPlanned | ffs.py:192-193 | a finished month starting on its 1st is fetched as a month page |
| Calendar.IsoWeekday | ffs.py:221-222 | isoweekday is between 1 and 7 |
| Calendar.FirstDayIsMonday | ffs.py:221-222 | 2007-01-01 has isoweekday 1, as Python gives |
| Calendar.NewYearsEveIsSunday | ffs.py:221-222 | 2023-12-31 has isoweekday 7, as Python gives |
| Calendar.Ordinal | ffs.py:177-179 | the day number of datetime.toordinal; the anchors above and the ordinal lemmas below state its behaviour |
| Calendar.NextDay | ffs.py:178-179 | the date one day later; NextDayOrdinal states its ordinal |
| Calendar.AddDays | ffs.py:195 | timedelta(days=n); keeps the time of day, and AddDaysOrdinal states its ordinal |
| Calendar.NextMonthStart | ffs.py:174-175 | the 1st of the following month at midnight, seconds kept; NextMonthStartOrdinal states its ordinal |
| Calendar.SundayOrdinal | ffs.py:221-222 | a date is a Sunday iff its ordinal is a multiple of 7 |
| Calendar.IsoWeekdayShift | ffs.py:195-196 | k days later the weekday moves by k modulo 7 |
| Calendar.AddDaysOrdinal | ffs.py:195 | adding n days (timedelta) adds n to the ordinal and keeps the time of day |
| Calendar.NextDayOrdinal | ffs.py:178-179 | timedelta(days=1) adds one to the ordinal |
| Calendar.NextMonthStartOrdinal | ffs.py:174-175 | the next 1st is the remaining days of the month later |
| Calendar.StartOfDay | ffs.py:177-179 | replace(hour=0, minute=0) keeps the date and seconds |
| Calendar.LaterDayIsLater | ffs.py:120-122 | an instant on a later day at midnight compares later |
| Calendar.OrdinalOfOrdered | ffs.py:120-122 | ordered instants have ordered days |
| Text.Strip | ffs.py:87 | str.strip(); TrimLeftDropsSpace, TrimRightDropsSpace, StripEmpty and StripPlain state its behaviour |
| Text.TrimLeft | ffs.py:87 | what is left is a suffix that does not start with whitespace |
| Text.TrimRight | ffs.py:87 | what is left is a prefix that does not end with whitespace |
| Text.TrimLeftDropsSpace | ffs.py:87 | every character TrimLeft removes is whitespace, so with the suffix contract it removes exactly the leading whitespace |
| Text.TrimRightDropsSpace | ffs.py:87 | every character TrimRight removes is whitespace, so with the prefix contract it removes exactly the trailing whitespace |
| Text.StripEmpty | ffs.py:87 | `text.strip() != ''` fails exactly for whitespace-only text |
| Text.StripPlain | ffs.py:87 | text that neither starts nor ends with whitespace is left alone |
| Text.Contains | ffs.py:97-99 | the `in` test on strings; Cells.NotContains and Cells.PendingMarker use it |
| Text.PyInt | ffs.py:104-105 | int() on text; PyIntOfNatStr and PyIntDigits state what it reads |
| Text.PyIntDigits | ffs.py:104-105 | int() of a plain numeral is its value |
| Text.Lower | ffs.py:206 | lower() keeps the length and lowers each character |
| Text.Remove | ffs.py:88 | replace(c, ''); its meaning is stated by the three lemmas below |
| Text.RemoveDropsAll | ffs.py:88 | no line break is left |
| Text.RemoveKeepsOthers | ffs.py:88 | every other character is kept, as many times as it occurs |
| Text.RemoveConcat | ffs.py:88 | the text is processed piece by piece, so the kept characters stay in order |
| Text.RemoveCons | ffs.py:88 | the first character is dropped if it is the removed one and kept otherwise |
| Text.RemoveAbsent | ffs.py:88 | replace of an absent character changes nothing |
| Text.NatStrRoundTrip | ffs.py:90-93 | str(year) read back as a numeral gives the year |
| Text.PyIntOfNatStr | ffs.py:104-105 | int() reads back what str() printed |
| Text.ParseNat | ffs.py:104-105 | a value exactly for one or more decimal digits |
| Cells.DayField | ffs.py:93 | `%d` accepts one or two digits with value 1 to 31 |
| Cells.ParseLabel | ffs.py:93 | a parsed `%a%b %d` label has a month 1-12 and a day 1-31 |
| Cells.StrpDate | ffs.py:93 | a parsed date is in the given year, at midnight, and the year has four digits |
| Cells.LabelRoundTrip | ffs.py:93 | a printed label such as "TueJan 2" parses back to its month and day |
| Cells.StrpDateOfLabel | ffs.py:93 | a printed label parses iff the day exists in that month of that year, to that date |
| Cells.DecodeTime | ffs.py:95-105 | the time cell keeps the year, month and day of the running date |
| Cells.DecodeClock | ffs.py:102-105 | a clock time keeps the date and sets the seconds to 0 |
| Cells.ClockFields | ffs.py:102-105 | hours are in 0-23 and minutes in 0-59 |
| Cells.HourOfClock | ffs.py:104 | `h % 12 + 12 * pm` is the 24-hour clock hour |
| Cells.ClockFieldsOfText | ffs.py:102-105 | the slices of "8:30am" or "12:05pm" give its 24-hour hour and minute |
| Cells.ClockRoundTrip | ffs.py:101-105 | a printed clock time sets that hour and minute with seconds 0 |
| Cells.PendingMarker | ffs.py:97-100 | seconds 1 (the marker) arise iff the cell says "Data" and not "Day", at 00:00; "Day" gives 23:59:59 |
| Normalizer.ReadDate | ffs.py:87-94 | a blank cell keeps the running date; a new date is in the label year; a ValueError keeps the running date |
| Normalizer.DateCellRoundTrip | ffs.py:87-94 | a printed label gives that date in the label year, or ValueError when the day does not exist |
| Normalizer.YearRollover | ffs.py:92 | the day after the running date is in the next year exactly after Dec 31 |
| Normalizer.ReadTime | ffs.py:95-105 | a blank cell or earlier error changes nothing; a decoded time stays on the same day |
| Normalizer.TimeCellRoundTrip | ffs.py:95-105 | a printed clock time moves the running date to that time of the same day |
| Normalizer.Filter | ffs.py:118-134 | each outcome's exact condition: crash, ledger line, skip, break, or a record strictly between cursor and now |
| Normalizer.BlankCellsKeepDate | ffs.py:87-96 | a row with blank date and time cells keeps the running date |
| Normalizer.FirstRowNeedsDate | ffs.py:81-118 | a window whose first row has no date raises an uncaught error |
| Normalizer.Apply | ffs.py:118-134 | a row writes at most one line, only appends, and leaves the loop exactly on break or crash |
| Normalizer.ReadRow | ffs.py:84-134 | the eight cells in order, then the filters; Filter states each outcome |
| Normalizer.Step | ffs.py:82-134 | one pass of the row loop, none after it has been left; BlankCellsKeepDate and StepKeeps state its effect |
| Normalizer.Run | ffs.py:81-134 | the rows of a window read in order from no running date; RunHalted, RunAppendOnly, RunLines and RunWritesWithin state its properties |
| Normalizer.RunSnoc | ffs.py:82 | reading one more row is one more loop pass |
| Normalizer.ProcessWindow | ffs.py:81-134 | the loop writes exactly the lines of Run and reports a crash exactly when Run crashes |
| Normalizer.RunHalted | ffs.py:121-123 | once the loop has left, later rows change nothing |
| Normalizer.RunAppendOnly | ffs.py:124-134 | the catalog and ledger lines of a prefix of rows are a prefix of the window's |
| Normalizer.RunLines | ffs.py:124-134 | a window writes at most one line per row |
| Normalizer.StepKeeps | ffs.py:118-134 | one pass keeps records between cursor and now and ledger times on whole minutes |
| Normalizer.ApplyKeeps | ffs.py:118-134 | applying an outcome keeps records between cursor and now and ledger times on whole minutes |
| Normalizer.RunWritesWithin | ffs.py:118-128 | every record is after the cursor, before now, not a marker; every ledger time has seconds 0 |
| Catalog.ParseIso | ffs.py:154 | a parsed head is ASCII, has the ISO shape and a four-digit year, and the seconds field is the parsed seconds |
| Catalog.IsoBytes | ffs.py:127 | str(datetime) of an aware instant is 25 bytes |
| Catalog.IsoRoundTrip | ffs.py:154 | fromisoformat of the text written for a record gives back its instant |
| Catalog.LastNewline | ffs.py:149-156 | the backward scan's result lies in positions 1..p |
| Catalog.LastNewlineIsLast | ffs.py:149-156 | the backward scan finds the highest newline in positions 1..size-2, and nothing iff there is none |
| Catalog.ReadLine | ffs.py:154 | readline() stays within the file |
| Catalog.ReadLineEnds | ffs.py:154 | readline() returns the bytes up to and including the next newline, or up to the end |
| Catalog.Head | ffs.py:154 | `[:25]` is a prefix of at most 25 bytes |
| Catalog.StartPoint | ffs.py:146-159 | an absent or two-byte catalog resumes at the epoch untouched; otherwise the file is kept, or emptied with the epoch |
| Catalog.TruncatedExactly | ffs.py:150-158 | the file changes iff it exists, is over two bytes and has no newline in positions 1..size-2 |
| Catalog.StartPointFound | ffs.py:152-154 | when a newline is found, the start is the timestamp after it and the file is kept |
| Catalog.StartPointNotFound | ffs.py:157-158 | when none is found, the file is emptied and the start is the epoch |
| Catalog.CatalogFile.GetStartDt | ffs.py:140-159 | the byte-by-byte backward walk returns StartPoint's start and leaves StartPoint's contents |
| Catalog.ReadLineAfter | ffs.py:154 | readline() after a newline returns the next whole line |
| Catalog.RecordLine | ffs.py:124-128 | a written record ends in its only newline and starts with its timestamp text |
| Catalog.NewlineEndsPrevious | ffs.py:152-153 | the scan stops on the newline that ends the earlier lines |
| Catalog.ResumeAfterAppend | ffs.py:146-154 | after a record is appended to earlier lines, the run resumes at that record's instant |
| Catalog.SingleRecordIsDiscarded | ffs.py:149-158 | a catalog of one record is emptied and resumes at the epoch |
| Catalog.StartPointIdempotent | ffs.py:146-159 | resolving again gives the same start and changes nothing more |
| Scraper.Crawl | ffs.py:69-135 | the crawl's cursor never moves back |
| Scraper.CrawlStep | ffs.py:71-135 | a window that did not raise is followed by the crawl from get_next_dt's cursor, which is on a later day |
| Scraper.CrawlDone | ffs.py:70-74 | a ValueError from dt_to_url ends the crawl with nothing fetched |
| Scraper.CrawlFails | ffs.py:77-135 | a window that raises, or a url without a usable mode, ends the crawl after that window's lines |
| Scraper.Scrap | ffs.py:58-138 | the loop fetches, writes and fails exactly as Crawl does |
| Scraper.ModeNeverFails | ffs.py:135 | the mode read from a planned url is always accepted by get_next_dt |
| Scraper.CrawlWritesWithin | ffs.py:120-128 | every stored record is after the start cursor and before now; every ledger time is on a whole minute |
| Scraper.CompletedAtPresent | ffs.py:70-74 | a completed crawl stops on a cursor whose day is neither over nor today |
| Scraper.StopEndsOnlyTheWindow | ffs.py:122-135 | a `break` ends only the window; the crawl goes on from the next unit |
| Scraper.CrashEndsTheCrawl | ffs.py:65-137 | a window whose rows raise ends the crawl after its lines |
| Duplicates.Seen | dataset_util.py:14-22 | the number of economic rows with a key, the value the count dictionary should hold |
| Duplicates.Repeats | dataset_util.py:14-21 | the rows lockAt should list, in order; RepeatsPerKey and RepeatsAreEconomic state its meaning |
| Duplicates.Tallies | dataset_util.py:14-22 | the dictionary holds Seen for each key that occurs and nothing for other keys |
| Duplicates.FindDuplicates | dataset_util.py:7-22 | stops at the first unreadable row; lockAt lists each repeat of a key; count holds each key's number of rows |
| Duplicates.CountRow | dataset_util.py:14-22 | a repeat is reported iff the key was present; that key's count rises by one and no other changes |
| Duplicates.AddFirst | dataset_util.py:14-15 | a new timestamp entry adds the key at 0 and keeps every other entry |
| Duplicates.AddEvent | dataset_util.py:16-17 | a new event entry adds the key at 0 and keeps every other entry |
| Duplicates.AddCurrency | dataset_util.py:18-19 | a new currency entry adds the key at 0 and keeps every other entry |
| Duplicates.Increment | dataset_util.py:22 | the nested increment raises one key and keeps every other |
| Duplicates.RowStep | dataset_util.py:11-22 | one more row adds one to its key's tally when it is economic, and extends the repeats |
| Duplicates.CountedStep | dataset_util.py:14-22 | counting an economic row keeps the tally invariant and appends it to lockAt exactly when it is a repeat |
| Duplicates.SkippedStep | dataset_util.py:12 | a Non-Economic row changes neither the tally nor lockAt |
| Duplicates.RepeatsPerKey | dataset_util.py:14-21 | lockAt lists a key once fewer times than the key occurs; summed over the keys, lockAt's length is the number of counted rows less the number of distinct keys (stated key by key, not as one summed lemma) |
| Duplicates.RepeatsOfConcat | dataset_util.py:21 | lockAt's entries for a key split over concatenation |
| Duplicates.RepeatsAreEconomic | dataset_util.py:12-21 | every listed row is economic and its key occurs at least twice |
| Duplicates.NonEconomicIgnored | dataset_util.py:12 | a Non-Economic row changes no tally and no repeat |

## Left out

- The browser, page parsing and network (`setup_driver`, `driver.get`, BeautifulSoup): a window's rows are given by the `fetch` parameter, as the texts of eight cells.
- `get_timezone` (ffs.py:45-55) needs the live site; the feed's zone and the output zone are the same fixed offset, and `astimezone` on line 127 is the identity.
- Daylight-saving changes and mixed offsets: instants are compared on one wall clock.
- `datetime.now()` is taken once per run as `now` and `today`, not re-read per row or per window.
- A row that lacks a cell (IndexError on `[0]`) and an impact cell without a span (TypeError, logged as "(No Event Found)"): the row is given with all eight cell texts.
- The progress `print` calls in `scrap` and the report printed at the end of `dataset_util.py` (lines 25-26).
- The CSV quoting of catalog lines: the crawl's store is a sequence of `Record` values, and the catalog bytes appear only as `Catalog.Record` (timestamp, field bytes, CRLF).
- The text of errors.csv lines: each is a `LedgerEntry` value.
- Catalog.ParseIso: accepts only the 25-byte `YYYY-MM-DD HH:MM:SS±HH:MM` form; the other forms `fromisoformat` reads are returned as errors. Bytes that are not ASCII are returned as NotText, though some of them are valid UTF-8. The offset is checked but not applied.
- Cells.StrpDate: ASCII only, and the C locale's weekday and month names only.
- Text.Strip and Text.Lower: ASCII whitespace and letters only.
- Microseconds: instants are on whole seconds, while `datetime.now()` carries microseconds. When a row's time equals `now` to the second, the code writes it (line 122) and the model breaks on it.
- Years past 9999: `replace(year=10000)` on line 175 raises ValueError and `timedelta` raises OverflowError, while the model's calendar has no upper year bound and keeps advancing.
- Driver shutdown in the `finally` clause (line 137).
