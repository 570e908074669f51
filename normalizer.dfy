/**
 * The row normaliser and acceptance filter of `scrap` in ffs.py: the calendar
 * table of one window is read row by row, a running date is carried from row to
 * row, the date and time cells are decoded into an instant, and each row is
 * stored, skipped, deferred to the error ledger, or ends the window.
 *
 * A row is given as the texts of its eight cells (the impact cell as the title
 * of its span); `start` is the window's cursor and `now` the current instant.
 */
module Normalizer {
  import opened Options
  import opened Calendar
  import opened Text
  import opened Planner
  import opened Cells

  /** The eight cells of one calendar row. */
  datatype RawRow = RawRow(
    date: string, time: string, currency: string, impact: string,
    event: string, actual: string, forecast: string, previous: string)

  /** One line of the catalog: the event's instant and its stripped cell texts. */
  datatype Record = Record(
    timestamp: Instant, currency: string, impact: string, event: string,
    actual: string, forecast: string, previous: string)

  // ---------------------------------------------------------------------------
  // One row
  // ---------------------------------------------------------------------------

  /** A line of errors.csv: the running date with its seconds cleared, "(Data For Past Month)". */
  datatype LedgerEntry = PastMonth(at: Instant)

  /**
   * The running date while the cells of one row are read: still fine, or a
   * ValueError raised with the date as it then stood, or an AttributeError on
   * a missing date (which nothing catches).
   */
  datatype CellState = Fine(date: Option<Instant>) | Raised(date: Option<Instant>) | Died

  /**
   * The year a new date label is read in: the cursor's year while no date has
   * been seen in this window, else the year of the day after the running date.
   */
  function LabelYear(date: Option<Instant>, start: Instant): int {
    if date.None? then start.year else Advance(date.value, Day).year
  }

  /**
   * The date cell: a blank cell keeps the running date; otherwise the label,
   * line breaks removed, is parsed in LabelYear.
   */
  function ReadDate(cell: string, date: Option<Instant>, start: Instant): (r: CellState)
    ensures Strip(cell) == "" ==> r == Fine(date)
    ensures r.Raised? ==> r.date == date
    ensures r.Fine? && r.date != date ==> r.date.Some? && r.date.value.year == LabelYear(date, start)
  {
    var text := Strip(cell);
    if text == "" then Fine(date)
    else
      match StrpDate(LabelYear(date, start), Remove(text, '\n'))
      case Some(d) => Fine(Some(d))
      case None => Raised(date)
  }

  /** The time cell, read after the date cell of the same row. */
  function ReadTime(cell: string, c: CellState): (r: CellState)
    ensures !c.Fine? || Strip(cell) == "" ==> r == c
    ensures r.Fine? && r.date.Some? ==> (c.date.Some? &&
      r.date.value.year == c.date.value.year && r.date.value.month == c.date.value.month &&
      r.date.value.day == c.date.value.day)
  {
    var t := Strip(cell);
    if !c.Fine? || t == "" then c
    else if c.date.None? then Died
    else match DecodeTime(c.date.value, t)
      case Some(d) => Fine(Some(d))
      case None => Raised(c.date)
  }

  /** What reading one row does to the window. */
  datatype RowOutcome =
    | Append(date: Instant, rec: Record)                // written to the catalog
    | Skip(date: Instant)                               // at or before the cursor: `continue`
    | Log(date: Instant, entry: LedgerEntry)            // ValueError: one line in errors.csv
    | Stop                                              // at or after now: `break`
    | Crash                                             // an exception nothing catches

  /**
   * The end of the loop body, once the date and time cells have been read:
   * a ValueError, or the pending marker, goes to the ledger (a ValueError with
   * no running date fails again in its own handler); then the three filters.
   */
  function Filter(c: CellState, row: RawRow, start: Instant, now: Instant): (r: RowOutcome)
    ensures r.Crash? <==> c.Died? || c.date.None?
    ensures r.Log? <==> (c.Raised? && c.date.Some?) || (c.Fine? && c.date.Some? && c.date.value.second == 1)
    ensures r.Log? ==> c.date == Some(r.date) && r.entry == PastMonth(r.date.(second := 0))
    ensures r.Skip? <==> c.Fine? && c.date.Some? && c.date.value.second != 1 && AtOrBefore(c.date.value, start)
    ensures r.Stop? <==>
      c.Fine? && c.date.Some? && c.date.value.second != 1 && Before(start, c.date.value) && AtOrBefore(now, c.date.value)
    ensures r.Skip? || r.Append? ==> c == Fine(Some(r.date))
    ensures r.Append? ==> (r.rec.timestamp == r.date &&
      Before(start, r.date) && Before(r.date, now) && r.date.second != 1)
  {
    match c
    case Died => Crash
    case Raised(None) => Crash
    case Raised(Some(d)) => Log(d, PastMonth(d.(second := 0)))
    case Fine(None) => Crash
    case Fine(Some(d)) =>
      if d.second == 1 then Log(d, PastMonth(d.(second := 0)))
      else if AtOrBefore(d, start) then Skip(d)
      else if AtOrBefore(now, d) then Stop
      else Append(d, Record(d, Strip(row.currency), row.impact, Strip(row.event),
                            Strip(row.actual), Strip(row.forecast), Strip(row.previous)))
  }

  /** One pass of the loop body: the eight cells in order, then the filters. */
  function ReadRow(row: RawRow, date: Option<Instant>, start: Instant, now: Instant): RowOutcome {
    Filter(ReadTime(row.time, ReadDate(row.date, date, start)), row, start, now)
  }

  /** The day after Dec 31 is in the next year; the day after any other date is in the same year. */
  lemma YearRollover(d: Instant)
    ensures Advance(d, Day).year == if d.month == 12 && d.day == 31 then d.year + 1 else d.year
  {
    assert Advance(d, Day) == NextDay(StartOfDay(d));
  }

  /** A printed date label is read as that date in LabelYear, or refused when the day does not exist there. */
  lemma DateCellRoundTrip(w: int, m: int, day: nat, date: Option<Instant>, start: Instant)
    requires 1 <= w <= 7 && 1 <= m <= 12 && 1 <= day <= 31 && 1000 <= LabelYear(date, start) <= 9999
    ensures var y := LabelYear(date, start);
      ReadDate(Label(w, m, day), date, start) ==
        if day <= DaysInMonth(y, m) then Fine(Some(DateTime(y, m, day, 0, 0, 0))) else Raised(date)
  {
    LabelIsPlain(w, m, day);
    RemoveAbsent(Label(w, m, day), '\n');
    StrpDateOfLabel(LabelYear(date, start), w, m, day);
  }

  /** A printed clock time moves the running date to that time of the same day. */
  lemma TimeCellRoundTrip(d: Instant, h: int, m: nat, pm: bool)
    requires 1 <= h <= 12 && m < 60
    ensures ReadTime(ClockText(h, m, pm), Fine(Some(d))) ==
      Fine(Some(d.(hour := Hour24(h, pm), minute := m, second := 0)))
  {
    ClockTextIsPlain(h, m, pm);
    ClockRoundTrip(d, h, m, pm);
  }

  /** A row whose date and time cells are blank leaves the running date as it was. */
  lemma BlankCellsKeepDate(w: Window, row: RawRow, start: Instant, now: Instant)
    requires w.status == Scanning && w.date.Some? && Strip(row.date) == "" && Strip(row.time) == ""
    ensures Step(w, row, start, now).date == w.date
  {
    assert ReadTime(row.time, ReadDate(row.date, w.date, start)) == Fine(w.date);
  }

  /** A window whose first row has no date fails: there is no running date to put its time on. */
  lemma FirstRowNeedsDate(row: RawRow, start: Instant, now: Instant)
    requires Strip(row.date) == ""
    ensures Run([row], start, now).status == Crashed
  {
    NoDateNoTime(row.time);
    assert ReadRow(row, None, start, now) == Crash;
    assert [row][..0] == [];
  }

  /** Without a running date, a time cell is either blank or raises AttributeError. */
  lemma NoDateNoTime(cell: string)
    ensures ReadTime(cell, Fine(None)) in {Fine(None), Died}
  {
  }

  // ---------------------------------------------------------------------------
  // One window
  // ---------------------------------------------------------------------------

  datatype Status = Scanning | Stopped | Crashed

  /** The running date, what was written so far, and whether the row loop is still going. */
  datatype Window = Window(date: Option<Instant>, store: seq<Record>, ledger: seq<LedgerEntry>, status: Status)

  /** What one row's outcome does to the window: at most one line written, or the loop left. */
  function Apply(w: Window, o: RowOutcome): (r: Window)
    ensures w.store <= r.store && w.ledger <= r.ledger
    ensures |r.store| + |r.ledger| <= |w.store| + |w.ledger| + 1
    ensures r.status == Scanning <==> !o.Stop? && !o.Crash?
  {
    match o
    case Append(d, rec) => Window(Some(d), w.store + [rec], w.ledger, Scanning)
    case Skip(d) => Window(Some(d), w.store, w.ledger, Scanning)
    case Log(d, e) => Window(Some(d), w.store, w.ledger + [e], Scanning)
    case Stop => w.(status := Stopped)
    case Crash => w.(status := Crashed)
  }

  /** One pass of the row loop; once it has stopped or raised, rows are no longer read. */
  function Step(w: Window, row: RawRow, start: Instant, now: Instant): Window {
    if w.status != Scanning then w else Apply(w, ReadRow(row, w.date, start, now))
  }

  /** The rows of one window read in order, starting with no running date. */
  function Run(rows: seq<RawRow>, start: Instant, now: Instant): Window {
    if rows == [] then Window(None, [], [], Scanning)
    else Step(Run(rows[..|rows| - 1], start, now), rows[|rows| - 1], start, now)
  }

  /** Reading one more row is one more step. */
  lemma RunSnoc(rows: seq<RawRow>, i: nat, start: Instant, now: Instant)
    requires i < |rows|
    ensures Run(rows[..i + 1], start, now) == Step(Run(rows[..i], start, now), rows[i], start, now)
  {
    assert rows[..i + 1][..i] == rows[..i];
  }

  /** The row loop of one window: the catalog lines and error lines it writes, and whether it raised. */
  method ProcessWindow(rows: seq<RawRow>, start: Instant, now: Instant)
    returns (store: seq<Record>, ledger: seq<LedgerEntry>, crashed: bool)
    ensures store == Run(rows, start, now).store && ledger == Run(rows, start, now).ledger
    ensures crashed <==> Run(rows, start, now).status == Crashed
  {
    var date: Option<Instant> := None;
    store, ledger, crashed := [], [], false;
    var i := 0;
    while i < |rows|
      invariant 0 <= i <= |rows|
      invariant Run(rows[..i], start, now) == Window(date, store, ledger, Scanning)
    {
      RunSnoc(rows, i, start, now);
      var outcome := ReadRow(rows[i], date, start, now);
      match outcome {
        case Append(d, rec) =>
          date := Some(d);
          store := store + [rec];
        case Skip(d) =>
          date := Some(d);
        case Log(d, e) =>
          date := Some(d);
          ledger := ledger + [e];
        case Stop =>
          RunHalted(rows, i + 1, start, now);
          return;
        case Crash =>
          crashed := true;
          RunHalted(rows, i + 1, start, now);
          return;
      }
      i := i + 1;
    }
    assert rows[..i] == rows;
  }

  /** Once the loop has stopped or raised, later rows change nothing. */
  lemma {:induction false} RunHalted(rows: seq<RawRow>, k: nat, start: Instant, now: Instant)
    requires k <= |rows| && Run(rows[..k], start, now).status != Scanning
    ensures Run(rows, start, now) == Run(rows[..k], start, now)
    decreases |rows|
  {
    if k < |rows| {
      var init := rows[..|rows| - 1];
      assert init[..k] == rows[..k];
      RunHalted(init, k, start, now);
    } else {
      assert rows[..k] == rows;
    }
  }

  /** The catalog and the ledger only grow: what a prefix of the rows wrote stays written. */
  lemma {:induction false} RunAppendOnly(rows: seq<RawRow>, k: nat, start: Instant, now: Instant)
    requires k <= |rows|
    ensures Run(rows[..k], start, now).store <= Run(rows, start, now).store
    ensures Run(rows[..k], start, now).ledger <= Run(rows, start, now).ledger
    decreases |rows|
  {
    if k < |rows| {
      var init := rows[..|rows| - 1];
      assert init[..k] == rows[..k];
      RunAppendOnly(init, k, start, now);
      PrefixTransitive(Run(rows[..k], start, now).store, Run(init, start, now).store, Run(rows, start, now).store);
      PrefixTransitive(Run(rows[..k], start, now).ledger, Run(init, start, now).ledger, Run(rows, start, now).ledger);
    } else {
      assert rows[..k] == rows;
    }
  }

  lemma PrefixTransitive<T>(a: seq<T>, b: seq<T>, c: seq<T>)
    requires a <= b && b <= c
    ensures a <= c
  {
    assert c[..|b|][..|a|] == c[..|a|];
  }

  /** Every row writes at most one line, to the catalog or to the ledger. */
  lemma {:induction false} RunLines(rows: seq<RawRow>, start: Instant, now: Instant)
    ensures |Run(rows, start, now).store| + |Run(rows, start, now).ledger| <= |rows|
  {
    if rows != [] {
      RunLines(rows[..|rows| - 1], start, now);
    }
  }

  /** Catalog lines strictly after the cursor and strictly before now, none with the pending marker. */
  predicate StoredWithin(store: seq<Record>, start: Instant, now: Instant) {
    forall i :: 0 <= i < |store| ==>
      Before(start, store[i].timestamp) && Before(store[i].timestamp, now) && store[i].timestamp.second != 1
  }

  /** Ledger lines on whole minutes. */
  predicate OnWholeMinutes(ledger: seq<LedgerEntry>) {
    forall i :: 0 <= i < |ledger| ==> ledger[i].at.second == 0
  }

  /** One row keeps both properties of what has been written. */
  lemma StepKeeps(w: Window, row: RawRow, start: Instant, now: Instant)
    requires StoredWithin(w.store, start, now) && OnWholeMinutes(w.ledger)
    ensures StoredWithin(Step(w, row, start, now).store, start, now)
    ensures OnWholeMinutes(Step(w, row, start, now).ledger)
  {
    if w.status == Scanning {
      ApplyKeeps(w, ReadRow(row, w.date, start, now), start, now);
    }
  }

  lemma ApplyKeeps(w: Window, o: RowOutcome, start: Instant, now: Instant)
    requires StoredWithin(w.store, start, now) && OnWholeMinutes(w.ledger)
    requires o.Append? ==> o.rec.timestamp == o.date && Before(start, o.date) && Before(o.date, now) && o.date.second != 1
    requires o.Log? ==> o.entry.at.second == 0
    ensures StoredWithin(Apply(w, o).store, start, now) && OnWholeMinutes(Apply(w, o).ledger)
  {
  }

  /**
   * Everything written to the catalog lies strictly after the cursor and
   * strictly before now, and never carries the pending marker; every ledger
   * line is on a whole minute.
   */
  lemma {:induction false} RunWritesWithin(rows: seq<RawRow>, start: Instant, now: Instant)
    ensures StoredWithin(Run(rows, start, now).store, start, now)
    ensures OnWholeMinutes(Run(rows, start, now).ledger)
  {
    if rows != [] {
      RunWritesWithin(rows[..|rows| - 1], start, now);
      StepKeeps(Run(rows[..|rows| - 1], start, now), rows[|rows| - 1], start, now);
    }
  }
}
