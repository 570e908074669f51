/**
 * The crawl loop of `scrap` in ffs.py: from the start cursor, repeatedly
 * plan the next window, fetch its rows, read them, and advance the cursor by
 * the window's unit, until no window is ready or an exception escapes.
 *
 * Fetching a url is a function parameter from the relative url to the rows of
 * the page's calendar table; the clock (`now`, `today`) is fixed for the run.
 */
module Scraper {
  import opened Options
  import opened Calendar
  import opened Planner
  import opened Normalizer

  /** How the crawl ended: no window ready, a window's rows raised, or the url's mode was unusable. */
  datatype Ending = Completed | WindowFailed | ModeFailed

  /** The urls fetched in order, what was written, how the crawl ended and the cursor it ended on. */
  datatype Crawled = Crawled(
    fetched: seq<string>, store: seq<Record>, ledger: seq<LedgerEntry>, ending: Ending, cursor: Instant)

  /** A day number past every cursor dt_to_url accepts. */
  function Horizon(now: Instant, today: Instant): int {
    if Ordinal(now) < Ordinal(today) then Ordinal(today) + 1 else Ordinal(now) + 1
  }

  /** A later instant at midnight (plus the same seconds) is on a later day. */
  lemma NextIsLaterDay(d: Instant, next: Instant)
    requires Before(d, next) && next.hour == 0 && next.minute == 0 && next.second == d.second
    ensures Ordinal(d) < Ordinal(next)
  {
  }

  /** A cursor dt_to_url accepts lies before the horizon. */
  lemma ReadyBeforeHorizon(d: Instant, now: Instant, today: Instant)
    requires DtToUrl(d, now, today).Ok?
    ensures Ordinal(d) < Horizon(now, today)
  {
    PlannedDayNotInFuture(d, now, today);
  }

  /** The windows already crawled, followed by the crawl from the current cursor. */
  function Then(fetched: seq<string>, store: seq<Record>, ledger: seq<LedgerEntry>, rest: Crawled): Crawled {
    Crawled(fetched + rest.fetched, store + rest.store, ledger + rest.ledger, rest.ending, rest.cursor)
  }

  /**
   * The outer `while True` of scrap from `cursor`: a ValueError from dt_to_url
   * ends the crawl; otherwise the window is fetched and read, an escaped
   * exception ends the crawl, and the cursor moves on by the mode named in
   * the url, whether or not the row loop left early.
   */
  function Crawl(cursor: Instant, now: Instant, today: Instant, fetch: string -> seq<RawRow>): (r: Crawled)
    ensures AtOrBefore(cursor, r.cursor)
    decreases Horizon(now, today) - Ordinal(cursor)
  {
    match DtToUrl(cursor, now, today)
    case Err(_) => Crawled([], [], [], Completed, cursor)
    case Ok(url) =>
      var w := Run(fetch(url), cursor, now);
      if w.status == Crashed then Crawled([url], w.store, w.ledger, WindowFailed, cursor)
      else
        match GetMode(url)
        case None => Crawled([url], w.store, w.ledger, ModeFailed, cursor)
        case Some(mode) =>
          match GetNextDt(cursor, mode)
          case Err(_) => Crawled([url], w.store, w.ledger, ModeFailed, cursor)
          case Ok(next) =>
            ReadyBeforeHorizon(cursor, now, today);
            NextIsLaterDay(cursor, next);
            Then([url], w.store, w.ledger, Crawl(next, now, today, fetch))
  }

  /** One pass of the loop body, when dt_to_url accepts the cursor and the window's rows did not raise. */
  lemma CrawlStep(cursor: Instant, now: Instant, today: Instant, fetch: string -> seq<RawRow>, url: string, next: Instant)
    requires DtToUrl(cursor, now, today) == Ok(url)
    requires Run(fetch(url), cursor, now).status != Crashed
    requires GetMode(url).Some? && GetNextDt(cursor, GetMode(url).value) == Ok(next)
    ensures Ordinal(cursor) < Ordinal(next) && Ordinal(cursor) < Horizon(now, today)
    ensures var w := Run(fetch(url), cursor, now);
      Crawl(cursor, now, today, fetch) == Then([url], w.store, w.ledger, Crawl(next, now, today, fetch))
  {
    ReadyBeforeHorizon(cursor, now, today);
    NextIsLaterDay(cursor, next);
  }

  /** When dt_to_url refuses the cursor, the crawl is over. */
  lemma CrawlDone(cursor: Instant, now: Instant, today: Instant, fetch: string -> seq<RawRow>)
    requires DtToUrl(cursor, now, today).Err?
    ensures Crawl(cursor, now, today, fetch) == Crawled([], [], [], Completed, cursor)
  {
  }

  /** When the window's rows raise, or its url names no usable mode, the crawl ends after that window. */
  lemma CrawlFails(cursor: Instant, now: Instant, today: Instant, fetch: string -> seq<RawRow>, url: string)
    requires DtToUrl(cursor, now, today) == Ok(url)
    requires var w := Run(fetch(url), cursor, now);
      w.status == Crashed || GetMode(url).None? || GetNextDt(cursor, GetMode(url).value).Err?
    ensures var w := Run(fetch(url), cursor, now);
      Crawl(cursor, now, today, fetch)
        == Crawled([url], w.store, w.ledger, if w.status == Crashed then WindowFailed else ModeFailed, cursor)
  {
  }

  /** Nothing gathered before a crawl leaves the crawl as it is. */
  lemma ThenNothing(rest: Crawled)
    ensures Then([], [], [], rest) == rest
  {
    assert [] + rest.fetched == rest.fetched && [] + rest.store == rest.store && [] + rest.ledger == rest.ledger;
  }

  /** Joining the last, empty stretch of a crawl gives what was gathered so far. */
  lemma ThenEnd(f: seq<string>, s: seq<Record>, l: seq<LedgerEntry>, ending: Ending, cursor: Instant)
    ensures Then(f, s, l, Crawled([], [], [], ending, cursor)) == Crawled(f, s, l, ending, cursor)
  {
    assert f + [] == f && s + [] == s && l + [] == l;
  }

  /** Two stretches of crawl joined. */
  lemma ThenThen(f: seq<string>, s: seq<Record>, l: seq<LedgerEntry>,
                 f2: seq<string>, s2: seq<Record>, l2: seq<LedgerEntry>, rest: Crawled)
    ensures Then(f, s, l, Then(f2, s2, l2, rest)) == Then(f + f2, s + s2, l + l2, rest)
  {
    assert f + (f2 + rest.fetched) == (f + f2) + rest.fetched;
    assert s + (s2 + rest.store) == (s + s2) + rest.store;
    assert l + (l2 + rest.ledger) == (l + l2) + rest.ledger;
  }

  /**
   * scrap's crawl from the start cursor: the urls fetched, the catalog lines
   * and ledger lines written, and whether an exception ended it.
   */
  method Scrap(start: Instant, now: Instant, today: Instant, fetch: string -> seq<RawRow>)
    returns (fetched: seq<string>, store: seq<Record>, ledger: seq<LedgerEntry>, failed: bool)
    ensures var r := Crawl(start, now, today, fetch);
      fetched == r.fetched && store == r.store && ledger == r.ledger && (failed <==> r.ending != Completed)
  {
    var cursor := start;
    fetched, store, ledger := [], [], [];
    ThenNothing(Crawl(start, now, today, fetch));
    while true
      invariant Crawl(start, now, today, fetch) == Then(fetched, store, ledger, Crawl(cursor, now, today, fetch))
      decreases Horizon(now, today) - Ordinal(cursor)
    {
      var planned := DtToUrl(cursor, now, today);
      if planned.Err? {
        CrawlDone(cursor, now, today, fetch);
        ThenEnd(fetched, store, ledger, Completed, cursor);
        return fetched, store, ledger, false;
      }
      var url := planned.value;
      var rows := fetch(url);
      var written, logged, crashed := ProcessWindow(rows, cursor, now);
      var mode := GetMode(url);
      if crashed || mode.None? || GetNextDt(cursor, mode.value).Err? {
        CrawlFails(cursor, now, today, fetch, url);
        var ending := if crashed then WindowFailed else ModeFailed;
        ThenThen(fetched, store, ledger, [url], written, logged, Crawled([], [], [], ending, cursor));
        ThenEnd(fetched + [url], store + written, ledger + logged, ending, cursor);
        ThenEnd([url], written, logged, ending, cursor);
        return fetched + [url], store + written, ledger + logged, true;
      }
      var next := GetNextDt(cursor, mode.value).value;
      CrawlStep(cursor, now, today, fetch, url, next);
      ThenThen(fetched, store, ledger, [url], written, logged, Crawl(next, now, today, fetch));
      fetched, store, ledger := fetched + [url], store + written, ledger + logged;
      cursor := next;
    }
  }

  // ---------------------------------------------------------------------------
  // Properties

  /** The url dt_to_url builds always names a mode get_next_dt accepts, so the crawl never fails on it. */
  lemma {:induction false} ModeNeverFails(cursor: Instant, now: Instant, today: Instant, fetch: string -> seq<RawRow>)
    ensures Crawl(cursor, now, today, fetch).ending != ModeFailed
    decreases Horizon(now, today) - Ordinal(cursor)
  {
    var m := WindowUnit(cursor, now, today);
    if m.Some? {
      var url := Url(m.value, cursor);
      assert DtToUrl(cursor, now, today) == Ok(url);
      UrlRoundTrip(m.value, cursor);
      if Run(fetch(url), cursor, now).status != Crashed {
        var next := Advance(cursor, m.value);
        CrawlStep(cursor, now, today, fetch, url, next);
        ModeNeverFails(next, now, today, fetch);
      }
    }
  }

  /**
   * Every catalog line written is strictly after the start cursor and
   * strictly before now, and every ledger line is on a whole minute.
   */
  lemma {:induction false} CrawlWritesWithin(cursor: Instant, now: Instant, today: Instant, fetch: string -> seq<RawRow>)
    ensures StoredWithin(Crawl(cursor, now, today, fetch).store, cursor, now)
    ensures OnWholeMinutes(Crawl(cursor, now, today, fetch).ledger)
    decreases Horizon(now, today) - Ordinal(cursor)
  {
    match DtToUrl(cursor, now, today)
    case Err(_) =>
    case Ok(url) =>
      var w := Run(fetch(url), cursor, now);
      RunWritesWithin(fetch(url), cursor, now);
      if w.status != Crashed && GetMode(url).Some? && GetNextDt(cursor, GetMode(url).value).Ok? {
        var next := GetNextDt(cursor, GetMode(url).value).value;
        CrawlStep(cursor, now, today, fetch, url, next);
        CrawlWritesWithin(next, now, today, fetch);
        JoinWithin(url, w.store, w.ledger, Crawl(next, now, today, fetch), cursor, next, now);
      }
  }

  /** A window's lines after the cursor, followed by lines after a later cursor, are all after the first. */
  lemma JoinWithin(url: string, store: seq<Record>, ledger: seq<LedgerEntry>, rest: Crawled,
                   cursor: Instant, next: Instant, now: Instant)
    requires StoredWithin(store, cursor, now) && OnWholeMinutes(ledger)
    requires StoredWithin(rest.store, next, now) && OnWholeMinutes(rest.ledger) && Before(cursor, next)
    ensures StoredWithin(Then([url], store, ledger, rest).store, cursor, now)
    ensures OnWholeMinutes(Then([url], store, ledger, rest).ledger)
  {
    AppendWithin(store, rest.store, cursor, next, now);
    AppendWholeMinutes(ledger, rest.ledger);
  }

  lemma AppendWithin(a: seq<Record>, b: seq<Record>, start: Instant, next: Instant, now: Instant)
    requires StoredWithin(a, start, now) && StoredWithin(b, next, now) && Before(start, next)
    ensures StoredWithin(a + b, start, now)
  {
    assert forall i :: 0 <= i < |a + b| ==> (a + b)[i] == (if i < |a| then a[i] else b[i - |a|]);
  }

  lemma AppendWholeMinutes(a: seq<LedgerEntry>, b: seq<LedgerEntry>)
    requires OnWholeMinutes(a) && OnWholeMinutes(b)
    ensures OnWholeMinutes(a + b)
  {
    assert forall i :: 0 <= i < |a + b| ==> (a + b)[i] == (if i < |a| then a[i] else b[i - |a|]);
  }

  /**
   * A crawl that completes stops on a cursor whose day is neither over nor
   * today: everything up to the present was planned.
   */
  lemma {:induction false} CompletedAtPresent(cursor: Instant, now: Instant, today: Instant, fetch: string -> seq<RawRow>)
    ensures var r := Crawl(cursor, now, today, fetch);
      r.ending == Completed ==> !DtIsComplete(r.cursor, Day, now) && !DtIsToday(r.cursor, today)
    decreases Horizon(now, today) - Ordinal(cursor)
  {
    match DtToUrl(cursor, now, today)
    case Err(_) =>
    case Ok(url) =>
      if Run(fetch(url), cursor, now).status != Crashed && GetMode(url).Some? && GetNextDt(cursor, GetMode(url).value).Ok? {
        var next := GetNextDt(cursor, GetMode(url).value).value;
        CrawlStep(cursor, now, today, fetch, url, next);
        CompletedAtPresent(next, now, today, fetch);
      }
  }

  /**
   * Reaching a row at or after now (`break`) ends only that window: the crawl
   * goes on from the start of the next unit.
   */
  lemma StopEndsOnlyTheWindow(cursor: Instant, now: Instant, today: Instant, fetch: string -> seq<RawRow>, m: Mode)
    requires WindowUnit(cursor, now, today) == Some(m)
    requires Run(fetch(Url(m, cursor)), cursor, now).status == Stopped
    ensures var w := Run(fetch(Url(m, cursor)), cursor, now);
      Crawl(cursor, now, today, fetch)
        == Then([Url(m, cursor)], w.store, w.ledger, Crawl(Advance(cursor, m), now, today, fetch))
  {
    UrlRoundTrip(m, cursor);
    CrawlStep(cursor, now, today, fetch, Url(m, cursor), Advance(cursor, m));
  }

  /** A window whose rows raise ends the crawl after that window's lines. */
  lemma CrashEndsTheCrawl(cursor: Instant, now: Instant, today: Instant, fetch: string -> seq<RawRow>, m: Mode)
    requires WindowUnit(cursor, now, today) == Some(m)
    requires Run(fetch(Url(m, cursor)), cursor, now).status == Crashed
    ensures var w := Run(fetch(Url(m, cursor)), cursor, now);
      Crawl(cursor, now, today, fetch) == Crawled([Url(m, cursor)], w.store, w.ledger, WindowFailed, cursor)
  {
  }
}
