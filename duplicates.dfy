/**
 * dataset_util.py: reads the catalog's rows and lists every economic row
 * whose (timestamp, event, currency) was already seen, counting each key in
 * a dictionary of dictionaries of dictionaries.
 *
 * A row is a list of cell strings as csv.reader yields it: row[0] is the
 * timestamp, row[1] the currency, row[2] the impact and row[3] the event.
 */
module Duplicates {
  import opened Options

  type Row = seq<string>

  const NonEconomic: string := "Non-Economic"

  /** The key of a row's count: timestamp, then event, then currency. */
  datatype Key = Key(timestamp: string, event: string, currency: string)

  /** count[timestamp][event][currency] */
  type Count = map<string, map<string, map<string, int>>>

  /**
   * The script reads row[2] of every row, and row[0], row[1] and row[3] of a
   * row that is not Non-Economic; a shorter row raises IndexError.
   */
  predicate Readable(row: Row) {
    |row| >= 3 && (row[2] == NonEconomic || |row| >= 4)
  }

  predicate AllReadable(rows: seq<Row>) {
    forall i :: 0 <= i < |rows| ==> Readable(rows[i])
  }

  /** A row that takes part in the count: one whose impact is not Non-Economic. */
  predicate Counted(row: Row)
    requires Readable(row)
  {
    row[2] != NonEconomic
  }

  function KeyOf(row: Row): Key
    requires |row| >= 4
  {
    Key(row[0], row[3], row[1])
  }

  /** How many counted rows have key k. */
  function Seen(rows: seq<Row>, k: Key): nat
    requires AllReadable(rows)
  {
    if rows == [] then 0
    else
      var row := rows[|rows| - 1];
      Seen(rows[..|rows| - 1], k) + if Counted(row) && KeyOf(row) == k then 1 else 0
  }

  /** The counted rows, in order, whose key occurs among the counted rows before them. */
  function Repeats(rows: seq<Row>): seq<Row>
    requires AllReadable(rows)
  {
    if rows == [] then []
    else
      var (init, row) := (rows[..|rows| - 1], rows[|rows| - 1]);
      Repeats(init) + if Counted(row) && Seen(init, KeyOf(row)) > 0 then [row] else []
  }

  /** `currency in count[timestamp][event]`, with both outer keys present. */
  predicate Present(count: Count, k: Key) {
    k.timestamp in count && k.event in count[k.timestamp] && k.currency in count[k.timestamp][k.event]
  }

  /** The count of key k, 0 when there is no entry. */
  function Lookup(count: Count, k: Key): int {
    if Present(count, k) then count[k.timestamp][k.event][k.currency] else 0
  }

  /** The dictionary holds exactly the keys seen, each with the number of times it was seen. */
  ghost predicate Tallies(count: Count, rows: seq<Row>)
    requires AllReadable(rows)
  {
    forall k :: (Present(count, k) <==> Seen(rows, k) > 0) && Lookup(count, k) == Seen(rows, k)
  }

  /**
   * The script's loop. It stops at the first row it cannot read (the
   * IndexError ends the script), reporting that row's index.
   */
  method FindDuplicates(rows: seq<Row>) returns (count: Count, lockAt: seq<Row>, failedAt: Option<nat>)
    ensures failedAt.None? <==> AllReadable(rows)
    ensures failedAt.Some? ==> failedAt.value < |rows| && !Readable(rows[failedAt.value])
    ensures var n := if failedAt.Some? then failedAt.value else |rows|;
      n <= |rows| && AllReadable(rows[..n]) && lockAt == Repeats(rows[..n]) && Tallies(count, rows[..n])
  {
    count, lockAt := map[], [];
    var i := 0;
    while i < |rows|
      invariant i <= |rows| && AllReadable(rows[..i])
      invariant lockAt == Repeats(rows[..i]) && Tallies(count, rows[..i])
    {
      var row := rows[i];
      if |row| < 3 {
        return count, lockAt, Some(i);
      }
      if row[2] != NonEconomic {
        if |row| < 4 {
          return count, lockAt, Some(i);
        }
        var repeat;
        ghost var before := count;
        count, repeat := CountRow(count, row);
        CountedStep(before, count, repeat, rows, i);
        if repeat {
          lockAt := lockAt + [row];
        }
      } else {
        SkippedStep(count, rows, i);
      }
      i := i + 1;
    }
    assert rows[..i] == rows;
    return count, lockAt, None;
  }

  // ---------------------------------------------------------------------------
  // The dictionary updates

  /**
   * The body of the loop for a counted row: the first missing level of
   * count[row[0]][row[3]][row[1]] is created with a 0 count, or, when the
   * entry exists, the row is a repeat; then the entry is raised by one.
   */
  method CountRow(count: Count, row: Row) returns (counted: Count, repeat: bool)
    requires |row| >= 4
    ensures repeat <==> Present(count, KeyOf(row))
    ensures Raised(count, counted, KeyOf(row))
  {
    var key := KeyOf(row);
    counted, repeat := count, false;
    if row[0] !in counted {
      AddFirst(counted, key);
      counted := counted[row[0] := map[row[3] := map[row[1] := 0]]];
    } else if row[3] !in counted[row[0]] {
      AddEvent(counted, key);
      counted := counted[row[0] := counted[row[0]][row[3] := map[row[1] := 0]]];
    } else if row[1] !in counted[row[0]][row[3]] {
      AddCurrency(counted, key);
      counted := counted[row[0] := counted[row[0]][row[3] := counted[row[0]][row[3]][row[1] := 0]]];
    } else {
      repeat := true;
    }
    Increment(counted, key);
    counted := counted[row[0] := counted[row[0]][row[3] := counted[row[0]][row[3]][row[1] := counted[row[0]][row[3]][row[1]] + 1]]];
  }

  /** A first entry under a new timestamp adds only that key, at 0. */
  lemma AddFirst(count: Count, key: Key)
    requires key.timestamp !in count
    ensures var c := count[key.timestamp := map[key.event := map[key.currency := 0]]];
      forall k :: (Present(c, k) <==> Present(count, k) || k == key) && Lookup(c, k) == Lookup(count, k)
  {
  }

  /** A new event under a known timestamp adds only that key, at 0. */
  lemma AddEvent(count: Count, key: Key)
    requires key.timestamp in count && key.event !in count[key.timestamp]
    ensures var c := count[key.timestamp := count[key.timestamp][key.event := map[key.currency := 0]]];
      forall k :: (Present(c, k) <==> Present(count, k) || k == key) && Lookup(c, k) == Lookup(count, k)
  {
  }

  /** A new currency under a known timestamp and event adds only that key, at 0. */
  lemma AddCurrency(count: Count, key: Key)
    requires key.timestamp in count && key.event in count[key.timestamp]
    requires key.currency !in count[key.timestamp][key.event]
    ensures var c := count[key.timestamp := count[key.timestamp][key.event :=
      count[key.timestamp][key.event][key.currency := 0]]];
      forall k :: (Present(c, k) <==> Present(count, k) || k == key) && Lookup(c, k) == Lookup(count, k)
  {
  }

  /** `count[...] = count[...] + 1` raises that key's count by one and leaves every other key alone. */
  lemma Increment(count: Count, key: Key)
    requires Present(count, key)
    ensures var c := count[key.timestamp := count[key.timestamp][key.event :=
      count[key.timestamp][key.event][key.currency := count[key.timestamp][key.event][key.currency] + 1]]];
      forall k :: ((Present(c, k) <==> Present(count, k))
        && Lookup(c, k) == Lookup(count, k) + (if k == key then 1 else 0))
  {
  }

  /** One more row read: its key, when counted, is seen once more, and it is listed when seen before. */
  lemma RowStep(rows: seq<Row>, i: nat)
    requires i < |rows| && AllReadable(rows[..i]) && Readable(rows[i])
    ensures AllReadable(rows[..i + 1])
    ensures forall k :: Seen(rows[..i + 1], k) == Seen(rows[..i], k) + if Counted(rows[i]) && KeyOf(rows[i]) == k then 1 else 0
    ensures Repeats(rows[..i + 1]) ==
      Repeats(rows[..i]) + if Counted(rows[i]) && Seen(rows[..i], KeyOf(rows[i])) > 0 then [rows[i]] else []
  {
    assert rows[..i + 1][..i] == rows[..i];
  }

  /** `after` is `before` with key's entry present and one higher, and every other entry as it was. */
  ghost predicate Raised(before: Count, after: Count, key: Key) {
    forall k :: ((Present(after, k) <==> Present(before, k) || k == key)
      && Lookup(after, k) == Lookup(before, k) + (if k == key then 1 else 0))
  }

  /**
   * A counted row raises its key's count by one, so the dictionary tallies the
   * longer prefix; the row is listed exactly when its entry existed before.
   */
  lemma CountedStep(before: Count, after: Count, repeat: bool, rows: seq<Row>, i: nat)
    requires i < |rows| && AllReadable(rows[..i]) && Readable(rows[i]) && Counted(rows[i])
    requires Tallies(before, rows[..i]) && Raised(before, after, KeyOf(rows[i]))
    requires repeat <==> Present(before, KeyOf(rows[i]))
    ensures AllReadable(rows[..i + 1]) && Tallies(after, rows[..i + 1])
    ensures Repeats(rows[..i + 1]) == Repeats(rows[..i]) + if repeat then [rows[i]] else []
  {
    RowStep(rows, i);
  }

  /** A Non-Economic row changes neither the tally nor the list. */
  lemma SkippedStep(count: Count, rows: seq<Row>, i: nat)
    requires i < |rows| && AllReadable(rows[..i]) && Readable(rows[i]) && !Counted(rows[i])
    requires Tallies(count, rows[..i])
    ensures AllReadable(rows[..i + 1]) && Tallies(count, rows[..i + 1]) && Repeats(rows[..i + 1]) == Repeats(rows[..i])
  {
    RowStep(rows, i);
  }

  // ---------------------------------------------------------------------------
  // Properties

  /** Rows after the first with the same key are listed; the first is not: one fewer than seen. */
  lemma {:induction false} RepeatsPerKey(rows: seq<Row>, k: Key)
    requires AllReadable(rows)
    ensures |RepeatsOf(Repeats(rows), k)| == if Seen(rows, k) == 0 then 0 else Seen(rows, k) - 1
  {
    if rows != [] {
      var (init, row) := (rows[..|rows| - 1], rows[|rows| - 1]);
      RepeatsPerKey(init, k);
      RepeatsOfConcat(Repeats(init), if Counted(row) && Seen(init, KeyOf(row)) > 0 then [row] else [], k);
    }
  }

  /** The listed rows that are counted and have key k. */
  function RepeatsOf(listed: seq<Row>, k: Key): seq<Row> {
    if listed == [] then []
    else
      var row := listed[|listed| - 1];
      RepeatsOf(listed[..|listed| - 1], k)
        + if |row| >= 4 && row[2] != NonEconomic && KeyOf(row) == k then [row] else []
  }

  lemma {:induction false} RepeatsOfConcat(a: seq<Row>, b: seq<Row>, k: Key)
    ensures RepeatsOf(a + b, k) == RepeatsOf(a, k) + RepeatsOf(b, k)
    decreases |b|
  {
    if b == [] {
      assert a + b == a;
    } else {
      var (init, row) := (b[..|b| - 1], b[|b| - 1]);
      assert (a + b)[..|a + b| - 1] == a + init;
      assert (a + b)[|a + b| - 1] == row;
      RepeatsOfConcat(a, init, k);
    }
  }

  /** Only economic rows are listed, and each is a row whose key was counted at least twice. */
  lemma {:induction false} RepeatsAreEconomic(rows: seq<Row>)
    requires AllReadable(rows)
    ensures forall r :: r in Repeats(rows) ==> Readable(r) && Counted(r) && Seen(rows, KeyOf(r)) >= 2
  {
    if rows != [] {
      var (init, row) := (rows[..|rows| - 1], rows[|rows| - 1]);
      RepeatsAreEconomic(init);
      forall r | r in Repeats(init)
        ensures Seen(rows, KeyOf(r)) >= Seen(init, KeyOf(r))
      {
      }
    }
  }

  /** Non-Economic rows neither count nor get listed. */
  lemma NonEconomicIgnored(rows: seq<Row>, row: Row, k: Key)
    requires AllReadable(rows) && Readable(row) && !Counted(row)
    ensures AllReadable(rows + [row])
    ensures Seen(rows + [row], k) == Seen(rows, k) && Repeats(rows + [row]) == Repeats(rows)
  {
    assert (rows + [row])[..|rows|] == rows;
  }
}
