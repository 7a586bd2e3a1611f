// The backfill script (invest_loaders/empty_rates.py): select the rate rows
// whose four foreign rates are all empty, fetch each one's day from the bank,
// update the row when the feed converts, and keep one result line per row.
module Backfill {
  import opened Base
  import opened Calendar
  import opened Rates

  /** One line of the results file: the row updated with the day's rates,
      or the row that raised. */
  datatype ResultLine =
    | Updated(id: int, date: CalendarDate, rates: map<string, real>)
    | Failed(id: int, date: CalendarDate)

  /** What the loop does outside the database, in order: a request to the
      bank for a date, and the one-second pause after a row is updated. */
  datatype Effect = Request(date: CalendarDate) | Pause

  /** The line the loop appends for one selected row. */
  function LineFor(fetch: Fetch, parse: Parser, r: RateRecord): ResultLine
  {
    match DayRates(fetch, parse, r.date)
    case None => Failed(r.id, r.date)
    case Some(m) => Updated(r.id, r.date, m)
  }

  /** The result lines for the selected rows: one per row, in the order
      they were selected, each telling whether that row's day converted. */
  function Lines(fetch: Fetch, parse: Parser, selected: seq<RateRecord>): (r: seq<ResultLine>)
    ensures |r| == |selected|
    ensures forall k :: 0 <= k < |selected| ==> r[k].id == selected[k].id && r[k].date == selected[k].date
    ensures forall k :: 0 <= k < |selected| ==> (r[k].Updated? <==> DayRates(fetch, parse, selected[k].date).Some?)
    ensures forall k :: 0 <= k < |selected| && r[k].Updated? ==> r[k].rates == DayRates(fetch, parse, selected[k].date).value
  {
    if selected == [] then []
    else Lines(fetch, parse, selected[..|selected| - 1]) + [LineFor(fetch, parse, selected[|selected| - 1])]
  }

  /** The effects of one pass of the loop: the request, then the pause
      only if the row was updated. */
  function EffectsFor(fetch: Fetch, parse: Parser, r: RateRecord): seq<Effect>
  {
    [Request(r.date)] + if DayRates(fetch, parse, r.date).Some? then [Pause] else []
  }

  function Trace(fetch: Fetch, parse: Parser, selected: seq<RateRecord>): seq<Effect>
  {
    if selected == [] then []
    else Trace(fetch, parse, selected[..|selected| - 1]) + EffectsFor(fetch, parse, selected[|selected| - 1])
  }

  /** One more selected row: its line, its effects and its update, each
      after those of the rows before it. */
  lemma RunStep(rows: seq<RateRecord>, fetch: Fetch, parse: Parser, selected: seq<RateRecord>, i: int)
    requires 0 <= i < |selected|
    ensures Lines(fetch, parse, selected[..i + 1]) == Lines(fetch, parse, selected[..i]) + [LineFor(fetch, parse, selected[i])]
    ensures Trace(fetch, parse, selected[..i + 1]) == Trace(fetch, parse, selected[..i]) + EffectsFor(fetch, parse, selected[i])
    ensures var r, day := selected[i], DayRates(fetch, parse, selected[i].date);
            Backfilled(rows, fetch, parse, selected[..i + 1])
              == if day.Some? then UpdateRows(Backfilled(rows, fetch, parse, selected[..i]), r.id, day.value)
                 else Backfilled(rows, fetch, parse, selected[..i])
  {
    assert selected[..i + 1][..i] == selected[..i] && selected[..i + 1][i] == selected[i];
  }

  /** The table after the loop: each row whose day converted updated by its
      id, in turn. Ids, dates and RUR are never changed, and no row is
      added or removed. */
  function Backfilled(rows: seq<RateRecord>, fetch: Fetch, parse: Parser, selected: seq<RateRecord>): (r: seq<RateRecord>)
    ensures |r| == |rows|
    ensures forall i :: 0 <= i < |rows| ==> r[i].id == rows[i].id && r[i].date == rows[i].date && r[i].rur == rows[i].rur
  {
    if selected == [] then rows
    else
      var before := Backfilled(rows, fetch, parse, selected[..|selected| - 1]);
      var last := selected[|selected| - 1];
      match DayRates(fetch, parse, last.date)
      case None => before
      case Some(m) => UpdateRows(before, last.id, m)
  }

  /** The loop of main over the selected rows, for a given conversion of
      each day's feed. */
  method Run(table: RateTable, fetch: Fetch, parse: Parser, selected: seq<RateRecord>)
    returns (lines: seq<ResultLine>, trace: seq<Effect>)
    requires table.Valid()
    modifies table
    ensures table.Valid() && table.nextId == old(table.nextId)
    ensures lines == Lines(fetch, parse, selected)
    ensures trace == Trace(fetch, parse, selected)
    ensures table.rows == Backfilled(old(table.rows), fetch, parse, selected)
  {
    ghost var start := table.rows;
    lines, trace := [], [];
    var i := 0;
    while i < |selected|
      invariant 0 <= i <= |selected|
      invariant table.Valid() && table.nextId == old(table.nextId)
      invariant lines == Lines(fetch, parse, selected[..i]) && trace == Trace(fetch, parse, selected[..i])
      invariant table.rows == Backfilled(start, fetch, parse, selected[..i])
    {
      var line, effects := Visit(table, fetch, parse, selected[i]);
      RunStep(start, fetch, parse, selected, i);
      lines, trace := lines + [line], trace + effects;
      i := i + 1;
    }
    assert selected[..i] == selected;
  }

  /** One pass of the loop: request the row's day, and when it converts,
      update the row by its id and pause. */
  method Visit(table: RateTable, fetch: Fetch, parse: Parser, record: RateRecord)
    returns (line: ResultLine, effects: seq<Effect>)
    requires table.Valid()
    modifies table
    ensures table.Valid() && table.nextId == old(table.nextId)
    ensures line == LineFor(fetch, parse, record) && effects == EffectsFor(fetch, parse, record)
    ensures var day := DayRates(fetch, parse, record.date);
            table.rows == if day.Some? then UpdateRows(old(table.rows), record.id, day.value) else old(table.rows)
  {
    effects := [Request(record.date)];
    var feed := fetch(RequestDate(record.date));
    var rates := if feed.Some? then parse(feed.value) else None;
    assert rates == DayRates(fetch, parse, record.date);
    if rates.Some? {
      table.Update(record.id, rates.value);
      line := Updated(record.id, record.date, rates.value);
      effects := effects + [Pause];
    } else {
      line := Failed(record.id, record.date);
    }
  }

  /** main of the backfill script: the rows needing rates, each day's feed
      parsed as parse_exchange_rates does. `written` tells whether the
      results file is written: not when no row needs rates. */
  method FillEmptyRates(table: RateTable, fetch: Fetch) returns (lines: seq<ResultLine>, trace: seq<Effect>, written: bool)
    requires table.Valid()
    modifies table
    ensures table.Valid() && table.nextId == old(table.nextId)
    ensures written <==> EmptyRecords(old(table.rows)) != []
    ensures lines == Lines(fetch, RatesOf, EmptyRecords(old(table.rows)))
    ensures trace == Trace(fetch, RatesOf, EmptyRecords(old(table.rows)))
    ensures table.rows == Backfilled(old(table.rows), fetch, RatesOf, EmptyRecords(old(table.rows)))
  {
    var selected := EmptyRecords(table.rows);
    if selected == [] {
      lines, trace, written := [], [], false;
      return;
    }
    lines, trace := Run(table, fetch, RatesOf, selected);
    written := true;
  }

  /** A row no converted day was selected for keeps all its values. */
  lemma {:induction false} BackfillUntouched(rows: seq<RateRecord>, fetch: Fetch, parse: Parser, selected: seq<RateRecord>, i: int)
    requires 0 <= i < |rows|
    requires forall k :: 0 <= k < |selected| && selected[k].id == rows[i].id ==> DayRates(fetch, parse, selected[k].date).None?
    ensures Backfilled(rows, fetch, parse, selected)[i] == rows[i]
  {
    if selected != [] {
      var n := |selected|;
      assert forall k :: 0 <= k < n - 1 ==> selected[..n - 1][k] == selected[k];
      BackfillUntouched(rows, fetch, parse, selected[..n - 1], i);
    }
  }

  /** A row ends with the rates of the last converted day selected for its
      id; earlier updates of the same row are overwritten. */
  lemma {:induction false} BackfillLastWins(rows: seq<RateRecord>, fetch: Fetch, parse: Parser, selected: seq<RateRecord>, i: int, k: int)
    requires 0 <= i < |rows| && 0 <= k < |selected|
    requires selected[k].id == rows[i].id && DayRates(fetch, parse, selected[k].date).Some?
    requires forall j :: k < j < |selected| && selected[j].id == rows[i].id ==> DayRates(fetch, parse, selected[j].date).None?
    ensures Backfilled(rows, fetch, parse, selected)[i] == Refreshed(rows[i], DayRates(fetch, parse, selected[k].date).value)
    decreases |selected|, 1
  {
    if k < |selected| - 1 {
      BackfillEarlierWins(rows, fetch, parse, selected, i, k);
    } else {
      BackfillAtLast(rows, fetch, parse, selected, i);
    }
  }

  /** BackfillLastWins when the k-th selected row is not the last one. */
  lemma {:induction false} BackfillEarlierWins(rows: seq<RateRecord>, fetch: Fetch, parse: Parser, selected: seq<RateRecord>, i: int, k: int)
    requires 0 <= i < |rows| && 0 <= k < |selected| - 1
    requires selected[k].id == rows[i].id && DayRates(fetch, parse, selected[k].date).Some?
    requires forall j :: k < j < |selected| && selected[j].id == rows[i].id ==> DayRates(fetch, parse, selected[j].date).None?
    ensures Backfilled(rows, fetch, parse, selected)[i] == Refreshed(rows[i], DayRates(fetch, parse, selected[k].date).value)
    decreases |selected|, 0
  {
    var before := selected[..|selected| - 1];
    assert before[k] == selected[k];
    LaterSkipsPrefix(fetch, parse, selected, k, rows[i].id);
    BackfillLastWins(rows, fetch, parse, before, i, k);
    EarlierWins(rows, fetch, parse, selected, i, k);
  }

  /** An update made before the last selected row survives it when that
      row leaves this one alone. */
  lemma EarlierWins(rows: seq<RateRecord>, fetch: Fetch, parse: Parser, selected: seq<RateRecord>, i: int, k: int)
    requires 0 <= i < |rows| && 0 <= k < |selected| - 1 && DayRates(fetch, parse, selected[k].date).Some?
    requires forall j :: k < j < |selected| && selected[j].id == rows[i].id ==> DayRates(fetch, parse, selected[j].date).None?
    requires Backfilled(rows, fetch, parse, selected[..|selected| - 1])[i]
          == Refreshed(rows[i], DayRates(fetch, parse, selected[k].date).value)
    ensures Backfilled(rows, fetch, parse, selected)[i] == Refreshed(rows[i], DayRates(fetch, parse, selected[k].date).value)
  {
    BackfillSkipsLast(rows, fetch, parse, selected, i);
  }

  /** What holds of the selected rows after the k-th holds of those in a
      shorter selection. */
  lemma LaterSkipsPrefix(fetch: Fetch, parse: Parser, selected: seq<RateRecord>, k: int, id: int)
    requires 0 <= k < |selected| - 1
    requires forall j :: k < j < |selected| && selected[j].id == id ==> DayRates(fetch, parse, selected[j].date).None?
    ensures var before := selected[..|selected| - 1];
            forall j :: k < j < |before| && before[j].id == id ==> DayRates(fetch, parse, before[j].date).None?
  {
    var before := selected[..|selected| - 1];
    assert forall j :: k < j < |before| ==> before[j] == selected[j];
  }

  /** A last selected row with another id, or whose day does not convert,
      leaves the row as the earlier ones made it. */
  lemma BackfillSkipsLast(rows: seq<RateRecord>, fetch: Fetch, parse: Parser, selected: seq<RateRecord>, i: int)
    requires selected != [] && 0 <= i < |rows|
    requires selected[|selected| - 1].id == rows[i].id ==> DayRates(fetch, parse, selected[|selected| - 1].date).None?
    ensures Backfilled(rows, fetch, parse, selected)[i]
         == Backfilled(rows, fetch, parse, selected[..|selected| - 1])[i]
  {
    BackfilledLast(rows, fetch, parse, selected, i);
  }

  /** The last selected row, when its day converts, refreshes every row
      with its id. */
  lemma BackfillAtLast(rows: seq<RateRecord>, fetch: Fetch, parse: Parser, selected: seq<RateRecord>, i: int)
    requires selected != [] && 0 <= i < |rows|
    requires selected[|selected| - 1].id == rows[i].id
    requires DayRates(fetch, parse, selected[|selected| - 1].date).Some?
    ensures Backfilled(rows, fetch, parse, selected)[i]
         == Refreshed(rows[i], DayRates(fetch, parse, selected[|selected| - 1].date).value)
  {
    var b := Backfilled(rows, fetch, parse, selected[..|selected| - 1]);
    BackfilledLast(rows, fetch, parse, selected, i);
    RefreshedKeeps(b[i], rows[i], DayRates(fetch, parse, selected[|selected| - 1].date).value);
  }

  /** One row after one more selected row: updated when that row's day
      converted and the ids match, otherwise as before. */
  lemma BackfilledLast(rows: seq<RateRecord>, fetch: Fetch, parse: Parser, selected: seq<RateRecord>, i: int)
    requires selected != [] && 0 <= i < |rows|
    ensures var b := Backfilled(rows, fetch, parse, selected[..|selected| - 1]);
            var last := selected[|selected| - 1];
            var day := DayRates(fetch, parse, last.date);
            Backfilled(rows, fetch, parse, selected)[i]
              == if day.Some? && b[i].id == last.id then Refreshed(b[i], day.value) else b[i]
  {
    var last := selected[|selected| - 1];
    BackfilledUnfold(rows, fetch, parse, selected);
    PassAt(Backfilled(rows, fetch, parse, selected), Backfilled(rows, fetch, parse, selected[..|selected| - 1]),
           last.id, DayRates(fetch, parse, last.date), i);
  }

  /** The last selected row's pass, applied to the table the others left. */
  lemma BackfilledUnfold(rows: seq<RateRecord>, fetch: Fetch, parse: Parser, selected: seq<RateRecord>)
    requires selected != []
    ensures var b := Backfilled(rows, fetch, parse, selected[..|selected| - 1]);
            var last := selected[|selected| - 1];
            var day := DayRates(fetch, parse, last.date);
            Backfilled(rows, fetch, parse, selected) == if day.Some? then UpdateRows(b, last.id, day.value) else b
  {
  }

  /** Row i after a pass that updated by `id`, or did nothing. */
  lemma PassAt(after: seq<RateRecord>, b: seq<RateRecord>, id: int, day: Option<map<string, real>>, i: int)
    requires 0 <= i < |b|
    requires after == if day.Some? then UpdateRows(b, id, day.value) else b
    ensures after[i] == if day.Some? && b[i].id == id then Refreshed(b[i], day.value) else b[i]
  {
  }

  /** Refreshed reads only the id, the date and RUR of the row it refreshes. */
  lemma RefreshedKeeps(a: RateRecord, b: RateRecord, m: map<string, real>)
    requires a.id == b.id && a.date == b.date && a.rur == b.rur
    ensures Refreshed(a, m) == Refreshed(b, m)
  {
  }

  /** Selecting from a table with distinct ids selects distinct ids. */
  lemma {:induction false} EmptyRecordsUnique(rows: seq<RateRecord>)
    requires UniqueIds(rows)
    ensures UniqueIds(EmptyRecords(rows))
  {
    if rows != [] {
      var n := |rows|;
      var before := rows[..n - 1];
      assert UniqueIds(before);
      EmptyRecordsUnique(before);
      var e := EmptyRecords(before);
      forall k | 0 <= k < |e| ensures e[k].id != rows[n - 1].id {
        var j :| 0 <= j < |before| && before[j] == e[k];
        assert rows[j] == e[k];
      }
      UniqueAppend(e, rows[n - 1]);
    }
  }

  /** A row whose id no row has yet keeps the ids distinct. */
  lemma UniqueAppend(rows: seq<RateRecord>, r: RateRecord)
    requires UniqueIds(rows) && forall k :: 0 <= k < |rows| ==> rows[k].id != r.id
    ensures UniqueIds(rows + [r])
  {
    var s := rows + [r];
    forall i, j | 0 <= i < j < |s| ensures s[i].id != s[j].id {
      assert s[i] == rows[i];
    }
  }

  /** The only selected row with a given row's id is that row itself. */
  lemma SelectedById(rows: seq<RateRecord>, i: int, k: int)
    requires UniqueIds(rows) && 0 <= i < |rows| && 0 <= k < |EmptyRecords(rows)|
    requires EmptyRecords(rows)[k].id == rows[i].id
    ensures EmptyRecords(rows)[k] == rows[i]
  {
    var j :| 0 <= j < |rows| && rows[j] == EmptyRecords(rows)[k];
    assert j == i;
  }

  /** A row with any foreign rate filled in is never selected and leaves
      the backfill as it came. */
  lemma FilledRowKept(rows: seq<RateRecord>, fetch: Fetch, parse: Parser, i: int)
    requires UniqueIds(rows) && 0 <= i < |rows| && !NeedsRates(rows[i])
    ensures Backfilled(rows, fetch, parse, EmptyRecords(rows))[i] == rows[i]
  {
    var selected := EmptyRecords(rows);
    forall k | 0 <= k < |selected| ensures selected[k].id != rows[i].id {
      if selected[k].id == rows[i].id {
        SelectedById(rows, i, k);
      }
    }
    BackfillUntouched(rows, fetch, parse, selected, i);
  }

  /** A row needing rates whose day does not convert is left as it was: the
      failure is confined to its own line. */
  lemma FailedRowKept(rows: seq<RateRecord>, fetch: Fetch, parse: Parser, i: int)
    requires UniqueIds(rows) && 0 <= i < |rows|
    requires DayRates(fetch, parse, rows[i].date).None?
    ensures Backfilled(rows, fetch, parse, EmptyRecords(rows))[i] == rows[i]
  {
    var selected := EmptyRecords(rows);
    forall k | 0 <= k < |selected| && selected[k].id == rows[i].id
      ensures DayRates(fetch, parse, selected[k].date).None?
    {
      SelectedById(rows, i, k);
    }
    BackfillUntouched(rows, fetch, parse, selected, i);
  }

  /** A row needing rates whose day converts ends with that day's four
      foreign rates, its id, date and RUR kept. */
  lemma EmptyRowFilled(rows: seq<RateRecord>, fetch: Fetch, parse: Parser, i: int)
    requires UniqueIds(rows) && 0 <= i < |rows| && NeedsRates(rows[i])
    requires DayRates(fetch, parse, rows[i].date).Some?
    ensures Backfilled(rows, fetch, parse, EmptyRecords(rows))[i] == Refreshed(rows[i], DayRates(fetch, parse, rows[i].date).value)
  {
    EmptyRecordsUnique(rows);
    var selected := EmptyRecords(rows);
    var k :| 0 <= k < |selected| && selected[k] == rows[i];
    BackfillLastWins(rows, fetch, parse, selected, i, k);
  }

  /** The days requested in a trace, in order. */
  function Requests(trace: seq<Effect>): (r: seq<CalendarDate>)
    ensures |r| <= |trace|
  {
    if trace == [] then []
    else Requests(trace[..|trace| - 1]) + match trace[|trace| - 1] { case Request(d) => [d] case Pause => [] }
  }

  lemma {:induction false} RequestsAppend(a: seq<Effect>, b: seq<Effect>)
    ensures Requests(a + b) == Requests(a) + Requests(b)
  {
    if b != [] {
      var n := |b|;
      assert (a + b)[..|a + b| - 1] == a + b[..n - 1];
      RequestsAppend(a, b[..n - 1]);
    } else {
      assert a + b == a;
    }
  }

  /** One pass of the loop requests exactly its row's day. */
  lemma RequestsOfPass(fetch: Fetch, parse: Parser, r: RateRecord)
    ensures Requests(EffectsFor(fetch, parse, r)) == [r.date]
  {
    var pause: seq<Effect> := if DayRates(fetch, parse, r.date).Some? then [Pause] else [];
    RequestsAppend([Request(r.date)], pause);
    assert Requests([Request(r.date)]) == [r.date] by {
      assert [Request(r.date)][..0] == [];
    }
    assert Requests(pause) == [] by {
      if pause != [] { assert pause[..0] == []; }
    }
  }

  /** One request per selected row, for that row's day, in selection
      order; nothing is requested when no row needs rates. */
  lemma {:induction false} OneRequestPerRow(fetch: Fetch, parse: Parser, selected: seq<RateRecord>)
    ensures |Requests(Trace(fetch, parse, selected))| == |selected|
    ensures forall k :: 0 <= k < |selected| ==> Requests(Trace(fetch, parse, selected))[k] == selected[k].date
  {
    if selected != [] {
      var n := |selected|;
      var before := selected[..n - 1];
      OneRequestPerRow(fetch, parse, before);
      var t0 := Trace(fetch, parse, before);
      var e := EffectsFor(fetch, parse, selected[n - 1]);
      assert Trace(fetch, parse, selected) == t0 + e;
      RequestsAppend(t0, e);
      RequestsOfPass(fetch, parse, selected[n - 1]);
      var r0 := Requests(t0);
      assert Requests(t0 + e) == r0 + [selected[n - 1].date];
      forall k | 0 <= k < n ensures (r0 + [selected[n - 1].date])[k] == selected[k].date {
        if k < n - 1 { assert before[k] == selected[k]; }
      }
    }
  }

  /** Every pause comes right after the request for a day whose rates were
      read and written. */
  predicate PausesFollowUpdates(fetch: Fetch, parse: Parser, t: seq<Effect>) {
    forall j :: 0 <= j < |t| && t[j] == Pause ==>
      0 < j && t[j - 1].Request? && DayRates(fetch, parse, t[j - 1].date).Some?
  }

  /** Every request for a day whose rates were read and written is followed
      by a pause. */
  predicate UpdatesArePaused(fetch: Fetch, parse: Parser, t: seq<Effect>) {
    forall j :: 0 <= j < |t| && t[j].Request? && DayRates(fetch, parse, t[j].date).Some? ==>
      j + 1 < |t| && t[j + 1] == Pause
  }

  /** The loop sleeps exactly after the requests whose rows were updated:
      a failed request or parse goes on to the next row at once. */
  lemma {:induction false} PauseFollowsUpdate(fetch: Fetch, parse: Parser, selected: seq<RateRecord>)
    ensures PausesFollowUpdates(fetch, parse, Trace(fetch, parse, selected))
    ensures UpdatesArePaused(fetch, parse, Trace(fetch, parse, selected))
  {
    if selected != [] {
      var n := |selected|;
      var before := selected[..n - 1];
      PauseFollowsUpdate(fetch, parse, before);
      var t0 := Trace(fetch, parse, before);
      var e := EffectsFor(fetch, parse, selected[n - 1]);
      var t := t0 + e;
      assert Trace(fetch, parse, selected) == t;
      PauseStep(fetch, parse, t0, e, selected[n - 1]);
    }
  }

  /** Appending one row's effects keeps both properties. */
  lemma PauseStep(fetch: Fetch, parse: Parser, t0: seq<Effect>, e: seq<Effect>, r: RateRecord)
    requires PausesFollowUpdates(fetch, parse, t0) && UpdatesArePaused(fetch, parse, t0)
    requires e == EffectsFor(fetch, parse, r)
    ensures PausesFollowUpdates(fetch, parse, t0 + e) && UpdatesArePaused(fetch, parse, t0 + e)
  {
    var t := t0 + e;
    var updated := DayRates(fetch, parse, r.date).Some?;
    assert e[0] == Request(r.date);
    assert |e| == if updated then 2 else 1;
    assert updated ==> e[1] == Pause;
    forall j | 0 <= j < |t| && t[j] == Pause
      ensures 0 < j && t[j - 1].Request? && DayRates(fetch, parse, t[j - 1].date).Some?
    {
      if j < |t0| {
        assert t0[j] == Pause;
        assert t[j - 1] == t0[j - 1];
      } else {
        assert j == |t0| + 1 && t[j - 1] == e[0];
      }
    }
    forall j | 0 <= j < |t| && t[j].Request? && DayRates(fetch, parse, t[j].date).Some?
      ensures j + 1 < |t| && t[j + 1] == Pause
    {
      if j < |t0| {
        assert t0[j] == t[j];
        assert t[j + 1] == t0[j + 1];
      } else {
        assert j == |t0| && t[j] == e[0];
      }
    }
  }
}
