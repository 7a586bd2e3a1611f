// The daily exchange-rate script (invest_loaders/currencies.py): look for
// today's row, fetch and parse the feed only when there is none, and insert
// one row for the day.
module DailyRates {
  import opened Base
  import opened Calendar
  import opened Rates

  /** How a run ends: the day was already stored, the feed could not be
      fetched or parsed, or one row was inserted. */
  datatype Outcome = AlreadyStored | FeedFailed | Stored

  /** At most one row per date. */
  ghost predicate OnePerDate(rows: seq<RateRecord>) {
    forall d :: CountDate(rows, d) <= 1
  }

  /** main of the daily script. `requested` lists the request dates sent to
      the bank, in order. */
  method RecordToday(table: RateTable, today: CalendarDate, fetch: Fetch) returns (outcome: Outcome, requested: seq<string>)
    requires table.Valid()
    modifies table
    ensures table.Valid() && table.nextId >= old(table.nextId)
    ensures outcome == AlreadyStored <==> HasRatesFor(old(table.rows), today)
    ensures outcome == AlreadyStored ==> requested == [] && table.rows == old(table.rows)
    ensures outcome != AlreadyStored ==> requested == [RequestDate(today)]
    ensures outcome == FeedFailed <==> !HasRatesFor(old(table.rows), today) && FeedRates(fetch, today).None?
    ensures outcome == FeedFailed ==> table.rows == old(table.rows)
    ensures outcome == Stored ==>
              table.rows == old(table.rows) + [NewRecord(old(table.nextId), today, FeedRates(fetch, today).value)]
    ensures CountDate(table.rows, today) == (if outcome == Stored then 1 else CountDate(old(table.rows), today))
    ensures OnePerDate(old(table.rows)) ==> OnePerDate(table.rows)
  {
    if HasRatesFor(table.rows, today) {
      outcome, requested := AlreadyStored, [];
      return;
    }
    requested := [RequestDate(today)];
    var feed := fetch(RequestDate(today));
    if feed.None? {
      outcome := FeedFailed;
      return;
    }
    var rates := ParseExchangeRates(feed.value);
    if rates.None? {
      outcome := FeedFailed;
      return;
    }
    ghost var before := table.rows;
    table.Insert(today, rates.value);
    outcome := Stored;
    forall d ensures CountDate(table.rows, d) == CountDate(before, d) + (if d == today then 1 else 0) {
      CountDateAppend(before, NewRecord(old(table.nextId), today, rates.value), d);
    }
  }

  /** Once a run has stored the day, the next run on the same day finds it
      and stops before any request. */
  lemma RerunFindsDay(rows: seq<RateRecord>, id: int, today: CalendarDate, rates: map<string, real>)
    ensures HasRatesFor(rows + [NewRecord(id, today, rates)], today)
  {
    CountDateAppend(rows, NewRecord(id, today, rates), today);
  }

  /** The stored row holds RUR and the four foreign rates of the feed,
      NULL for a code the feed does not list. */
  lemma StoredRow(id: int, today: CalendarDate, entries: seq<FeedEntry>, rate: FeedEntry -> Option<real>)
    requires RatesBy(entries, rate).Some?
    ensures var r := NewRecord(id, today, RatesBy(entries, rate).value);
            && r.date == today
            && (r.usd.Some? <==> exists i :: 0 <= i < |entries| && entries[i].code == "USD")
            && (r.gbp.Some? <==> exists i :: 0 <= i < |entries| && entries[i].code == "GBP")
            && (r.eur.Some? <==> exists i :: 0 <= i < |entries| && entries[i].code == "EUR")
            && (r.kzt.Some? <==> exists i :: 0 <= i < |entries| && entries[i].code == "KZT")
            && r.rur.Some?
  {
    CodeListed(entries, rate, "RUR");
    CodeListed(entries, rate, "USD");
    CodeListed(entries, rate, "GBP");
    CodeListed(entries, rate, "EUR");
    CodeListed(entries, rate, "KZT");
  }

  /** RUR is always in the map; any other code is in it exactly when some
      entry lists it. */
  lemma CodeListed(entries: seq<FeedEntry>, rate: FeedEntry -> Option<real>, code: string)
    requires RatesBy(entries, rate).Some?
    ensures code == "RUR" ==> code in RatesBy(entries, rate).value
    ensures code != "RUR" ==> (code in RatesBy(entries, rate).value <==> exists i :: 0 <= i < |entries| && entries[i].code == code)
  {
    RatesByKeys(entries, rate);
    if exists i :: 0 <= i < |entries| && entries[i].code == code {
      var i :| 0 <= i < |entries| && entries[i].code == code;
      assert entries[i].code in RatesBy(entries, rate).value.Keys;
    }
  }
}
