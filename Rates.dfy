// The exchange-rate side shared by the daily script
// (invest_loaders/currencies.py) and the backfill script
// (invest_loaders/empty_rates.py): the central bank's daily feed, the
// code-to-rate map built from it, and the table of daily rate rows.
module Rates {
  import opened Base
  import opened Strings
  import opened Numbers
  import opened Calendar

  /** One <Valute> element of the feed: the texts of its CharCode, Value and
      Nominal children. */
  datatype FeedEntry = FeedEntry(code: string, value: string, nominal: string)

  /** The feed for one request date (`date_req`, dd/mm/yyyy), or None when
      the request or the XML parse fails. */
  type Fetch = string -> Option<seq<FeedEntry>>

  /** float() of the Value text with its decimal comma made a point. */
  function EntryValue(e: FeedEntry): Option<real> {
    ParseDecimal(Replace(e.value, ',', '.'))
  }

  /** int() of the Nominal text. */
  function EntryNominal(e: FeedEntry): Option<int> {
    ParseInt(e.nominal)
  }

  /** value / nominal; None where either conversion raises or the nominal
      is zero. */
  function EntryRate(e: FeedEntry): Option<real> {
    var value :- EntryValue(e);
    var nominal :- EntryNominal(e);
    if nominal == 0 then None else Some(value / nominal as real)
  }

  /** rates = {'RUR': 1.0}, then rates[code] = rate(entry) for each entry
      in feed order; None as soon as one entry raises. */
  function RatesBy(entries: seq<FeedEntry>, rate: FeedEntry -> Option<real>): Option<map<string, real>> {
    if entries == [] then Some(map["RUR" := 1.0])
    else
      var last := entries[|entries| - 1];
      match RatesBy(entries[..|entries| - 1], rate)
      case None => None
      case Some(m) =>
        match rate(last)
        case None => None
        case Some(v) => Some(m[last.code := v])
  }

  /** The map parse_exchange_rates builds from a feed. */
  function RatesOf(entries: seq<FeedEntry>): Option<map<string, real>> {
    RatesBy(entries, EntryRate)
  }

  /** parse_exchange_rates */
  method ParseExchangeRates(entries: seq<FeedEntry>) returns (r: Option<map<string, real>>)
    ensures r == RatesOf(entries)
  {
    var rates := map["RUR" := 1.0];
    var i := 0;
    while i < |entries|
      invariant 0 <= i <= |entries|
      invariant RatesBy(entries[..i], EntryRate) == Some(rates)
    {
      var e := entries[i];
      var rate := EntryRate(e);
      if rate.None? {
        RatesByStops(entries, EntryRate, i);
        return None;
      }
      RatesByExtends(entries, EntryRate, i, rates);
      rates := rates[e.code := rate.value];
      i := i + 1;
    }
    assert entries[..i] == entries;
    r := Some(rates);
  }

  lemma RatesByExtends(entries: seq<FeedEntry>, rate: FeedEntry -> Option<real>, i: int, m: map<string, real>)
    requires 0 <= i < |entries| && RatesBy(entries[..i], rate) == Some(m) && rate(entries[i]).Some?
    ensures RatesBy(entries[..i + 1], rate) == Some(m[entries[i].code := rate(entries[i]).value])
  {
    assert entries[..i + 1][..i] == entries[..i];
  }

  lemma RatesByStops(entries: seq<FeedEntry>, rate: FeedEntry -> Option<real>, i: int)
    requires 0 <= i < |entries| && rate(entries[i]).None?
    ensures RatesBy(entries, rate).None?
  {
    assert entries[..i + 1][..i] == entries[..i];
    RatesByFailed(entries, rate, i + 1);
  }

  /** Once a prefix of the feed fails, the whole feed fails. */
  lemma {:induction false} RatesByFailed(entries: seq<FeedEntry>, rate: FeedEntry -> Option<real>, k: int)
    requires 0 <= k <= |entries| && RatesBy(entries[..k], rate).None?
    ensures RatesBy(entries, rate).None?
  {
    if k < |entries| {
      var n := |entries|;
      assert entries[..n - 1][..k] == entries[..k];
      RatesByFailed(entries[..n - 1], rate, k);
    } else {
      assert entries[..k] == entries;
    }
  }

  /** The map is built exactly when every entry converts. */
  lemma {:induction false} RatesByDefined(entries: seq<FeedEntry>, rate: FeedEntry -> Option<real>)
    ensures RatesBy(entries, rate).Some? <==> forall i :: 0 <= i < |entries| ==> rate(entries[i]).Some?
  {
    if entries != [] {
      var n := |entries|;
      RatesByDefined(entries[..n - 1], rate);
      assert forall i :: 0 <= i < n - 1 ==> entries[..n - 1][i] == entries[i];
    }
  }

  /** The map's codes are RUR and the codes of the entries. */
  lemma {:induction false} RatesByKeys(entries: seq<FeedEntry>, rate: FeedEntry -> Option<real>)
    requires RatesBy(entries, rate).Some?
    ensures RatesBy(entries, rate).value.Keys == {"RUR"} + set i | 0 <= i < |entries| :: entries[i].code
  {
    if entries != [] {
      var n := |entries|;
      var before := entries[..n - 1];
      RatesByKeys(before, rate);
      assert forall i :: 0 <= i < n - 1 ==> before[i] == entries[i];
      assert (set i | 0 <= i < n :: entries[i].code)
          == (set i | 0 <= i < n - 1 :: before[i].code) + {entries[n - 1].code};
    }
  }

  /** A code takes the rate of the last entry listing it: a duplicate code
      overwrites the earlier one. */
  lemma {:induction false} RatesByLastWins(entries: seq<FeedEntry>, rate: FeedEntry -> Option<real>, i: int)
    requires RatesBy(entries, rate).Some? && 0 <= i < |entries|
    requires forall j :: i < j < |entries| ==> entries[j].code != entries[i].code
    ensures rate(entries[i]).Some?
    ensures entries[i].code in RatesBy(entries, rate).value
    ensures RatesBy(entries, rate).value[entries[i].code] == rate(entries[i]).value
  {
    var n := |entries|;
    if i < n - 1 {
      assert entries[..n - 1][i] == entries[i];
      RatesByLastWins(entries[..n - 1], rate, i);
    }
  }

  /** RUR is 1.0 unless the feed itself lists RUR. */
  lemma {:induction false} RatesByRouble(entries: seq<FeedEntry>, rate: FeedEntry -> Option<real>)
    requires RatesBy(entries, rate).Some?
    requires forall j :: 0 <= j < |entries| ==> entries[j].code != "RUR"
    ensures "RUR" in RatesBy(entries, rate).value && RatesBy(entries, rate).value["RUR"] == 1.0
  {
    if entries != [] {
      var n := |entries|;
      assert entries[n - 1].code != "RUR";
      RatesByRouble(entries[..n - 1], rate);
    }
  }

  /** An entry as the feed writes it ("87,1234" per nominal "100") is that
      exact decimal divided by the nominal. */
  lemma FeedRate(e: FeedEntry, a: string, b: string, n: nat, nw: nat)
    requires a != [] && AllDigits(a) && AllDigits(b) && e.value == a + "," + b
    requires 0 < nw && 0 < n < Pow10(nw) && e.nominal == PadDigits(n, nw)
    ensures EntryRate(e) == Some(DecimalValue(a, b) / n as real)
  {
    CommaValue(e, a, b);
    DigitNominal(e, n, nw);
    RateOfParts(e, DecimalValue(a, b), n);
  }

  lemma CommaValue(e: FeedEntry, a: string, b: string)
    requires a != [] && AllDigits(a) && AllDigits(b) && e.value == a + "," + b
    ensures EntryValue(e) == Some(DecimalValue(a, b))
  {
    DecimalComma(a, b);
    ParseDecimalJoin(a, b);
  }

  lemma DigitNominal(e: FeedEntry, n: nat, nw: nat)
    requires 0 < nw && n < Pow10(nw) && e.nominal == PadDigits(n, nw)
    ensures EntryNominal(e) == Some(n)
  {
    ParseIntDigits(n, nw);
  }

  lemma RateOfParts(e: FeedEntry, x: real, n: int)
    requires EntryValue(e) == Some(x) && EntryNominal(e) == Some(n) && n != 0
    ensures EntryRate(e) == Some(x / n as real)
  {
  }

  /** A zero nominal anywhere in the feed makes the division raise, and no
      rate of that day is kept. */
  lemma ZeroNominalFails(entries: seq<FeedEntry>, i: int, width: nat)
    requires 0 <= i < |entries| && 0 < width && entries[i].nominal == PadDigits(0, width)
    ensures RatesOf(entries).None?
  {
    ParseIntDigits(0, width);
    ZeroNominalRate(entries[i]);
    RatesByStops(entries, EntryRate, i);
  }

  /** An entry whose nominal reads as zero has no rate. */
  lemma ZeroNominalRate(e: FeedEntry)
    requires EntryNominal(e) == Some(0)
    ensures EntryRate(e) == None
  {
  }

  /** A conversion of a day's feed into its rate map. */
  type Parser = seq<FeedEntry> -> Option<map<string, real>>

  /** get_exchange_rates then `parse` for one date: None when the request
      fails or the feed does not convert. */
  function DayRates(fetch: Fetch, parse: Parser, date: CalendarDate): Option<map<string, real>> {
    var entries :- fetch(RequestDate(date));
    parse(entries)
  }

  /** The rates of a day as both scripts obtain them. */
  function FeedRates(fetch: Fetch, date: CalendarDate): Option<map<string, real>> {
    DayRates(fetch, RatesOf, date)
  }

  /** rates.get(code, None) */
  function RateFor(rates: map<string, real>, code: string): Option<real> {
    if code in rates then Some(rates[code]) else None
  }

  /** A row of currency.exchange_rates. */
  datatype RateRecord = RateRecord(
    id: int, date: CalendarDate,
    rur: Option<real>, usd: Option<real>, gbp: Option<real>, eur: Option<real>, kzt: Option<real>)

  /** A row none of whose four foreign rates is filled in (RUR is not
      consulted). */
  predicate NeedsRates(r: RateRecord) {
    r.usd.None? && r.gbp.None? && r.eur.None? && r.kzt.None?
  }

  /** The row insert_into_db writes for a date. */
  function NewRecord(id: int, date: CalendarDate, rates: map<string, real>): RateRecord {
    RateRecord(id, date, RateFor(rates, "RUR"), RateFor(rates, "USD"), RateFor(rates, "GBP"),
               RateFor(rates, "EUR"), RateFor(rates, "KZT"))
  }

  /** The row update_rates_in_db leaves: the four foreign rates replaced,
      the id, the date and RUR kept. */
  function Refreshed(r: RateRecord, rates: map<string, real>): (r': RateRecord)
    ensures r'.id == r.id && r'.date == r.date && r'.rur == r.rur
    ensures r'.usd == RateFor(rates, "USD") && r'.gbp == RateFor(rates, "GBP")
    ensures r'.eur == RateFor(rates, "EUR") && r'.kzt == RateFor(rates, "KZT")
  {
    r.(usd := RateFor(rates, "USD"), gbp := RateFor(rates, "GBP"),
       eur := RateFor(rates, "EUR"), kzt := RateFor(rates, "KZT"))
  }

  /** UPDATE ... WHERE rate_id = id over the whole table. */
  function UpdateRows(rows: seq<RateRecord>, id: int, rates: map<string, real>): (r: seq<RateRecord>)
    ensures |r| == |rows|
    ensures forall i :: 0 <= i < |rows| ==> r[i] == if rows[i].id == id then Refreshed(rows[i], rates) else rows[i]
  {
    if rows == [] then []
    else
      var last := rows[|rows| - 1];
      UpdateRows(rows[..|rows| - 1], id, rates) + [if last.id == id then Refreshed(last, rates) else last]
  }

  /** SELECT COUNT(*) ... WHERE rate_date = date */
  function CountDate(rows: seq<RateRecord>, date: Date): (n: nat)
    ensures n <= |rows|
  {
    if rows == [] then 0
    else CountDate(rows[..|rows| - 1], date) + (if rows[|rows| - 1].date == date then 1 else 0)
  }

  /** check_existing_rates: the count is positive. */
  predicate HasRatesFor(rows: seq<RateRecord>, date: Date) {
    CountDate(rows, date) > 0
  }

  /** The count is positive exactly when some row has the date. */
  lemma {:induction false} HasRatesForExactly(rows: seq<RateRecord>, date: Date)
    ensures HasRatesFor(rows, date) <==> exists i :: 0 <= i < |rows| && rows[i].date == date
  {
    if rows != [] {
      var n := |rows|;
      HasRatesForExactly(rows[..n - 1], date);
      assert forall i :: 0 <= i < n - 1 ==> rows[..n - 1][i] == rows[i];
    }
  }

  /** A new row adds one to its own date's count and leaves every other
      date's count alone. */
  lemma CountDateAppend(rows: seq<RateRecord>, r: RateRecord, date: Date)
    ensures CountDate(rows + [r], date) == CountDate(rows, date) + (if r.date == date then 1 else 0)
  {
    assert (rows + [r])[..|rows|] == rows;
  }

  /** The rows with all four foreign rates empty, in table order. */
  function EmptyRecords(rows: seq<RateRecord>): (r: seq<RateRecord>)
    ensures forall i :: 0 <= i < |r| ==> NeedsRates(r[i]) && r[i] in rows
    ensures forall i :: 0 <= i < |rows| && NeedsRates(rows[i]) ==> rows[i] in r
    ensures |r| <= |rows|
  {
    if rows == [] then []
    else
      var before := EmptyRecords(rows[..|rows| - 1]);
      var last := rows[|rows| - 1];
      assert forall i :: 0 <= i < |rows| - 1 ==> rows[..|rows| - 1][i] == rows[i];
      if NeedsRates(last) then before + [last] else before
  }

  ghost predicate UniqueIds(rows: seq<RateRecord>) {
    forall i, j :: 0 <= i < j < |rows| ==> rows[i].id != rows[j].id
  }

  /** currency.exchange_rates, with its auto-increment rate_id. */
  class RateTable {
    var rows: seq<RateRecord>
    var nextId: int

    ghost predicate Valid()
      reads this
    {
      UniqueIds(rows) && forall i :: 0 <= i < |rows| ==> rows[i].id < nextId
    }

    constructor (rows: seq<RateRecord>, nextId: int)
      requires UniqueIds(rows) && forall i :: 0 <= i < |rows| ==> rows[i].id < nextId
      ensures Valid() && this.rows == rows && this.nextId == nextId
    {
      this.rows := rows;
      this.nextId := nextId;
    }

    /** insert_into_db: one new row for the date, RUR and the four foreign
        rates taken from the map (NULL where the code is absent). */
    method Insert(date: CalendarDate, rates: map<string, real>)
      requires Valid()
      modifies this
      ensures Valid()
      ensures rows == old(rows) + [NewRecord(old(nextId), date, rates)] && nextId == old(nextId) + 1
    {
      rows := rows + [NewRecord(nextId, date, rates)];
      nextId := nextId + 1;
    }

    /** update_rates_in_db: the row with this id gets the four foreign
        rates; nothing is inserted and no other row changes. */
    method Update(id: int, rates: map<string, real>)
      requires Valid()
      modifies this
      ensures Valid()
      ensures rows == UpdateRows(old(rows), id, rates) && nextId == old(nextId)
    {
      rows := UpdateRows(rows, id, rates);
    }
  }
}
