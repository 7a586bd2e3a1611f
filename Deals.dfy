// The deal-history loader (invest_loaders/load_deals.py): the deal cells, the
// currency of commission and profit read off the symbol in the cell, and the
// two currency variables that persist from one row to the next.
module Deals {
  import opened Base
  import opened Strings
  import opened Numbers
  import opened Calendar
  import opened Sheet
  import opened Store
  import opened Ingest
  import opened DealCells

  /** currency_symbols, in the order the lookup tries them. */
  const CurrencySymbols: seq<(char, string)> :=
    [('$', "USD"), ('₸', "KZT"), ('£', "GBP"), ('€', "EUR"), ('₽', "RUR")]

  /** Entry `k` is the first entry whose symbol occurs in `text`. */
  ghost predicate FirstHit(symbols: seq<(char, string)>, text: string, k: int) {
    0 <= k < |symbols| && symbols[k].0 in text
    && forall j :: 0 <= j < k ==> symbols[j].0 !in text
  }

  /** next((code for symbol in table if symbol in text), fallback): the code
      of the first symbol, in table order, that occurs anywhere in the text. */
  function CurrencyIn(symbols: seq<(char, string)>, text: string, fallback: string): (code: string)
    ensures (exists k :: FirstHit(symbols, text, k) && code == symbols[k].1)
         || ((forall k :: 0 <= k < |symbols| ==> symbols[k].0 !in text) && code == fallback)
  {
    if symbols == [] then fallback
    else if symbols[0].0 in text then assert FirstHit(symbols, text, 0); symbols[0].1
    else
      var code := CurrencyIn(symbols[1..], text, fallback);
      assert forall k :: FirstHit(symbols[1..], text, k) ==> FirstHit(symbols, text, k + 1);
      code
  }

  /** The currency of a present commission or profit cell: str(cell) holds no
      symbol when the cell is a number. */
  function CurrencyOf(c: Cell, fallback: string): string {
    match c
    case Text(s) => CurrencyIn(CurrencySymbols, s, fallback)
    case _ => fallback
  }

  /** `$` is tried first: a cell holding it is in dollars whatever else it
      holds. */
  lemma DollarFirst(s: string, fallback: string)
    requires '$' in s
    ensures CurrencyOf(Text(s), fallback) == "USD"
  {
    var code := CurrencyIn(CurrencySymbols, s, fallback);
    assert FirstHit(CurrencySymbols, s, 0);
  }

  /** A cell with exactly one of the symbols is in that symbol's currency. */
  lemma CurrencyOfSymbol(s: string, k: int, fallback: string)
    requires 0 <= k < |CurrencySymbols| && CurrencySymbols[k].0 in s
    requires forall j :: 0 <= j < |CurrencySymbols| && j != k ==> CurrencySymbols[j].0 !in s
    ensures CurrencyOf(Text(s), fallback) == CurrencySymbols[k].1
  {
    var code := CurrencyIn(CurrencySymbols, s, fallback);
    assert FirstHit(CurrencySymbols, s, k);
  }

  datatype Deal = Deal(
    dealNumber: Option<int>,
    orderNumber: Option<int>,
    time: Option<DateTime>,
    ticker: Cell,
    dealType: Option<DealType>,
    price: Option<real>,
    qty: Option<int>,
    amount: Option<real>,
    commission: Option<real>,
    commissionCurrency: string,
    profit: Option<real>,
    profitCurrency: string)

  /** comission_currency and profit_currency: unbound until a row with the
      cell present sets them, then kept until another row sets them again. */
  datatype Carry = Carry(commissionCurrency: Option<string>, profitCurrency: Option<string>)

  const Unset: Carry := Carry(None, None)

  /** The commission currency a row leaves behind: set from a present cell,
      otherwise kept. */
  function SetCommission(carry: Carry, c: Cell): Carry {
    if c.Missing? then carry else carry.(commissionCurrency := Some(CurrencyOf(c, "???")))
  }

  function SetProfit(carry: Carry, c: Cell): Carry {
    if c.Missing? then carry else carry.(profitCurrency := Some(CurrencyOf(c, "?")))
  }

  /** One row of the loop body: the statements run in order, and a
      statement that raises leaves the currency variables as the earlier
      statements set them. */
  function DealStep(columns: seq<string>, row: seq<Cell>, carry: Carry): Step<Deal, Carry>
    requires |row| == |columns|
  {
    match CoerceHead(columns, row)
    case Err(e) => Step(Err(e), carry)
    case Ok(h) =>
      match Lookup(columns, row, "Комиссия")
      case Err(e) => Step(Err(e), carry)
      case Ok(cc) =>
        match Fee(cc, "Комиссия")
        case Err(e) => Step(Err(e), carry)
        case Ok(commission) =>
          ProfitStep(columns, row, h, commission, SetCommission(carry, cc))
  }

  /** The statements after the commission: the profit, its currency, and
      the two currency variables read into the record. They never change
      the commission currency. */
  function ProfitStep(columns: seq<string>, row: seq<Cell>, h: DealHead, commission: Option<real>,
                      afterCommission: Carry): (s: Step<Deal, Carry>)
    requires |row| == |columns|
    ensures s.carry.commissionCurrency == afterCommission.commissionCurrency
  {
    match Lookup(columns, row, "Прибыль")
    case Err(e) => Step(Err(e), afterCommission)
    case Ok(pc) =>
      match Fee(pc, "Прибыль")
      case Err(e) => Step(Err(e), afterCommission)
      case Ok(profit) =>
        var after := SetProfit(afterCommission, pc);
        if after.commissionCurrency.None? then Step(Err(Unbound("comission_currency")), after)
        else if after.profitCurrency.None? then Step(Err(Unbound("profit_currency")), after)
        else
          var deal := Deal(h.dealNumber, h.orderNumber, h.time, h.ticker, h.dealType, h.price,
                           h.qty, h.amount, commission, after.commissionCurrency.value,
                           profit, after.profitCurrency.value);
          Step(Ok(Row(h.dealNumber, deal)), after)
  }

  /** A row with an empty commission cell leaves the commission currency as
      the earlier rows set it. */
  lemma MissingCommissionKeeps(columns: seq<string>, row: seq<Cell>, carry: Carry)
    requires |row| == |columns| && Lookup(columns, row, "Комиссия") == Ok(Missing)
    ensures DealStep(columns, row, carry).carry.commissionCurrency == carry.commissionCurrency
  {
  }

  /** A row whose commission cell is present and readable sets the
      commission currency from that cell, even when a later column of the
      same row raises. */
  lemma PresentCommissionSets(columns: seq<string>, row: seq<Cell>, carry: Carry)
    requires |row| == |columns| && CoerceHead(columns, row).Ok?
    requires Lookup(columns, row, "Комиссия").Ok?
    requires !Lookup(columns, row, "Комиссия").value.Missing?
    requires Fee(Lookup(columns, row, "Комиссия").value, "Комиссия").Ok?
    ensures DealStep(columns, row, carry).carry.commissionCurrency
         == Some(CurrencyOf(Lookup(columns, row, "Комиссия").value, "???"))
  {
  }

  /** Before any row has set the commission currency, a row with an empty
      commission cell fails (reading the unbound variable raises). */
  lemma UnsetCommissionFails(columns: seq<string>, row: seq<Cell>, carry: Carry)
    requires |row| == |columns| && carry.commissionCurrency.None?
    requires Lookup(columns, row, "Комиссия") == Ok(Missing)
    ensures DealStep(columns, row, carry).outcome.Err?
  {
  }

  /** A row with an empty profit cell leaves the profit currency as the
      earlier rows set it. */
  lemma MissingProfitKeeps(columns: seq<string>, row: seq<Cell>, carry: Carry)
    requires |row| == |columns| && Lookup(columns, row, "Прибыль") == Ok(Missing)
    ensures DealStep(columns, row, carry).carry.profitCurrency == carry.profitCurrency
  {
  }

  /** A row whose profit cell is present and readable sets the profit
      currency from that cell, even when the commission currency is still
      unbound and the row raises. */
  lemma PresentProfitSets(columns: seq<string>, row: seq<Cell>, carry: Carry)
    requires |row| == |columns| && CoerceHead(columns, row).Ok?
    requires Lookup(columns, row, "Комиссия").Ok?
    requires Fee(Lookup(columns, row, "Комиссия").value, "Комиссия").Ok?
    requires Lookup(columns, row, "Прибыль").Ok?
    requires !Lookup(columns, row, "Прибыль").value.Missing?
    requires Fee(Lookup(columns, row, "Прибыль").value, "Прибыль").Ok?
    ensures DealStep(columns, row, carry).carry.profitCurrency
         == Some(CurrencyOf(Lookup(columns, row, "Прибыль").value, "?"))
  {
    var after := SetCommission(carry, Lookup(columns, row, "Комиссия").value);
    assert after.profitCurrency == carry.profitCurrency;
    assert DealStep(columns, row, carry).carry == SetProfit(after, Lookup(columns, row, "Прибыль").value);
  }

  /** Before any row has set the profit currency, a row with an empty profit
      cell fails (reading the unbound variable raises). */
  lemma UnsetProfitFails(columns: seq<string>, row: seq<Cell>, carry: Carry)
    requires |row| == |columns| && carry.profitCurrency.None?
    requires Lookup(columns, row, "Прибыль") == Ok(Missing)
    ensures DealStep(columns, row, carry).outcome.Err?
  {
  }

  /** A stored deal carries the currencies the row leaves behind, and is
      keyed on its deal number. */
  lemma StoredDealCurrencies(columns: seq<string>, row: seq<Cell>, carry: Carry)
    requires |row| == |columns| && DealStep(columns, row, carry).outcome.Ok?
    ensures var s := DealStep(columns, row, carry);
            && s.carry.commissionCurrency == Some(s.outcome.value.record.commissionCurrency)
            && s.carry.profitCurrency == Some(s.outcome.value.record.profitCurrency)
            && s.outcome.value.key == s.outcome.value.record.dealNumber
  {
    var cc, pc := Lookup(columns, row, "Комиссия"), Lookup(columns, row, "Прибыль");
    assert CoerceHead(columns, row).Ok? && cc.Ok? && Fee(cc.value, "Комиссия").Ok?;
    assert pc.Ok? && Fee(pc.value, "Прибыль").Ok?;
  }

  /** Every row of the frame, with the currency variables threaded through. */
  function Outcomes(columns: seq<string>, rows: seq<seq<Cell>>): Scanned<Deal, Carry>
    requires forall row :: row in rows ==> |row| == |columns|
  {
    Carried(columns, rows, DealStep, Unset)
  }

  /** A row with an empty commission cell that is stored carries the
      commission currency of the rows before it. */
  lemma ReusedCommissionCurrency(columns: seq<string>, rows: seq<seq<Cell>>, i: int)
    requires forall row :: row in rows ==> |row| == |columns|
    requires 0 <= i < |rows| && Lookup(columns, rows[i], "Комиссия") == Ok(Missing)
    requires Outcomes(columns, rows).outcomes[i].Ok?
    ensures Outcomes(columns, rows[..i]).carry.commissionCurrency
         == Some(Outcomes(columns, rows).outcomes[i].value.record.commissionCurrency)
  {
    CarriedAt(columns, rows, DealStep, Unset, i);
    var carry := Outcomes(columns, rows[..i]).carry;
    MissingCommissionKeeps(columns, rows[i], carry);
    StoredDealCurrencies(columns, rows[i], carry);
  }

  /** A row with an empty profit cell that is stored carries the profit
      currency of the rows before it. */
  lemma ReusedProfitCurrency(columns: seq<string>, rows: seq<seq<Cell>>, i: int)
    requires forall row :: row in rows ==> |row| == |columns|
    requires 0 <= i < |rows| && Lookup(columns, rows[i], "Прибыль") == Ok(Missing)
    requires Outcomes(columns, rows).outcomes[i].Ok?
    ensures Outcomes(columns, rows[..i]).carry.profitCurrency
         == Some(Outcomes(columns, rows).outcomes[i].value.record.profitCurrency)
  {
    CarriedAt(columns, rows, DealStep, Unset, i);
    var carry := Outcomes(columns, rows[..i]).carry;
    MissingProfitKeeps(columns, rows[i], carry);
    StoredDealCurrencies(columns, rows[i], carry);
  }

  /** Until some row has a commission cell, the commission currency stays
      unset and every row fails. */
  lemma {:induction false} NoCommissionYet(columns: seq<string>, rows: seq<seq<Cell>>)
    requires forall row :: row in rows ==> |row| == |columns|
    requires forall row :: row in rows ==> Lookup(columns, row, "Комиссия") == Ok(Missing)
    ensures Outcomes(columns, rows).carry.commissionCurrency.None?
    ensures forall i :: 0 <= i < |rows| ==> Outcomes(columns, rows).outcomes[i].Err?
  {
    if rows != [] {
      var n := |rows|;
      var before := rows[..n - 1];
      NoCommissionYet(columns, before);
      var carry := Outcomes(columns, before).carry;
      assert rows[n - 1] in rows;
      MissingCommissionKeeps(columns, rows[n - 1], carry);
      UnsetCommissionFails(columns, rows[n - 1], carry);
      forall i | 0 <= i < n ensures Outcomes(columns, rows).outcomes[i].Err? {
        if i < n - 1 {
          assert Outcomes(columns, rows).outcomes[i] == Outcomes(columns, before).outcomes[i];
        }
      }
    }
  }

  /** insert_into_mysql for deals: headers are used as read, every row is
      tried, the rows that raised are reported. */
  method InsertIntoMysql(table: Table<Deal>, frame: Frame) returns (failed: seq<nat>)
    requires table.Valid() && frame.Valid()
    modifies table
    ensures table.Valid()
    ensures Apply(old(table.rows), Outcomes(frame.columns, frame.rows).outcomes).rows == table.rows
    ensures Apply(old(table.rows), Outcomes(frame.columns, frame.rows).outcomes).failed == failed
    ensures ReportsFailures(Outcomes(frame.columns, frame.rows).outcomes, failed)
    ensures |table.rows| >= |old(table.rows)| && table.rows[..|old(table.rows)|] == old(table.rows)
  {
    var inserted, carry;
    inserted, failed, carry := InsertRowsCarrying(table, frame.columns, frame.rows, DealStep, Unset);
  }
}
