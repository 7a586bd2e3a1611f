// The older deal loader (load_deals.py at the top of the repository): the same
// deal cells as the newer loader, commission and profit without their
// currencies, ten columns per stored deal.
module LegacyDeals {
  import opened Base
  import opened Calendar
  import opened Strings
  import opened Sheet
  import opened Store
  import opened Ingest
  import opened DealCells

  datatype LegacyDeal = LegacyDeal(
    dealNumber: Option<int>,
    orderNumber: Option<int>,
    time: Option<DateTime>,
    ticker: Cell,
    dealType: Option<DealType>,
    price: Option<real>,
    qty: Option<int>,
    amount: Option<real>,
    commission: Option<real>,
    profit: Option<real>)

  /** One row, column by column; the first lookup or conversion that raises
      decides the error. */
  function CoerceLegacy(columns: seq<string>, row: seq<Cell>): Result<LegacyDeal, RowError>
    requires |row| == |columns|
  {
    var h :- CoerceHead(columns, row);
    var commissionCell :- Lookup(columns, row, "Комиссия");
    var commission :- Fee(commissionCell, "Комиссия");
    var profitCell :- Lookup(columns, row, "Прибыль");
    var profit :- Fee(profitCell, "Прибыль");
    Ok(LegacyDeal(h.dealNumber, h.orderNumber, h.time, h.ticker, h.dealType, h.price, h.qty,
                  h.amount, commission, profit))
  }

  /** The row as handed to INSERT IGNORE, keyed on its deal number. */
  function LegacyRow(columns: seq<string>, row: seq<Cell>): Result<Row<LegacyDeal>, RowError>
    requires |row| == |columns|
  {
    var d :- CoerceLegacy(columns, row);
    Ok(Row(d.dealNumber, d))
  }

  /** Unlike the newer loader, an empty commission or profit never fails a
      row: nothing is carried from one row to the next. */
  lemma LegacyNoCarry(columns: seq<string>, row: seq<Cell>)
    requires |row| == |columns| && CoerceHead(columns, row).Ok?
    requires Lookup(columns, row, "Комиссия") == Ok(Missing) && Lookup(columns, row, "Прибыль") == Ok(Missing)
    ensures LegacyRow(columns, row).Ok?
    ensures LegacyRow(columns, row).value.record.commission == None
    ensures LegacyRow(columns, row).value.record.profit == None
  {
  }

  function Outcomes(columns: seq<string>, rows: seq<seq<Cell>>): seq<Result<Row<LegacyDeal>, RowError>>
    requires forall row :: row in rows ==> |row| == |columns|
  {
    RowOutcomes(columns, rows, LegacyRow)
  }

  /** A stored row is keyed on its deal number, and its commission and profit
      are NULL exactly when their cells are empty: a number is kept as it is,
      text gives the non-negative value its digits, points and commas spell.
      The record is read from its own row alone, whatever rows come before. */
  lemma LegacyFees(columns: seq<string>, rows: seq<seq<Cell>>, i: int)
    requires forall row :: row in rows ==> |row| == |columns|
    requires 0 <= i < |rows| && Outcomes(columns, rows)[i].Ok?
    ensures var r := Outcomes(columns, rows)[i].value;
            var cc := Lookup(columns, rows[i], "Комиссия");
            var pc := Lookup(columns, rows[i], "Прибыль");
            && r.key == r.record.dealNumber
            && cc.Ok? && pc.Ok?
            && (r.record.commission.None? <==> cc.value.Missing?)
            && (cc.value.Num? ==> r.record.commission == Some(cc.value.value))
            && (cc.value.Text? ==>
                  && r.record.commission.Some? && r.record.commission.value >= 0.0
                  && Fee(Text(Filter(cc.value.text, FeeChar)), "Комиссия") == Ok(r.record.commission))
            && (r.record.profit.None? <==> pc.value.Missing?)
            && (pc.value.Num? ==> r.record.profit == Some(pc.value.value))
            && (pc.value.Text? ==>
                  && r.record.profit.Some? && r.record.profit.value >= 0.0
                  && Fee(Text(Filter(pc.value.text, FeeChar)), "Прибыль") == Ok(r.record.profit))
  {
    var row := rows[i];
    assert Outcomes(columns, rows)[i] == LegacyRow(columns, row);
    var cc := Lookup(columns, row, "Комиссия");
    var pc := Lookup(columns, row, "Прибыль");
    assert cc.Ok? && Fee(cc.value, "Комиссия").Ok?;
    assert pc.Ok? && Fee(pc.value, "Прибыль").Ok?;
    FeeRead(cc.value, "Комиссия");
    FeeRead(pc.value, "Прибыль");
  }

  /** insert_into_mysql of the older loader: headers used as read, every
      row tried, the rows that raised reported, one commit at the end. */
  method InsertIntoMysql(table: Table<LegacyDeal>, frame: Frame) returns (failed: seq<nat>)
    requires table.Valid() && frame.Valid()
    modifies table
    ensures table.Valid()
    ensures Apply(old(table.rows), Outcomes(frame.columns, frame.rows)).rows == table.rows
    ensures Apply(old(table.rows), Outcomes(frame.columns, frame.rows)).failed == failed
    ensures ReportsFailures(Outcomes(frame.columns, frame.rows), failed)
    ensures |table.rows| >= |old(table.rows)| && table.rows[..|old(table.rows)|] == old(table.rows)
  {
    var inserted;
    inserted, failed := InsertRows(table, frame.columns, frame.rows, LegacyRow);
  }
}
