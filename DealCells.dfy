// The cell coercions both deal loaders (invest_loaders/load_deals.py and the
// older load_deals.py) write identically: deal and order numbers, the deal
// timestamp, the raw ticker, the operation word, price and amount with a
// decimal comma, and commission and profit filtered down to their digits.
module DealCells {
  import opened Base
  import opened Strings
  import opened Numbers
  import opened Calendar
  import opened Sheet

  datatype DealType = Buy | Sell

  /** The operation word, stripped: "покупка" is a buy, "продажа" a sell,
      anything else is stored as NULL. A cell that is not text has no
      strip() and raises. */
  function DealTypeOf(c: Cell): (r: Result<Option<DealType>, RowError>)
    ensures r.Err? <==> !c.Text?
    ensures r == Ok(Some(Buy)) <==> c.Text? && Strip(c.text) == "покупка"
    ensures r == Ok(Some(Sell)) <==> c.Text? && Strip(c.text) == "продажа"
  {
    match c
    case Text(s) =>
      var w := Strip(s);
      Ok(if w == "покупка" then Some(Buy) else if w == "продажа" then Some(Sell) else None)
    case _ => Err(BadValue("Операция"))
  }

  /** The operation word is recognised whatever whitespace surrounds it. */
  lemma DealTypePadded(a: string, b: string)
    requires AllSpace(a) && AllSpace(b)
    ensures DealTypeOf(Text(a + "покупка" + b)) == Ok(Some(Buy))
    ensures DealTypeOf(Text(a + "продажа" + b)) == Ok(Some(Sell))
  {
    StripPadded(a, "покупка", b);
    StripPadded(a, "продажа", b);
  }

  /** Price and amount text: only the decimal comma becomes a point. */
  function CommaText(s: string): string {
    Replace(s, ',', '.')
  }

  /** Price and amount: a number passes through, text has its comma
      replaced, an empty cell is NULL. */
  function DealDecimal(c: Cell, column: string): Result<Option<real>, RowError> {
    DecimalCell(c, column, CommaText)
  }

  /** A deal price or amount written with a decimal comma is its exact
      decimal value. */
  lemma DealDecimalComma(ip: nat, iw: nat, fp: nat, fw: nat, column: string)
    requires 0 < iw && ip < Pow10(iw) && fp < Pow10(fw)
    ensures DealDecimal(Text(PadDigits(ip, iw) + "," + PadDigits(fp, fw)), column)
         == Ok(Some(ip as real + Shifted(fp, fw)))
  {
    DecimalComma(PadDigits(ip, iw), PadDigits(fp, fw));
    ParseDecimalDigits(ip, iw, fp, fw);
  }

  /** No space is removed from a deal price or amount: "1 234,56" makes the
      row fail. */
  lemma DealDecimalInnerSpace(s: string, column: string, i: int, j: int, k: int)
    requires 0 <= j < i < k < |s| && IsSpace(s[i]) && !IsSpace(s[j]) && !IsSpace(s[k])
    ensures DealDecimal(Text(s), column).Err?
  {
    var t := CommaText(s);
    assert IsSpace(t[i]) && !IsSpace(t[j]) && !IsSpace(t[k]);
    ParseDecimalInnerSpace(t, i, j, k);
  }

  /** The characters re.sub(r'[^\d.,]', '', s) keeps. */
  predicate FeeChar(c: char) {
    IsDigit(c) || c == '.' || c == ','
  }

  /** Commission and profit text: everything but digits, points and commas
      deleted (signs, spaces and currency symbols included), then the comma
      becomes a point. */
  function FeeText(s: string): (r: string)
    ensures forall i :: 0 <= i < |r| ==> IsDigit(r[i]) || r[i] == '.'
  {
    Replace(Filter(s, FeeChar), ',', '.')
  }

  function Fee(c: Cell, column: string): Result<Option<real>, RowError> {
    DecimalCell(c, column, FeeText)
  }

  /** A commission or profit read from text is never negative: the minus
      sign is filtered out with the rest. */
  lemma FeeNonNegative(s: string, column: string)
    ensures Fee(Text(s), column).Ok? && Fee(Text(s), column).value.Some? ==> Fee(Text(s), column).value.value >= 0.0
  {
    var t := FeeText(s);
    assert '-' !in t;
    ParseDecimalUnsigned(t);
  }

  /** Symbols, spaces and signs around the digits do not change the value:
      "-1 234,5 ₽" reads as 1234.5. */
  lemma FeeIgnoresOthers(s: string, column: string)
    ensures Fee(Text(s), column) == Fee(Text(Filter(s, FeeChar)), column)
  {
    var f := Filter(s, FeeChar);
    FilterAll(f, FeeChar);
  }

  /** What a readable fee cell holds: nothing exactly when the cell is empty,
      a number as it is, and for text the non-negative value that its
      digits, points and commas alone give. */
  lemma FeeRead(c: Cell, column: string)
    requires Fee(c, column).Ok?
    ensures var v := Fee(c, column).value;
            && (v.None? <==> c.Missing?)
            && (c.Num? ==> v == Some(c.value))
            && (c.Text? ==> v.Some? && v.value >= 0.0 && Fee(Text(Filter(c.text, FeeChar)), column) == Ok(v))
  {
    if c.Text? {
      FeeNonNegative(c.text, column);
      FeeIgnoresOthers(c.text, column);
    }
  }

  /** A text commission with no digit at all ("—", "$") makes the row fail. */
  lemma FeeNeedsDigit(s: string, column: string)
    requires forall i :: 0 <= i < |s| ==> !IsDigit(s[i])
    ensures Fee(Text(s), column).Err?
  {
    var f := Filter(s, FeeChar);
    var t := FeeText(s);
    forall i | 0 <= i < |t| ensures !IsDigit(t[i]) {
      if f[i] != ',' {
        var m :| 0 <= m < |s| && s[m] == f[i];
      }
    }
    ParseDecimalNeedsDigit(t);
  }

  /** The columns both deal loaders read before commission and profit. */
  datatype DealHead = DealHead(
    dealNumber: Option<int>,
    orderNumber: Option<int>,
    time: Option<DateTime>,
    ticker: Cell,
    dealType: Option<DealType>,
    price: Option<real>,
    qty: Option<int>,
    amount: Option<real>)

  /** deal_number up to amount, column by column in the loaders' order; the
      first lookup or conversion that raises decides the error. */
  function CoerceHead(columns: seq<string>, row: seq<Cell>): Result<DealHead, RowError>
    requires |row| == |columns|
  {
    var dealCell :- Lookup(columns, row, "№ сделки");
    var dealNumber :- IntCell(dealCell, "№ сделки");
    var orderCell :- Lookup(columns, row, "№ приказа");
    var orderNumber :- IntCell(orderCell, "№ приказа");
    var timeCell :- Lookup(columns, row, "Время");
    var time :- TimeCell(timeCell, "Время", DealPattern);
    var ticker :- Lookup(columns, row, "Тикер");
    var operationCell :- Lookup(columns, row, "Операция");
    var dealType :- DealTypeOf(operationCell);
    var priceCell :- Lookup(columns, row, "Цена");
    var price :- DealDecimal(priceCell, "Цена");
    var qtyCell :- Lookup(columns, row, "Количество");
    var qty :- IntCell(qtyCell, "Количество");
    var amountCell :- Lookup(columns, row, "Сумма");
    var amount :- DealDecimal(amountCell, "Сумма");
    Ok(DealHead(dealNumber, orderNumber, time, ticker, dealType, price, qty, amount))
  }
}
