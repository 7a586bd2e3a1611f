// The order-history loader (invest_loaders/load_orders.py): header trimming,
// per-column coercion of each order row, and the INSERT IGNORE loop that
// counts the rows actually added.
module Orders {
  import opened Base
  import opened Strings
  import opened Numbers
  import opened Calendar
  import opened Sheet
  import opened Store
  import opened Ingest

  datatype Order = Order(
    status: Option<string>,
    operation: Option<string>,
    ticker: Option<string>,
    price: Option<real>,
    qty: Option<int>,
    amount: Option<real>,
    qtyRemaining: Option<int>,
    orderType: Option<string>,
    condition: Option<real>,
    expiry: Option<string>,
    orderDate: Option<DateTime>,
    orderNumber: Option<int>)

  /** The order-number header, with the two inner spaces the export uses. */
  const NumberColumn: string := "№  приказа"

  /** Price and condition text: every space removed, decimal comma to point. */
  function PriceText(s: string): string {
    Replace(Remove(s, ' '), ',', '.')
  }

  /** Amount text: spaces, `$` and `~` removed, comma to point, then stripped. */
  function AmountText(s: string): string {
    Strip(Replace(Remove(Remove(Remove(s, ' '), '$'), '~'), ',', '.'))
  }

  function Price(c: Cell): Result<Option<real>, RowError> {
    DecimalCell(c, "Цена", PriceText)
  }

  /** An amount is None when empty or when its text mentions "no data"
      ("данных") in any letter case. */
  function Amount(c: Cell): Result<Option<real>, RowError> {
    if c.Text? && Contains(Lower(c.text), "данных") then Ok(None)
    else DecimalCell(c, "Сумма", AmountText)
  }

  /** A condition is None when empty or exactly "-". */
  function Condition(c: Cell): Result<Option<real>, RowError> {
    if c == Text("-") then Ok(None)
    else DecimalCell(c, "Условие", PriceText)
  }

  /** The order number: a number is truncated, text loses its spaces first. */
  function OrderNumber(c: Cell): (r: Result<Option<int>, RowError>)
    ensures c.Missing? ==> r == Ok(None)
    ensures c.Num? ==> r == Ok(Some(Truncate(c.value)))
    ensures c.Text? ==> (r.Ok? <==> ParseInt(Remove(c.text, ' ')).Some?)
    ensures c.Text? && r.Ok? ==> r.value == ParseInt(Remove(c.text, ' '))
  {
    match c
    case Missing => Ok(None)
    case Num(x) => Ok(Some(Truncate(x)))
    case Text(s) =>
      match ParseInt(Remove(s, ' '))
      case None => Err(BadValue(NumberColumn))
      case Some(n) => Ok(Some(n))
  }

  /** One row, column by column in the loader's order; the first lookup or
      conversion that raises decides the error. */
  function CoerceOrder(columns: seq<string>, row: seq<Cell>): (r: Result<Order, RowError>)
    requires |row| == |columns|
    ensures r.Ok? ==> Lookup(columns, row, NumberColumn).Ok?
                      && OrderNumber(Lookup(columns, row, NumberColumn).value) == Ok(r.value.orderNumber)
  {
    var statusCell :- Lookup(columns, row, "Статус");
    var status :- StrippedText(statusCell, "Статус");
    var operationCell :- Lookup(columns, row, "Операция");
    var operation :- StrippedText(operationCell, "Операция");
    var tickerCell :- Lookup(columns, row, "Тикер");
    var ticker :- StrippedText(tickerCell, "Тикер");
    var priceCell :- Lookup(columns, row, "Цена");
    var price :- Price(priceCell);
    var qtyCell :- Lookup(columns, row, "Количество");
    var qty :- IntCell(qtyCell, "Количество");
    var amountCell :- Lookup(columns, row, "Сумма");
    var amount :- Amount(amountCell);
    var remainingCell :- Lookup(columns, row, "Остаток");
    var qtyRemaining :- IntCell(remainingCell, "Остаток");
    var typeCell :- Lookup(columns, row, "Тип приказа");
    var orderType :- StrippedText(typeCell, "Тип приказа");
    var conditionCell :- Lookup(columns, row, "Условие");
    var condition :- Condition(conditionCell);
    var expiryCell :- Lookup(columns, row, "Срок");
    var expiry :- StrippedText(expiryCell, "Срок");
    var timeCell :- Lookup(columns, row, "Время");
    var orderDate :- TimeCell(timeCell, "Время", OrderPattern);
    var numberCell :- Lookup(columns, row, NumberColumn);
    var orderNumber :- OrderNumber(numberCell);
    Ok(Order(status, operation, ticker, price, qty, amount, qtyRemaining,
             orderType, condition, expiry, orderDate, orderNumber))
  }

  /** A price cell is read the same with or without its spaces
      ("1 234,56" as "1234,56"). */
  lemma PriceIgnoresSpaces(s: string)
    ensures Price(Text(s)) == Price(Text(Remove(s, ' ')))
  {
    RemoveAbsent(Remove(s, ' '), ' ');
  }

  /** Any character other than a space, a comma or what float() accepts
      (a leftover `$`, `₽`, a letter) makes the price, and so the row, fail. */
  lemma PriceRejectsSymbol(s: string, i: int)
    requires 0 <= i < |s| && !DecimalChar(s[i]) && s[i] != ','
    ensures Price(Text(s)).Err?
  {
    var c := s[i];
    var r := Remove(s, ' ');
    assert c != ' ' && c in r;
    var j :| 0 <= j < |r| && r[j] == c;
    ParseDecimalRejects(PriceText(s), j);
  }

  /** A price written with a decimal comma is its exact decimal value. */
  lemma PriceDecimalComma(ip: nat, iw: nat, fp: nat, fw: nat)
    requires 0 < iw && ip < Pow10(iw) && fp < Pow10(fw)
    ensures Price(Text(PadDigits(ip, iw) + "," + PadDigits(fp, fw)))
         == Ok(Some(ip as real + Shifted(fp, fw)))
  {
    CommaToPoint(PadDigits(ip, iw), PadDigits(fp, fw));
    ParseDecimalDigits(ip, iw, fp, fw);
  }

  lemma CommaToPoint(a: string, b: string)
    requires AllDigits(a) && AllDigits(b)
    ensures PriceText(a + "," + b) == a + "." + b
  {
    var s := a + "," + b;
    assert ' ' !in s by {
      forall k | 0 <= k < |s| ensures s[k] != ' ' {
        if k < |a| { assert s[k] == a[k] && IsDigit(a[k]); }
        else if k > |a| { assert s[k] == b[k - |a| - 1] && IsDigit(b[k - |a| - 1]); }
      }
    }
    RemoveAbsent(s, ' ');
    DecimalComma(a, b);
  }

  /** The "no data" word in any mix of capitals ("Нет ДАННЫХ") makes the
      amount None. */
  lemma AmountNoDataAnyCase(s: string, i: nat)
    requires i + 6 <= |s|
    requires forall j :: 0 <= j < 6 ==> LowerChar(s[i + j]) == "данных"[j]
    ensures Amount(Text(s)) == Ok(None)
  {
    var l := Lower(s);
    assert l[i..i + 6] == "данных";
    assert InfixAt(l, "данных", i);
  }

  /** Outside the "no data" case, a symbol the amount rewrite does not
      delete (`₸`, `€`, a letter) makes the row fail. */
  lemma AmountRejectsSymbol(s: string, i: int)
    requires !Contains(Lower(s), "данных")
    requires 0 <= i < |s| && !DecimalChar(s[i]) && s[i] != '$' && s[i] != '~' && s[i] != ','
    ensures Amount(Text(s)).Err?
  {
    AmountTextRejects(s, i);
    AmountRead(s);
  }

  /** Unfolding step for the proofs: outside the "no data" case the amount
      is the decimal reading of the rewritten text. */
  lemma AmountRead(s: string)
    requires !Contains(Lower(s), "данных")
    ensures Amount(Text(s)).Ok? <==> ParseDecimal(AmountText(s)).Some?
    ensures Amount(Text(s)).Ok? ==> Amount(Text(s)).value == ParseDecimal(AmountText(s))
  {
  }

  /** The characters the amount rewrite keeps. */
  predicate AmountChar(c: char) {
    c != ' ' && c != '$' && c != '~'
  }

  /** The three removals together drop exactly the spaces, `$` and `~`. */
  lemma {:induction false} RemoveDecorations(s: string)
    ensures Remove(Remove(Remove(s, ' '), '$'), '~') == Filter(s, AmountChar)
  {
    if s != [] {
      var c, t := s[0], s[1..];
      assert s == [c] + t;
      RemoveDecorations(t);
      RemoveCons(c, t, ' ');
      if c != ' ' {
        RemoveCons(c, Remove(t, ' '), '$');
        if c != '$' {
          RemoveCons(c, Remove(Remove(t, ' '), '$'), '~');
        }
      }
    }
  }

  lemma AmountTextDecorations(s: string)
    ensures AmountText(s) == AmountText(Filter(s, AmountChar))
  {
    var f := Filter(s, AmountChar);
    RemoveDecorations(s);
    RemoveDecorations(f);
    FilterAll(f, AmountChar);
  }

  /** Spaces, `$` and `~` anywhere in an amount do not change it, as long as
      neither the text nor the text without them says "no data": the
      "no data" test runs on the text as written, before the removals. */
  lemma AmountIgnoresDecorations(s: string)
    requires !Contains(Lower(s), "данных")
    requires !Contains(Lower(Filter(s, AmountChar)), "данных")
    ensures Amount(Text(s)) == Amount(Text(Filter(s, AmountChar)))
  {
    AmountTextDecorations(s);
  }

  /** "дан ных" is not the "no data" word, so the row fails on its letters,
      while the same letters without the space make the amount None. */
  lemma AmountSpacedNoData()
    ensures Amount(Text("дан ных")).Err?
    ensures Amount(Text(Filter("дан ных", AmountChar))) == Ok(None)
  {
    SpacedNotNoData();
    AmountTextRejects("дан ных", 0);
    AmountRead("дан ных");
    SpacedFilter("дан ных");
    AmountNoDataWord();
  }

  lemma AmountNoDataWord()
    ensures Amount(Text("данных")) == Ok(None)
  {
    assert InfixAt(Lower("данных"), "данных", 0);
  }

  lemma SpacedNotNoData()
    ensures !Contains(Lower("дан ных"), "данных")
  {
    var s := "дан ных";
    var l := Lower(s);
    assert l[3] == LowerChar(s[3]) == ' ';
    assert l[1] == LowerChar(s[1]) == 'а';
    assert l[0..6][3] == l[3];
    assert l[1..7][0] == l[1];
  }

  lemma SpacedFilter(s: string)
    requires s == "дан ных"
    ensures Filter(s, AmountChar) == "данных"
  {
    var tail := "ных";
    var t2 := [' '] + tail;
    var t1 := ['н'] + t2;
    var t0 := ['а'] + t1;
    SpacedLetters(tail);
    FilterAll(tail, AmountChar);
    FilterCons(' ', tail, AmountChar);
    FilterCons('н', t2, AmountChar);
    FilterCons('а', t1, AmountChar);
    FilterCons('д', t0, AmountChar);
  }

  lemma SpacedLetters(tail: string)
    requires tail == "ных"
    ensures "дан ных" == ['д'] + (['а'] + (['н'] + ([' '] + tail)))
    ensures ['д'] + (['а'] + (['н'] + tail)) == "данных"
  {
  }

  /** Text without Cyrillic letters never says "no data". */
  lemma NoDataNeedsCyrillic(s: string)
    requires forall k :: 0 <= k < |s| ==> s[k] < 'Ѐ'
    ensures !Contains(Lower(s), "данных")
  {
    forall i ensures !InfixAt(Lower(s), "данных", i) {
      if 0 <= i < |s| {
        NoDataNotAt(s, i);
      }
    }
  }

  /** A word starting with a character below the Cyrillic block, lowered,
      does not start "данных". */
  lemma NoDataNotAt(s: string, i: int)
    requires 0 <= i < |s| && s[i] < 'Ѐ'
    ensures !InfixAt(Lower(s), "данных", i)
  {
    var l := Lower(s);
    LowerBelowCyrillic(s[i]);
    if i + 6 <= |l| {
      assert l[i..i + 6][0] == l[i];
    }
  }

  lemma LowerBelowCyrillic(c: char)
    requires c < 'Ѐ'
    ensures LowerChar(c) < 'Ѐ'
  {
  }

  /** An amount such as "$1 234,5~" is the exact decimal value of its digits,
      the comma read as the decimal point. */
  lemma AmountDecimalComma(s: string, ip: nat, iw: nat, fp: nat, fw: nat)
    requires 0 < iw && ip < Pow10(iw) && fp < Pow10(fw)
    requires Filter(s, AmountChar) == PadDigits(ip, iw) + "," + PadDigits(fp, fw)
    ensures Amount(Text(s)) == Ok(Some(ip as real + Shifted(fp, fw)))
  {
    var a, b := PadDigits(ip, iw), PadDigits(fp, fw);
    PlainAmountChars(s, a, b);
    NoDataNeedsCyrillic(s);
    AmountTextDecorations(s);
    AmountTextComma(a, b);
    ParseDecimalDigits(ip, iw, fp, fw);
    AmountRead(s);
  }

  /** Text whose kept characters are digits and a comma has no Cyrillic. */
  lemma PlainAmountChars(s: string, a: string, b: string)
    requires AllDigits(a) && AllDigits(b) && Filter(s, AmountChar) == a + "," + b
    ensures forall k :: 0 <= k < |s| ==> s[k] < 'Ѐ'
  {
    var f := a + "," + b;
    CommaTextChars(a, b);
    forall k | 0 <= k < |s| ensures s[k] < 'Ѐ' {
      if AmountChar(s[k]) {
        var j :| 0 <= j < |f| && f[j] == s[k];
      }
    }
  }

  lemma CommaTextChars(a: string, b: string)
    requires AllDigits(a) && AllDigits(b)
    ensures forall j :: 0 <= j < |a + "," + b| ==> IsDigit((a + "," + b)[j]) || (a + "," + b)[j] == ','
  {
    var f := a + "," + b;
    forall j | 0 <= j < |f| ensures IsDigit(f[j]) || f[j] == ',' {
      if j < |a| { assert f[j] == a[j]; }
      else if j > |a| { assert f[j] == b[j - |a| - 1]; }
    }
  }

  lemma AmountTextComma(a: string, b: string)
    requires AllDigits(a) && AllDigits(b) && a != []
    ensures AmountText(a + "," + b) == a + "." + b
  {
    CommaTextKept(a, b);
    DecimalComma(a, b);
    PointTextStripped(a, b);
  }

  lemma CommaTextKept(a: string, b: string)
    requires AllDigits(a) && AllDigits(b)
    ensures Remove(Remove(Remove(a + "," + b, ' '), '$'), '~') == a + "," + b
  {
    var f := a + "," + b;
    CommaTextChars(a, b);
    RemoveDecorations(f);
    FilterAll(f, AmountChar);
  }

  lemma PointTextStripped(a: string, b: string)
    requires AllDigits(a) && AllDigits(b) && a != []
    ensures Strip(a + "." + b) == a + "." + b
  {
    var t := a + "." + b;
    assert t[0] == a[0];
    assert t[|t| - 1] == if b == [] then '.' else b[|b| - 1];
    StripUnchanged(t);
  }

  lemma AmountTextRejects(s: string, i: int)
    requires 0 <= i < |s| && !DecimalChar(s[i]) && s[i] != '$' && s[i] != '~' && s[i] != ','
    ensures ParseDecimal(AmountText(s)).None?
  {
    var c := s[i];
    assert c != ' ';
    var r := Remove(Remove(Remove(s, ' '), '$'), '~');
    assert c in r;
    var j :| 0 <= j < |r| && r[j] == c;
    var t := Replace(r, ',', '.');
    assert t[j] == c;
    StripKeeps(t, j);
    var u := AmountText(s);
    var k :| 0 <= k < |u| && u[k] == c;
    ParseDecimalRejects(u, k);
  }

  /** Only the bare "-" is the no-condition sentinel: any other text
      without a digit (" - ", "—", "нет") makes the row fail. */
  lemma ConditionSentinel(s: string)
    requires forall i :: 0 <= i < |s| ==> !IsDigit(s[i])
    ensures Condition(Text(s)) == (if s == "-" then Ok(None) else Err(BadValue("Условие")))
  {
    if s != "-" {
      PriceTextNoDigit(s);
      ParseDecimalNeedsDigit(PriceText(s));
      DecimalCellFails(Text(s), "Условие", PriceText);
    }
  }

  /** The price rewrite brings in no digit. */
  lemma PriceTextNoDigit(s: string)
    requires forall i :: 0 <= i < |s| ==> !IsDigit(s[i])
    ensures forall i :: 0 <= i < |PriceText(s)| ==> !IsDigit(PriceText(s)[i])
  {
    var t := PriceText(s);
    var r := Remove(s, ' ');
    forall i | 0 <= i < |t| ensures !IsDigit(t[i]) {
      assert r[i] in r;
      var j :| 0 <= j < |s| && s[j] == r[i];
    }
  }

  /** The order number is read the same with or without its spaces. */
  lemma OrderNumberIgnoresSpaces(s: string)
    ensures OrderNumber(Text(s)) == OrderNumber(Text(Remove(s, ' ')))
  {
    RemoveAbsent(Remove(s, ' '), ' ');
  }

  /** A digit string, spaces or not, is the order number it denotes. */
  lemma OrderNumberDigits(n: nat, width: nat)
    requires 0 < width && n < Pow10(width)
    ensures OrderNumber(Text(PadDigits(n, width))) == Ok(Some(n))
  {
    var s := PadDigits(n, width);
    DigitsKeepSpaces(s);
    ParseIntDigits(n, width);
  }

  lemma DigitsKeepSpaces(s: string)
    requires AllDigits(s)
    ensures Remove(s, ' ') == s
  {
    assert ' ' !in s by {
      forall k | 0 <= k < |s| ensures s[k] != ' ' { assert IsDigit(s[k]); }
    }
    RemoveAbsent(s, ' ');
  }

  /** Headers are compared after stripping, character for character: a
      sheet whose order-number header has one inner space instead of two
      fails on every row. */
  lemma NumberColumnRequired(columns: seq<string>, row: seq<Cell>)
    requires |row| == |columns|
    requires forall k :: !HeaderAt(columns, NumberColumn, k)
    ensures CoerceOrder(columns, row).Err?
  {
  }

  /** The row as handed to INSERT IGNORE, keyed on its order number. */
  function OrderRow(columns: seq<string>, row: seq<Cell>): Result<Row<Order>, RowError>
    requires |row| == |columns|
  {
    var o :- CoerceOrder(columns, row);
    Ok(Row(o.orderNumber, o))
  }

  /** The outcome of every row of the frame, in order. */
  function Outcomes(columns: seq<string>, rows: seq<seq<Cell>>): seq<Result<Row<Order>, RowError>>
    requires forall row :: row in rows ==> |row| == |columns|
  {
    RowOutcomes(columns, rows, OrderRow)
  }

  /** The summary the loader prints: rows in the frame and rows added. */
  datatype Report = Report(total: nat, inserted: nat, failed: seq<nat>) {
    /** "ignored (possibly duplicates)": every row not added, failed ones included. */
    function Ignored(): int { total - inserted }
  }

  /** insert_into_mysql for orders. */
  method InsertIntoMysql(table: Table<Order>, frame: Frame) returns (report: Report)
    requires table.Valid() && frame.Valid()
    modifies table, frame
    ensures frame.Valid() && table.Valid()
    ensures frame.columns == StripAll(old(frame.columns)) && frame.rows == old(frame.rows)
    ensures report.total == |frame.rows|
    ensures Apply(old(table.rows), Outcomes(frame.columns, frame.rows))
         == Batch(table.rows, report.inserted, report.failed)
    ensures 0 <= report.inserted <= report.total && report.Ignored() >= |report.failed|
    ensures ReportsFailures(Outcomes(frame.columns, frame.rows), report.failed)
    ensures |table.rows| == |old(table.rows)| + report.inserted
    ensures table.rows[..|old(table.rows)|] == old(table.rows)
  {
    frame.StripColumns();
    var inserted, failed := InsertRows(table, frame.columns, frame.rows, OrderRow);
    report := Report(|frame.rows|, inserted, failed);
  }
}
