// The spreadsheet as pandas.read_excel hands it to the loaders: a frame of
// column headers and rows of cells, looked up by header text, and the cell
// coercions all three loaders write the same way.
module Sheet {
  import opened Base
  import opened Strings
  import opened Numbers
  import opened Calendar

  /** One cell: empty (pd.notnull is false), a number, or text. */
  datatype Cell = Missing | Num(value: real) | Text(text: string)

  /** Why a row was skipped: what the row's code raised. */
  datatype RowError =
    | NoColumn(column: string)         // KeyError: no header has this text
    | SameHeader(column: string)       // several headers have this text
    | BadValue(column: string)         // ValueError, TypeError or AttributeError on the cell
    | Unbound(name: string)            // a loop variable read before any row set it

  /** The DataFrame: its header row, and its rows in file order. */
  class Frame {
    var columns: seq<string>
    var rows: seq<seq<Cell>>

    ghost predicate Valid()
      reads this
    {
      forall r :: r in rows ==> |r| == |columns|
    }

    constructor (columns: seq<string>, rows: seq<seq<Cell>>)
      requires forall r :: r in rows ==> |r| == |columns|
      ensures Valid() && this.columns == columns && this.rows == rows
    {
      this.columns := columns;
      this.rows := rows;
    }

    /** data_frame.columns = data_frame.columns.str.strip() */
    method StripColumns()
      requires Valid()
      modifies this
      ensures Valid()
      ensures columns == StripAll(old(columns)) && rows == old(rows)
    {
      columns := StripAll(columns);
    }
  }

  /** What coercing every row of a frame yields, in row order. */
  function RowOutcomes<T>(columns: seq<string>, rows: seq<seq<Cell>>,
                          coerce: (seq<string>, seq<Cell>) --> Result<T, RowError>): (r: seq<Result<T, RowError>>)
    requires forall row :: row in rows ==> coerce.requires(columns, row)
    ensures |r| == |rows|
    ensures forall i :: 0 <= i < |rows| ==> r[i] == coerce(columns, rows[i])
  {
    if rows == [] then []
    else RowOutcomes(columns, rows[..|rows| - 1], coerce) + [coerce(columns, rows[|rows| - 1])]
  }

  /** Every header with surrounding whitespace removed, inner whitespace kept. */
  function StripAll(cs: seq<string>): (r: seq<string>)
    ensures |r| == |cs|
    ensures forall i :: 0 <= i < |cs| ==> StrippedOf(cs[i], r[i])
  {
    seq(|cs|, i requires 0 <= i < |cs| => Strip(cs[i]))
  }

  ghost predicate HeaderAt(columns: seq<string>, name: string, k: int) {
    0 <= k < |columns| && columns[k] == name
  }

  /** The positions of the headers equal to `name`, in order. */
  function Positions(columns: seq<string>, name: string): (r: seq<nat>)
    ensures forall j :: 0 <= j < |r| ==> HeaderAt(columns, name, r[j])
    ensures forall k :: HeaderAt(columns, name, k) ==> k in r
    ensures forall i, j :: 0 <= i < j < |r| ==> r[i] < r[j]
  {
    if columns == [] then []
    else
      var rest := Positions(columns[..|columns| - 1], name);
      var last := |columns| - 1;
      assert forall k :: HeaderAt(columns[..last], name, k) ==> HeaderAt(columns, name, k);
      assert forall k :: HeaderAt(columns, name, k) && k < last ==> HeaderAt(columns[..last], name, k);
      if columns[last] == name then rest + [last] else rest
  }

  /** row[name]: the cell under the one header equal to `name`. */
  function Lookup(columns: seq<string>, row: seq<Cell>, name: string): (r: Result<Cell, RowError>)
    requires |row| == |columns|
    ensures r.Ok? <==> (exists k :: HeaderAt(columns, name, k))
                       && (forall j, k :: HeaderAt(columns, name, j) && HeaderAt(columns, name, k) ==> j == k)
    ensures r.Ok? ==> forall k :: HeaderAt(columns, name, k) ==> r.value == row[k]
    ensures r == Err(NoColumn(name)) <==> forall k :: !HeaderAt(columns, name, k)
  {
    var ps := Positions(columns, name);
    if |ps| == 0 then Err(NoColumn(name))
    else if |ps| == 1 then Ok(row[ps[0]])
    else
      assert HeaderAt(columns, name, ps[0]) && HeaderAt(columns, name, ps[1]);
      Err(SameHeader(name))
  }

  /** `cell.strip() if pd.notnull(cell) else None`: text is stripped, a
      number has no strip() and raises. */
  function StrippedText(c: Cell, column: string): (r: Result<Option<string>, RowError>)
    ensures c.Missing? ==> r == Ok(None)
    ensures c.Num? ==> r.Err?
    ensures c.Text? ==> r.Ok? && r.value.Some? && StrippedOf(c.text, r.value.value)
  {
    match c
    case Missing => Ok(None)
    case Num(_) => Err(BadValue(column))
    case Text(s) => Ok(Some(Strip(s)))
  }

  /** `int(cell) if pd.notnull(cell) else None`: a number is truncated, text
      must be an integer literal. */
  function IntCell(c: Cell, column: string): (r: Result<Option<int>, RowError>)
    ensures c.Missing? ==> r == Ok(None)
    ensures c.Num? ==> r.Ok? && r.value.Some? && r.value.value == Truncate(c.value)
    ensures c.Text? ==> (r.Ok? <==> ParseInt(c.text).Some?)
    ensures c.Text? && r.Ok? ==> r.value == ParseInt(c.text)
  {
    match c
    case Missing => Ok(None)
    case Num(x) => Ok(Some(Truncate(x)))
    case Text(s) =>
      match ParseInt(s)
      case None => Err(BadValue(column))
      case Some(n) => Ok(Some(n))
  }

  /** `datetime.strptime(cell, pattern) if pd.notnull(cell) else None`: only
      text is accepted, and it must match the pattern. */
  function TimeCell(c: Cell, column: string, pattern: Pattern): (r: Result<Option<DateTime>, RowError>)
    ensures c.Missing? ==> r == Ok(None)
    ensures c.Num? ==> r.Err?
    ensures c.Text? ==> (r.Ok? <==> Parse(pattern, c.text).Some?)
    ensures c.Text? && r.Ok? ==> r.value == Parse(pattern, c.text)
    ensures r.Ok? && r.value.Some? ==> ValidDateTime(r.value.value)
  {
    match c
    case Missing => Ok(None)
    case Num(_) => Err(BadValue(column))
    case Text(s) =>
      match Parse(pattern, s)
      case None => Err(BadValue(column))
      case Some(t) => Ok(Some(t))
  }

  /** `float(cell)` after the loader's rewrite of text; a number passes
      through and an empty cell is None. */
  function DecimalCell(c: Cell, column: string, rewrite: string -> string): (r: Result<Option<real>, RowError>)
    ensures c.Missing? ==> r == Ok(None)
    ensures c.Num? ==> r == Ok(Some(c.value))
    ensures c.Text? ==> (r.Ok? <==> ParseDecimal(rewrite(c.text)).Some?)
    ensures c.Text? && r.Ok? ==> r.value == ParseDecimal(rewrite(c.text))
  {
    match c
    case Missing => Ok(None)
    case Num(x) => Ok(Some(x))
    case Text(s) =>
      match ParseDecimal(rewrite(s))
      case None => Err(BadValue(column))
      case Some(v) => Ok(Some(v))
  }

  /** Text the rewrite leaves unreadable fails with the column's name. */
  lemma DecimalCellFails(c: Cell, column: string, rewrite: string -> string)
    requires c.Text? && ParseDecimal(rewrite(c.text)).None?
    ensures DecimalCell(c, column, rewrite) == Err(BadValue(column))
  {
  }
}
