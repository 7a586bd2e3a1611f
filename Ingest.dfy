// The per-row loop the spreadsheet loaders share: each row is coerced
// inside its own try/except, a row that raised is reported by its 1-based
// position and skipped, and every coerced row goes through INSERT IGNORE.
module Ingest {
  import opened Base
  import opened Sheet
  import opened Store

  /** for index, row in data_frame.iterrows(): try ... except ..., with the
      coercion of one row passed in. */
  method InsertRows<T>(table: Table<T>, columns: seq<string>, rows: seq<seq<Cell>>,
                       coerce: (seq<string>, seq<Cell>) --> Result<Row<T>, RowError>)
    returns (inserted: nat, failed: seq<nat>)
    requires table.Valid()
    requires forall row :: row in rows ==> coerce.requires(columns, row)
    modifies table
    ensures table.Valid()
    ensures Apply(old(table.rows), RowOutcomes(columns, rows, coerce)) == Batch(table.rows, inserted, failed)
    ensures inserted + |failed| <= |rows|
    ensures ReportsFailures(RowOutcomes(columns, rows, coerce), failed)
    ensures |table.rows| == |old(table.rows)| + inserted && table.rows[..|old(table.rows)|] == old(table.rows)
  {
    ghost var start := table.rows;
    inserted, failed := 0, [];
    var i := 0;
    while i < |rows|
      invariant 0 <= i <= |rows|
      invariant table.Valid()
      invariant Apply(start, RowOutcomes(columns, rows[..i], coerce)) == Batch(table.rows, inserted, failed)
    {
      var outcome := coerce(columns, rows[i]);
      assert rows[..i + 1][..i] == rows[..i] && rows[..i + 1][i] == rows[i];
      assert RowOutcomes(columns, rows[..i + 1], coerce) == RowOutcomes(columns, rows[..i], coerce) + [outcome];
      inserted, failed := table.Take(outcome, i + 1, start, RowOutcomes(columns, rows[..i], coerce), inserted, failed);
      i := i + 1;
    }
    assert rows[..i] == rows;
    ApplySpec(start, RowOutcomes(columns, rows, coerce));
  }

  /** One row's outcome together with the loop variables it leaves behind
      for the next row. */
  datatype Step<T, C> = Step(outcome: Result<Row<T>, RowError>, carry: C)

  /** The outcomes of a loop whose rows read and set variables that persist
      from one row to the next, and the variables after the last row. */
  datatype Scanned<T, C> = Scanned(outcomes: seq<Result<Row<T>, RowError>>, carry: C)

  function Carried<T, C(!new)>(columns: seq<string>, rows: seq<seq<Cell>>,
                         step: (seq<string>, seq<Cell>, C) --> Step<T, C>, init: C): (r: Scanned<T, C>)
    requires forall row, c :: row in rows ==> step.requires(columns, row, c)
    ensures |r.outcomes| == |rows|
  {
    if rows == [] then Scanned([], init)
    else
      var before := Carried(columns, rows[..|rows| - 1], step, init);
      var last := step(columns, rows[|rows| - 1], before.carry);
      Scanned(before.outcomes + [last.outcome], last.carry)
  }

  /** Row `i`'s outcome is the step applied to that row with the variables
      the rows before it left behind. */
  lemma {:induction false} CarriedAt<T, C(!new)>(columns: seq<string>, rows: seq<seq<Cell>>,
                                                  step: (seq<string>, seq<Cell>, C) --> Step<T, C>, init: C, i: int)
    requires forall row, c :: row in rows ==> step.requires(columns, row, c)
    requires 0 <= i < |rows|
    ensures Carried(columns, rows, step, init).outcomes[i]
         == step(columns, rows[i], Carried(columns, rows[..i], step, init).carry).outcome
  {
    var n := |rows|;
    if i < n - 1 {
      var init' := rows[..n - 1];
      assert init'[..i] == rows[..i] && init'[i] == rows[i];
      CarriedAt(columns, init', step, init, i);
    } else {
      assert rows[..i] == rows[..n - 1];
    }
  }

  /** The row loop with its try/except, for a loader whose rows also carry
      variables from one row to the next. */
  method InsertRowsCarrying<T, C(!new)>(table: Table<T>, columns: seq<string>, rows: seq<seq<Cell>>,
                                  step: (seq<string>, seq<Cell>, C) --> Step<T, C>, init: C)
    returns (inserted: nat, failed: seq<nat>, carry: C)
    requires table.Valid()
    requires forall row, c :: row in rows ==> step.requires(columns, row, c)
    modifies table
    ensures table.Valid()
    ensures Apply(old(table.rows), Carried(columns, rows, step, init).outcomes) == Batch(table.rows, inserted, failed)
    ensures carry == Carried(columns, rows, step, init).carry
    ensures inserted + |failed| <= |rows|
    ensures ReportsFailures(Carried(columns, rows, step, init).outcomes, failed)
    ensures |table.rows| == |old(table.rows)| + inserted && table.rows[..|old(table.rows)|] == old(table.rows)
  {
    ghost var start := table.rows;
    inserted, failed, carry := 0, [], init;
    var i := 0;
    while i < |rows|
      invariant 0 <= i <= |rows|
      invariant table.Valid()
      invariant Apply(start, Carried(columns, rows[..i], step, init).outcomes) == Batch(table.rows, inserted, failed)
      invariant carry == Carried(columns, rows[..i], step, init).carry
    {
      var s := step(columns, rows[i], carry);
      assert rows[..i + 1][..i] == rows[..i] && rows[..i + 1][i] == rows[i];
      ghost var done := Carried(columns, rows[..i], step, init).outcomes;
      assert Carried(columns, rows[..i + 1], step, init) == Scanned(done + [s.outcome], s.carry);
      inserted, failed := table.Take(s.outcome, i + 1, start, done, inserted, failed);
      carry := s.carry;
      i := i + 1;
    }
    assert rows[..i] == rows;
    ApplySpec(start, Carried(columns, rows, step, init).outcomes);
  }
}
