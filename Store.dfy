// A table with a unique key, written with INSERT IGNORE: a row whose key is
// already present is silently dropped and the cursor's rowcount is 0. As with
// a UNIQUE index, a NULL key never conflicts.
module Store {
  import opened Base

  /** A stored row: the value of its unique-key column and the record. */
  datatype Row<R> = Row(key: Option<int>, record: R)

  ghost predicate KeyAt<R>(rows: seq<Row<R>>, k: int, i: int) {
    0 <= i < |rows| && rows[i].key == Some(k)
  }

  /** Some stored row has key `k`. */
  function HasKey<R>(rows: seq<Row<R>>, k: int): (b: bool)
    ensures b <==> exists i :: KeyAt(rows, k, i)
  {
    if rows == [] then false
    else if rows[|rows| - 1].key == Some(k) then assert KeyAt(rows, k, |rows| - 1); true
    else
      var init := rows[..|rows| - 1];
      assert forall i :: KeyAt(init, k, i) ==> KeyAt(rows, k, i);
      assert forall i :: KeyAt(rows, k, i) ==> KeyAt(init, k, i);
      HasKey(init, k)
  }

  /** No two stored rows share a non-NULL key. */
  ghost predicate UniqueKeys<R>(rows: seq<Row<R>>) {
    forall i, j :: 0 <= i < j < |rows| && rows[i].key.Some? ==> rows[i].key != rows[j].key
  }

  /** INSERT IGNORE: the new rows and whether the row was added (rowcount > 0). */
  function InsertIgnore<R>(rows: seq<Row<R>>, key: Option<int>, rec: R): (seq<Row<R>>, bool) {
    if key.Some? && HasKey(rows, key.value) then (rows, false) else (rows + [Row(key, rec)], true)
  }

  /** The row is added exactly when its key is NULL or new; nothing stored
      before is changed or lost, and keys stay unique. */
  lemma InsertIgnoreSpec<R>(rows: seq<Row<R>>, key: Option<int>, rec: R)
    requires UniqueKeys(rows)
    ensures var (rows', added) := InsertIgnore(rows, key, rec);
      && (added <==> key.None? || forall i :: !KeyAt(rows, key.value, i))
      && rows' == (if added then rows + [Row(key, rec)] else rows)
      && UniqueKeys(rows')
  {
    var (rows', added) := InsertIgnore(rows, key, rec);
    if added && key.Some? {
      forall i, j | 0 <= i < j < |rows'| && rows'[i].key.Some?
        ensures rows'[i].key != rows'[j].key
      {
        if j == |rows| { assert !KeyAt(rows, key.value, i); }
      }
    }
  }

  /** Inserting the same keyed row again changes nothing. */
  lemma InsertIgnoreAgain<R>(rows: seq<Row<R>>, k: int, rec: R, rec': R)
    ensures var once := InsertIgnore(rows, Some(k), rec).0;
            InsertIgnore(once, Some(k), rec') == (once, false)
  {
    var once := InsertIgnore(rows, Some(k), rec).0;
    if !HasKey(rows, k) {
      assert KeyAt(once, k, |rows|);
    }
  }

  /** What a batch leaves behind: the table, how many rows were added, and
      the 1-based indices of the rows that raised (the ones printed). */
  datatype Batch<R> = Batch(rows: seq<Row<R>>, inserted: nat, failed: seq<nat>)

  /** The per-row loop with a try/except around each row: a row that raised
      is reported by index, a coerced row goes through INSERT IGNORE. */
  function Apply<R, E>(rows: seq<Row<R>>, outcomes: seq<Result<Row<R>, E>>): Batch<R> {
    if outcomes == [] then Batch(rows, 0, [])
    else
      var n := |outcomes|;
      var b := Apply(rows, outcomes[..n - 1]);
      match outcomes[n - 1]
      case Err(_) => Batch(b.rows, b.inserted, b.failed + [n])
      case Ok(row) =>
        var (rows', added) := InsertIgnore(b.rows, row.key, row.record);
        Batch(rows', if added then b.inserted + 1 else b.inserted, b.failed)
  }

  /** The rows that raised are reported by 1-based index, in order, each once. */
  ghost predicate ReportsFailures<R, E>(outcomes: seq<Result<Row<R>, E>>, failed: seq<nat>) {
    && (forall i, j :: 0 <= i < j < |failed| ==> failed[i] < failed[j])
    && (forall k :: k in failed <==> 1 <= k <= |outcomes| && outcomes[k - 1].Err?)
  }

  /** A batch only appends to the table, keeps keys unique, adds at most one
      row per input row and reports exactly the rows that raised. */
  lemma {:induction false} ApplySpec<R, E>(rows: seq<Row<R>>, outcomes: seq<Result<Row<R>, E>>)
    requires UniqueKeys(rows)
    ensures var b := Apply(rows, outcomes);
      && UniqueKeys(b.rows)
      && |b.rows| == |rows| + b.inserted
      && b.rows[..|rows|] == rows
      && b.inserted + |b.failed| <= |outcomes|
      && ReportsFailures(outcomes, b.failed)
  {
    if outcomes != [] {
      var n := |outcomes|;
      var init := outcomes[..n - 1];
      ApplySpec(rows, init);
      var b := Apply(rows, init);
      assert forall j :: 0 <= j < n - 1 ==> init[j] == outcomes[j];
      match outcomes[n - 1]
      case Err(_) =>
        forall i | 0 <= i < |b.failed| ensures b.failed[i] < n {
          assert b.failed[i] in b.failed;
        }
      case Ok(row) =>
        InsertIgnoreSpec(b.rows, row.key, row.record);
        var rows' := InsertIgnore(b.rows, row.key, row.record).0;
        assert rows'[..|rows|] == b.rows[..|rows|];
    }
  }

  /** After a batch, every key a coerced row carried is in the table. */
  lemma {:induction false} ApplyStoresKeys<R, E>(rows: seq<Row<R>>, outcomes: seq<Result<Row<R>, E>>, j: int)
    requires 0 <= j < |outcomes| && outcomes[j].Ok? && outcomes[j].value.key.Some?
    ensures HasKey(Apply(rows, outcomes).rows, outcomes[j].value.key.value)
  {
    var n := |outcomes|;
    var init := outcomes[..n - 1];
    var b := Apply(rows, init);
    var b' := Apply(rows, outcomes);
    var k := outcomes[j].value.key.value;
    if j < n - 1 {
      ApplyStoresKeys(rows, init, j);
      var i :| KeyAt(b.rows, k, i);
      assert b'.rows[..|b.rows|] == b.rows;
      assert KeyAt(b'.rows, k, i);
    } else if !HasKey(b.rows, k) {
      assert KeyAt(b'.rows, k, |b.rows|);
    }
  }

  /** A batch over a table that already holds every key changes nothing. */
  lemma {:induction false} ApplyNothingNew<R, E>(rows: seq<Row<R>>, outcomes: seq<Result<Row<R>, E>>)
    requires forall j :: 0 <= j < |outcomes| && outcomes[j].Ok? ==>
      outcomes[j].value.key.Some? && HasKey(rows, outcomes[j].value.key.value)
    ensures Apply(rows, outcomes).rows == rows && Apply(rows, outcomes).inserted == 0
  {
    if outcomes != [] {
      var n := |outcomes|;
      assert forall j :: 0 <= j < n - 1 ==> outcomes[..n - 1][j] == outcomes[j];
      ApplyNothingNew(rows, outcomes[..n - 1]);
    }
  }

  /** The failure report depends on the rows read, not on the table. */
  lemma {:induction false} ApplyFailedOnly<R, E>(rows: seq<Row<R>>, rows': seq<Row<R>>, outcomes: seq<Result<Row<R>, E>>)
    ensures Apply(rows, outcomes).failed == Apply(rows', outcomes).failed
  {
    if outcomes != [] {
      ApplyFailedOnly(rows, rows', outcomes[..|outcomes| - 1]);
    }
  }

  /** Running the same batch twice: when every coerced row has a key, the
      second run adds nothing, leaves the table as the first run left it,
      and reports the same failing rows. */
  lemma ApplyRerun<R, E>(rows: seq<Row<R>>, outcomes: seq<Result<Row<R>, E>>)
    requires forall j :: 0 <= j < |outcomes| && outcomes[j].Ok? ==> outcomes[j].value.key.Some?
    ensures var once := Apply(rows, outcomes);
            Apply(once.rows, outcomes) == Batch(once.rows, 0, once.failed)
  {
    var once := Apply(rows, outcomes);
    forall j | 0 <= j < |outcomes| && outcomes[j].Ok?
      ensures HasKey(once.rows, outcomes[j].value.key.value)
    {
      ApplyStoresKeys(rows, outcomes, j);
    }
    ApplyNothingNew(once.rows, outcomes);
    ApplyFailedOnly(rows, once.rows, outcomes);
  }

  /** The table behind one connection. */
  class Table<R> {
    var rows: seq<Row<R>>

    ghost predicate Valid()
      reads this
    {
      UniqueKeys(rows)
    }

    constructor (rows: seq<Row<R>>)
      requires UniqueKeys(rows)
      ensures Valid() && this.rows == rows
    {
      this.rows := rows;
    }

    /** cursor.execute("INSERT IGNORE ...") followed by reading cursor.rowcount. */
    method Insert(key: Option<int>, rec: R) returns (added: bool)
      requires Valid()
      modifies this
      ensures Valid()
      ensures (rows, added) == InsertIgnore(old(rows), key, rec)
    {
      InsertIgnoreSpec(rows, key, rec);
      added := !(key.Some? && HasKey(rows, key.value));
      if added {
        rows := rows + [Row(key, rec)];
      }
    }

    /** One row of a batch, inside its try/except: a row that raised is
        reported by its 1-based position, a coerced row goes through
        INSERT IGNORE and is counted when added. */
    method Take<E>(outcome: Result<Row<R>, E>, position: nat, ghost start: seq<Row<R>>,
                   ghost done: seq<Result<Row<R>, E>>, inserted: nat, failed: seq<nat>)
      returns (inserted': nat, failed': seq<nat>)
      requires position == |done| + 1
      requires Valid() && Apply(start, done) == Batch(rows, inserted, failed)
      modifies this
      ensures Valid() && Apply(start, done + [outcome]) == Batch(rows, inserted', failed')
    {
      assert (done + [outcome])[..|done|] == done;
      match outcome
      case Err(_) =>
        inserted', failed' := inserted, failed + [position];
      case Ok(row) =>
        var added := Insert(row.key, row.record);
        inserted', failed' := if added then inserted + 1 else inserted, failed;
    }
  }
}
