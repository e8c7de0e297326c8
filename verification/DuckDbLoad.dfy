/** Loading rows into a table: `populate_table` in `db/base.py`, with DuckDB's `insert_rows`.

    A load is cut into batches, and a batch into statements.  `PreparedRows` says what the
    source's lines become without any batches, and `TxLoad` what the whole load does to the database. */
module DuckDbLoad {
  import opened Common
  import opened DuckDb
  import opened DuckDbLines
  import opened Options

  // ---------------------------------------------------------------------------------------------
  // Inserting
  // ---------------------------------------------------------------------------------------------

  /** Whether the table takes a row: its types, keys and constraints. */
  type Table = (Content, Row) -> bool

  /** The content with the rows added one by one, unless the table refuses one. */
  function Stored(content: Content, rows: seq<Row>, fits: Table): Option<Content>
    decreases |rows|
  {
    if rows == [] then Some(content)
    else if fits(content, rows[0]) then Stored(content + [rows[0]], rows[1..], fits)
    else None
  }

  /** An INSERT, which DuckDB answers with the number of rows. */
  function InsertStatement(rows: seq<Row>, fits: Table): Statement {
    Plain((content: Content) =>
            match Stored(content, rows, fits)
            case None => Fails
            case Some(after) => Works(after, Some([[Other(|rows|)]])))
  }

  /** Every row fits the content with the rows before it. */
  predicate AllFit(content: Content, rows: seq<Row>, fits: Table) {
    forall k :: 0 <= k < |rows| ==> fits(content + rows[..k], rows[k])
  }

  /** The rows are stored, behind what was there and in their order, if and only if each of them fits. */
  lemma {:induction false} StoredIff(content: Content, rows: seq<Row>, fits: Table)
    ensures Stored(content, rows, fits) == if AllFit(content, rows, fits) then Some(content + rows) else None
    decreases |rows|
  {
    if rows == [] {
      assert content + rows == content;
    } else {
      var more, rest := content + [rows[0]], rows[1..];
      StoredIff(more, rest, fits);
      assert content + rows[..0] == content && more + rest == content + rows;
      assert forall k :: 0 <= k < |rest| ==> more + rest[..k] == content + rows[..k + 1];
      if AllFit(more, rest, fits) && fits(content, rows[0]) {
        assert forall k :: 0 < k < |rows| ==> rows[k] == rest[k - 1] && content + rows[..k] == more + rest[..k - 1];
      }
      if AllFit(content, rows, fits) {
        assert forall k :: 0 <= k < |rest| ==> rest[k] == rows[k + 1];
      }
    }
  }

  /** Rows can be inserted in parts. */
  lemma {:induction false} StoredInParts(content: Content, a: seq<Row>, b: seq<Row>, fits: Table)
    ensures Stored(content, a + b, fits) ==
            match Stored(content, a, fits) case None => None case Some(after) => Stored(after, b, fits)
    decreases |a|
  {
    if a == [] {
      assert a + b == b;
    } else {
      assert (a + b)[1..] == a[1..] + b;
      StoredInParts(content + [a[0]], a[1..], b, fits);
    }
  }

  const PARAMS_PER_STATEMENT := 10_000

  /** How many rows of this width one statement inserts. */
  function PerStatement(columns: nat): (n: nat)
    ensures 1 <= n && n * columns <= Max(PARAMS_PER_STATEMENT, columns)
    ensures 1 <= columns <= 10_000 ==> n * columns <= 10_000 < (n + 1) * columns
    ensures columns > 10_000 ==> n == 1
    ensures columns == 0 ==> n == 10_000
  {
    var d := Max(1, columns);
    assert d * (PARAMS_PER_STATEMENT / d) <= PARAMS_PER_STATEMENT;
    Max(1, PARAMS_PER_STATEMENT / d)
  }

  ghost predicate StatementsFit(statements: seq<seq<Row>>, columns: nat) {
    forall s <- statements :: s != [] && |s| * columns <= Max(PARAMS_PER_STATEMENT, columns)
  }

  ghost predicate Inserted(before: Driver, after: Driver, rows: seq<Row>, fits: Table) {
    && Stored(before.working, rows, fits) == Some(after.working)
    && after.open == before.open && !after.aborted
    && after.committed == if before.open then before.committed else after.working
  }

  /** One statement more. */
  lemma InsertStep(before: Driver, now: Driver, done: seq<Row>, chunk: seq<Row>, fits: Table)
    requires Inserted(before, now, done, fits)
    ensures var e := Exec(now, InsertStatement(chunk, fits));
      && e.ok == Stored(before.working, done + chunk, fits).Some?
      && (e.ok ==> Inserted(before, e.after.(result := []), done + chunk, fits))
      && (before.open ==> e.after.open && e.after.committed == before.committed)
  {
    StoredInParts(before.working, done, chunk, fits);
  }

  lemma NotStored(content: Content, rows: seq<Row>, k: nat, fits: Table)
    requires k <= |rows|
    ensures Stored(content, rows, fits).Some? ==> Stored(content, rows[..k], fits).Some?
  {
    assert rows[..k] + rows[k..] == rows;
    StoredInParts(content, rows[..k], rows[k..], fits);
  }

  /** `insert_rows`: the statements bind the rows in order, each at most 10 000 values or one row. */
  method InsertRows(curs: SharedCursor, columns: nat, rows: seq<Row>, fits: Table)
    returns (ok: bool, statements: seq<seq<Row>>)
    requires curs.db.CursorsOk() && curs in curs.db.cursors && Settled(curs.conn.s)
    modifies curs.db`holder, curs.conn, curs.db.cursors
    ensures curs.db.CursorsOk()
    ensures ok == Stored(old(curs.conn.s).working, rows, fits).Some?
    ensures ok ==> Concat(statements) == rows && StatementsFit(statements, columns)
    ensures ok ==> Inserted(old(curs.conn.s), curs.conn.s, rows, fits)
    ensures old(curs.conn.s.open) ==> curs.conn.s.open && curs.conn.s.committed == old(curs.conn.s.committed)
    ensures forall c <- curs.db.cursors :: c != curs ==> c.Remaining() == old(c.Remaining())
  {
    hide Exec;
    statements, ok := [], true;
    ghost var before := curs.conn.s;
    if rows == [] {
      return;
    }
    var perStatement := PerStatement(columns);
    var start := 0;
    while start < |rows|
      invariant 0 <= start <= |rows| && curs.db.CursorsOk()
      invariant Concat(statements) == rows[..start] && StatementsFit(statements, columns)
      invariant Inserted(before, curs.conn.s, rows[..start], fits)
      invariant forall c <- curs.db.cursors :: c != curs ==> c.Remaining() == old(c.Remaining())
    {
      var end := if start + perStatement < |rows| then start + perStatement else |rows|;
      var chunk := rows[start..end];
      InsertStep(before, curs.conn.s, rows[..start], chunk, fits);
      assert rows[..start] + chunk == rows[..end];
      NotStored(before.working, rows, end, fits);
      ok := curs.Execute(InsertStatement(chunk, fits));
      if !ok {
        return;
      }
      ChunkFits(|chunk|, perStatement, columns);
      assert (statements + [chunk])[..|statements|] == statements;
      statements := statements + [chunk];
      start := end;
    }
    assert rows[..start] == rows;
  }

  lemma ChunkFits(n: nat, perStatement: nat, columns: nat)
    requires n <= perStatement
    ensures n * columns <= perStatement * columns
  {
  }

  // ---------------------------------------------------------------------------------------------
  // The load
  // ---------------------------------------------------------------------------------------------

  /** The content after the load, if every line can be prepared and every row stored. */
  function Loaded(content: Content, source: seq<Line>, columns: seq<Column>, conf: Settings, fits: Table)
    : Option<Content>
  {
    match PreparedRows(source, columns, conf)
    case Err(_) => None
    case Ok(rows) => Stored(content, rows, fits)
  }

  /** All of the source is in the open transaction, or the transaction is rolled back.  The batch size has
      no part in it. */
  function TxLoad(t: Tx, source: seq<Line>, columns: seq<Column>, conf: Settings, fits: Table): Tx {
    match Loaded(TxBegin(t).working, source, columns, conf, fits)
    case None => TxRollback(TxBegin(t))
    case Some(after) => TxBegin(t).(working := after)
  }

  /** All or nothing: nothing is durable before a commit, and the open transaction sees every row of the source
      behind what it saw before; or, unless every line can be prepared and every row fits, the transaction is
      gone with all that was in it. */
  lemma LoadIsAllOrNothing(t: Tx, source: seq<Line>, columns: seq<Column>, conf: Settings, fits: Table)
    ensures var rows := PreparedRows(source, columns, conf); var content := if t.open then t.working else t.committed;
      TxLoad(t, source, columns, conf, fits) ==
      if rows.Ok? && AllFit(content, rows.value, fits) then Tx(t.committed, content + rows.value, true)
      else Tx(t.committed, t.committed, false)
  {
    var rows := PreparedRows(source, columns, conf);
    if rows.Ok? {
      StoredIff(TxBegin(t).working, rows.value, fits);
    }
  }

  /** Lines still to come cannot repair a row that was refused. */
  lemma RefusedForGood(content: Content, source: seq<Line>, k: nat, columns: seq<Column>, conf: Settings, fits: Table)
    requires k <= |source|
    requires Loaded(content, source[..k], columns, conf, fits).None?
    ensures Loaded(content, source, columns, conf, fits).None?
  {
    hide PreparedRows, Stored;
    FirstLines(source, k, columns, conf);
    if PreparedRows(source, columns, conf).Ok? {
      var rows, first := PreparedRows(source, columns, conf).value, PreparedRows(source[..k], columns, conf).value;
      assert rows[..|first|] == first;
      NotStored(content, rows, |first|, fits);
    }
  }

  /** One batch of the load: up to `buffer` lines are prepared, then what they gave is inserted. */
  method LoadBatch(curs: SharedCursor, source: seq<Line>, from: nat, buffer: nat, columns: seq<Column>, conf: Settings,
                   fits: Table, ghost before: Driver)
    returns (ok: bool, next: nat, eof: bool)
    requires curs.db.CursorsOk() && curs in curs.db.cursors && before.open && 0 < buffer && from <= |source|
    requires PreparedRows(source[..from], columns, conf).Ok?
    requires Inserted(before, curs.conn.s, PreparedRows(source[..from], columns, conf).value, fits)
    modifies curs.db`holder, curs.conn, curs.db.cursors
    ensures curs.db.CursorsOk() && from <= next <= |source| && (ok ==> if eof then next == |source| else from < next)
    ensures curs.conn.s.open && curs.conn.s.committed == before.committed
    ensures !ok ==> Loaded(before.working, source, columns, conf, fits).None?
    ensures ok ==> PreparedRows(source[..next], columns, conf).Ok?
                   && Inserted(before, curs.conn.s, PreparedRows(source[..next], columns, conf).value, fits)
    ensures forall c <- curs.db.cursors :: c != curs ==> c.Remaining() == old(c.Remaining())
  {
    hide Prepared, PreparedRows;
    ghost var done := PreparedRows(source[..from], columns, conf).value;
    var b: seq<Row> := [];
    next, eof := from, false;
    assert done + b == done;
    var j := 0;
    while j < buffer
      modifies {}
      invariant 0 <= j <= buffer && from <= next <= |source| && if eof then next == |source| else next == from + j
      invariant PreparedRows(source[..next], columns, conf) == Ok(done + b)
    {
      if next == |source| {
        eof := true;
      } else {
        var p := PrepareLine(source[next], columns, conf);
        OneLineMore(source, next, columns, conf);
        if p.Err? {
          RefusedForGood(before.working, source, next + 1, columns, conf, fits);
          return false, next, eof;
        }
        if p.value.Some? {
          assert done + b + [p.value.value] == done + (b + [p.value.value]);
          b := b + [p.value.value];
        }
        next := next + 1;
      }
      j := j + 1;
    }
    StoredInParts(before.working, done, b, fits);
    if b == [] {
      assert done + b == done;
      return true, next, eof;
    }
    var inserted, _ := InsertRows(curs, |Positions(columns)|, b, fits);
    if !inserted {
      RefusedForGood(before.working, source, next, columns, conf, fits);
    }
    ok := inserted;
  }

  /** `populate_table`: the load for any batch size from 1. */
  method PopulateTable(db: DuckDBDatabase, source: seq<Line>, buffer: nat, columns: seq<Column>, conf: Settings,
                       fits: Table)
    returns (ok: bool)
    requires db.Valid() && 0 < buffer
    modifies db`holder, db`inTransaction, db`cursors, db.conn, db.cursors
    ensures db.Valid() && db.TxOf() == TxLoad(old(db.TxOf()), source, columns, conf, fits)
    ensures var rows := PreparedRows(source, columns, conf);
      && ok == (rows.Ok? && AllFit(old(db.conn.s.working), rows.value, fits))
      && db.conn.s.committed == old(db.conn.s.committed)
      && (ok ==> db.conn.s.open && db.conn.s.working == old(db.conn.s.working) + rows.value)
      && (!ok ==> !db.conn.s.open && db.conn.s.working == old(db.conn.s.committed))
    ensures old(db.cursors) <= db.cursors && fresh(db.cursors - old(db.cursors))
    ensures forall c <- old(db.cursors) :: c.Remaining() == old(c.Remaining())
  {
    hide Loaded, PreparedRows, Stored, TxLoad, AllFit;
    db.BeforeStatement(InsertStatement([], fits));
    db.BeginTransaction();
    ghost var before := db.conn.s;
    var curs := db.Cursor();
    var next, eof := 0, false;
    ok := true;
    LoadStarts(source, columns, conf, before, fits);
    while ok && !eof
      invariant 0 <= next <= |source| && db.CursorsOk() && db.cursors == old(db.cursors) + {curs}
      invariant db.conn.s.open && db.conn.s.committed == before.committed
      invariant db.inTransaction == before.open
      invariant ok ==> PreparedRows(source[..next], columns, conf).Ok?
      invariant ok ==> Inserted(before, db.conn.s, PreparedRows(source[..next], columns, conf).value, fits)
      invariant !ok ==> Loaded(before.working, source, columns, conf, fits).None?
      invariant forall c <- old(db.cursors) :: c.Remaining() == old(c.Remaining())
      invariant ok && eof ==> next == |source|
      decreases ok && !eof, |source| - next
    {
      ok, next, eof := LoadBatch(curs, source, next, buffer, columns, conf, fits, before);
    }
    curs.Close();
    ghost var after := db.conn.s;
    if !ok {
      db.RollbackTx();
    } else {
      assert source[..next] == source;
    }
    LoadEnds(old(db.TxOf()), before, after, source, columns, conf, fits);
    LoadIsAllOrNothing(old(db.TxOf()), source, columns, conf, fits);
  }

  lemma LoadEnds(t: Tx, before: Driver, after: Driver, source: seq<Line>, columns: seq<Column>, conf: Settings,
                 fits: Table)
    requires before.open && View(before) == TxBegin(t)
    ensures PreparedRows(source, columns, conf).Ok? && after.open
            && Inserted(before, after, PreparedRows(source, columns, conf).value, fits) ==>
              Loaded(before.working, source, columns, conf, fits).Some?
              && View(after) == TxLoad(t, source, columns, conf, fits)
    ensures Loaded(before.working, source, columns, conf, fits).None? ==>
              TxLoad(t, source, columns, conf, fits) == Tx(before.committed, before.committed, false)
  {
  }

  lemma LoadStarts(source: seq<Line>, columns: seq<Column>, conf: Settings, before: Driver, fits: Table)
    requires Settled(before) && before.open
    ensures PreparedRows(source[..0], columns, conf) == Ok([]) && Inserted(before, before, [], fits)
  {
  }
}
