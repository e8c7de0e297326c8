/** Whole runs of the DuckDB adapter: any interleaving of cursors, transactions, statements and loads.

    `Step` is the reference: every cursor has rows of its own still to deliver, which nothing done to another
    cursor touches.  `RunAll` drives the adapter's classes and is proved to deliver the same rows. */
module DuckDbRuns {
  import opened DuckDb
  import opened DuckDbLines
  import opened DuckDbLoad
  import opened Options

  datatype Op =
    | Open
    | Run(c: nat, effect: Content -> Effect)
    | RunMany(c: nat, effects: seq<Content -> Effect>)
    | FetchOne(c: nat)
    | FetchMany(c: nat, size: Option<nat>)
    | FetchAll(c: nat)
    | Close(c: nat)
    | BeginTransaction
    | CommitNow(fate: Fate)
    | RollbackNow
    | Statement(stmt: DuckDb.Statement)
    | Load(source: seq<Line>, buffer: nat, columns: seq<Column>, conf: Settings, fits: Table)
    | SetAutocommit(on: bool)
    | SetBatch(on: bool)

  /** The database, the two settings that hold statements, and what each cursor still has to deliver. */
  datatype System = System(tx: Tx, autocommit: bool, inBatch: bool, todo: seq<seq<Row>>) {
    predicate Holding() { !autocommit || inBatch }
  }

  /** The cursor is there, and a load has batches of at least one line. */
  predicate Allowed(s: System, op: Op) {
    match op
    case Run(c, _) => c < |s.todo|
    case RunMany(c, _) => c < |s.todo|
    case FetchOne(c) => c < |s.todo|
    case FetchMany(c, _) => c < |s.todo|
    case FetchAll(c) => c < |s.todo|
    case Close(c) => c < |s.todo|
    case Load(_, buffer, _, _, _) => 0 < buffer
    case _ => true
  }

  /** Deliver the first `n` rows of cursor `c`. */
  function Deliver(s: System, c: nat, n: nat): (System, seq<Row>)
    requires c < |s.todo| && n <= |s.todo[c]|
  {
    (s.(todo := s.todo[c := s.todo[c][n..]]), s.todo[c][..n])
  }

  /** One step, and the rows it delivers. */
  function Step(s: System, op: Op): (System, seq<Row>)
    requires Allowed(s, op)
  {
    match op
    case Open => (s.(todo := s.todo + [[]]), [])
    case Run(c, effect) =>
      (s.(tx := TxExecute(s.tx, false, Plain(effect)), todo := s.todo[c := Answer(effect(s.tx.working))]), [])
    case RunMany(c, effects) =>
      var t := TxEach(s.tx, effects);
      var ok := effects != [] && Worked(s.tx.working, effects).0 == |effects|;
      (s.(tx := if ok then t else TxRollback(t), todo := s.todo[c := []]), [])
    case FetchOne(c) => Deliver(s, c, FetchSize(Some(1), s.todo[c]))
    case FetchMany(c, size) => Deliver(s, c, FetchSize(size, s.todo[c]))
    case FetchAll(c) => Deliver(s, c, |s.todo[c]|)
    case Close(c) => (s.(todo := s.todo[c := []]), [])
    case BeginTransaction => (s.(tx := TxBegin(s.tx)), [])
    case CommitNow(fate) => (s.(tx := TxCommit(s.tx, s.autocommit, fate)), [])
    case RollbackNow => (s.(tx := TxRollback(s.tx)), [])
    case Statement(stmt) => (s.(tx := TxExecute(s.tx, s.Holding(), stmt)), [])
    case Load(source, _, columns, conf, fits) => (s.(tx := TxLoad(s.tx, source, columns, conf, fits)), [])
    case SetAutocommit(on) => (s.(autocommit := on), [])
    case SetBatch(on) => (s.(inBatch := on), [])
  }

  predicate AllAllowed(s: System, ops: seq<Op>)
    decreases |ops|
  {
    ops == [] || (Allowed(s, ops[0]) && AllAllowed(Step(s, ops[0]).0, ops[1..]))
  }

  /** The system after the steps. */
  function After(s: System, ops: seq<Op>): System
    requires AllAllowed(s, ops)
    decreases |ops|
  {
    if ops == [] then s else After(Step(s, ops[0]).0, ops[1..])
  }

  /** What each step delivers. */
  function Trace(s: System, ops: seq<Op>): (t: seq<seq<Row>>)
    requires AllAllowed(s, ops)
    ensures |t| == |ops|
    decreases |ops|
  {
    if ops == [] then [] else [Step(s, ops[0]).1] + Trace(Step(s, ops[0]).0, ops[1..])
  }

  // ---------------------------------------------------------------------------------------------
  // The adapter takes the same steps
  // ---------------------------------------------------------------------------------------------

  ghost predicate Agree(db: DuckDBDatabase, cs: seq<SharedCursor>, s: System)
    reads db, db.conn, db.cursors
  {
    && db.Valid() && db.TxOf() == s.tx && db.autocommit == s.autocommit && db.inBatch == s.inBatch
    && Own(db, cs, s.todo)
  }

  /** Each of the cursors has its own rows to deliver. */
  ghost predicate Own(db: DuckDBDatabase, cs: seq<SharedCursor>, todo: seq<seq<Row>>)
    reads db, db.cursors, set c <- db.cursors :: c.conn
  {
    && |cs| == |todo|
    && (forall i :: 0 <= i < |cs| ==> cs[i] in db.cursors && cs[i].Remaining() == todo[i])
    && (forall i, j :: 0 <= i < j < |cs| ==> cs[i] != cs[j])
  }

  method RunOnCursor(db: DuckDBDatabase, cs: seq<SharedCursor>, op: Op, ghost s: System)
    requires Agree(db, cs, s) && Allowed(s, op) && (op.Run? || op.RunMany?)
    modifies db`holder, db`inTransaction, db.conn, db.cursors
    ensures Agree(db, cs, Step(s, op).0) && Step(s, op).1 == []
  {
    match op {
      case Run(c, effect) => RunOne(db, cs, c, effect, s);
      case RunMany(c, effects) => RunEach(db, cs, c, effects, s);
    }
  }

  method RunOne(db: DuckDBDatabase, cs: seq<SharedCursor>, c: nat, effect: Content -> Effect, ghost s: System)
    requires Agree(db, cs, s) && c < |cs|
    modifies db`holder, db`inTransaction, db.conn, db.cursors
    ensures Agree(db, cs, Step(s, Run(c, effect)).0)
  {
    hide Exec;
    ExecTracks(s.tx, false, db.conn.s, Plain(effect));
    var ok := cs[c].Execute(Plain(effect));
    if !ok {
      GiveUp(db, cs[c]);
    }
  }

  method RunEach(db: DuckDBDatabase, cs: seq<SharedCursor>, c: nat, effects: seq<Content -> Effect>, ghost s: System)
    requires Agree(db, cs, s) && c < |cs|
    modifies db`holder, db`inTransaction, db.conn, db.cursors
    ensures Agree(db, cs, Step(s, RunMany(c, effects)).0)
  {
    hide ExecEach, Worked;
    EachStopsAtFailure(db.conn.s, effects);
    var ok := cs[c].ExecuteMany(effects);
    if !ok {
      GiveUp(db, cs[c]);
    }
  }

  /** What the queries of the database class do after an error: close the cursor and roll back. */
  method GiveUp(db: DuckDBDatabase, curs: SharedCursor)
    requires db.CursorsOk() && curs in db.cursors
    requires !db.conn.s.open ==> Settled(db.conn.s)
    modifies db`holder, db`inTransaction, db.conn, db.cursors
    ensures db.Valid() && curs.Remaining() == [] && db.TxOf() == TxRollback(old(db.TxOf()))
    ensures forall c <- db.cursors :: c != curs ==> c.Remaining() == old(c.Remaining())
  {
    curs.Close();
    db.RollbackTx();
  }

  method FetchFromCursor(db: DuckDBDatabase, cs: seq<SharedCursor>, op: Op, ghost s: System) returns (rows: seq<Row>)
    requires Agree(db, cs, s) && Allowed(s, op) && (op.FetchOne? || op.FetchMany? || op.FetchAll? || op.Close?)
    modifies db`holder, db.conn, db.cursors
    ensures Agree(db, cs, Step(s, op).0) && rows == Step(s, op).1
  {
    match op {
      case FetchOne(c) => rows := FetchFirst(db, cs, c, s);
      case FetchMany(c, size) => rows := FetchSome(db, cs, c, size, s);
      case FetchAll(c) => rows := FetchRest(db, cs, c, s);
      case Close(c) => rows := []; CloseCursor(db, cs, c, s);
    }
  }

  method FetchFirst(db: DuckDBDatabase, cs: seq<SharedCursor>, c: nat, ghost s: System) returns (rows: seq<Row>)
    requires Agree(db, cs, s) && c < |cs|
    modifies db.conn, db.cursors
    ensures Agree(db, cs, Step(s, FetchOne(c)).0) && rows == Step(s, FetchOne(c)).1
  {
    var row := cs[c].FetchOne();
    rows := if row.Some? then [row.value] else [];
  }

  method FetchSome(db: DuckDBDatabase, cs: seq<SharedCursor>, c: nat, size: Option<nat>, ghost s: System)
    returns (rows: seq<Row>)
    requires Agree(db, cs, s) && c < |cs|
    modifies db.conn, db.cursors
    ensures Agree(db, cs, Step(s, FetchMany(c, size)).0) && rows == Step(s, FetchMany(c, size)).1
  {
    rows := cs[c].FetchMany(size);
  }

  method FetchRest(db: DuckDBDatabase, cs: seq<SharedCursor>, c: nat, ghost s: System) returns (rows: seq<Row>)
    requires Agree(db, cs, s) && c < |cs|
    modifies db.conn, db.cursors
    ensures Agree(db, cs, Step(s, FetchAll(c)).0) && rows == Step(s, FetchAll(c)).1
  {
    rows := cs[c].FetchAll();
  }

  method CloseCursor(db: DuckDBDatabase, cs: seq<SharedCursor>, c: nat, ghost s: System)
    requires Agree(db, cs, s) && c < |cs|
    modifies db`holder, db.cursors
    ensures Agree(db, cs, Step(s, Close(c)).0)
  {
    cs[c].Close();
  }

  method OnDatabase(db: DuckDBDatabase, cs: seq<SharedCursor>, op: Op, ghost s: System)
    requires Agree(db, cs, s) && Allowed(s, op)
    requires op.BeginTransaction? || op.CommitNow? || op.RollbackNow? || op.Statement? || op.Load? || op.SetAutocommit?
             || op.SetBatch?
    modifies db, db.conn, db.cursors
    ensures Agree(db, cs, Step(s, op).0) && Step(s, op).1 == []
    ensures fresh(db.cursors - old(db.cursors)) && db.cursors >= old(db.cursors)
  {
    hide TxExecute, TxLoad;
    match op {
      case Load(source, buffer, columns, conf, fits) =>
        var _ := PopulateTable(db, source, buffer, columns, conf, fits);
      case SetAutocommit(on) => if on { db.AutocommitOn(); } else { db.AutocommitOff(); }
      case SetBatch(on) => db.inBatch := on;
      case BeginTransaction | CommitNow(_) | RollbackNow | Statement(_) => OnTransaction(db, cs, op, s);
    }
  }

  method OnTransaction(db: DuckDBDatabase, cs: seq<SharedCursor>, op: Op, ghost s: System)
    requires Agree(db, cs, s) && Allowed(s, op)
    requires op.BeginTransaction? || op.CommitNow? || op.RollbackNow? || op.Statement?
    modifies db, db.conn, db.cursors
    ensures Agree(db, cs, Step(s, op).0) && Step(s, op).1 == []
    ensures fresh(db.cursors - old(db.cursors)) && db.cursors >= old(db.cursors)
  {
    hide TxExecute, TxLoad;
    match op {
      case BeginTransaction => db.BeginTransaction();
      case CommitNow(fate) => var _ := db.CommitTx(fate);
      case RollbackNow => db.RollbackTx();
      case Statement(stmt) => var _, _ := db.Execute(stmt, false);
    }
  }

  /** Every run: the adapter delivers to each cursor what `Trace` says, and leaves the database as `After`
      says; between steps the flag is the driver's (`Valid`). */
  method RunAll(content: Content, ops: seq<Op>) returns (db: DuckDBDatabase, trace: seq<seq<Row>>)
    requires AllAllowed(Start(content), ops)
    ensures fresh(db) && db.Valid() && db.TxOf() == After(Start(content), ops).tx
    ensures trace == Trace(Start(content), ops)
  {
    hide Step, Allowed;
    db := new DuckDBDatabase(content);
    trace := [];
    var cs: seq<SharedCursor> := [];
    var k := 0;
    ghost var s := Start(content);
    while k < |ops|
      invariant 0 <= k <= |ops| && AllAllowed(s, ops[k..])
      invariant fresh(db) && fresh(db.conn) && fresh(db.cursors) && Agree(db, cs, s)
      invariant After(Start(content), ops) == After(s, ops[k..])
      invariant Trace(Start(content), ops) == trace + Trace(s, ops[k..])
    {
      var op := ops[k];
      assert ops[k..][0] == op && ops[k..][1..] == ops[k + 1..];
      var rows: seq<Row> := [];
      match op {
        case Open =>
          cs := OpenCursor(db, cs, s);
        case Run(_, _) | RunMany(_, _) =>
          RunOnCursor(db, cs, op, s);
        case FetchOne(_) | FetchMany(_, _) | FetchAll(_) | Close(_) =>
          rows := FetchFromCursor(db, cs, op, s);
        case _ =>
          OnDatabase(db, cs, op, s);
      }
      TraceStep(s, ops[k..], trace);
      trace := trace + [rows];
      s := Step(s, op).0;
      k := k + 1;
    }
  }

  method OpenCursor(db: DuckDBDatabase, cs: seq<SharedCursor>, ghost s: System) returns (more: seq<SharedCursor>)
    requires Agree(db, cs, s)
    modifies db`cursors
    ensures Agree(db, more, Step(s, Open).0) && Step(s, Open).1 == []
    ensures fresh(db.cursors - old(db.cursors)) && db.cursors >= old(db.cursors)
  {
    var c := db.Cursor();
    more := cs + [c];
  }

  function Start(content: Content): System { System(Tx(content, content, false), true, false, []) }

  lemma TraceStep(s: System, ops: seq<Op>, before: seq<seq<Row>>)
    requires ops != [] && AllAllowed(s, ops)
    ensures After(s, ops) == After(Step(s, ops[0]).0, ops[1..])
    ensures before + Trace(s, ops) == before + [Step(s, ops[0]).1] + Trace(Step(s, ops[0]).0, ops[1..])
  {
  }

  // ---------------------------------------------------------------------------------------------
  // What a cursor gets
  // ---------------------------------------------------------------------------------------------

  predicate IsOn(op: Op, c: nat) {
    match op
    case Run(d, _) => d == c
    case RunMany(d, _) => d == c
    case FetchOne(d) => d == c
    case FetchMany(d, _) => d == c
    case FetchAll(d) => d == c
    case Close(d) => d == c
    case _ => false
  }

  /** All rows the run delivers to cursor `c`, in order. */
  function DeliveredTo(s: System, ops: seq<Op>, c: nat): seq<Row>
    requires AllAllowed(s, ops)
    decreases |ops|
  {
    if ops == [] then []
    else (if IsOn(ops[0], c) then Step(s, ops[0]).1 else []) + DeliveredTo(Step(s, ops[0]).0, ops[1..], c)
  }

  /** A new query, or the end of one. */
  predicate Restarts(op: Op, c: nat) {
    IsOn(op, c) && (op.Run? || op.RunMany? || op.Close?)
  }

  lemma StepDelivers(s: System, op: Op, c: nat)
    requires Allowed(s, op) && c < |s.todo| && !Restarts(op, c)
    ensures var (after, rows) := Step(s, op);
      c < |after.todo| && (if IsOn(op, c) then rows else []) + after.todo[c] == s.todo[c]
  {
  }

  lemma Regroup(a: seq<Row>, b: seq<Row>, c: seq<Row>)
    ensures a + b + c == a + (b + c)
  {
  }

  /** A cursor delivers its own query's rows, in order, none lost or repeated, whatever is done to the other
      cursors and to the transaction meanwhile: what it has delivered since its query and what it still has
      are the query's rows. */
  lemma {:induction false} DeliversItsOwnRows(s: System, ops: seq<Op>, c: nat)
    requires AllAllowed(s, ops) && c < |s.todo|
    requires forall op <- ops :: !Restarts(op, c)
    ensures c < |After(s, ops).todo| && DeliveredTo(s, ops, c) + After(s, ops).todo[c] == s.todo[c]
    decreases |ops|
  {
    hide Step, Allowed, Restarts, IsOn;
    if ops == [] {
      assert DeliveredTo(s, ops, c) + s.todo[c] == s.todo[c];
    } else {
      var after := Step(s, ops[0]).0;
      StepDelivers(s, ops[0], c);
      DeliversItsOwnRows(after, ops[1..], c);
      Regroup(if IsOn(ops[0], c) then Step(s, ops[0]).1 else [], DeliveredTo(after, ops[1..], c),
              After(s, ops).todo[c]);
    }
  }

  lemma {:induction false} AfterThen(s: System, ops: seq<Op>, more: seq<Op>)
    requires AllAllowed(s, ops) && AllAllowed(After(s, ops), more)
    ensures AllAllowed(s, ops + more) && After(s, ops + more) == After(After(s, ops), more)
    decreases |ops|
  {
    hide Step, Allowed;
    if ops == [] {
      assert ops + more == more;
    } else {
      assert (ops + more)[1..] == ops[1..] + more;
      AfterThen(Step(s, ops[0]).0, ops[1..], more);
    }
  }

  lemma EndOfRun(s: System, ops: seq<Op>, op: Op)
    requires AllAllowed(s, ops) && Allowed(After(s, ops), op)
    ensures AllAllowed(s, ops + [op]) && After(s, ops + [op]) == Step(After(s, ops), op).0
  {
    hide Step, Allowed;
    assert [op][1..] == [];
    AfterThen(s, ops, [op]);
  }

  /** What each fetch takes from the rows still to come. */
  lemma FetchesTakeTheNext(s: System, c: nat, size: nat)
    requires c < |s.todo|
    ensures var rows := s.todo[c];
      && Step(s, FetchOne(c)).1 == (if rows == [] then [] else [rows[0]])
      && Step(s, FetchMany(c, Some(size))).1 == (if 0 < size <= |rows| then rows[..size]
                                                 else if size == 0 && 1000 <= |rows| then rows[..1000] else rows)
      && Step(s, FetchMany(c, None)).1 == (if 1000 <= |rows| then rows[..1000] else rows)
      && Step(s, FetchAll(c)).1 == rows
      && Step(s, Close(c)).0.todo[c] == []
  {
  }

  /** Whatever is done between a query and the end of the fetching, what is fetched in between is a first part
      of the query's answer on the content it ran on, and all of it once the rest is fetched. */
  lemma QueryIsDelivered(s: System, c: nat, effect: Content -> Effect, ops: seq<Op>, rows: seq<Row>)
    requires c < |s.todo| && AllAllowed(s, [Run(c, effect)] + ops) && forall op <- ops :: !Restarts(op, c)
    requires rows == match effect(s.tx.working) case Works(_, Some(answer)) => answer case _ => []
    ensures var run := [Run(c, effect)] + ops;
      && DeliveredTo(s, run, c) <= rows
      && AllAllowed(s, run + [FetchAll(c)]) && DeliveredTo(s, run + [FetchAll(c)], c) == rows
  {
    hide Step, Allowed, IsOn, Restarts, DeliveredTo, After;
    var run, all := [Run(c, effect)] + ops, ops + [FetchAll(c)];
    var begun := Step(s, Run(c, effect)).0;
    QueryStarts(s, c, effect);
    assert run[1..] == ops;
    DeliversItsOwnRows(begun, ops, c);
    RestFetched(After(begun, ops), c);
    EndOfRun(begun, ops, FetchAll(c));
    DeliversItsOwnRows(begun, all, c);
    assert run + [FetchAll(c)] == [Run(c, effect)] + all;
    NothingFirst(s, Run(c, effect), ops, c);
    NothingFirst(s, Run(c, effect), all, c);
  }

  lemma QueryStarts(s: System, c: nat, effect: Content -> Effect)
    requires c < |s.todo|
    ensures Allowed(s, Run(c, effect))
    ensures var (after, rows) := Step(s, Run(c, effect));
      && rows == [] && c < |after.todo|
      && after.todo[c] == match effect(s.tx.working) case Works(_, Some(answer)) => answer case _ => []
  {
  }

  lemma RestFetched(s: System, c: nat)
    requires c < |s.todo|
    ensures Allowed(s, FetchAll(c)) && !Restarts(FetchAll(c), c)
    ensures c < |Step(s, FetchAll(c)).0.todo| && Step(s, FetchAll(c)).0.todo[c] == []
  {
  }

  lemma NothingFirst(s: System, op: Op, ops: seq<Op>, c: nat)
    requires Allowed(s, op) && Step(s, op).1 == [] && AllAllowed(Step(s, op).0, ops)
    ensures AllAllowed(s, [op] + ops) && DeliveredTo(s, [op] + ops, c) == DeliveredTo(Step(s, op).0, ops, c)
  {
    hide Step, Allowed, IsOn;
    assert ([op] + ops)[1..] == ops;
  }

  /** What another cursor does without changing the database: queries, statements that change nothing, fetches,
      closing. */
  predicate Elsewhere(s: System, op: Op, c: nat)
    requires Allowed(s, op)
  {
    OnCursor(op) && !IsOn(op, c) && Step(s, op).0.tx == s.tx
  }

  predicate OnCursor(op: Op) {
    op.Run? || op.RunMany? || op.FetchOne? || op.FetchMany? || op.FetchAll? || op.Close?
  }

  /** The run with those steps taken out. */
  function Without(s: System, ops: seq<Op>, c: nat): seq<Op>
    requires AllAllowed(s, ops)
    decreases |ops|
  {
    if ops == [] then []
    else (if Elsewhere(s, ops[0], c) then [] else [ops[0]]) + Without(Step(s, ops[0]).0, ops[1..], c)
  }

  /** Cursor `c` cannot tell the two systems apart. */
  predicate Alike(s: System, t: System, c: nat) {
    && s.tx == t.tx && s.autocommit == t.autocommit && s.inBatch == t.inBatch
    && |s.todo| == |t.todo| && c < |s.todo| && s.todo[c] == t.todo[c]
    && SettledTx(s.tx)
  }

  lemma StepElsewhere(s: System, op: Op, t: System, c: nat)
    requires Alike(s, t, c) && Allowed(s, op) && Elsewhere(s, op, c)
    ensures Alike(Step(s, op).0, t, c) && !IsOn(op, c)
  {
  }

  lemma StepAlike(s: System, op: Op, t: System, c: nat)
    requires Alike(s, t, c) && Allowed(s, op)
    ensures Allowed(t, op) && Alike(Step(s, op).0, Step(t, op).0, c)
    ensures IsOn(op, c) ==> Step(s, op).1 == Step(t, op).1
  {
    hide TxExecute, TxEach, Worked, TxLoad, TxCommit, TxBegin, TxRollback, SettledTx, FetchSize, Answer;
    StepIsHeld(s, op);
  }

  /** A cursor on the shared connection cannot be told from one with a connection of its own: taking every
      other cursor's queries, fetches and closes out of a run changes nothing that it delivers. */
  lemma {:induction false} AsIfOnItsOwnConnection(s: System, ops: seq<Op>, t: System, c: nat)
    requires AllAllowed(s, ops) && Alike(s, t, c)
    ensures AllAllowed(t, Without(s, ops, c))
    ensures DeliveredTo(s, ops, c) == DeliveredTo(t, Without(s, ops, c), c)
    ensures Alike(After(s, ops), After(t, Without(s, ops, c)), c)
    decreases |ops|
  {
    if ops != [] {
      hide Step, Allowed, IsOn, Elsewhere, Alike;
      var after := Step(s, ops[0]).0;
      if Elsewhere(s, ops[0], c) {
        StepElsewhere(s, ops[0], t, c);
        AsIfOnItsOwnConnection(after, ops[1..], t, c);
        assert Without(s, ops, c) == Without(after, ops[1..], c);
      } else {
        StepAlike(s, ops[0], t, c);
        AsIfOnItsOwnConnection(after, ops[1..], Step(t, ops[0]).0, c);
        assert Without(s, ops, c)[1..] == Without(after, ops[1..], c);
      }
    }
  }

  // ---------------------------------------------------------------------------------------------
  // What is durable
  // ---------------------------------------------------------------------------------------------

  /** A step that cannot commit: statements are held (or a transaction is open for what a cursor writes), and
      none is a COMMIT. */
  predicate IsHeld(s: System, op: Op) {
    match op
    case Run(_, effect) => s.tx.open || Unchanged(effect, s.tx.working)
    case RunMany(_, effects) => s.tx.open || Worked(s.tx.working, effects).1 == s.tx.working
    case CommitNow(_) => !s.autocommit
    case Statement(stmt) => !stmt.Commit? && (s.Holding() || !stmt.Plain? || s.tx.open)
    case _ => true
  }

  predicate Unchanged(effect: Content -> Effect, content: Content) {
    effect(content).Works? ==> effect(content).after == content
  }

  ghost predicate AllHeld(s: System, ops: seq<Op>)
    requires AllAllowed(s, ops)
    decreases |ops|
  {
    ops == [] || (IsHeld(s, ops[0]) && AllHeld(Step(s, ops[0]).0, ops[1..]))
  }

  predicate SettledTx(t: Tx) { !t.open ==> t.working == t.committed }

  lemma StepIsHeld(s: System, op: Op)
    requires Allowed(s, op) && SettledTx(s.tx)
    ensures SettledTx(Step(s, op).0.tx)
    ensures IsHeld(s, op) ==> Step(s, op).0.tx.committed == s.tx.committed
  {
    if op.Load? {
      LoadIsAllOrNothing(s.tx, op.source, op.columns, op.conf, op.fits);
    }
  }

  /** Statements that are held change nothing durable, failing ones and whole loads included, until a
      commit; a rollback then leaves the database as it was. */
  lemma {:induction false} HeldStatementsAreNotDurable(s: System, ops: seq<Op>)
    requires AllAllowed(s, ops) && AllHeld(s, ops) && SettledTx(s.tx)
    ensures After(s, ops).tx.committed == s.tx.committed && SettledTx(After(s, ops).tx)
    ensures TxRollback(After(s, ops).tx) == Tx(s.tx.committed, s.tx.committed, false)
    decreases |ops|
  {
    if ops != [] {
      hide Step, Allowed, IsHeld;
      StepIsHeld(s, ops[0]);
      HeldStatementsAreNotDurable(Step(s, ops[0]).0, ops[1..]);
    }
  }

  // ---------------------------------------------------------------------------------------------
  // What a commit stores
  // ---------------------------------------------------------------------------------------------

  /** A run whose steps are held, and then a commit: what the open transaction saw is durable.  A rollback
      instead, or a commit that fails, leaves the database as it was before the run; under AUTOCOMMIT OFF the
      commit does nothing. */
  lemma CommitStoresTheRun(s: System, ops: seq<Op>, fate: Fate)
    requires AllAllowed(s, ops) && AllHeld(s, ops) && SettledTx(s.tx)
    ensures AllAllowed(s, ops + [CommitNow(fate)]) && AllAllowed(s, ops + [RollbackNow])
    ensures var before := After(s, ops); var after := After(s, ops + [CommitNow(fate)]);
      if !before.autocommit then after == before
      else if fate.Stores? || !before.tx.open then after.tx == Tx(before.tx.working, before.tx.working, false)
      else after.tx == Tx(s.tx.committed, s.tx.committed, false)
    ensures After(s, ops + [RollbackNow]).tx == Tx(s.tx.committed, s.tx.committed, false)
  {
    HeldStatementsAreNotDurable(s, ops);
    EndOfRun(s, ops, CommitNow(fate));
    EndOfRun(s, ops, RollbackNow);
  }

  /** The contents that statements go through, each working on what the one before it made. */
  predicate GoThrough(effects: seq<Content -> Effect>, states: seq<Content>) {
    && |states| == |effects| + 1
    && forall i :: 0 <= i < |effects| ==> Makes(effects[i], states[i], states[i + 1])
  }

  predicate Makes(effect: Content -> Effect, before: Content, after: Content) {
    effect(before).Works? && effect(before).after == after
  }

  function Script(effects: seq<Content -> Effect>): seq<Op> {
    seq(|effects|, i requires 0 <= i < |effects| => Statement(Plain(effects[i])))
  }

  /** The statements of a script take effect one after the other: at once, or, if they are held or a transaction
      is open, in the transaction only. */
  lemma {:induction false} ScriptRuns(s: System, effects: seq<Content -> Effect>, states: seq<Content>)
    requires GoThrough(effects, states) && states[0] == s.tx.working && SettledTx(s.tx)
    ensures AllAllowed(s, Script(effects))
    ensures var last := states[|effects|]; var after := After(s, Script(effects));
      && after.autocommit == s.autocommit && after.inBatch == s.inBatch
      && after.tx == if s.tx.open || (s.Holding() && effects != []) then Tx(s.tx.committed, last, true)
                     else Tx(last, last, false)
    decreases |effects|
  {
    if effects != [] {
      var op := Statement(Plain(effects[0]));
      ExecutesAs(s.tx, s.Holding(), Plain(effects[0]));
      assert Script(effects)[0] == op && Script(effects)[1..] == Script(effects[1..]);
      assert Makes(effects[0], states[0], states[1]);
      ScriptRuns(Step(s, op).0, effects[1..], states[1..]);
    }
  }

  lemma {:induction false} WorkedThrough(effects: seq<Content -> Effect>, states: seq<Content>)
    requires 0 < |states| <= |effects| + 1
    requires forall i :: 0 <= i < |states| - 1 ==> Makes(effects[i], states[i], states[i + 1])
    requires |states| <= |effects| ==> effects[|states| - 1](states[|states| - 1]).Fails?
    ensures Worked(states[0], effects) == (|states| - 1, states[|states| - 1])
    decreases |states|
  {
    if |states| > 1 {
      assert Makes(effects[0], states[0], states[1]);
      WorkedThrough(effects[1..], states[1..]);
    }
  }

  /** A statement run for a list of rows of parameters, up to the last or to the first that fails.  Outside a
      transaction what was done before a failure stays done; inside one, all of the transaction is undone. */
  lemma ListOfParameters(s: System, c: nat, effects: seq<Content -> Effect>, states: seq<Content>)
    requires c < |s.todo| && SettledTx(s.tx) && 0 < |states| <= |effects| + 1 && states[0] == s.tx.working
    requires forall i :: 0 <= i < |states| - 1 ==> Makes(effects[i], states[i], states[i + 1])
    requires |states| <= |effects| ==> effects[|states| - 1](states[|states| - 1]).Fails?
    ensures var after := Step(s, RunMany(c, effects)).0; var last := states[|states| - 1];
      && after.todo == s.todo[c := []]
      && after.tx == if !s.tx.open then Tx(last, last, false)
                     else if effects != [] && |states| == |effects| + 1 then Tx(s.tx.committed, last, true)
                     else Tx(s.tx.committed, s.tx.committed, false)
  {
    WorkedThrough(effects, states);
  }

  /** A script between BEGIN and COMMIT is stored as a whole, and between BEGIN and ROLLBACK not at all. */
  lemma ScriptIsStored(s: System, effects: seq<Content -> Effect>, states: seq<Content>, fate: Fate)
    requires GoThrough(effects, states) && states[0] == s.tx.working && SettledTx(s.tx) && s.autocommit
    ensures var ops := [BeginTransaction] + Script(effects);
      && AllAllowed(s, ops + [CommitNow(fate)]) && AllAllowed(s, ops + [RollbackNow])
      && var stored := if fate.Stores? then states[|effects|] else s.tx.committed;
      && After(s, ops + [CommitNow(fate)]).tx == Tx(stored, stored, false)
      && After(s, ops + [RollbackNow]).tx == Tx(s.tx.committed, s.tx.committed, false)
  {
    var begun := Step(s, BeginTransaction).0;
    var ops := [BeginTransaction] + Script(effects);
    ScriptRuns(begun, effects, states);
    assert ops[1..] == Script(effects);
    EndOfRun(s, ops, CommitNow(fate));
    EndOfRun(s, ops, RollbackNow);
  }

  /** Under AUTOCOMMIT OFF, and in a batch, a script needs no BEGIN. */
  lemma HeldScriptIsStored(s: System, hold: Op, effects: seq<Content -> Effect>, states: seq<Content>, fate: Fate)
    requires GoThrough(effects, states) && states[0] == s.tx.working && SettledTx(s.tx)
    requires hold == SetAutocommit(false) || (hold == SetBatch(true) && s.autocommit)
    ensures var ops := [hold] + Script(effects) + [SetAutocommit(true)];
      AllAllowed(s, ops + [CommitNow(fate)]) && AllAllowed(s, ops) && After(s, ops).tx.committed == s.tx.committed
      && var stored := if fate.Stores? then states[|effects|] else s.tx.committed;
      After(s, ops + [CommitNow(fate)]).tx == Tx(stored, stored, false)
  {
    var held := Step(s, hold).0;
    var ops := [hold] + Script(effects);
    ScriptRuns(held, effects, states);
    assert ops[1..] == Script(effects);
    EndOfRun(s, ops, SetAutocommit(true));
    EndOfRun(s, ops + [SetAutocommit(true)], CommitNow(fate));
  }

  /** A load begun outside a transaction and committed: the table has its old content and every row of the
      source, or, unless every line can be prepared and every row fits, its old content. */
  lemma LoadIsStored(s: System, load: Op)
    requires load.Load? && Allowed(s, load) && s.autocommit && !s.tx.open && SettledTx(s.tx)
    ensures AllAllowed(s, [load, CommitNow(Stores)])
    ensures var rows := PreparedRows(load.source, load.columns, load.conf);
      var after := After(s, [load, CommitNow(Stores)]).tx; var content := s.tx.committed;
      if rows.Ok? && AllFit(content, rows.value, load.fits)
      then after == Tx(content + rows.value, content + rows.value, false)
      else after == Tx(content, content, false)
  {
    hide TxLoad, PreparedRows, AllFit;
    LoadIsAllOrNothing(s.tx, load.source, load.columns, load.conf, load.fits);
    EndOfRun(s, [load], CommitNow(Stores));
  }
}
