/** The DuckDB adapter (`db/duckdb.py` over `db/base.py`): many cursors on one connection, and a flag kept
    by hand that says whether a transaction is open.

    There is room for one result that was not fetched, and running a statement throws it away.  What a cursor
    has not fetched is therefore saved in its buffer before another one runs a statement.  `Remaining` is what
    a cursor still has to deliver; the contracts below say that every operation leaves it alone on every
    other cursor, and `Tx` is what the adapter has made of the database. */
module DuckDb {
  import opened Options

  datatype Cell = Null | Text(text: string) | Other(n: int)

  type Row = seq<Cell>

  /** What the database holds. */
  type Content = seq<Row>

  // ---------------------------------------------------------------------------------------------
  // The driver
  // ---------------------------------------------------------------------------------------------

  /** What a plain statement does to the content it runs on: an error, or new content and, for a query,
      its rows. */
  datatype Effect = Fails | Works(after: Content, answer: Option<seq<Row>>)

  /** How a commit ends: it stores, or fails and leaves the transaction open or closed. */
  datatype Fate = Stores | FailsOpen | FailsClosed

  datatype Statement = Begin | Commit(fate: Fate) | Rollback | Plain(effect: Content -> Effect)

  /** Durable content, content as the open transaction sees it, and the rows of the last query that were not
      fetched yet. */
  datatype Driver = Driver(committed: Content, working: Content, open: bool, aborted: bool, result: seq<Row>)

  datatype Done = Done(after: Driver, ok: bool, described: bool)

  function EndTx(d: Driver, content: Content): Driver {
    d.(committed := content, working := content, open := false, aborted := false)
  }

  /** `conn.commit()`: nothing to do outside a transaction. */
  function DriverCommit(d: Driver, fate: Fate): (Driver, bool) {
    if !d.open then (d, true)
    else if fate.FailsClosed? then (EndTx(d, d.committed), false)
    else if d.aborted || fate.FailsOpen? then (d.(aborted := true), false)
    else (EndTx(d, d.working), true)
  }

  /** One statement.  It discards the pending result; inside a transaction, an error aborts it. */
  function Exec(d0: Driver, stmt: Statement): Done {
    var d := d0.(result := []);
    match stmt
    case Begin =>
      if d.open then Done(d.(aborted := true), false, false)
      else Done(d.(open := true, working := d.committed), true, false)
    case Commit(fate) =>
      if !d.open then Done(d, false, false)
      else var (after, ok) := DriverCommit(d, fate); Done(after, ok, false)
    case Rollback =>
      if !d.open then Done(d, false, false) else Done(EndTx(d, d.committed), true, false)
    case Plain(effect) =>
      if d.aborted then Done(d, false, false)
      else
        match effect(d.working)
        case Fails => Done(d.(aborted := d.open), false, false)
        case Works(after, answer) =>
          Done(d.(working := after, committed := if d.open then d.committed else after,
                  result := if answer.Some? then answer.value else []), true, answer.Some?)
  }

  /** The statement of `executemany`, once for each row of parameters up to the first that fails.  No rows at
      all is an error. */
  function ExecEach(d: Driver, effects: seq<Content -> Effect>): Done
    decreases |effects|
  {
    if effects == [] then Done(d.(result := []), false, false)
    else
      var done := Exec(d, Plain(effects[0]));
      if !done.ok || |effects| == 1 then done else ExecEach(done.after, effects[1..])
  }

  /** How many of the statements work, one after the other, and what they make of the content. */
  function Worked(content: Content, effects: seq<Content -> Effect>): (r: (nat, Content))
    ensures r.0 <= |effects|
    decreases |effects|
  {
    if effects == [] then (0, content)
    else
      match effects[0](content)
      case Fails => (0, content)
      case Works(after, _) => var (n, last) := Worked(after, effects[1..]); (n + 1, last)
  }

  class Connection {
    var s: Driver

    constructor (content: Content)
      ensures s == Driver(content, content, false, false, [])
    {
      s := Driver(content, content, false, false, []);
    }

    method Execute(stmt: Statement) returns (ok: bool, described: bool)
      modifies this
      ensures Exec(old(s), stmt) == Done(s, ok, described)
    {
      var done := Exec(s, stmt);
      s, ok, described := done.after, done.ok, done.described;
    }

    method ExecuteMany(effects: seq<Content -> Effect>) returns (ok: bool, described: bool)
      modifies this
      ensures ExecEach(old(s), effects) == Done(s, ok, described)
    {
      var done := ExecEach(s, effects);
      s, ok, described := done.after, done.ok, done.described;
    }

    method FetchMany(size: nat) returns (rows: seq<Row>)
      modifies this
      ensures |rows| <= size && (rows == [] ==> size == 0 || old(s.result) == [])
      ensures rows + s.result == old(s.result) && (|rows| < size ==> s.result == [])
      ensures s == old(s).(result := s.result)
    {
      var n := if size < |s.result| then size else |s.result|;
      rows := s.result[..n];
      s := s.(result := s.result[n..]);
    }

    method FetchAll() returns (rows: seq<Row>)
      modifies this
      ensures rows == old(s.result) && s == old(s).(result := [])
    {
      rows := s.result;
      s := s.(result := []);
    }

    /** `conn.commit()`. */
    method Commit(fate: Fate) returns (ok: bool)
      modifies this
      ensures DriverCommit(old(s), fate) == (s, ok)
    {
      var (after, done) := DriverCommit(s, fate);
      s, ok := after, done;
    }

    /** `conn.rollback()`: an error outside a transaction, which the adapter passes over. */
    method Rollback() returns (ok: bool)
      modifies this
      ensures ok == old(s.open) && s == if old(s.open) then EndTx(old(s), old(s.committed)) else old(s)
    {
      ok := s.open;
      if s.open {
        s := EndTx(s, s.committed);
      }
    }
  }

  // ---------------------------------------------------------------------------------------------
  // Cursors
  // ---------------------------------------------------------------------------------------------

  const ARRAYSIZE := 1000

  class SharedCursor {
    const db: DuckDBDatabase
    const conn: Connection
    var buffer: Option<seq<Row>>
    var pending: bool
    var described: bool

    constructor (db: DuckDBDatabase)
      ensures this.db == db && conn == db.conn && buffer == None && !pending && !described
    {
      this.db, conn := db, db.conn;
      buffer, pending, described := None, false, false;
    }

    /** The rows that fetches from this cursor will still return. */
    function Remaining(): seq<Row>
      reads this, conn
    {
      if buffer.Some? then buffer.value else if pending then conn.s.result else []
    }

    /** Run a statement here.  After an error the cursor has the rows it had already read ahead, but none that
        were still pending: the driver dropped those. */
    method Execute(stmt: Statement) returns (ok: bool)
      requires db.CursorsOk() && this in db.cursors
      modifies db`holder, conn, db.cursors
      ensures db.CursorsOk() && db.holder == this
      ensures Exec(old(conn.s), stmt).ok == ok && Exec(old(conn.s), stmt).after == conn.s
      ensures forall c <- db.cursors :: c != this ==> c.Remaining() == old(c.Remaining()) && !c.pending
      ensures ok ==> Remaining() == conn.s.result && described == Exec(old(conn.s), stmt).described
      ensures !ok ==> described == old(described) && Remaining() == if old(pending) then [] else old(Remaining())
    {
      db.TakeConnection(this);
      var done: bool;
      ok, done := conn.Execute(stmt);
      if !ok {
        return;
      }
      described := done;
      buffer := None;
      pending := done;
    }

    /** `executemany`: no rows to deliver afterwards. */
    method ExecuteMany(effects: seq<Content -> Effect>) returns (ok: bool)
      requires db.CursorsOk() && this in db.cursors
      modifies db`holder, conn, db.cursors
      ensures db.CursorsOk() && db.holder == this
      ensures ExecEach(old(conn.s), effects).ok == ok && ExecEach(old(conn.s), effects).after == conn.s
      ensures forall c <- db.cursors :: c != this ==> c.Remaining() == old(c.Remaining()) && !c.pending
      ensures ok ==> Remaining() == []
      ensures !ok ==> Remaining() == if old(pending) then [] else old(Remaining())
    {
      db.TakeConnection(this);
      EachAfterReadAhead(old(conn.s), conn.s, effects);
      EachDropsResult(conn.s, effects);
      var done: bool;
      ok, done := conn.ExecuteMany(effects);
      if !ok {
        return;
      }
      described := done;
      buffer := None;
      pending := false;
    }

    /** Fetch what is pending here into the buffer, so that another statement may run. */
    method ReadAhead()
      requires db.CursorsOk() && this in db.cursors
      modifies this`buffer, this`pending, conn
      ensures db.CursorsOk() && !pending && Remaining() == old(Remaining())
      ensures conn.s == old(conn.s).(result := conn.s.result)
      ensures !old(pending) ==> conn.s == old(conn.s) && buffer == old(buffer)
      ensures forall c <- db.cursors :: c != this ==> c.Remaining() == old(c.Remaining())
    {
      if pending {
        var rows := conn.FetchAll();
        buffer := Some(rows);
        pending := false;
      }
    }

    method FetchMany(size: Option<nat>) returns (rows: seq<Row>)
      requires db.CursorsOk() && this in db.cursors
      modifies this`buffer, this`pending, conn
      ensures db.CursorsOk() && conn.s == old(conn.s).(result := conn.s.result)
      ensures rows == old(Remaining())[..FetchSize(size, old(Remaining()))] && rows + Remaining() == old(Remaining())
      ensures forall c <- db.cursors :: c != this ==> c.Remaining() == old(c.Remaining())
    {
      var n := if size.None? || size.value == 0 then ARRAYSIZE else size.value;
      if buffer.Some? {
        var k := if n < |buffer.value| then n else |buffer.value|;
        rows := buffer.value[..k];
        buffer := Some(buffer.value[k..]);
        return;
      }
      if !pending {
        return [];
      }
      rows := conn.FetchMany(n);
      if rows == [] {
        pending := false;
      }
    }

    method FetchOne() returns (row: Option<Row>)
      requires db.CursorsOk() && this in db.cursors
      modifies this`buffer, this`pending, conn
      ensures db.CursorsOk() && conn.s == old(conn.s).(result := conn.s.result)
      ensures old(Remaining()) == [] ==> row == None && Remaining() == []
      ensures old(Remaining()) != [] ==> row == Some(old(Remaining())[0]) && Remaining() == old(Remaining())[1..]
      ensures forall c <- db.cursors :: c != this ==> c.Remaining() == old(c.Remaining())
    {
      var rows := FetchMany(Some(1));
      row := if rows != [] then Some(rows[0]) else None;
    }

    method FetchAll() returns (rows: seq<Row>)
      requires db.CursorsOk() && this in db.cursors
      modifies this`buffer, this`pending, conn
      ensures db.CursorsOk() && conn.s == old(conn.s).(result := conn.s.result)
      ensures rows == old(Remaining()) && Remaining() == []
      ensures forall c <- db.cursors :: c != this ==> c.Remaining() == old(c.Remaining())
    {
      if buffer.Some? {
        rows := buffer.value;
        buffer := Some([]);
        return;
      }
      if !pending {
        return [];
      }
      pending := false;
      rows := conn.FetchAll();
    }

    /** Only this cursor ends: neither the connection nor its transaction does. */
    method Close()
      requires db.CursorsOk() && this in db.cursors
      modifies this`buffer, this`pending, db`holder
      ensures db.CursorsOk() && Remaining() == [] && !pending
      ensures forall c <- db.cursors :: c != this ==> c.Remaining() == old(c.Remaining())
    {
      buffer := None;
      pending := false;
      db.ReleaseConnection(this);
    }
  }

  /** How many rows a fetch takes from those that remain; no size, or 0, means the cursor's array size. */
  function FetchSize(size: Option<nat>, remaining: seq<Row>): (n: nat)
    ensures n <= |remaining|
    ensures size.Some? && 0 < size.value <= |remaining| ==> n == size.value
    ensures (size == None || size == Some(0)) && |remaining| >= 1000 ==> n == 1000
    ensures n < |remaining| ==> n == if size.Some? && size.value > 0 then size.value else 1000
  {
    var n := if size.None? || size.value == 0 then ARRAYSIZE else size.value;
    if n < |remaining| then n else |remaining|
  }

  // ---------------------------------------------------------------------------------------------
  // Transactions
  // ---------------------------------------------------------------------------------------------

  /** The database as the adapter leaves it between calls. */
  datatype Tx = Tx(committed: Content, working: Content, open: bool)

  function TxBegin(t: Tx): Tx { if t.open then t else t.(open := true, working := t.committed) }

  function TxRollback(t: Tx): Tx { Tx(t.committed, t.committed, false) }

  function TxStore(t: Tx): Tx { Tx(t.working, t.working, false) }

  /** `commit`: nothing under AUTOCOMMIT OFF; a commit that fails rolls back. */
  function TxCommit(t: Tx, autocommit: bool, fate: Fate): Tx {
    if !autocommit then t else if t.open && !fate.Stores? then TxRollback(t) else TxStore(t)
  }

  /** `execute`: a statement that fails rolls back whatever was open. */
  function TxExecute(t: Tx, holding: bool, stmt: Statement): Tx {
    match stmt
    case Begin => if t.open then TxRollback(t) else TxBegin(t)
    case Commit(fate) => if !t.open then t else if fate.Stores? then TxStore(t) else TxRollback(t)
    case Rollback => TxRollback(t)
    case Plain(effect) =>
      var t1 := if holding then TxBegin(t) else t;
      match effect(t1.working)
      case Fails => TxRollback(t1)
      case Works(after, _) => t1.(working := after, committed := if t1.open then t1.committed else after)
  }

  /** Whether `execute` succeeds. */
  predicate TxSucceeds(t: Tx, stmt: Statement) {
    match stmt
    case Begin => !t.open
    case Commit(fate) => t.open && fate.Stores?
    case Rollback => t.open
    case Plain(effect) => effect(t.working).Works?
  }

  /** The rows a plain statement answers with. */
  function Answer(e: Effect): seq<Row> {
    if e.Works? && e.answer.Some? then e.answer.value else []
  }

  /** Each statement in plain terms: what is durable afterwards, what an open transaction sees, and whether one
      is open. */
  lemma ExecutesAs(t: Tx, holding: bool, stmt: Statement)
    requires !t.open ==> t.working == t.committed
    ensures var after := TxExecute(t, holding, stmt);
      if !TxSucceeds(t, stmt) then after == Tx(t.committed, t.committed, false)
      else
        match stmt
        case Begin => after == Tx(t.committed, t.committed, true)
        case Commit(_) => after == Tx(t.working, t.working, false)
        case Rollback => after == Tx(t.committed, t.committed, false)
        case Plain(effect) =>
          var now := effect(t.working).after;
          after == if t.open || holding then Tx(t.committed, now, true) else Tx(now, now, false)
  {
  }

  /** What the adapter has made of the database, when no transaction is aborted. */
  function View(d: Driver): Tx { Tx(d.committed, d.working, d.open) }

  predicate Settled(d: Driver) { !d.aborted && (!d.open ==> d.working == d.committed) }

  /** The driver's answer to a statement, and the rollback after a failure, are the adapter's view of it. */
  lemma ExecTracks(t: Tx, holding: bool, d: Driver, stmt: Statement)
    requires Settled(d) && View(d) == (if stmt.Plain? && holding then TxBegin(t) else t)
    requires !t.open ==> t.working == t.committed
    ensures var done := Exec(d, stmt);
      && done.ok == TxSucceeds(t, stmt)
      && (done.ok ==> Settled(done.after) && View(done.after) == TxExecute(t, holding, stmt))
      && (done.ok ==> done.after.result == if stmt.Plain? then Answer(stmt.effect(t.working)) else [])
      && (done.ok ==> done.after.open == match stmt case Begin => true case Plain(_) => d.open case _ => false)
      && (!done.ok ==> done.after.committed == TxExecute(t, holding, stmt).committed
                       && TxExecute(t, holding, stmt) == TxRollback(t)
                       && (!done.after.open ==> !done.after.aborted && done.after.working == done.after.committed))
  {
  }

  /** What was pending makes no difference to a statement, and is gone afterwards if it fails. */
  lemma EachAfterReadAhead(d: Driver, d': Driver, effects: seq<Content -> Effect>)
    requires d' == d.(result := d'.result)
    ensures ExecEach(d, effects) == ExecEach(d', effects)
  {
    if effects != [] {
      assert Exec(d, Plain(effects[0])) == Exec(d', Plain(effects[0]));
    }
  }

  lemma {:induction false} EachDropsResult(d: Driver, effects: seq<Content -> Effect>)
    ensures !ExecEach(d, effects).ok ==> ExecEach(d, effects).after.result == []
    decreases |effects|
  {
    if |effects| > 1 {
      EachDropsResult(Exec(d, Plain(effects[0])).after, effects[1..]);
    }
  }

  function TxEach(t: Tx, effects: seq<Content -> Effect>): Tx {
    var last := Worked(t.working, effects).1;
    t.(working := last, committed := if t.open then t.committed else last)
  }

  /** A list of rows that fails part-way: what the rows before it stored stays stored outside a transaction, and
      inside one the transaction is aborted. */
  lemma {:induction false} EachStopsAtFailure(d: Driver, effects: seq<Content -> Effect>)
    requires Settled(d)
    ensures var done := ExecEach(d, effects); var n := Worked(d.working, effects).0;
      && done.ok == (effects != [] && n == |effects|) && View(done.after) == TxEach(View(d), effects)
      && done.after.aborted == (d.open && n < |effects|)
      && (done.ok ==> Settled(done.after))
    decreases |effects|
  {
    if |effects| > 1 {
      var done := Exec(d, Plain(effects[0]));
      if done.ok {
        EachStopsAtFailure(done.after, effects[1..]);
      }
    }
  }

  class DuckDBDatabase {
    const conn: Connection
    var holder: SharedCursor?
    var inTransaction: bool
    var autocommit: bool
    var inBatch: bool
    ghost var cursors: set<SharedCursor>

    constructor (content: Content)
      ensures Valid() && fresh(conn) && cursors == {} && autocommit && !inBatch && TxOf() == Tx(content, content, false)
    {
      conn := new Connection(content);
      holder, inTransaction, autocommit, inBatch, cursors := null, false, true, false, {};
    }

    /** All cursors run on this connection, and at most one has a result pending there: the holder. */
    ghost predicate CursorsOk()
      reads this, cursors
    {
      && (forall c <- cursors :: c.db == this && c.conn == conn && (c.pending ==> holder == c && c.buffer == None))
      && (holder != null ==> holder in cursors)
    }

    /** Between calls: the flag is the driver's own, no transaction is aborted, and outside a transaction
        everything is durable. */
    ghost predicate Valid()
      reads this, cursors, conn
    {
      && CursorsOk()
      && inTransaction == conn.s.open && Settled(conn.s)
    }

    ghost function TxOf(): Tx
      reads this, conn
    {
      View(conn.s)
    }

    /** `holding`: statements wait for a commit under AUTOCOMMIT OFF and inside BEGIN BATCH. */
    predicate Holding()
      reads this
    {
      !autocommit || inBatch
    }

    method AutocommitOn()
      requires Valid()
      modifies this`autocommit
      ensures Valid() && autocommit
    {
      autocommit := true;
    }

    method AutocommitOff()
      requires Valid()
      modifies this`autocommit
      ensures Valid() && !autocommit
    {
      autocommit := false;
    }

    method Cursor() returns (c: SharedCursor)
      requires CursorsOk()
      modifies this`cursors
      ensures fresh(c) && cursors == old(cursors) + {c} && CursorsOk()
      ensures c.Remaining() == [] && !c.pending && c.db == this && c.conn == conn
    {
      c := new SharedCursor(this);
      cursors := cursors + {c};
    }

    /** Give the connection to a cursor, or to none; the one that had it keeps its rows. */
    method TakeConnection(cursor: SharedCursor?)
      requires CursorsOk() && (cursor != null ==> cursor in cursors)
      modifies this`holder, conn, cursors
      ensures CursorsOk() && holder == cursor
      ensures conn.s == old(conn.s).(result := conn.s.result)
      ensures forall c <- cursors :: c.Remaining() == old(c.Remaining()) && (c.pending ==> c == cursor)
      ensures cursor != null ==> unchanged(cursor)
    {
      var h := holder;
      if h != null && h != cursor {
        h.ReadAhead();
      }
      holder := cursor;
    }

    method ReleaseConnection(cursor: SharedCursor)
      modifies this`holder
      ensures holder == if old(holder) == cursor then null else old(holder)
    {
      if holder == cursor {
        holder := null;
      }
    }

    /** Afterwards a transaction is open; BEGIN runs only where none was. */
    method BeginTransaction()
      requires Valid()
      modifies this`holder, this`inTransaction, conn, cursors
      ensures Valid() && TxOf() == TxBegin(old(TxOf()))
      ensures conn.s.open && conn.s.committed == old(conn.s.committed) && conn.s.working == old(conn.s.working)
      ensures forall c <- cursors :: c.Remaining() == old(c.Remaining())
    {
      if !inTransaction {
        TakeConnection(null);
        assert !conn.s.open;
        var ok, _ := conn.Execute(Begin);
        assert ok;
        inTransaction := true;
      }
    }

    /** Undo whatever transaction there is, an aborted one too. */
    method RollbackTx()
      requires CursorsOk()
      modifies this`holder, this`inTransaction, conn, cursors
      ensures CursorsOk() && !inTransaction && !conn.s.open
      ensures conn.s.committed == old(conn.s.committed)
      ensures old(conn.s.open) ==> conn.s.working == conn.s.committed && !conn.s.aborted
      ensures !old(conn.s.open) ==> conn.s == old(conn.s).(result := conn.s.result)
      ensures forall c <- cursors :: c.Remaining() == old(c.Remaining())
    {
      TakeConnection(null);
      inTransaction := false;
      var _ := conn.Rollback();
    }

    /** `commit`, with `commit_now` for the driver's part: what the open transaction made of the database is
        stored, or, if the driver fails, none of it.  Under AUTOCOMMIT OFF nothing happens. */
    method CommitTx(fate: Fate) returns (ok: bool)
      requires Valid()
      modifies this`holder, this`inTransaction, conn, cursors
      ensures Valid() && TxOf() == TxCommit(old(TxOf()), autocommit, fate)
      ensures autocommit && old(conn.s.open) && fate.Stores? ==>
                ok && !conn.s.open && conn.s.committed == old(conn.s.working) == conn.s.working
      ensures autocommit && old(conn.s.open) && !fate.Stores? ==>
                !ok && !conn.s.open && conn.s.committed == old(conn.s.committed) == conn.s.working
      ensures !autocommit || !old(conn.s.open) ==> ok && conn.s == old(conn.s).(result := conn.s.result)
      ensures forall c <- cursors :: c.Remaining() == old(c.Remaining())
    {
      TakeConnection(null);
      ok := true;
      if autocommit {
        ok := conn.Commit(fate);
        if !ok {
          RollbackTx();
          return;
        }
        inTransaction := false;
      }
    }

    /** `before_statement`: a statement that is held opens a transaction first, unless it is one of the
        statements that control transactions. */
    method BeforeStatement(stmt: Statement)
      requires CursorsOk() && (stmt.Plain? ==> Valid())
      modifies this`holder, this`inTransaction, conn, cursors
      ensures CursorsOk()
      ensures !stmt.Plain? ==> inTransaction == old(inTransaction) && conn.s == old(conn.s)
      ensures stmt.Plain? ==> Valid() && TxOf() == if Holding() then TxBegin(old(TxOf())) else old(TxOf())
      ensures forall c <- cursors :: c.Remaining() == old(c.Remaining())
    {
      if !Holding() {
        return;
      }
      if !stmt.Plain? {
        return;
      }
      BeginTransaction();
    }

    /** A statement on a cursor of its own, closed afterwards. */
    method OnCursor(stmt: Statement, fetch: bool) returns (ok: bool, rows: seq<Row>)
      requires CursorsOk()
      modifies this`holder, this`cursors, conn, cursors
      ensures CursorsOk() && old(cursors) <= cursors && fresh(cursors - old(cursors))
      ensures ok == Exec(old(conn.s), stmt).ok
      ensures conn.s == Exec(old(conn.s), stmt).after.(result := conn.s.result)
      ensures rows == if ok && fetch then Exec(old(conn.s), stmt).after.result else []
      ensures forall c <- old(cursors) :: c.Remaining() == old(c.Remaining())
    {
      hide Exec;
      rows := [];
      var curs := Cursor();
      ok := curs.Execute(stmt);
      if ok && fetch {
        rows := curs.FetchAll();
      }
      curs.Close();
    }

    /** `execute`: one statement of a script, with the transaction it may begin or end itself. */
    method Execute(stmt: Statement, fetch: bool) returns (ok: bool, rows: seq<Row>)
      requires Valid()
      modifies this`holder, this`inTransaction, this`cursors, conn, cursors
      ensures Valid() && TxOf() == TxExecute(old(TxOf()), Holding(), stmt)
      ensures ok == match stmt
                    case Begin => !old(conn.s.open)
                    case Commit(fate) => old(conn.s.open) && fate.Stores?
                    case Rollback => old(conn.s.open)
                    case Plain(effect) => effect(old(conn.s.working)).Works?
      ensures !ok ==> !conn.s.open && conn.s.committed == old(conn.s.committed) == conn.s.working
      ensures ok ==> match stmt
                     case Begin => conn.s.open && conn.s.committed == old(conn.s.committed) == conn.s.working
                     case Commit(_) => !conn.s.open && conn.s.committed == old(conn.s.working) == conn.s.working
                     case Rollback => !conn.s.open && conn.s.committed == old(conn.s.committed) == conn.s.working
                     case Plain(effect) =>
                       && conn.s.working == effect(old(conn.s.working)).after
                       && conn.s.open == (old(conn.s.open) || Holding())
                       && conn.s.committed == if conn.s.open then old(conn.s.committed) else conn.s.working
      ensures ok && fetch && stmt.Plain? ==> rows == Answer(stmt.effect(old(conn.s.working)))
      ensures old(cursors) <= cursors && fresh(cursors - old(cursors))
      ensures forall c <- old(cursors) :: c.Remaining() == old(c.Remaining())
    {
      hide Exec, TxExecute;
      if stmt.Begin? {
        inTransaction := true;
      }
      BeforeStatement(stmt);
      ghost var ready := conn.s;
      ok, rows := OnCursor(stmt, fetch);
      ExecTracks(old(TxOf()), Holding(), ready, stmt);
      ExecutesAs(old(TxOf()), Holding(), stmt);
      if !ok {
        RollbackTx();
        return;
      }
      if stmt.Commit? || stmt.Rollback? {
        inTransaction := false;
      }
    }
  }
}
