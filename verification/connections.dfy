/**
 `CppSQLite3DB`: a connection, its retry settings, and the calls that
 create statements, queries and tables from it.
 */
module Connections {
  import opened Engine
  import opened Retries
  import Queries
  import Statements
  import Tables

  /** The members of a `CppSQLite3DB`; `db` is None for a NULL `mpDB`. */
  datatype Connection = Connection(db: Option<Handle>, busyTimeoutMs: int, maxRetry: int, retryUs: int)

  /** The default constructor: closed, 1000 ms busy timeout, 5 retries 5000 us apart. */
  const Closed: Connection := Connection(None, 1000, Queries.DefaultMaxRetry, Queries.DefaultRetryUs)

  /** `checkDB()`. */
  function CheckDB(c: Connection): (x: Option<Exception>)
    ensures x.Some? <==> c.db.None?
    ensures x.Some? ==> x.value == WrapperError(DatabaseNotOpen)
  {
    if c.db.None? then Some(WrapperError(DatabaseNotOpen)) else None
  }

  /** The connection `rollback()` and the query objects refer to. */
  function Ref(c: Connection): DbRef {
    if c.db.Some? then Connected(c.db.value) else NoDb
  }

  /** `close()`: closes an open connection; a no-op on a closed one. */
  function Close(c: Connection): (r: Effect<Connection, ()>)
    ensures r.state == c.(db := None)
    ensures multiset(r.released) == HeldBy(c.db)
    ensures r.outcome == Returned(()) && r.rollbacks == []
  {
    if c.db.Some? then Effect(c.(db := None), [c.db.value], [], Returned(()))
    else Effect(c, [], [], Returned(()))
  }

  lemma CloseIdempotent(c: Connection)
    ensures Close(Close(c).state) == Effect(Close(c).state, [], [], Returned(()))
  {
  }

  /**
   `open(file)`: the engine stores a connection handle `h` even when it fails;
   then the wrapper closes it again and throws the open code. The busy
   timeout is re-applied with its current value.
   */
  function Open(c: Connection, status: Status, h: Handle): (r: Effect<Connection, ()>)
    ensures r.outcome.Returned? <==> status == Ok
    ensures status == Ok ==> r.state == c.(db := Some(h)) && r.released == []
    ensures status != Ok ==> r.state == c.(db := None) && r.released == [h]
                             && r.outcome == Threw(EngineError(status))
  {
    var live := c.(db := Some(h));
    if status != Ok then
      var closed := Close(live);
      Effect(closed.state, closed.released, [], Threw(EngineError(status)))
    else Effect(live, [], [], Returned(()))
  }

  /**
   The engine's answer to `sqlite3_prepare_v2`: a statement, OK with a NULL
   statement (the SQL held none: it was empty, blank or only a comment), or
   a failing code.
   */
  datatype Prepared = Compiled(vm: Handle) | NoStatement | NotCompiled(status: Status)

  /** The statement pointer `compile` hands on after an OK prepare. */
  function PreparedVM(p: Prepared): (vm: Option<Handle>)
    ensures vm.Some? <==> p.Compiled?
    ensures p.Compiled? ==> vm == Some(p.vm)
  {
    if p.Compiled? then Some(p.vm) else None
  }

  /**
   `compileStatement(sql)`: a statement with the DEFAULT retry settings, not
   the connection's. SQL without a statement gives a statement object with a
   NULL handle.
   */
  function CompileStatement(c: Connection, p: Prepared): (r: Outcome<Statements.Statement>)
    ensures c.db.None? ==> r == Threw(WrapperError(DatabaseNotOpen))
    ensures c.db.Some? && p.NotCompiled? ==> r == Threw(EngineError(p.status))
    ensures r.Returned? <==> c.db.Some? && !p.NotCompiled?
    ensures r.Returned? ==> r.value.db == Connected(c.db.value)
                            && (r.value.vm.Some? <==> p.Compiled?)
                            && (p.Compiled? ==> r.value.vm == Some(p.vm))
                            && r.value.maxRetry == Queries.DefaultMaxRetry
                            && r.value.retryUs == Queries.DefaultRetryUs
  {
    if CheckDB(c).Some? then Threw(CheckDB(c).value)
    else match p
      case NotCompiled(s) => Threw(EngineError(s))
      case _ => Returned(Statements.Make(c.db.value, PreparedVM(p)))
  }

  /**
   A statement compiled from SQL without a statement is unusable: binding,
   executing and querying all throw the NULL-handle error, and finalizing
   it hands nothing back.
   */
  lemma EmptyStatementUnusable(c: Connection, st: Status, a: seq<Attempt>, cols: seq<string>, ch: int)
    requires c.db.Some?
    ensures var s := CompileStatement(c, NoStatement);
            s.Returned?
            && Statements.Bind(s.value, st) == Threw(WrapperError(NullVirtualMachine))
            && Statements.ExecDml(s.value, st, st, ch) == Threw(WrapperError(NullVirtualMachine))
            && Statements.ExecQuery(s.value, a, cols, st) == Threw(WrapperError(NullVirtualMachine))
            && Statements.Finalize(s.value, st).released == []
  {
  }

  /** The ROLLBACKs of a run, all sent to this connection. */
  function RollbacksTo(c: Connection, run: Run): (t: seq<DbRef>)
    ensures |t| == |run.rollbacks| && forall i :: 0 <= i < |t| ==> t[i] == Ref(c)
  {
    seq(|run.rollbacks|, _ => Ref(c))
  }

  /**
   `execDML(sql)`: runs the statement with retries and rollbacks; OK returns
   the engine's change count, any other end throws its code.
   */
  function ExecDml(c: Connection, answers: seq<Attempt>, changes: int): (r: Effect<Connection, int>)
    ensures r.state == c && r.released == []
    ensures c.db.None? ==> r.outcome == Threw(WrapperError(DatabaseNotOpen)) && r.rollbacks == []
    ensures c.db.Some? ==>
              var run := Execute(ConnectionDml, c.maxRetry, answers);
              r.rollbacks == RollbacksTo(c, run)
              && (run.end.Finished? <==> r.outcome.Returned?)
              && (r.outcome.Returned? ==> r.outcome.value == changes)
              && (run.end.Failed? ==> r.outcome == Threw(EngineError(run.end.status)))
              && (run.end.Exhausted? ==> r.outcome.Pending?)
  {
    if CheckDB(c).Some? then Effect(c, [], [], Threw(CheckDB(c).value))
    else
      var run := Execute(ConnectionDml, c.maxRetry, answers);
      var out := match run.end
        case Finished(_) => Returned(changes)
        case Failed(s) => Threw(EngineError(s))
        case Exhausted => Pending;
      Effect(c, [], RollbacksTo(c, run), out)
  }

  /**
   Under a lock that never clears, with a transaction open, `execDML` sends
   one ROLLBACK per retry plus one before it throws BUSY.
   */
  lemma ExecDmlAlwaysBusy(c: Connection, answers: seq<Attempt>, changes: int)
    requires c.db.Some? && c.maxRetry >= 0 && |answers| > c.maxRetry
    requires forall i :: 0 <= i < |answers| ==> answers[i] == Attempt(Busy, false)
    ensures var r := ExecDml(c, answers, changes);
            r.outcome == Threw(EngineError(Busy)) && |r.rollbacks| == c.maxRetry + 1
  {
    AlwaysBusy(ConnectionDml, c.maxRetry, answers);
  }

  /**
   `execQuery(sql)`: compiles, then steps with retries and rollbacks. DONE or
   ROW returns a query that OWNS the handle (the constructor's default), with
   the connection's retry settings; failure finalizes the handle and throws
   the code `sqlite3_finalize` returned. SQL without a statement steps a
   NULL handle: the engine answers MISUSE, which the loop neither retries
   nor rolls back, and `sqlite3_finalize(NULL)` returns OK, so the exception
   carries OK's code and nothing is handed back.
   */
  function ExecQuery(c: Connection, p: Prepared, answers: seq<Attempt>, columns: seq<string>, finalizeStatus: Status)
    : (r: Effect<Connection, Queries.Query>)
    ensures r.state == c
    ensures c.db.None? ==> r.outcome == Threw(WrapperError(DatabaseNotOpen))
    ensures c.db.Some? && p.NotCompiled? ==> r.outcome == Threw(EngineError(p.status))
    ensures c.db.Some? && p.NoStatement? ==>
              r.outcome == Threw(EngineError(Ok)) && r.released == [] && r.rollbacks == []
    ensures c.db.Some? && p.Compiled? ==>
              var run := Execute(ConnectionQuery, c.maxRetry, answers);
              r.rollbacks == RollbacksTo(c, run)
              && (r.outcome.Returned? <==> run.end.Finished?)
              && (r.outcome.Returned? ==>
                    var q := r.outcome.value;
                    q.vm == Some(p.vm) && q.ownVM && q.db == Connected(c.db.value)
                    && (q.eof <==> run.end.status == Done)
                    && q.maxRetry == c.maxRetry && q.retryUs == c.retryUs && r.released == [])
              && (run.end.Failed? ==> r.released == [p.vm] && r.outcome == Threw(EngineError(finalizeStatus)))
              && (run.end.Exhausted? ==> r.outcome.Pending?)
  {
    if CheckDB(c).Some? then Effect(c, [], [], Threw(CheckDB(c).value))
    else match p
      case NotCompiled(s) => Effect(c, [], [], Threw(EngineError(s)))
      case NoStatement =>
        var run := Execute(ConnectionQuery, c.maxRetry, [Attempt(Misuse, true)]);
        Effect(c, [], RollbacksTo(c, run), Threw(EngineError(Ok)))
      case Compiled(vm) =>
        var run := Execute(ConnectionQuery, c.maxRetry, answers);
        var rb := RollbacksTo(c, run);
        match run.end
        case Finished(st) =>
          var q := Queries.Make(Connected(c.db.value), vm, st == Done, columns);
          Effect(c, [], rb, Returned(q.(maxRetry := c.maxRetry, retryUs := c.retryUs)))
        case Failed(_) => Effect(c, [vm], rb, Threw(EngineError(finalizeStatus)))
        case Exhausted => Effect(c, [], rb, Pending)
  }

  /** The engine's answer to `sqlite3_get_table`. */
  datatype TableAnswer = Got(snapshot: Tables.Snapshot, rows: int, cols: int) | NoTable(status: Status)

  /** `getTable(sql)`: a table on the engine's snapshot, or the engine's code thrown. */
  function GetTable(c: Connection, a: TableAnswer): (r: Outcome<Tables.Table>)
    ensures c.db.None? ==> r == Threw(WrapperError(DatabaseNotOpen))
    ensures r.Returned? <==> c.db.Some? && a.Got?
    ensures r.Returned? ==> r.value.results == Some(a.snapshot) && r.value.rows == a.rows
                            && r.value.cols == a.cols && r.value.currentRow == 0
    ensures c.db.Some? && a.NoTable? ==> r == Threw(EngineError(a.status))
  {
    if CheckDB(c).Some? then Threw(CheckDB(c).value)
    else match a
      case Got(s, rows, cols) => Returned(Tables.Make(s, rows, cols))
      case NoTable(st) => Threw(EngineError(st))
  }

  /** Source and destination of a backup: `pTo` and `pFrom`. */
  datatype Ends = Ends(to: Handle, from: Handle)

  /** A backup copies this connection into the file's; a restore copies the file's into this one. */
  function Direction(isBackup: bool, mine: Handle, other: Handle): (e: Ends)
    ensures isBackup ==> e == Ends(other, mine)
    ensures !isBackup ==> e == Ends(mine, other)
    ensures {e.to, e.from} == {mine, other}
  {
    if isBackup then Ends(other, mine) else Ends(mine, other)
  }

  /**
   `backupOrRestore(target, isBackup)`. The file's connection is opened with
   `openStatus` as handle `other`, with the default retry settings, and
   closed again when the call ends. A backup first runs `execDML` of the WAL
   pragma on it, answered by `pragma`: that loop's ROLLBACKs go to the file's
   connection, and its failure is thrown on. A failed `sqlite3_backup_init`
   throws `errcode(pTo)`. The step loop treats OK as more to do, retries
   BUSY/LOCKED without rolling back, and on failure throws what
   `sqlite3_backup_finish` returned. The value is the pair of ends the pages
   were copied between.
   */
  function BackupOrRestore(c: Connection, isBackup: bool, openStatus: Status, other: Handle,
                           pragma: seq<Attempt>, initOk: bool, errcode: Handle -> Status,
                           answers: seq<Attempt>, finishStatus: Status): (r: Effect<Connection, Ends>)
    ensures r.state == c
    ensures forall i :: 0 <= i < |r.rollbacks| ==> r.rollbacks[i] == Connected(other)
    ensures c.db.None? ==> r.outcome == Threw(WrapperError(DatabaseNotOpen)) && r.released == [] && r.rollbacks == []
    ensures c.db.Some? && openStatus != Ok ==>
              r.outcome == Threw(EngineError(openStatus)) && r.released == [other] && r.rollbacks == []
    ensures c.db.Some? && openStatus == Ok ==>
              var wal := Execute(ConnectionDml, Queries.DefaultMaxRetry, pragma);
              var ends := Direction(isBackup, c.db.value, other);
              var run := Execute(BackupStep, c.maxRetry, answers);
              |r.rollbacks| == (if isBackup then |wal.rollbacks| else 0)
              && (isBackup && wal.end.Failed? ==> r.outcome == Threw(EngineError(wal.end.status)))
              && (isBackup && wal.end.Exhausted? ==> r.outcome.Pending?)
              && (!isBackup || wal.end.Finished? ==>
                    (!initOk ==> r.outcome == Threw(EngineError(errcode(ends.to))))
                    && (initOk && run.end.Finished? ==> r.outcome == Returned(ends))
                    && (initOk && run.end.Failed? ==> r.outcome == Threw(EngineError(finishStatus)))
                    && (initOk && run.end.Exhausted? ==> r.outcome.Pending?))
              && (!r.outcome.Pending? ==> r.released == [other])
  {
    if CheckDB(c).Some? then Effect(c, [], [], Threw(CheckDB(c).value))
    else
      var file := Open(Closed, openStatus, other);
      if openStatus != Ok then Effect(c, file.released, [], Threw(EngineError(openStatus)))
      else
        var wal := if isBackup then ExecDml(file.state, pragma, 0) else Effect(file.state, [], [], Returned(0));
        var done := Close(file.state).released;
        if wal.outcome.Threw? then Effect(c, done, wal.rollbacks, Threw(wal.outcome.error))
        else if wal.outcome.Pending? then Effect(c, [], wal.rollbacks, Pending)
        else
          var ends := Direction(isBackup, c.db.value, other);
          if !initOk then Effect(c, done, wal.rollbacks, Threw(EngineError(errcode(ends.to))))
          else
            var run := Execute(BackupStep, c.maxRetry, answers);
            match run.end
            case Finished(_) => Effect(c, done, wal.rollbacks, Returned(ends))
            case Failed(_) => Effect(c, done, wal.rollbacks, Threw(EngineError(finishStatus)))
            case Exhausted => Effect(c, [], wal.rollbacks, Pending)
  }

  /**
   A backup whose target is not a database fails in the WAL pragma, before
   any page is copied: the pragma's code is thrown and the file's connection
   is closed.
   */
  lemma BackupPragmaFailure(c: Connection, other: Handle, code: int, autocommit: bool, rest: seq<Attempt>,
                            initOk: bool, errcode: Handle -> Status, answers: seq<Attempt>, fs: Status)
    requires c.db.Some?
    ensures var r := BackupOrRestore(c, true, Ok, other, [Attempt(Other(code), autocommit)] + rest,
                                     initOk, errcode, answers, fs);
            r.outcome == Threw(EngineError(Other(code))) && r.released == [other] && r.rollbacks == []
  {
    UnlistedCodeFails(ConnectionDml, Queries.DefaultMaxRetry, code, autocommit, rest);
  }

  // ---------------------------------------------------------------------------
  // Exclusive connection handles

  /** No two connection objects hold the same open handle. */
  predicate Exclusive(cs: seq<Connection>) {
    forall i, j :: 0 <= i < j < |cs| && cs[i].db.Some? && cs[j].db.Some? ==> cs[i].db != cs[j].db
  }

  /** Whether `h` is held by none of the objects. */
  predicate Unheld(cs: seq<Connection>, h: Handle) {
    forall i :: 0 <= i < |cs| ==> cs[i].db != Some(h)
  }

  /**
   The public members keep handles exclusive: opening on a handle nobody
   holds, and closing, both preserve it. There is no public way to duplicate
   a connection, since the copy constructor and assignment are private.
   */
  lemma OpenKeepsExclusive(cs: seq<Connection>, k: nat, status: Status, h: Handle)
    requires Exclusive(cs) && k < |cs| && Unheld(cs, h)
    ensures Exclusive(cs[k := Open(cs[k], status, h).state])
  {
  }

  lemma CloseKeepsExclusive(cs: seq<Connection>, k: nat)
    requires Exclusive(cs) && k < |cs|
    ensures Exclusive(cs[k := Close(cs[k]).state])
  {
  }

  /** The private copy constructor: it would share the handle. */
  function PrivateCopy(c: Connection): (d: Connection)
    ensures d == c
  {
    Connection(c.db, c.busyTimeoutMs, c.maxRetry, c.retryUs)
  }

  /**
   Were the copy constructor public, two objects would hold one handle and
   their destructors would close it twice.
   */
  lemma PrivateCopyWouldShare(c: Connection)
    requires c.db.Some?
    ensures !Exclusive([c, PrivateCopy(c)])
    ensures Close(c).released + Close(PrivateCopy(c)).released == [c.db.value, c.db.value]
  {
    var cs := [c, PrivateCopy(c)];
    assert cs[0].db == cs[1].db;
  }
}
