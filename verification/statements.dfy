/**
 `CppSQLite3Statement`: a compiled statement that always owns its handle.
 The queries it produces borrow that handle (`mbOwnVM` false).
 */
module Statements {
  import opened Engine
  import opened Retries
  import Queries

  /** The members of a `CppSQLite3Statement`. */
  datatype Statement = Statement(db: DbRef, vm: Option<Handle>, maxRetry: int, retryUs: int)

  /** The default constructor. */
  const Empty: Statement := Statement(NoDb, None, Queries.DefaultMaxRetry, Queries.DefaultRetryUs)

  /** The two-argument constructor `compileStatement` uses: default retry settings. */
  function Make(db: Handle, vm: Option<Handle>): (s: Statement)
    ensures s.db == Connected(db) && s.vm == vm
    ensures s.maxRetry == Queries.DefaultMaxRetry && s.retryUs == Queries.DefaultRetryUs
  {
    Statement(Connected(db), vm, Queries.DefaultMaxRetry, Queries.DefaultRetryUs)
  }

  /** `checkDB()`: only a NULL connection pointer is caught. */
  function CheckDB(s: Statement): (x: Option<Exception>)
    ensures x.Some? <==> s.db == NoDb
    ensures x.Some? ==> x.value == WrapperError(DatabaseNotOpen)
  {
    if s.db == NoDb then Some(WrapperError(DatabaseNotOpen)) else None
  }

  /** The two statements after a copy or an assignment. */
  datatype Moved = Moved(dst: Statement, src: Statement)

  /** The copy constructor: everything is copied and the source's handle nulled. */
  function Copy(src: Statement): (m: Moved)
    ensures m.dst == src && m.src == src.(vm := None)
    ensures HeldBy(m.dst.vm) + HeldBy(m.src.vm) == HeldBy(src.vm)
  {
    Moved(src, src.(vm := None))
  }

  /**
   `operator=` as written: takes the source's connection and handle but
   neither finalizes its own old handle nor copies the retry settings.
   */
  function AssignAsWritten(dst: Statement, src: Statement): (r: Effect<Moved, ()>)
    ensures r.released == []
    ensures r.state.dst == dst.(db := src.db, vm := src.vm)
    ensures r.state.src == src.(vm := None)
    ensures r.outcome == Returned(())
  {
    Effect(Moved(dst.(db := src.db, vm := src.vm), src.(vm := None)), [], [], Returned(()))
  }

  /**
   `s = s` as written: the handle is read from and nulled in the same
   object, so the statement ends with no handle and nothing is finalized.
   */
  function SelfAssignAsWritten(s: Statement): (r: Effect<Statement, ()>)
    ensures r.state == s.(vm := None) && r.released == []
    ensures r.outcome == Returned(())
  {
    var m := AssignAsWritten(s, s);
    Effect(m.state.src, m.released, [], Returned(()))
  }

  /** A statement assigned to itself loses its handle without handing it back. */
  lemma SelfAssignLeaks(s: Statement)
    requires s.vm.Some?
    ensures var r := SelfAssignAsWritten(s);
            s.vm.value !in multiset(r.released) + HeldBy(r.state.vm)
  {
  }

  /**
   `operator=` as intended: finalize the old handle first (as `Query` and
   `Table` do, swallowing any error), then copy every member.
   */
  function Assign(dst: Statement, src: Statement, status: Status): (r: Effect<Moved, ()>)
    ensures multiset(r.released) == HeldBy(dst.vm)
    ensures r.state.dst == src && r.state.src == src.(vm := None)
    ensures multiset(r.released) + HeldBy(r.state.dst.vm) + HeldBy(r.state.src.vm) == HeldBy(dst.vm) + HeldBy(src.vm)
    ensures r.outcome == Returned(())
  {
    var f := Finalize(dst, status);
    Effect(Moved(src, src.(vm := None)), f.released, [], Returned(()))
  }

  /** `finalize()`: hands the handle back if there is one; a no-op afterwards. */
  function Finalize(s: Statement, status: Status): (r: Effect<Statement, ()>)
    ensures r.state.vm.None?
    ensures multiset(r.released) == HeldBy(s.vm)
    ensures r.state == s.(vm := None) && r.rollbacks == []
    ensures r.outcome.Threw? <==> s.vm.Some? && status != Ok
    ensures r.outcome.Threw? ==> r.outcome.error == EngineError(status)
    ensures !r.outcome.Pending?
  {
    if s.vm.Some? then
      Effect(s.(vm := None), [s.vm.value], [], if status == Ok then Returned(()) else Threw(EngineError(status)))
    else
      Effect(s, [], [], Returned(()))
  }

  /** `finalize()` is idempotent: the second call changes and releases nothing. */
  lemma FinalizeIdempotent(s: Statement, s1: Status, s2: Status)
    ensures var r1 := Finalize(s, s1);
            var r2 := Finalize(r1.state, s2);
            r2.state == r1.state && r2.released == [] && r2.outcome == Returned(())
  {
  }

  /** `reset()`: does nothing without a handle; throws a failing reset code. */
  function Reset(s: Statement, status: Status): (r: Outcome<()>)
    ensures r.Threw? <==> s.vm.Some? && status != Ok
    ensures r.Threw? ==> r.error == EngineError(status)
    ensures !r.Pending?
  {
    if s.vm.Some? && status != Ok then Threw(EngineError(status)) else Returned(())
  }

  /** Any `bind` overload: `checkVM()`, then the engine's bind code, thrown unless OK. */
  function Bind(s: Statement, status: Status): (r: Outcome<()>)
    ensures r.Returned? <==> s.vm.Some? && status == Ok
    ensures s.vm.None? ==> r == Threw(WrapperError(NullVirtualMachine))
    ensures s.vm.Some? && status != Ok ==> r == Threw(EngineError(status))
  {
    if CheckVM(s.vm).Some? then Threw(CheckVM(s.vm).value)
    else if status != Ok then Threw(EngineError(status))
    else Returned(())
  }

  /**
   `execDML()`: one step, no retries. DONE returns the change count unless
   the following reset fails; anything else throws the reset's code.
   */
  function ExecDml(s: Statement, step: Status, resetStatus: Status, changes: int): (r: Outcome<int>)
    ensures r.Returned? <==> s.db != NoDb && s.vm.Some? && step == Done && resetStatus == Ok
    ensures r.Returned? ==> r.value == changes
    ensures s.db == NoDb ==> r == Threw(WrapperError(DatabaseNotOpen))
    ensures s.db != NoDb && s.vm.None? ==> r == Threw(WrapperError(NullVirtualMachine))
    ensures s.db != NoDb && s.vm.Some? && !r.Returned? ==> r == Threw(EngineError(resetStatus))
  {
    if CheckDB(s).Some? then Threw(CheckDB(s).value)
    else if CheckVM(s.vm).Some? then Threw(CheckVM(s.vm).value)
    else if step == Done then
      if resetStatus != Ok then Threw(EngineError(resetStatus)) else Returned(changes)
    else Threw(EngineError(resetStatus))
  }

  /**
   `execQuery()`: steps with retries but never rolls back. DONE or ROW returns
   a query that BORROWS the handle (`mbOwnVM` false), with `eof` set exactly
   for DONE and the statement's retry settings; failure throws the code of
   the following `reset`.
   */
  function ExecQuery(s: Statement, answers: seq<Attempt>, columns: seq<string>, resetStatus: Status)
    : (r: Outcome<Queries.Query>)
    ensures s.db == NoDb ==> r == Threw(WrapperError(DatabaseNotOpen))
    ensures s.db != NoDb && s.vm.None? ==> r == Threw(WrapperError(NullVirtualMachine))
    ensures s.db != NoDb && s.vm.Some? ==>
              var run := Execute(StatementQuery, s.maxRetry, answers);
              (r.Returned? <==> run.end.Finished?)
              && (r.Returned? ==> r.value.vm == s.vm && !r.value.ownVM && r.value.db == s.db
                                  && (r.value.eof <==> run.end.status == Done)
                                  && r.value.maxRetry == s.maxRetry && r.value.retryUs == s.retryUs)
              && (run.end.Failed? ==> r == Threw(EngineError(resetStatus)))
              && (run.end.Exhausted? ==> r.Pending?)
  {
    if CheckDB(s).Some? then Threw(CheckDB(s).value)
    else if CheckVM(s.vm).Some? then Threw(CheckVM(s.vm).value)
    else
      var run := Execute(StatementQuery, s.maxRetry, answers);
      match run.end
      case Finished(st) =>
        var q := Queries.Make(s.db, s.vm.value, st == Done, columns, false);
        Returned(q.(maxRetry := s.maxRetry, retryUs := s.retryUs))
      case Failed(_) => Threw(EngineError(resetStatus))
      case Exhausted => Pending
  }

  /** A statement's query never issues a ROLLBACK while stepping the statement itself. */
  lemma ExecQueryNeverRollsBack(s: Statement, answers: seq<Attempt>)
    ensures Execute(StatementQuery, s.maxRetry, answers).rollbacks == []
  {
    NoRollbackOutsideRollingLoops(StatementQuery, s.maxRetry, answers);
  }
}
