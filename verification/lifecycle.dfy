/**
 Whole lifetimes of statement handles across the wrapper objects: which
 object hands each handle back to the engine, and how many times. Each
 scenario is stated for every sequence of engine answers that leads into it.
 */
module Lifecycle {
  import opened Engine
  import opened Retries
  import Queries
  import Statements
  import Connections

  /**
   A statement's query borrows the handle: finalizing the query hands back
   nothing, and the statement's own `finalize` hands it back once.
   */
  lemma BorrowedHandleReleasedOnce(st: Statements.Statement, answers: seq<Attempt>, columns: seq<string>,
                                   rs: Status, fs: Status, qs: Status)
    requires st.db != NoDb && st.vm.Some?
    requires Execute(StatementQuery, st.maxRetry, answers).end.Finished?
    ensures var q := Statements.ExecQuery(st, answers, columns, rs);
            q.Returned?
            && Queries.Finalize(q.value, qs).released == []
            && Queries.Finalize(q.value, qs).state.vm == st.vm
            && Statements.Finalize(st, fs).released == [st.vm.value]
  {
  }

  /**
   A connection's query owns the handle: after a failed `nextRow` the handle
   has been finalized once, and the query's later `finalize` hands back nothing.
   */
  lemma OwnedHandleReleasedOnce(c: Connections.Connection, vm: Handle, a1: seq<Attempt>, a2: seq<Attempt>,
                                columns: seq<string>, s1: Status, s2: Status, s3: Status)
    requires c.db.Some?
    requires Execute(ConnectionQuery, c.maxRetry, a1).end.Finished?
    ensures var r := Connections.ExecQuery(c, Connections.Compiled(vm), a1, columns, s1);
            r.outcome.Returned? && r.released == []
            && var q := r.outcome.value;
               (Execute(QueryStep, q.maxRetry, a2).end.Failed? ==>
                  var n := Queries.NextRowAsWritten(q, a2, s2);
                  n.released == [vm] && Queries.Finalize(n.state, s3).released == [])
  {
  }

  /**
   `nextRow` as written on a statement's query: when stepping fails, the
   query finalizes the borrowed handle, and the statement finalizes the same
   handle again when it is finalized or destroyed.
   */
  lemma BorrowedHandleFinalizedTwice(st: Statements.Statement, a1: seq<Attempt>, a2: seq<Attempt>,
                                     columns: seq<string>, rs: Status, s2: Status, fs: Status)
    requires st.db != NoDb && st.vm.Some?
    requires Execute(StatementQuery, st.maxRetry, a1).end.Finished?
    requires Execute(QueryStep, st.maxRetry, a2).end.Failed?
    ensures var q := Statements.ExecQuery(st, a1, columns, rs).value;
            Queries.NextRowAsWritten(q, a2, s2).released + Statements.Finalize(st, fs).released
            == [st.vm.value, st.vm.value]
  {
  }

  /**
   A witness that the failing branch of the step loop is reachable: a single
   I/O error ends it, whatever the retry setting.
   */
  lemma IoErrorFailsStep(maxRetry: int, autocommit: bool)
    ensures Execute(QueryStep, maxRetry, [Attempt(IoErr, autocommit)]).end == Failed(IoErr)
  {
  }

  /** The intended `nextRow` leaves the borrowed handle to the statement: it is finalized once. */
  lemma BorrowedHandleFinalizedOnce(st: Statements.Statement, a1: seq<Attempt>, a2: seq<Attempt>,
                                    columns: seq<string>, rs: Status, s2: Status, fs: Status)
    requires st.db != NoDb && st.vm.Some?
    requires Execute(StatementQuery, st.maxRetry, a1).end.Finished?
    ensures var q := Statements.ExecQuery(st, a1, columns, rs).value;
            Queries.NextRow(q, a2, s2).released + Statements.Finalize(st, fs).released == [st.vm.value]
  {
  }

  /**
   `operator=` as written on a statement that holds a handle: that handle is
   neither finalized nor held by either object afterwards, so it leaks.
   */
  lemma StatementAssignLeaks(dst: Statements.Statement, src: Statements.Statement)
    requires dst.vm.Some? && dst.vm != src.vm
    ensures var r := Statements.AssignAsWritten(dst, src);
            dst.vm.value !in multiset(r.released) + HeldBy(r.state.dst.vm) + HeldBy(r.state.src.vm)
  {
  }

  /** The intended `operator=` hands the old handle back; no handle is lost or duplicated. */
  lemma StatementAssignReleases(dst: Statements.Statement, src: Statements.Statement, s: Status)
    requires dst.vm.Some?
    ensures var r := Statements.Assign(dst, src, s);
            r.released == [dst.vm.value]
            && multiset(r.released) + HeldBy(r.state.dst.vm) + HeldBy(r.state.src.vm)
               == HeldBy(dst.vm) + HeldBy(src.vm)
  {
  }

  /** A BUSY answer with a transaction open, then a row. */
  const BusyThenRow: seq<Attempt> := [Attempt(Busy, false), Attempt(Row, true)]

  /**
   A query copied with the copy constructor as written sends its ROLLBACK to
   an uninitialised connection pointer.
   */
  lemma CopiedQueryRollsBackNowhere(db: Handle, vm: Handle, columns: seq<string>, s: Status)
    ensures var q := Queries.CopyAsWritten(Queries.Make(Connected(db), vm, false, columns)).dst;
            Queries.NextRowAsWritten(q, BusyThenRow, s).rollbacks == [Indeterminate]
  {
    assert Execute(QueryStep, Queries.DefaultMaxRetry, BusyThenRow).rollbacks == [0];
  }

  /** With the connection copied too, the ROLLBACK reaches the query's connection. */
  lemma CopiedQueryRollsBackToItsConnection(db: Handle, vm: Handle, columns: seq<string>, s: Status)
    ensures var q := Queries.Copy(Queries.Make(Connected(db), vm, false, columns)).dst;
            Queries.NextRow(q, BusyThenRow, s).rollbacks == [Connected(db)]
  {
    assert Execute(QueryStep, Queries.DefaultMaxRetry, BusyThenRow).rollbacks == [0];
  }

  /** In general, the intended copy keeps every ROLLBACK aimed at the original connection. */
  lemma CopyKeepsRollbackTarget(q: Queries.Query, answers: seq<Attempt>, s: Status)
    requires q.vm.Some?
    ensures var r := Queries.NextRow(Queries.Copy(q).dst, answers, s);
            forall i :: 0 <= i < |r.rollbacks| ==> r.rollbacks[i] == q.db
  {
  }

  /**
   `execQuery` returns a named local. Where the compiler copies it out
   instead of building it in place, the copy constructor as written gives
   the caller a query whose every ROLLBACK goes to an uninitialised pointer;
   with the intended copy they reach the connection that ran the query.
   */
  lemma ReturnedByCopy(c: Connections.Connection, vm: Handle, a1: seq<Attempt>, a2: seq<Attempt>,
                       columns: seq<string>, s1: Status, s2: Status)
    requires c.db.Some?
    requires Execute(ConnectionQuery, c.maxRetry, a1).end.Finished?
    ensures var q := Connections.ExecQuery(c, Connections.Compiled(vm), a1, columns, s1).outcome.value;
            var r := Queries.NextRowAsWritten(Queries.CopyAsWritten(q).dst, a2, s2);
            |r.rollbacks| == |Execute(QueryStep, c.maxRetry, a2).rollbacks|
            && forall i :: 0 <= i < |r.rollbacks| ==> r.rollbacks[i] == Indeterminate
    ensures var q := Connections.ExecQuery(c, Connections.Compiled(vm), a1, columns, s1).outcome.value;
            var r := Queries.NextRow(Queries.Copy(q).dst, a2, s2);
            forall i :: 0 <= i < |r.rollbacks| ==> r.rollbacks[i] == Connected(c.db.value)
  {
  }
}
