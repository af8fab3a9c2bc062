/**
 `CppSQLite3Query`: a cursor over a prepared statement's rows. It holds the
 statement handle `mpVM`, which it finalizes itself only when `mbOwnVM` is
 set. Copying moves the handle and nulls it in the source.
 */
module Queries {
  import opened Engine
  import opened Retries

  /**
   The members of a `CppSQLite3Query`. `columns` stands for the column names
   the engine reports for the statement, so `mnCols` is their number.
   */
  datatype Query = Query(
    db: DbRef,
    vm: Option<Handle>,
    eof: bool,
    columns: seq<string>,
    ownVM: bool,
    maxRetry: int,
    retryUs: int)

  /** The default retry settings every wrapper object starts with. */
  const DefaultMaxRetry: int := 5
  const DefaultRetryUs: int := 5000

  /** The default constructor, which does not initialise `mpDB`. */
  const Empty: Query := Query(Indeterminate, None, true, [], false, DefaultMaxRetry, DefaultRetryUs)

  /** The four-argument constructor; `bOwnVM` defaults to true. */
  function Make(db: DbRef, vm: Handle, eof: bool, columns: seq<string>, ownVM: bool := true): (q: Query)
    ensures q.vm == Some(vm) && q.db == db && q.eof == eof && q.columns == columns
    ensures q.ownVM == ownVM
    ensures q.maxRetry == DefaultMaxRetry && q.retryUs == DefaultRetryUs
  {
    Query(db, Some(vm), eof, columns, ownVM, DefaultMaxRetry, DefaultRetryUs)
  }

  /** A query built without an explicit ownership flag owns its handle. */
  lemma MakeOwnsByDefault(db: DbRef, vm: Handle, eof: bool, columns: seq<string>)
    ensures Make(db, vm, eof, columns).ownVM
    ensures !Make(db, vm, eof, columns, false).ownVM
  {
  }

  /** The handles a query will finalize itself. */
  function Owned(q: Query): multiset<Handle> {
    if q.ownVM then HeldBy(q.vm) else multiset{}
  }

  // ---------------------------------------------------------------------------
  // Guards

  /** `checkFieldIndex(n)`. */
  function CheckFieldIndex(q: Query, n: int): (x: Option<Exception>)
    ensures x.Some? <==> (n < 0 || n > |q.columns| - 1)
    ensures x.None? <==> 0 <= n < |q.columns|
    ensures x.Some? ==> x.value == WrapperError(InvalidFieldIndex)
  {
    if n < 0 || n > |q.columns| - 1 then Some(WrapperError(InvalidFieldIndex)) else None
  }

  // ---------------------------------------------------------------------------
  // Moving the handle

  /** The two objects after a copy: the new one and the source. */
  datatype Moved = Moved(dst: Query, src: Query)

  /**
   The copy constructor as written: the new object takes the handle and
   every member except `mpDB`, which is left uninitialised.
   */
  function CopyAsWritten(src: Query): (m: Moved)
    ensures m.src.vm.None? && m.dst.vm == src.vm
    ensures HeldBy(m.dst.vm) + HeldBy(m.src.vm) == HeldBy(src.vm)
    ensures m.dst.db == Indeterminate
    ensures m.dst == src.(db := m.dst.db) && m.src == src.(vm := m.src.vm)
  {
    Moved(src.(db := Indeterminate), src.(vm := None))
  }

  /** The copy constructor as intended: the connection is copied as well. */
  function Copy(src: Query): (m: Moved)
    ensures m.src.vm.None? && m.dst.vm == src.vm
    ensures HeldBy(m.dst.vm) + HeldBy(m.src.vm) == HeldBy(src.vm)
    ensures m.dst == src && m.src == src.(vm := m.src.vm)
  {
    Moved(src, src.(vm := None))
  }

  /**
   `finalize()`: finalizes the handle only when there is one and the query
   owns it; an engine error is thrown after the handle is nulled. A query
   that does not own its handle keeps it.
   */
  function Finalize(q: Query, status: Status): (r: Effect<Query, ()>)
    ensures r.state.vm.None? || r.state.vm == q.vm
    ensures multiset(r.released) == Owned(q)
    ensures HeldBy(r.state.vm) + multiset(r.released) == HeldBy(q.vm)
    ensures r.state == q.(vm := r.state.vm) && r.rollbacks == []
    ensures r.outcome.Threw? <==> Owned(q) != multiset{} && status != Ok
    ensures r.outcome.Threw? ==> r.outcome.error == EngineError(status)
    ensures !r.outcome.Pending?
  {
    if q.vm.Some? && q.ownVM then
      Effect(q.(vm := None), [q.vm.value], [], if status == Ok then Returned(()) else Threw(EngineError(status)))
    else
      Effect(q, [], [], Returned(()))
  }

  /** A second `finalize()` hands nothing back, so an owned handle is finalized once. */
  lemma FinalizeOnce(q: Query, s1: Status, s2: Status)
    ensures var r1 := Finalize(q, s1);
            var r2 := Finalize(r1.state, s2);
            |r1.released + r2.released| <= 1 && (q.ownVM ==> r2.released == [])
  {
  }

  /**
   `operator=` as written: the destination finalizes its own handle (any error
   is swallowed), then takes the source's members except `mpDB`, which keeps
   the destination's old connection.
   */
  function AssignAsWritten(dst: Query, src: Query, status: Status): (r: Effect<Moved, ()>)
    ensures r.released == Finalize(dst, status).released
    ensures r.state.src == src.(vm := None)
    ensures r.state.dst == src.(db := dst.db)
    ensures r.outcome == Returned(())
  {
    var f := Finalize(dst, status);
    Effect(Moved(src.(db := dst.db), src.(vm := None)), f.released, [], Returned(()))
  }

  /** `operator=` as intended: the connection moves with the handle. */
  function Assign(dst: Query, src: Query, status: Status): (r: Effect<Moved, ()>)
    ensures r.released == Finalize(dst, status).released
    ensures multiset(r.released) == Owned(dst)
    ensures r.state.src == src.(vm := None) && r.state.dst == src
    ensures r.outcome == Returned(())
  {
    var f := Finalize(dst, status);
    Effect(Moved(src, src.(vm := None)), f.released, [], Returned(()))
  }

  /**
   `q = q`: `finalize()` runs on the object that is also the source, so the
   handle is finalized if owned, and the final nulling of the source's
   pointer nulls the query's own. Only the handle changes.
   */
  function SelfAssign(q: Query, status: Status): (r: Effect<Query, ()>)
    ensures r.state.vm.None? && r.state == q.(vm := None)
    ensures multiset(r.released) == Owned(q)
    ensures r.outcome == Returned(()) && r.rollbacks == []
  {
    var f := Finalize(q, status);
    Effect(CopyAsWritten(f.state).src, f.released, [], Returned(()))
  }

  /**
   Self-assignment is not assignment between two objects: a query holding
   a handle loses it, where assigning an equal, separate query keeps it.
   */
  lemma SelfAssignLosesHandle(q: Query, status: Status)
    requires q.vm.Some?
    ensures SelfAssign(q, status).state.vm.None?
    ensures AssignAsWritten(q, q, status).state.dst.vm == q.vm
  {
  }

  // ---------------------------------------------------------------------------
  // Accessors

  function NumFields(q: Query): (r: Outcome<int>)
    ensures r.Returned? <==> q.vm.Some?
    ensures r.Returned? ==> r.value == |q.columns|
    ensures r.Threw? ==> r.error == WrapperError(NullVirtualMachine)
  {
    if CheckVM(q.vm).Some? then Threw(CheckVM(q.vm).value) else Returned(|q.columns|)
  }

  function Eof(q: Query): (r: Outcome<bool>)
    ensures r.Returned? <==> q.vm.Some?
    ensures r.Returned? ==> r.value == q.eof
    ensures r.Threw? ==> r.error == WrapperError(NullVirtualMachine)
  {
    if CheckVM(q.vm).Some? then Threw(CheckVM(q.vm).value) else Returned(q.eof)
  }

  /** `fieldName(n)`: both guards, then the engine's column name. */
  function FieldName(q: Query, n: int): (r: Outcome<string>)
    ensures r.Returned? <==> q.vm.Some? && 0 <= n < |q.columns|
    ensures r.Returned? ==> r.value == q.columns[n]
    ensures q.vm.None? ==> r == Threw(WrapperError(NullVirtualMachine))
    ensures q.vm.Some? && !(0 <= n < |q.columns|) ==> r == Threw(WrapperError(InvalidFieldIndex))
  {
    if CheckVM(q.vm).Some? then Threw(CheckVM(q.vm).value)
    else if CheckFieldIndex(q, n).Some? then Threw(CheckFieldIndex(q, n).value)
    else Returned(q.columns[n])
  }

  /** The first index at or after `i` whose column is named `name`. */
  function FindColumn(columns: seq<string>, name: string, i: nat): (r: Option<nat>)
    requires i <= |columns|
    ensures r.Some? ==> i <= r.value < |columns| && columns[r.value] == name
    ensures r.Some? ==> forall j :: i <= j < r.value ==> columns[j] != name
    ensures r.None? ==> forall j :: i <= j < |columns| ==> columns[j] != name
    decreases |columns| - i
  {
    if i == |columns| then None
    else if columns[i] == name then Some(i)
    else FindColumn(columns, name, i + 1)
  }

  /**
   `fieldIndex(name)`: the first column whose name equals a non-empty
   `name`; otherwise CPPSQLITE_ERROR.
   */
  function FieldIndex(q: Query, name: string): (r: Outcome<int>)
    ensures q.vm.None? ==> r == Threw(WrapperError(NullVirtualMachine))
    ensures q.vm.Some? ==>
              (r.Returned? <==> name != [] && name in q.columns)
              && (r.Returned? ==> 0 <= r.value < |q.columns| && q.columns[r.value] == name
                                  && forall j :: 0 <= j < r.value ==> q.columns[j] != name)
              && (r.Threw? ==> r.error == WrapperError(InvalidFieldName))
    ensures !r.Pending?
  {
    if CheckVM(q.vm).Some? then Threw(CheckVM(q.vm).value)
    else if name == [] then Threw(WrapperError(InvalidFieldName))
    else
      match FindColumn(q.columns, name, 0)
      case Some(i) => Returned(i)
      case None => Threw(WrapperError(InvalidFieldName))
  }

  // ---------------------------------------------------------------------------
  // Stepping

  /** The ROLLBACKs of a run, all sent to the query's connection. */
  function RollbacksTo(db: DbRef, r: Run): (t: seq<DbRef>)
    ensures |t| == |r.rollbacks| && forall i :: 0 <= i < |t| ==> t[i] == db
  {
    seq(|r.rollbacks|, _ => db)
  }

  /**
   `nextRow()` as written: steps with retries; DONE sets `eof`, ROW changes
   nothing; any other end rolls back as the loop says, then finalizes the
   handle WHETHER OR NOT the query owns it, nulls it, and throws the code
   `sqlite3_finalize` returned.
   */
  function NextRowAsWritten(q: Query, answers: seq<Attempt>, finalizeStatus: Status): (r: Effect<Query, ()>)
    ensures q.vm.None? ==> r == Effect(q, [], [], Threw(WrapperError(NullVirtualMachine)))
    ensures q.vm.Some? ==>
              var run := Execute(QueryStep, q.maxRetry, answers);
              r.rollbacks == RollbacksTo(q.db, run)
              && (run.end == Finished(Done) ==> r.state == q.(eof := true) && r.outcome == Returned(()) && r.released == [])
              && (run.end == Finished(Row) ==> r.state == q && r.outcome == Returned(()) && r.released == [])
              && (run.end.Failed? ==> r.state == q.(vm := None) && r.released == [q.vm.value]
                                      && r.outcome == Threw(EngineError(finalizeStatus)))
              && (run.end.Exhausted? ==> r.outcome.Pending?)
  {
    if CheckVM(q.vm).Some? then Effect(q, [], [], Threw(CheckVM(q.vm).value))
    else
      var run := Execute(QueryStep, q.maxRetry, answers);
      var rb := RollbacksTo(q.db, run);
      match run.end
      case Finished(s) =>
        if s == Done then Effect(q.(eof := true), [], rb, Returned(()))
        else Effect(q, [], rb, Returned(()))
      case Failed(_) => Effect(q.(vm := None), [q.vm.value], rb, Threw(EngineError(finalizeStatus)))
      case Exhausted => Effect(q, [], rb, Pending)
  }

  /**
   `nextRow()` as intended: on failure the handle is finalized only if the
   query owns it; a borrowed handle is left to its statement, and the step's
   own code is thrown.
   */
  function NextRow(q: Query, answers: seq<Attempt>, finalizeStatus: Status): (r: Effect<Query, ()>)
    ensures multiset(r.released) <= Owned(q)
    ensures q.vm.Some? ==>
              var run := Execute(QueryStep, q.maxRetry, answers);
              r.rollbacks == RollbacksTo(q.db, run)
              && (run.end == Finished(Done) ==> r.state == q.(eof := true) && r.outcome == Returned(()))
              && (run.end == Finished(Row) ==> r.state == q && r.outcome == Returned(()))
              && (run.end.Failed? ==> r.state == q.(vm := None) && multiset(r.released) == Owned(q)
                                      && r.outcome.Threw?)
              && (run.end.Exhausted? ==> r.outcome.Pending?)
    ensures q.vm.None? ==> r.outcome == Threw(WrapperError(NullVirtualMachine))
  {
    if CheckVM(q.vm).Some? then Effect(q, [], [], Threw(CheckVM(q.vm).value))
    else
      var run := Execute(QueryStep, q.maxRetry, answers);
      var rb := RollbacksTo(q.db, run);
      match run.end
      case Finished(s) =>
        if s == Done then Effect(q.(eof := true), [], rb, Returned(()))
        else Effect(q, [], rb, Returned(()))
      case Failed(s) =>
        if q.ownVM then Effect(q.(vm := None), [q.vm.value], rb, Threw(EngineError(finalizeStatus)))
        else Effect(q.(vm := None), [], rb, Threw(EngineError(s)))
      case Exhausted => Effect(q, [], rb, Pending)
  }

  /** Once the handle has moved away, every accessor of the source throws. */
  lemma MovedFromIsDead(src: Query, n: int, name: string, answers: seq<Attempt>, s: Status)
    ensures var q := CopyAsWritten(src).src;
            NumFields(q).Threw? && Eof(q).Threw? && FieldName(q, n).Threw?
            && FieldIndex(q, name).Threw? && NextRowAsWritten(q, answers, s).outcome.Threw?
            && Finalize(q, s).released == []
  {
  }
}
