/**
 The vocabulary shared by the wrapper classes: the engine's result codes, the
 wrapper's own error reasons, the exceptions the classes throw and the handles
 they pass around. The engine itself is foreign code, so whatever it answers
 reaches the model as a parameter.
 */
module Engine {

  /** The wrapper's own error code, `CPPSQLITE_ERROR`. */
  const CppSqliteError: int := 10000

  /**
   The engine result codes the wrapper distinguishes, and all others;
   `Other(code)` carries the engine's number for the code. `open` switches
   extended result codes on, so an extended code such as BUSY_SNAPSHOT,
   LOCKED_SHAREDCACHE or IOERR_READ, which the loops' equality tests against
   BUSY, LOCKED and IOERR do not match, arrives as `Other`.
   */
  datatype Status =
    | Ok
    | Row
    | Done
    | Busy
    | Locked
    | Full
    | IoErr
    | NoMem
    | Interrupt
    | Other(code: int)

  /** SQLITE_MISUSE, which `sqlite3_step` answers when handed a NULL statement. */
  const Misuse: Status := Other(21)

  /** BUSY or LOCKED: the codes the retry loops may retry. */
  predicate IsContention(s: Status) {
    s == Busy || s == Locked
  }

  /** The codes after which the retry loops roll back before throwing. */
  predicate IsFatal(s: Status) {
    s == Full || s == IoErr || s == NoMem || s == Busy || s == Interrupt
  }

  /** Why the wrapper itself throws `CPPSQLITE_ERROR`. */
  datatype Reason =
    | NullVirtualMachine
    | DatabaseNotOpen
    | InvalidFieldIndex
    | InvalidFieldName
    | NullResults
    | InvalidRowIndex
    | CannotDecodeBinary

  /** A `CppSQLite3Exception`: an engine code, or `CPPSQLITE_ERROR` with a reason. */
  datatype Exception = EngineError(status: Status) | WrapperError(reason: Reason)

  /**
   The code `errorCode()` reports. Engine codes are numbered by the engine's
   header, which is not part of this model, so `numbering` supplies them.
   */
  function ErrorCode(x: Exception, numbering: Status -> int): (code: int)
    ensures x.WrapperError? ==> code == CppSqliteError
    ensures x.EngineError? ==> code == numbering(x.status)
  {
    match x
    case EngineError(s) => numbering(s)
    case WrapperError(_) => CppSqliteError
  }

  /** An engine object (`sqlite3*`, `sqlite3_stmt*`, result table) by identity. */
  type Handle = nat

  datatype Option<T> = None | Some(value: T)

  /**
   A connection pointer as an object stores it: a connection, NULL, or a
   member that was never initialised and holds whatever was in memory.
   */
  datatype DbRef = Connected(db: Handle) | NoDb | Indeterminate

  /**
   The outcome of a wrapper call: a value, a thrown exception, or `Pending`
   when the engine answers given to the model ran out before the call ended.
   */
  datatype Outcome<T> = Returned(value: T) | Threw(error: Exception) | Pending

  /**
   What a member call did: the object's new state, the engine objects it
   handed back (`sqlite3_finalize`, `sqlite3_free_table`, `sqlite3_close_v2`),
   the connections it sent a ROLLBACK to, in order, and how it ended.
   */
  datatype Effect<S, T> = Effect(state: S, released: seq<Handle>, rollbacks: seq<DbRef>, outcome: Outcome<T>)

  /** `checkVM()` of a query or a statement: a NULL statement handle throws CPPSQLITE_ERROR. */
  function CheckVM(vm: Option<Handle>): (x: Option<Exception>)
    ensures x.Some? <==> vm.None?
    ensures x.Some? ==> x.value == WrapperError(NullVirtualMachine)
  {
    if vm.None? then Some(WrapperError(NullVirtualMachine)) else None
  }

  /** The handle a pointer member holds, as a multiset of zero or one handles. */
  function HeldBy(p: Option<Handle>): multiset<Handle> {
    if p.Some? then multiset{p.value} else multiset{}
  }
}
