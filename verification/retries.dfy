/**
 The retry loop that `CppSQLite3DB::execDML`, `CppSQLite3DB::execQuery`,
 `CppSQLite3Statement::execQuery`, `CppSQLite3Query::nextRow` and
 `CppSQLite3DB::backupOrRestore` each spell out: ask the engine, stop on
 success, retry BUSY and LOCKED while `tries < mnMaxRetryCount`, otherwise
 give up, in the rolling-back loops after calling `rollback()`.

 The loop is driven by the sequence of engine answers; `RunFrom` is the loop
 as the code runs it, and `Absorbed` / `RollsBackAt` / `RollbackIndices`
 describe the same run answer by answer, without the recursion.
 */
module Retries {
  import opened Engine

  /**
   One engine answer, with the value `sqlite3_get_autocommit` would give if
   `rollback()` asked right after it (false: a transaction is open).
   */
  datatype Attempt = Attempt(status: Status, autocommit: bool)

  /** The five loops of the wrapper. */
  datatype Loop = ConnectionDml | ConnectionQuery | StatementQuery | QueryStep | BackupStep

  /** The answers that end a loop normally. */
  predicate Succeeds(loop: Loop, s: Status) {
    match loop
    case ConnectionDml => s == Ok
    case BackupStep => s == Done
    case _ => s == Done || s == Row
  }

  /** The backup loop treats OK as "more pages to copy" and asks again without counting a try. */
  predicate MoreWork(loop: Loop, s: Status) {
    loop == BackupStep && s == Ok
  }

  /** The loops that call `rollback()`; the statement and backup loops do not. */
  predicate RollsBack(loop: Loop) {
    loop == ConnectionDml || loop == ConnectionQuery || loop == QueryStep
  }

  datatype End = Finished(status: Status) | Failed(status: Status) | Exhausted

  /**
   A run: how many answers it consumed, after which answers `rollback()`
   issued a ROLLBACK, and how it ended.
   */
  datatype Run = Run(used: nat, rollbacks: seq<nat>, end: End)

  /** Strictly increasing, and all within [lo, hi). */
  predicate IndicesIn(s: seq<nat>, lo: nat, hi: nat) {
    (forall j :: 0 <= j < |s| ==> lo <= s[j] < hi)
    && (forall j :: 0 < j < |s| ==> s[j - 1] < s[j])
  }

  lemma IndicesCons(here: seq<nat>, s: seq<nat>, k: nat, hi: nat)
    requires here == [] || here == [k]
    requires IndicesIn(s, k + 1, hi) && k < hi
    ensures IndicesIn(here + s, k, hi)
  {
    if here == [k] {
      var t := here + s;
      forall j | 0 < j < |t|
        ensures t[j - 1] < t[j]
      {
        if j > 1 {
          assert t[j - 1] == s[j - 2] && t[j] == s[j - 1];
        } else {
          assert t[j] == s[0];
        }
      }
    } else {
      assert here + s == s;
    }
  }

  /** The loop from answer `k` on, with `tries` retries already taken. */
  function RunFrom(loop: Loop, maxRetry: int, answers: seq<Attempt>, k: nat, tries: nat): (r: Run)
    requires k <= |answers|
    ensures k <= r.used <= |answers|
    ensures r.end.Exhausted? ==> r.used == |answers|
    ensures !r.end.Exhausted? ==> k < r.used && answers[r.used - 1].status == r.end.status
    decreases |answers| - k
  {
    if k == |answers| then Run(k, [], Exhausted)
    else
      var a := answers[k];
      if Succeeds(loop, a.status) then Run(k + 1, [], Finished(a.status))
      else if MoreWork(loop, a.status) then RunFrom(loop, maxRetry, answers, k + 1, tries)
      else if IsContention(a.status) && tries < maxRetry then
        var rest := RunFrom(loop, maxRetry, answers, k + 1, tries + 1);
        var here := if RollsBack(loop) && a.status == Busy && !a.autocommit then [k] else [];
        rest.(rollbacks := here + rest.rollbacks)
      else
        var here := if RollsBack(loop) && IsFatal(a.status) && !a.autocommit then [k] else [];
        Run(k + 1, here, Failed(a.status))
  }

  /** A whole loop, from the first answer with `tries = 0`. */
  function Execute(loop: Loop, maxRetry: int, answers: seq<Attempt>): (r: Run)
    ensures r.used <= |answers|
    ensures r.end.Exhausted? ==> r.used == |answers|
    ensures !r.end.Exhausted? ==> 0 < r.used && answers[r.used - 1].status == r.end.status
  {
    RunFrom(loop, maxRetry, answers, 0, 0)
  }

  /** A run's ROLLBACKs follow distinct answers it used, in order. */
  lemma {:induction false} RunFromOrdered(loop: Loop, maxRetry: int, answers: seq<Attempt>, k: nat, tries: nat)
    requires k <= |answers|
    ensures var r := RunFrom(loop, maxRetry, answers, k, tries);
            IndicesIn(r.rollbacks, k, r.used)
    decreases |answers| - k
  {
    if k < |answers| {
      var a := answers[k];
      if !Succeeds(loop, a.status) && (MoreWork(loop, a.status) || (IsContention(a.status) && tries < maxRetry)) {
        var t := if MoreWork(loop, a.status) then tries else tries + 1;
        RunFromOrdered(loop, maxRetry, answers, k + 1, t);
        RunFromPasses(loop, maxRetry, answers, k, tries);
        RunFromPassesRollbacks(loop, maxRetry, answers, k, tries);
        var r := RunFrom(loop, maxRetry, answers, k, tries);
        var rest := RunFrom(loop, maxRetry, answers, k + 1, t);
        var here := if RollsBack(loop) && a.status == Busy && !a.autocommit then [k] else [];
        assert r.rollbacks == here + rest.rollbacks && r.used == rest.used;
        IndicesCons(here, rest.rollbacks, k, rest.used);
      }
    }
  }

  /** The index of the answer that ended the run, or the number of answers if none did. */
  function StopIndex(r: Run): int {
    if r.end.Exhausted? then r.used else r.used - 1
  }

  // ----- The run described answer by answer -----

  /** The number of BUSY or LOCKED answers in `s`. */
  function Contentions(s: seq<Attempt>): nat {
    if |s| == 0 then 0
    else Contentions(s[..|s| - 1]) + (if IsContention(s[|s| - 1].status) then 1 else 0)
  }

  /** Answer `i` does not end the loop, given that no earlier one did. */
  predicate Absorbed(loop: Loop, maxRetry: int, answers: seq<Attempt>, i: nat)
    requires i < |answers|
  {
    var s := answers[i].status;
    MoreWork(loop, s) || (IsContention(s) && Contentions(answers[..i]) < maxRetry)
  }

  /**
   A ROLLBACK follows answer `i`: the loop rolls back, a transaction is open,
   and the answer is a retried BUSY or a final fatal code.
   */
  predicate RollsBackAt(loop: Loop, maxRetry: int, answers: seq<Attempt>, i: nat)
    requires i < |answers|
  {
    var a := answers[i];
    RollsBack(loop) && !a.autocommit
    && (if Absorbed(loop, maxRetry, answers, i) then a.status == Busy else IsFatal(a.status))
  }

  /** The indices in [lo, hi) after which a ROLLBACK is issued, in order. */
  function RollbackIndices(loop: Loop, maxRetry: int, answers: seq<Attempt>, lo: nat, hi: nat): seq<nat>
    requires lo <= hi <= |answers|
    decreases hi - lo
  {
    if lo == hi then []
    else (if RollsBackAt(loop, maxRetry, answers, lo) then [lo] else [])
         + RollbackIndices(loop, maxRetry, answers, lo + 1, hi)
  }

  lemma ContentionsSnoc(s: seq<Attempt>, k: nat)
    requires k < |s|
    ensures Contentions(s[..k + 1]) == Contentions(s[..k]) + (if IsContention(s[k].status) then 1 else 0)
  {
    assert s[..k + 1][..k] == s[..k];
  }

  /** The answers before the one that ends the run are all absorbed. */
  lemma {:induction false} RunFromAbsorbs(loop: Loop, maxRetry: int, answers: seq<Attempt>, k: nat, tries: nat)
    requires k <= |answers|
    requires tries == Contentions(answers[..k])
    ensures forall i :: k <= i < StopIndex(RunFrom(loop, maxRetry, answers, k, tries)) ==>
              Absorbed(loop, maxRetry, answers, i)
    decreases |answers| - k
  {
    if k < |answers| {
      var a := answers[k];
      if !Succeeds(loop, a.status) && (MoreWork(loop, a.status) || (IsContention(a.status) && tries < maxRetry)) {
        var t := if MoreWork(loop, a.status) then tries else tries + 1;
        ContentionsSnoc(answers, k);
        RunFromAbsorbs(loop, maxRetry, answers, k + 1, t);
        RunFromPasses(loop, maxRetry, answers, k, tries);
        var r := RunFrom(loop, maxRetry, answers, k, tries);
        var rest := RunFrom(loop, maxRetry, answers, k + 1, t);
        assert StopIndex(r) == StopIndex(rest);
        assert Absorbed(loop, maxRetry, answers, k);
      } else {
        RunFromHalts(loop, maxRetry, answers, k, tries);
      }
    }
  }

  /** The answer that ends the run is not absorbed. */
  lemma {:induction false} RunFromStops(loop: Loop, maxRetry: int, answers: seq<Attempt>, k: nat, tries: nat)
    requires k <= |answers|
    requires tries == Contentions(answers[..k])
    ensures var r := RunFrom(loop, maxRetry, answers, k, tries);
            !r.end.Exhausted? ==> !Absorbed(loop, maxRetry, answers, r.used - 1)
    decreases |answers| - k, 1
  {
    if k < |answers| {
      var a := answers[k];
      if !Succeeds(loop, a.status) && (MoreWork(loop, a.status) || (IsContention(a.status) && tries < maxRetry)) {
        RunFromStopsLater(loop, maxRetry, answers, k, tries);
      } else {
        RunFromHalts(loop, maxRetry, answers, k, tries);
        assert !Absorbed(loop, maxRetry, answers, k);
      }
    }
  }

  lemma {:induction false} RunFromStopsLater(loop: Loop, maxRetry: int, answers: seq<Attempt>, k: nat, tries: nat)
    requires k < |answers|
    requires tries == Contentions(answers[..k])
    requires !Succeeds(loop, answers[k].status)
    requires MoreWork(loop, answers[k].status) || (IsContention(answers[k].status) && tries < maxRetry)
    ensures var r := RunFrom(loop, maxRetry, answers, k, tries);
            !r.end.Exhausted? ==> !Absorbed(loop, maxRetry, answers, r.used - 1)
    decreases |answers| - k, 0
  {
    var t := if MoreWork(loop, answers[k].status) then tries else tries + 1;
    ContentionsSnoc(answers, k);
    RunFromStops(loop, maxRetry, answers, k + 1, t);
    RunFromPasses(loop, maxRetry, answers, k, tries);
    var r := RunFrom(loop, maxRetry, answers, k, tries);
    var rest := RunFrom(loop, maxRetry, answers, k + 1, t);
    assert r.used == rest.used && r.end == rest.end;
  }

  /** An answer the loop does not absorb ends the run right there. */
  lemma RunFromHalts(loop: Loop, maxRetry: int, answers: seq<Attempt>, k: nat, tries: nat)
    requires k < |answers|
    requires Succeeds(loop, answers[k].status)
             || !(MoreWork(loop, answers[k].status) || (IsContention(answers[k].status) && tries < maxRetry))
    ensures var r := RunFrom(loop, maxRetry, answers, k, tries);
            r.used == k + 1 && !r.end.Exhausted?
  {
  }

  /** An answer the loop absorbs hands the rest of the run to the next answer. */
  lemma RunFromPasses(loop: Loop, maxRetry: int, answers: seq<Attempt>, k: nat, tries: nat)
    requires k < |answers|
    requires !Succeeds(loop, answers[k].status)
    requires MoreWork(loop, answers[k].status) || (IsContention(answers[k].status) && tries < maxRetry)
    ensures var t := if MoreWork(loop, answers[k].status) then tries else tries + 1;
            var r := RunFrom(loop, maxRetry, answers, k, tries);
            var rest := RunFrom(loop, maxRetry, answers, k + 1, t);
            r.used == rest.used && r.end == rest.end
  {
  }

  /** An answer the loop absorbs adds a ROLLBACK exactly when it is a BUSY inside a transaction. */
  lemma RunFromPassesRollbacks(loop: Loop, maxRetry: int, answers: seq<Attempt>, k: nat, tries: nat)
    requires k < |answers|
    requires !Succeeds(loop, answers[k].status)
    requires MoreWork(loop, answers[k].status) || (IsContention(answers[k].status) && tries < maxRetry)
    ensures var t := if MoreWork(loop, answers[k].status) then tries else tries + 1;
            var r := RunFrom(loop, maxRetry, answers, k, tries);
            var rest := RunFrom(loop, maxRetry, answers, k + 1, t);
            r.rollbacks == (if RollsBack(loop) && answers[k].status == Busy && !answers[k].autocommit then [k] else [])
                           + rest.rollbacks
  {
  }

  /** A run finishes exactly when the answer that ends it is a success code. */
  lemma {:induction false} RunFromFinishes(loop: Loop, maxRetry: int, answers: seq<Attempt>, k: nat, tries: nat)
    requires k <= |answers|
    ensures var r := RunFrom(loop, maxRetry, answers, k, tries);
            !r.end.Exhausted? ==> (r.end.Finished? <==> Succeeds(loop, r.end.status))
    decreases |answers| - k
  {
    if k < |answers| {
      var a := answers[k];
      if Succeeds(loop, a.status) {
      } else if MoreWork(loop, a.status) {
        RunFromFinishes(loop, maxRetry, answers, k + 1, tries);
      } else if IsContention(a.status) && tries < maxRetry {
        RunFromFinishes(loop, maxRetry, answers, k + 1, tries + 1);
      }
    }
  }

  /** The run's rollbacks are exactly the `RollsBackAt` indices among the answers it used. */
  lemma {:induction false} RunFromRollbacks(loop: Loop, maxRetry: int, answers: seq<Attempt>, k: nat, tries: nat)
    requires k <= |answers|
    requires tries == Contentions(answers[..k])
    ensures var r := RunFrom(loop, maxRetry, answers, k, tries);
            r.rollbacks == RollbackIndices(loop, maxRetry, answers, k, r.used)
    decreases |answers| - k
  {
    if k < |answers| {
      var a := answers[k];
      if Succeeds(loop, a.status) {
        assert !RollsBackAt(loop, maxRetry, answers, k);
      } else if MoreWork(loop, a.status) || (IsContention(a.status) && tries < maxRetry) {
        var t := if MoreWork(loop, a.status) then tries else tries + 1;
        ContentionsSnoc(answers, k);
        RunFromRollbacks(loop, maxRetry, answers, k + 1, t);
        RunFromPasses(loop, maxRetry, answers, k, tries);
        RunFromPassesRollbacks(loop, maxRetry, answers, k, tries);
        assert Absorbed(loop, maxRetry, answers, k);
      } else {
        assert !Absorbed(loop, maxRetry, answers, k);
      }
    }
  }

  /**
   A run consumes answers up to the first one that is not absorbed, ends
   with that answer's code (Finished exactly when it is a success code),
   and issues a ROLLBACK exactly after the answers `RollsBackAt` names.
   */
  lemma ExecuteCharacterised(loop: Loop, maxRetry: int, answers: seq<Attempt>)
    ensures var r := Execute(loop, maxRetry, answers);
            (forall i :: 0 <= i < StopIndex(r) ==> Absorbed(loop, maxRetry, answers, i))
            && (!r.end.Exhausted? ==>
                  !Absorbed(loop, maxRetry, answers, r.used - 1)
                  && (r.end.Finished? <==> Succeeds(loop, r.end.status)))
            && r.rollbacks == RollbackIndices(loop, maxRetry, answers, 0, r.used)
  {
    assert answers[..0] == [];
    RunFromAbsorbs(loop, maxRetry, answers, 0, 0);
    RunFromStops(loop, maxRetry, answers, 0, 0);
    RunFromFinishes(loop, maxRetry, answers, 0, 0);
    RunFromRollbacks(loop, maxRetry, answers, 0, 0);
  }

  function Max0(x: int): nat {
    if x < 0 then 0 else x
  }

  lemma {:induction false} PrefixRetries(loop: Loop, maxRetry: int, answers: seq<Attempt>, m: nat)
    requires m <= |answers|
    requires forall i :: 0 <= i < m ==> Absorbed(loop, maxRetry, answers, i)
    ensures Contentions(answers[..m]) <= Max0(maxRetry)
    ensures loop != BackupStep ==> Contentions(answers[..m]) == m
  {
    if m > 0 {
      PrefixRetries(loop, maxRetry, answers, m - 1);
      ContentionsSnoc(answers, m - 1);
      assert Absorbed(loop, maxRetry, answers, m - 1);
    } else {
      assert answers[..0] == [];
    }
  }

  /**
   At most `mnMaxRetryCount` BUSY/LOCKED answers are retried (none when it is
   negative), so every loop but the backup asks the engine at most
   `mnMaxRetryCount + 1` times.
   */
  lemma RetryBound(loop: Loop, maxRetry: int, answers: seq<Attempt>)
    ensures var r := Execute(loop, maxRetry, answers);
            0 <= StopIndex(r) <= |answers|
            && Contentions(answers[..StopIndex(r)]) <= Max0(maxRetry)
            && (loop != BackupStep ==> r.used <= Max0(maxRetry) + 1)
  {
    var r := Execute(loop, maxRetry, answers);
    ExecuteCharacterised(loop, maxRetry, answers);
    PrefixRetries(loop, maxRetry, answers, StopIndex(r));
  }

  lemma {:induction false} RollbackIndicesEmpty(loop: Loop, maxRetry: int, answers: seq<Attempt>, lo: nat, hi: nat)
    requires lo <= hi <= |answers|
    requires !RollsBack(loop) || forall i :: lo <= i < hi ==> answers[i].autocommit
    ensures RollbackIndices(loop, maxRetry, answers, lo, hi) == []
    decreases hi - lo
  {
    if lo < hi {
      RollbackIndicesEmpty(loop, maxRetry, answers, lo + 1, hi);
    }
  }

  /** The statement and backup loops never issue a ROLLBACK. */
  lemma NoRollbackOutsideRollingLoops(loop: Loop, maxRetry: int, answers: seq<Attempt>)
    requires !RollsBack(loop)
    ensures Execute(loop, maxRetry, answers).rollbacks == []
  {
    ExecuteCharacterised(loop, maxRetry, answers);
    RollbackIndicesEmpty(loop, maxRetry, answers, 0, Execute(loop, maxRetry, answers).used);
  }

  /** `rollback()` issues nothing while the engine reports autocommit mode. */
  lemma NoRollbackInAutocommit(loop: Loop, maxRetry: int, answers: seq<Attempt>)
    requires forall i :: 0 <= i < |answers| ==> answers[i].autocommit
    ensures Execute(loop, maxRetry, answers).rollbacks == []
  {
    ExecuteCharacterised(loop, maxRetry, answers);
    RollbackIndicesEmpty(loop, maxRetry, answers, 0, Execute(loop, maxRetry, answers).used);
  }

  lemma {:induction false} RollbackIndicesCauses(loop: Loop, maxRetry: int, answers: seq<Attempt>, lo: nat, hi: nat)
    requires lo <= hi <= |answers|
    ensures forall j :: 0 <= j < |RollbackIndices(loop, maxRetry, answers, lo, hi)| ==>
              var i := RollbackIndices(loop, maxRetry, answers, lo, hi)[j];
              lo <= i < hi && RollsBackAt(loop, maxRetry, answers, i)
    decreases hi - lo
  {
    if lo < hi {
      RollbackIndicesCauses(loop, maxRetry, answers, lo + 1, hi);
    }
  }

  /**
   Why a ROLLBACK after answer `i` of run `r` is justified: the loop rolls
   back, a transaction is open, and the answer is a retried BUSY (never
   LOCKED) or the final, fatal answer that made the run fail.
   */
  predicate Justified(loop: Loop, answers: seq<Attempt>, r: Run, i: int) {
    0 <= i < |answers| && RollsBack(loop) && !answers[i].autocommit
    && (i < StopIndex(r) ==> answers[i].status == Busy)
    && (i == StopIndex(r) ==> IsFatal(answers[i].status) && r.end == Failed(answers[i].status))
  }

  /** Every ROLLBACK a run issues is justified. */
  lemma RollbackCauses(loop: Loop, maxRetry: int, answers: seq<Attempt>)
    ensures var r := Execute(loop, maxRetry, answers);
            forall j :: 0 <= j < |r.rollbacks| ==> Justified(loop, answers, r, r.rollbacks[j])
  {
    var r := Execute(loop, maxRetry, answers);
    ExecuteCharacterised(loop, maxRetry, answers);
    RollbackIndicesCauses(loop, maxRetry, answers, 0, r.used);
    forall j | 0 <= j < |r.rollbacks|
      ensures Justified(loop, answers, r, r.rollbacks[j])
    {
      var i := r.rollbacks[j];
      assert i < r.used && RollsBackAt(loop, maxRetry, answers, i);
      if i < StopIndex(r) {
        assert Absorbed(loop, maxRetry, answers, i);
      } else if i == StopIndex(r) {
        assert !Absorbed(loop, maxRetry, answers, i);
      }
    }
  }

  lemma {:induction false} AlwaysBusyFrom(loop: Loop, maxRetry: nat, answers: seq<Attempt>, k: nat)
    requires k <= maxRetry < |answers|
    requires forall i :: 0 <= i < |answers| ==> answers[i] == Attempt(Busy, false)
    ensures var r := RunFrom(loop, maxRetry, answers, k, k);
            r.used == maxRetry + 1 && r.end == Failed(Busy)
            && |r.rollbacks| == (if RollsBack(loop) then maxRetry + 1 - k else 0)
    decreases maxRetry - k
  {
    if k < maxRetry {
      AlwaysBusyFrom(loop, maxRetry, answers, k + 1);
    }
  }

  /**
   Under a lock that never clears, a loop asks exactly `mnMaxRetryCount + 1`
   times and fails with BUSY; with a transaction open the rolling-back loops
   issue one ROLLBACK per retry and one more before throwing.
   */
  lemma AlwaysBusy(loop: Loop, maxRetry: nat, answers: seq<Attempt>)
    requires maxRetry < |answers|
    requires forall i :: 0 <= i < |answers| ==> answers[i] == Attempt(Busy, false)
    ensures var r := Execute(loop, maxRetry, answers);
            r.used == maxRetry + 1 && r.end == Failed(Busy)
            && |r.rollbacks| == (if RollsBack(loop) then maxRetry + 1 else 0)
  {
    AlwaysBusyFrom(loop, maxRetry, answers, 0);
  }

  /**
   A code outside the named ones (an extended code, or MISUSE) ends every
   loop at once: it is neither retried nor rolled back, however many retries
   are left and whether or not a transaction is open.
   */
  lemma UnlistedCodeFails(loop: Loop, maxRetry: int, code: int, autocommit: bool, rest: seq<Attempt>)
    ensures Execute(loop, maxRetry, [Attempt(Other(code), autocommit)] + rest) == Run(1, [], Failed(Other(code)))
  {
  }
}
