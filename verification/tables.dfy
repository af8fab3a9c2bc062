/**
 `CppSQLite3Table`: a snapshot from `sqlite3_get_table`, a flat row-major
 array of C strings whose first `mnCols` cells are the column names, and a
 current-row cursor. The engine stores an SQL NULL as a NULL pointer, which
 the model keeps as `None`; the accessors return `std::string`, and turning
 a NULL pointer into one is undefined.
 */
module Tables {
  import opened Engine

  /** The result array the table owns: its engine identity and its cells, `None` for a NULL pointer. */
  datatype Snapshot = Snapshot(id: Handle, cells: seq<Option<string>>)

  /** The members of a `CppSQLite3Table`; `results` is None for a NULL pointer. */
  datatype Table = Table(rows: int, cols: int, currentRow: int, results: Option<Snapshot>)

  /** The default constructor. */
  const Empty: Table := Table(0, 0, 0, None)

  /** The three-argument constructor `getTable` uses: the cursor starts on row 0. */
  function Make(snapshot: Snapshot, rows: int, cols: int): (t: Table)
    ensures t.results == Some(snapshot) && t.rows == rows && t.cols == cols && t.currentRow == 0
  {
    Table(rows, cols, 0, Some(snapshot))
  }

  /** A snapshot of the shape the engine delivers: a header row and `rows` data rows. */
  predicate WellFormed(t: Table) {
    t.rows >= 0 && t.cols >= 0 && 0 <= t.currentRow
    && (t.rows > 0 ==> t.currentRow < t.rows)
    && (t.results.Some? ==> |t.results.value.cells| == (t.rows + 1) * t.cols)
  }

  /**
   A read from the snapshot: a value, an exception, or one of two reads whose
   result is undefined in C++: an index past the end of the array, or a NULL
   cell converted to `std::string`.
   */
  datatype Read<T> = Value(value: T) | Throws(error: Exception) | PastEnd(index: int) | NullText(index: int)

  /** The cell index of field `f` in the current row, as the code computes it. */
  function CellIndex(t: Table, f: int): int {
    (t.currentRow * t.cols) + t.cols + f
  }

  /** Cell `i` as a `std::string`. */
  function Cell(t: Table, i: int): (r: Read<string>)
    requires t.results.Some?
    ensures r.Value? || r.PastEnd? || r.NullText?
    ensures r.PastEnd? <==> !(0 <= i < |t.results.value.cells|)
    ensures r.Value? <==> 0 <= i < |t.results.value.cells| && t.results.value.cells[i].Some?
    ensures r.Value? ==> Some(r.value) == t.results.value.cells[i]
    ensures r.PastEnd? || r.NullText? ==> r.index == i
  {
    if !(0 <= i < |t.results.value.cells|) then PastEnd(i)
    else match t.results.value.cells[i]
      case Some(v) => Value(v)
      case None => NullText(i)
  }

  /** `checkResults()`. */
  function CheckResults(t: Table): (x: Option<Exception>)
    ensures x.Some? <==> t.results.None?
    ensures x.Some? ==> x.value == WrapperError(NullResults)
  {
    if t.results.None? then Some(WrapperError(NullResults)) else None
  }

  function NumFields(t: Table): (r: Read<int>)
    ensures r.Value? <==> t.results.Some?
    ensures r.Value? ==> r.value == t.cols
    ensures r.Throws? ==> r.error == WrapperError(NullResults)
  {
    if CheckResults(t).Some? then Throws(CheckResults(t).value) else Value(t.cols)
  }

  function NumRows(t: Table): (r: Read<int>)
    ensures r.Value? <==> t.results.Some?
    ensures r.Value? ==> r.value == t.rows
    ensures r.Throws? ==> r.error == WrapperError(NullResults)
  {
    if CheckResults(t).Some? then Throws(CheckResults(t).value) else Value(t.rows)
  }

  /**
   `fieldValue(f)`: the cell of field f in the current row, after checking
   the results pointer and 0 <= f < `mnCols`.
   */
  function FieldValue(t: Table, f: int): (r: Read<string>)
    ensures t.results.None? ==> r == Throws(WrapperError(NullResults))
    ensures t.results.Some? && !(0 <= f < t.cols) ==> r == Throws(WrapperError(InvalidFieldIndex))
    ensures t.results.Some? && 0 <= f < t.cols ==> !r.Throws?
  {
    if CheckResults(t).Some? then Throws(CheckResults(t).value)
    else if f < 0 || f > t.cols - 1 then Throws(WrapperError(InvalidFieldIndex))
    else Cell(t, CellIndex(t, f))
  }

  lemma MulMono(a: int, b: int, c: int)
    requires 0 <= a <= b && 0 <= c
    ensures a * c <= b * c
  {
  }

  /**
   In a well-formed table with at least one row, field f of the current row
   is cell (row + 1) * cols + f, which lies inside the snapshot, past the header.
   */
  lemma FieldValueInBounds(t: Table, f: int)
    requires WellFormed(t) && t.results.Some? && t.rows >= 1 && 0 <= f < t.cols
    ensures CellIndex(t, f) == (t.currentRow + 1) * t.cols + f
    ensures t.cols <= CellIndex(t, f) < |t.results.value.cells|
    ensures FieldValue(t, f) == Cell(t, (t.currentRow + 1) * t.cols + f)
    ensures !FieldValue(t, f).PastEnd?
  {
    MulMono(t.currentRow + 1, t.rows, t.cols);
  }

  /**
   With no data rows but a header, the cursor is still on row 0 and
   `fieldValue` reads the cell after the last one.
   */
  lemma FieldValueOfHeaderOnlyTable(id: Handle, header: seq<Option<string>>, f: int)
    requires 0 <= f < |header|
    ensures WellFormed(Make(Snapshot(id, header), 0, |header|))
    ensures FieldValue(Make(Snapshot(id, header), 0, |header|), f) == PastEnd(|header| + f)
  {
  }

  /** Header cell `j` names a column other than `name`. */
  predicate OtherName(cells: seq<Option<string>>, j: int, name: string)
    requires 0 <= j < |cells|
  {
    cells[j].Some? && cells[j].value != name
  }

  /**
   Where the header scan from column `i` stops: at the first header equal to
   `name`, or at the first NULL header, whose conversion to `std::string` is
   undefined.
   */
  function FindHeader(cells: seq<Option<string>>, cols: int, name: string, i: nat): (r: Option<nat>)
    requires i <= cols <= |cells| || cols < i
    ensures r.Some? ==> i <= r.value < cols && !OtherName(cells, r.value, name)
    ensures r.Some? ==> forall j :: i <= j < r.value ==> OtherName(cells, j, name)
    ensures r.None? ==> forall j :: i <= j < cols ==> OtherName(cells, j, name)
    decreases cols - i
  {
    if i >= cols then None
    else if !OtherName(cells, i, name) then Some(i)
    else FindHeader(cells, cols, name, i + 1)
  }

  /**
   `fieldValue(name)`: the current row's cell under the first header column
   equal to a non-empty `name`; otherwise CPPSQLITE_ERROR. A NULL header met
   before the match is itself converted to `std::string`.
   */
  function FieldValueByName(t: Table, name: string): (r: Read<string>)
    requires WellFormed(t)
    ensures t.results.None? ==> r == Throws(WrapperError(NullResults))
    ensures t.results.Some? ==>
              var cells := t.results.value.cells;
              (r.Throws? <==> name == [] || forall j :: 0 <= j < t.cols ==> OtherName(cells, j, name))
              && (r.Throws? ==> r.error == WrapperError(InvalidFieldName))
              && (!r.Throws? ==> exists f :: 0 <= f < t.cols && !OtherName(cells, f, name)
                                   && (forall j :: 0 <= j < f ==> OtherName(cells, j, name))
                                   && r == (if cells[f].None? then NullText(f) else Cell(t, CellIndex(t, f))))
  {
    if CheckResults(t).Some? then Throws(CheckResults(t).value)
    else
      var cells := t.results.value.cells;
      MulMono(1, t.rows + 1, t.cols);
      if name == [] then Throws(WrapperError(InvalidFieldName))
      else
        match FindHeader(cells, t.cols, name, 0)
        case Some(f) => if cells[f].None? then NullText(f) else Cell(t, CellIndex(t, f))
        case None => Throws(WrapperError(InvalidFieldName))
  }

  /** Looking a field up by its name reads what looking it up by its index reads. */
  lemma ByNameAgreesWithByIndex(t: Table, f: int, name: string)
    requires WellFormed(t) && t.results.Some? && 0 <= f < t.cols
    requires name != [] && t.results.value.cells[f] == Some(name)
    requires forall j :: 0 <= j < f ==> OtherName(t.results.value.cells, j, name)
    ensures FieldValueByName(t, name) == FieldValue(t, f)
  {
    MulMono(1, t.rows + 1, t.cols);
    FindHeaderStopsAt(t.results.value.cells, t.cols, name, 0, f);
  }

  /** The scan stops at the first column that is not another name. */
  lemma {:induction false} FindHeaderStopsAt(cells: seq<Option<string>>, cols: int, name: string, i: nat, f: nat)
    requires i <= f < cols <= |cells| && !OtherName(cells, f, name)
    requires forall j :: i <= j < f ==> OtherName(cells, j, name)
    ensures FindHeader(cells, cols, name, i) == Some(f)
    decreases f - i
  {
    if i < f {
      FindHeaderStopsAt(cells, cols, name, i + 1, f);
    }
  }

  /**
   `fieldIsNull(f)` as written: whether the field's value, once converted to
   `std::string`, is empty. A NULL cell never gets that far.
   */
  function FieldIsNullAsWritten(t: Table, f: int): (r: Read<bool>)
    ensures FieldValue(t, f).Value? ==> r == Value(FieldValue(t, f).value == [])
    ensures FieldValue(t, f).Throws? ==> r == Throws(FieldValue(t, f).error)
    ensures FieldValue(t, f).PastEnd? ==> r == PastEnd(FieldValue(t, f).index)
    ensures FieldValue(t, f).NullText? ==> r == NullText(FieldValue(t, f).index)
  {
    match FieldValue(t, f)
    case Value(v) => Value(v == [])
    case Throws(e) => Throws(e)
    case PastEnd(i) => PastEnd(i)
    case NullText(i) => NullText(i)
  }

  /**
   `fieldIsNull(f)` as intended: the same guards as `fieldValue`, then a test
   of the cell's pointer rather than of its text.
   */
  function FieldIsNull(t: Table, f: int): (r: Read<bool>)
    ensures t.results.None? ==> r == Throws(WrapperError(NullResults))
    ensures t.results.Some? && !(0 <= f < t.cols) ==> r == Throws(WrapperError(InvalidFieldIndex))
    ensures r.Value? ==> t.results.Some? && 0 <= CellIndex(t, f) < |t.results.value.cells|
                         && (r.value <==> t.results.value.cells[CellIndex(t, f)].None?)
    ensures !r.NullText?
  {
    if CheckResults(t).Some? then Throws(CheckResults(t).value)
    else if f < 0 || f > t.cols - 1 then Throws(WrapperError(InvalidFieldIndex))
    else
      var i := CellIndex(t, f);
      if 0 <= i < |t.results.value.cells| then Value(t.results.value.cells[i].None?) else PastEnd(i)
  }

  /**
   On a one-column, one-row table, the written `fieldIsNull` cannot report an
   SQL NULL (the read is undefined) and reports an empty text as NULL; the
   intended one tells them apart.
   */
  lemma FieldIsNullAsWrittenConfuses(id: Handle, header: string)
    ensures var t := Make(Snapshot(id, [Some(header), None]), 1, 1);
            FieldIsNullAsWritten(t, 0) == NullText(1) && FieldIsNull(t, 0) == Value(true)
    ensures var t := Make(Snapshot(id, [Some(header), Some([])]), 1, 1);
            FieldIsNullAsWritten(t, 0) == Value(true) && FieldIsNull(t, 0) == Value(false)
  {
  }

  /** The intended `fieldIsNull` agrees with `fieldValue`: NULL exactly where the value is a NULL cell. */
  lemma FieldIsNullMatchesValue(t: Table, f: int)
    requires WellFormed(t) && t.results.Some? && t.rows >= 1 && 0 <= f < t.cols
    ensures FieldIsNull(t, f) == Value(FieldValue(t, f).NullText?)
    ensures FieldIsNull(t, f) == Value(false) <==> FieldValue(t, f).Value?
  {
    FieldValueInBounds(t, f);
  }

  /** `fieldName(c)`: the header cell c. */
  function FieldName(t: Table, c: int): (r: Read<string>)
    requires WellFormed(t)
    ensures !r.PastEnd?
    ensures r.Value? ==> t.results.Some? && 0 <= c < t.cols && Some(r.value) == t.results.value.cells[c]
    ensures r.NullText? <==> t.results.Some? && 0 <= c < t.cols && t.results.value.cells[c].None?
    ensures t.results.None? ==> r == Throws(WrapperError(NullResults))
    ensures t.results.Some? && !(0 <= c < t.cols) ==> r == Throws(WrapperError(InvalidFieldIndex))
  {
    if CheckResults(t).Some? then Throws(CheckResults(t).value)
    else if c < 0 || c > t.cols - 1 then Throws(WrapperError(InvalidFieldIndex))
    else
      MulMono(1, t.rows + 1, t.cols);
      Cell(t, c)
  }

  /** `setRow(r)`: moves the cursor to a row in [0, `mnRows` - 1] and changes nothing else. */
  function SetRow(t: Table, row: int): (r: Read<Table>)
    ensures t.results.None? ==> r == Throws(WrapperError(NullResults))
    ensures t.results.Some? ==>
              (r.Value? <==> 0 <= row < t.rows)
              && (r.Value? ==> r.value == t.(currentRow := row))
              && (!r.Value? ==> r == Throws(WrapperError(InvalidRowIndex)))
  {
    if CheckResults(t).Some? then Throws(CheckResults(t).value)
    else if row < 0 || row > t.rows - 1 then Throws(WrapperError(InvalidRowIndex))
    else Value(t.(currentRow := row))
  }

  /** `setRow` keeps a well-formed table well-formed, and then reads the chosen row. */
  lemma SetRowThenRead(t: Table, row: int, f: int)
    requires WellFormed(t) && t.results.Some? && 0 <= row < t.rows && 0 <= f < t.cols
    ensures SetRow(t, row).Value? && WellFormed(SetRow(t, row).value)
    ensures FieldValue(SetRow(t, row).value, f) == Cell(t, (row + 1) * t.cols + f)
  {
    FieldValueInBounds(SetRow(t, row).value, f);
  }

  // ---------------------------------------------------------------------------
  // Moving the snapshot

  function HeldSnapshot(t: Table): multiset<Handle> {
    if t.results.Some? then multiset{t.results.value.id} else multiset{}
  }

  datatype Moved = Moved(dst: Table, src: Table)

  /** The copy constructor: the new table takes the snapshot; the source keeps a NULL pointer. */
  function Copy(src: Table): (m: Moved)
    ensures m.dst == src && m.src == src.(results := None)
    ensures HeldSnapshot(m.dst) + HeldSnapshot(m.src) == HeldSnapshot(src)
  {
    Moved(src, src.(results := None))
  }

  /** `finalize()`: frees the snapshot if there is one; a no-op afterwards. */
  function Finalize(t: Table): (r: Effect<Table, ()>)
    ensures r.state == t.(results := None)
    ensures multiset(r.released) == HeldSnapshot(t)
    ensures r.outcome == Returned(()) && r.rollbacks == []
  {
    if t.results.Some? then Effect(t.(results := None), [t.results.value.id], [], Returned(()))
    else Effect(t, [], [], Returned(()))
  }

  lemma FinalizeIdempotent(t: Table)
    ensures Finalize(Finalize(t).state) == Effect(Finalize(t).state, [], [], Returned(()))
  {
  }

  /** `operator=`: frees the destination's snapshot, then takes the source's. */
  function Assign(dst: Table, src: Table): (r: Effect<Moved, ()>)
    ensures multiset(r.released) == HeldSnapshot(dst)
    ensures r.state.dst == src && r.state.src == src.(results := None)
    ensures multiset(r.released) + HeldSnapshot(r.state.dst) + HeldSnapshot(r.state.src)
            == HeldSnapshot(dst) + HeldSnapshot(src)
    ensures r.outcome == Returned(())
  {
    var f := Finalize(dst);
    Effect(Moved(src, src.(results := None)), f.released, [], Returned(()))
  }

  /**
   `t = t`: `finalize()` frees the table's own snapshot before it is copied
   from the same object, so the table ends with no results.
   */
  function SelfAssign(t: Table): (r: Effect<Table, ()>)
    ensures r.state == t.(results := None)
    ensures multiset(r.released) == HeldSnapshot(t)
    ensures r.outcome == Returned(()) && r.rollbacks == []
  {
    var f := Finalize(t);
    Effect(Copy(f.state).src, f.released, [], Returned(()))
  }

  /** A table assigned to itself can no longer be read, though it could before. */
  lemma SelfAssignEmpties(t: Table, f: int)
    requires WellFormed(t) && t.results.Some? && t.rows >= 1 && 0 <= f < t.cols
    ensures !FieldValue(t, f).Throws?
    ensures FieldValue(SelfAssign(t).state, f) == Throws(WrapperError(NullResults))
  {
    FieldValueInBounds(t, f);
  }

  /** A table whose snapshot moved away, or was freed, can no longer be read. */
  lemma MovedFromIsDead(t: Table, f: int, name: string, row: int)
    ensures var s := Copy(t).src;
            WellFormed(t) ==> WellFormed(s) && FieldValueByName(s, name).Throws?
    ensures var s := Copy(t).src;
            FieldValue(s, f).Throws? && SetRow(s, row).Throws? && NumRows(s).Throws?
            && FieldIsNull(s, f).Throws?
    ensures var s := Finalize(t).state;
            FieldValue(s, f).Throws? && SetRow(s, row).Throws? && NumFields(s).Throws?
  {
  }
}
