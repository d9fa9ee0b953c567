/**
 The direct-path loader: the object behind OCI_DirPath, its counters and error arrays, and the
 public operations on it. Every operation is proved to follow its relation in DirPathSpec.
 */
module DirPath {
  import opened Options
  import opened Words
  import opened Seqs
  import opened DirPathSpec
  import opened DirPathOci
  import opened DirPathCells
  import opened DirPathPasses
  import opened DirPathLoads
  import opened DirPathRooms

  /** The bytes of an OCINumber behind its length byte. */
  type Digits = s: seq<byte> | |s| < NUMBER_SIZE

  /** A column OcilibDirPathSetColumn can produce: a number cell holds an OCINumber. */
  predicate Describable(c: Column) {
    c.ddt == DdtNumber ==> c.bufsize == NUMBER_SIZE
  }

  /**
   The size check, the null test and the number conversion of an entry; None if it does not parse. A null
   is an empty entry; a number has the parsed digits, anything else the bytes up to the column's maximum.
   */
  function EntryFor(c: Column, parse: seq<byte> -> Option<Digits>, value: Option<seq<byte>>, size: nat, complete: bool)
    : (e: Option<Entry>)
    requires value.Some? ==> Min(size, c.maxsize) <= |value.value|
    ensures e.None? <==> value.Some? && c.ddt == DdtNumber && parse(value.value).None?
    ensures value.None? ==> e == Some(Entry([], ColNull))
    ensures e.Some? && value.Some? ==> e.value.flag == if complete then ColComplete else ColPartial
    ensures e.Some? && value.Some? && c.ddt != DdtNumber ==>
      e.value.value <= value.value && |e.value.value| == Min(size, c.maxsize)
    ensures e.Some? && value.Some? && c.ddt == DdtNumber ==>
      Some(e.value.value) == parse(value.value) && |e.value.value| < NUMBER_SIZE
  {
    if value.None? then Some(Entry([], ColNull)) else
      var flag := if complete then ColComplete else ColPartial;
      if c.ddt == DdtNumber then
        var n := parse(value.value);
        if n.None? then None else Some(Entry(n.value, flag))
      else Some(Entry(value.value[..Min(size, c.maxsize)], flag))
  }

  /** The entry a call asks for; None when it does not parse, or there is no such column. */
  function EntryOf(columns: seq<Column>, parse: nat -> seq<byte> -> Option<Digits>, col: nat, value: Option<seq<byte>>, size: nat,
                   complete: bool): (e: Option<Entry>)
    requires value.Some? && 1 <= col <= |columns| ==> Min(size, columns[col - 1].maxsize) <= |value.value|
    ensures e.Some? ==> 1 <= col <= |columns| && e == EntryFor(columns[col - 1], parse(col - 1), value, size, complete)
  {
    if 1 <= col <= |columns| then EntryFor(columns[col - 1], parse(col - 1), value, size, complete) else None
  }

  class Loader {
    const oci: Oci
    /** Parses the text of a numeric column, by the column's format. */
    const parse: nat -> seq<byte> -> Option<Digits>

    var columns: seq<Column>
    var cells: Cells?                 // the cell buffers, once prepared
    var c: Counters
    var nbEntries: nat
    var errRows: array<nat>
    var errCols: array<nat>
    var nbErr: nat
    ghost var errs: seq<(nat, nat)>   // the recorded part of the two error arrays

    /** The counters, the error arrays, the cells and the OCI handles agree. */
    ghost predicate Valid()
      reads this, oci, errRows, errCols, cells
    {
      && Shape(Abs())
      && nbErr == |errs| <= errRows.Length == errCols.Length
      && (forall i :: 0 <= i < nbErr ==> errRows[i] == errs[i].0 && errCols[i] == errs[i].1)
      && errRows != errCols
      && oci.Valid() && oci.nbCols == |columns|
      && (forall k :: 0 <= k < |columns| ==> Describable(columns[k]))
      && if c.status == NotPrepared then cells == null
         else cells != null && c.nbRows == errRows.Length == cells.nbRows
    }

    /** The observable state. */
    ghost function Abs(): Dp
      reads this, oci, cells
    {
      Dp(c, errs, if cells == null then [] else cells.rows, oci.o)
    }

    /** The cell buffers are sound, and apart from the error arrays. */
    ghost predicate CellsValid()
      reads this`columns, this`cells, this`errRows, this`errCols, cells, if cells == null then {} else cells.Repr
    {
      cells != null ==>
        cells.Valid() && cells.columns == columns && errRows !in cells.Repr && errCols !in cells.Repr
        && this !in cells.Repr && oci !in cells.Repr
    }

    /** The arrays and the column descriptions are the same objects as before. */
    twostate predicate Fixed()
      reads this
    {
      columns == old(columns) && cells == old(cells) && errRows == old(errRows) && errCols == old(errCols)
    }

    /** OcilibDirPathCreate: all counters zero, DEFAULT mode, no rows yet. */
    constructor (oci: Oci, parse: nat -> seq<byte> -> Option<Digits>, columns: seq<Column>, nbRows: nat)
      requires oci.Valid() && oci.nbCols == |columns|
      requires forall k :: 0 <= k < |columns| ==> Describable(columns[k])
      ensures Valid() && CellsValid() && this.oci == oci && this.parse == parse && this.columns == columns
      ensures fresh(errRows) && fresh(errCols)
      ensures c.status == NotPrepared && !c.force && c.nbRows == c.nbCur == nbRows % 0x1_0000
      ensures c.nbConverted == c.nbProcessed == c.nbLoaded == 0 && c.idxRow == c.idxCol == c.loadOffset == 0
      ensures c.resConv == c.resLoad == DprEmpty && nbEntries == 0
      ensures Abs() == Dp(NewCounters(nbRows), [], [], oci.o)
    {
      this.oci, this.parse, this.columns, cells := oci, parse, columns, null;
      c, nbEntries, nbErr, errs := NewCounters(nbRows), 0, 0, [];
      errRows, errCols := new nat[0], new nat[0];
    }

    method SetConvertMode(force: bool) returns (ok: bool)
      requires Valid()
      modifies this`c
      ensures Valid() && SetModeStep(old(Abs()), Abs(), force, ok)
      ensures ok == (old(c.status) == NotPrepared) && c.force == if ok then force else old(c.force)
    {
      if c.status != NotPrepared { return false; }
      c := c.(force := force);
      ok := true;
    }

    /** `n` is the number of rows OCI says it allocated; it is kept modulo 2^16. */
    method Prepare(n: nat) returns (ok: bool)
      requires Valid() && CellsValid()
      modifies this`c, this`errRows, this`errCols, this`cells
      ensures Valid() && CellsValid() && PrepareStep(old(Abs()), Abs(), n, |columns|, ok)
      ensures ok == (old(c.status) == NotPrepared)
      ensures c == if ok then old(c).(status := Prepared, nbRows := n % 0x1_0000, nbCur := n % 0x1_0000) else old(c)
      ensures ok ==> fresh(errRows) && fresh(errCols) && cells != null && fresh(cells) && fresh(cells.Repr)
      ensures !ok ==> Fixed()
    {
      if c.status != NotPrepared { return false; }
      cells := new Cells(columns, n % 0x1_0000);
      errRows, errCols := new nat[n % 0x1_0000], new nat[n % 0x1_0000];
      c := c.(status := Prepared, nbRows := n % 0x1_0000, nbCur := n % 0x1_0000);
      ok := true;
    }

    /**
     Sets one cell; `row` and `col` count from 1. The caller's buffer must hold the bytes that are
     copied, the clamped value must fit the cell (see DirPathCells.ClampedEntryFits), and no cell offset of
     the column may wrap (see DirPathCells.CellsApartIffFit), or the bytes end up in the cell of another row.
     */
    method SetEntry(row: nat, col: nat, value: Option<seq<byte>>, size: nat, complete: bool) returns (ok: bool)
      requires Valid() && CellsValid()
      requires value.Some? && 1 <= col <= |columns| ==> Min(size, columns[col - 1].maxsize) <= |value.value|
      requires value.Some? && 1 <= col <= |columns| && columns[col - 1].ddt != DdtNumber ==>
        Min(size, columns[col - 1].maxsize) <= columns[col - 1].bufsize
      requires value.Some? && 1 <= col <= |columns| ==> OffsetsFit(c.nbRows, columns[col - 1].bufsize)
      modifies cells, if cells == null then {} else cells.Repr
      ensures Valid() && CellsValid()
      ensures ok == (c.status == Prepared && 1 <= col <= |columns| && 1 <= row <= c.nbCur
                     && EntryFor(columns[col - 1], parse(col - 1), value, size, complete).Some?)
      ensures SetEntryStep(old(Abs()), Abs(), row, col, EntryOf(columns, parse, col, value, size, complete), ok)
    {
      if c.status != Prepared || !(1 <= col <= |columns|) || !(1 <= row <= c.nbCur) { return false; }
      var e := EntryFor(columns[col - 1], parse(col - 1), value, size, complete);
      if e.None? { return false; }
      cells.Store(row - 1, col - 1, e.value);
      ok := true;
    }

    method SetCurrentRows(n: nat) returns (ok: bool)
      requires Valid()
      modifies this`c
      ensures Valid() && SetCurrentRowsStep(old(Abs()), Abs(), n, ok)
      ensures ok == (old(c.status) == Prepared && 1 <= n <= old(c.nbRows)) && c == if ok then old(c).(nbCur := n) else old(c)
    {
      if c.status != Prepared || !(1 <= n <= c.nbRows) { return false; }
      c := c.(nbCur := n);
      ok := true;
    }

    /** Resetting a loader that was never prepared fails inside OCI, after the counters are cleared. */
    method Reset() returns (ok: bool)
      requires Valid()
      modifies this`c, this`nbErr, this`errs, oci`arr, oci`o
      ensures Valid() && ResetStep(old(Abs()), Abs(), ok) && ok == (old(c.status) != NotPrepared) && errs == [] && nbErr == 0
      ensures c == old(c).(nbProcessed := 0, nbConverted := 0, idxRow := 0, idxCol := 0, loadOffset := 0)
    {
      c, nbErr, errs := Cleared(c), 0, [];
      if c.status == NotPrepared { return false; }
      oci.ColArrayReset();
      oci.StreamReset();
      ok := true;
    }

    /** Finish and Abort: both only leave the prepared state. */
    method End() returns (ok: bool)
      requires Valid()
      modifies this`c
      ensures Valid() && EndStep(old(Abs()), Abs(), ok)
      ensures ok == (old(c.status) == Prepared) && c == if ok then old(c).(status := Terminated) else old(c)
    {
      if c.status != Prepared { return false; }
      c := c.(status := Terminated);
      ok := true;
    }

    method GetErrorRow() returns (r: nat)
      requires Valid()
      modifies this`c
      ensures Valid() && ErrorRowStep(old(Abs()), Abs(), r)
    {
      if c.idxRow >= nbErr { return 0; }
      r := Add32(errRows[c.idxRow], 1);
      c := c.(idxRow := c.idxRow + 1);
    }

    method GetErrorColumn() returns (r: nat)
      requires Valid()
      modifies this`c
      ensures Valid() && ErrorColumnStep(old(Abs()), Abs(), r)
    {
      if c.idxCol >= nbErr { return 0; }
      r := Add32(errCols[c.idxCol], 1);
      c := c.(idxCol := c.idxCol + 1);
    }

    // -------------------------------------------------------------------------- conversion

    /**
     Re-bases the rows from `rowFrom` on into the column array: entry 0 of the array is row `rowFrom`,
     and every entry is the last value, length and flag set for its cell.
     */
    method SetArray(rowFrom: nat)
      requires Valid() && CellsValid() && c.status != NotPrepared
      modifies this`nbEntries, oci`arr
      ensures Valid() && CellsValid()
      ensures nbEntries == if rowFrom <= c.nbCur then c.nbCur - rowFrom else 0
      ensures ArrayHolds(oci.arr, oci.nbCols, RowsFrom(Abs(), rowFrom))
    {
      nbEntries := 0;
      var row := rowFrom;
      while row < c.nbCur
        invariant rowFrom <= row <= Max(rowFrom, c.nbCur) && nbEntries == row - rowFrom
        invariant Valid() && CellsValid()
        invariant row <= c.nbCur ==> ArrayHolds(oci.arr, oci.nbCols, cells.rows[rowFrom..row])
      {
        SetArrayRow(rowFrom, row);
        nbEntries := nbEntries + 1;
        row := row + 1;
      }
    }

    /** Sets every column of the next entry, which is row `row` when entry 0 is row `rowFrom`. */
    method SetArrayRow(rowFrom: nat, row: nat)
      requires Valid() && CellsValid() && c.status != NotPrepared
      requires rowFrom <= row < c.nbCur && nbEntries == row - rowFrom
      requires ArrayHolds(oci.arr, oci.nbCols, cells.rows[rowFrom..row])
      modifies oci`arr
      ensures Valid() && CellsValid()
      ensures ArrayHolds(oci.arr, oci.nbCols, cells.rows[rowFrom..row + 1])
    {
      var col := 0;
      while col < |columns|
        invariant 0 <= col <= |columns| && Valid() && CellsValid()
        invariant forall k :: 0 <= k < col ==> (nbEntries, k) in oci.arr && oci.arr[(nbEntries, k)] == cells.rows[row][k]
        invariant ArrayHolds(oci.arr, oci.nbCols, cells.rows[rowFrom..row])
      {
        oci.EntrySet(nbEntries, col, cells.EntryAt(col, row));
        col := col + 1;
      }
      assert EntryHolds(oci.arr, oci.nbCols, nbEntries, cells.rows[row]);
      assert cells.rows[rowFrom..row + 1] == cells.rows[rowFrom..row] + [cells.rows[row]];
    }

    /** Converts the column array, whose entry 0 is row `rowFrom`, into the stream. */
    method ArrayToStream(rowFrom: nat) returns (res: Res, ghost q: nat)
      requires Valid() && c.status == Prepared
      requires ArrayHolds(oci.arr, oci.nbCols, RowsFrom(Abs(), rowFrom)) && nbEntries == |RowsFrom(Abs(), rowFrom)|
      requires All(oci.server.convertible, RowsFrom(Abs(), rowFrom)) || nbErr < c.nbRows
      modifies this`c, this`nbErr, this`errs, errRows, errCols, oci`o
      ensures Valid() && PassEnds(oci.server, old(Abs()), Abs().o.rows, rowFrom, res, q)
      ensures Abs() == PassedState(oci.server, old(Abs()), rowFrom, res, q)
    {
      var errRow, errCol;
      res, errRow, errCol := RunPass(rowFrom);
      q := errRow;
      if res == DprError {
        RecordError(rowFrom + errRow, errCol);
      }
    }

    /** The conversion call and the row count of a pass, without the error it may have ended with. */
    method RunPass(rowFrom: nat) returns (res: Res, errRow: nat, errCol: nat)
      requires Valid() && c.status == Prepared
      requires ArrayHolds(oci.arr, oci.nbCols, RowsFrom(Abs(), rowFrom)) && nbEntries == |RowsFrom(Abs(), rowFrom)|
      modifies this`c, oci`o
      ensures Valid() && PassEnds(oci.server, old(Abs()), Abs().o.rows, rowFrom, res, errRow)
      ensures Abs() == PassResult(old(Abs()), res, RowsFrom(old(Abs()), rowFrom)[..errRow])
      ensures res == DprError ==> errCol == oci.server.badColumn(RowsFrom(old(Abs()), rowFrom)[errRow])
    {
      var ret;
      ret, errRow, errCol := oci.ColArrayToStream(nbEntries, RowsFrom(Abs(), rowFrom));
      res := match ret
        case ConvSuccess => DprComplete
        case ConvFailed => DprError
        case ConvContinue => DprFull
        case ConvNeedData => DprPartial;
      if ret == ConvSuccess || ret == ConvContinue {
        c := c.(status := Converted);
      }
      if ret != ConvSuccess {
        c := c.(nbConverted := Add32(c.nbConverted, errRow));
      } else {
        c := c.(nbConverted := Add32(c.nbConverted, nbEntries));
      }
    }

    method RecordError(row: nat, col: nat)
      requires Valid() && c.status != NotPrepared && nbErr < c.nbRows
      modifies this`nbErr, this`errs, errRows, errCols
      ensures Valid() && Abs() == old(Abs()).(errs := old(errs) + [(row, col)])
    {
      errRows[nbErr] := row;
      errCols[nbErr] := col;
      errs := errs + [(row, col)];
      nbErr := nbErr + 1;
    }

    /** Sets the column array from row `rowFrom`, converts it and keeps the result. */
    method RunFrom(rowFrom: nat) returns (ghost p: Pass)
      requires Valid() && CellsValid() && c.status == Prepared
      requires All(oci.server.convertible, RowsFrom(Abs(), rowFrom)) || nbErr < c.nbRows
      modifies this`c, this`nbEntries, this`nbErr, this`errs, errRows, errCols, oci`arr, oci`o
      ensures Valid() && CellsValid()
      ensures p.before == old(Abs()) && p.res == c.resConv && Passed(oci.server, p, Abs(), rowFrom)
      ensures c.force == old(c.force)
    {
      ghost var s := Abs();
      SetArray(rowFrom);
      var r, q := ArrayToStream(rowFrom);
      c := c.(resConv := r);
      p := Pass(s, r, q);
    }

    /** The row a Convert starts from; a full stream is emptied first. */
    method StartConvert() returns (rowFrom: nat)
      requires Valid() && c.status == Prepared
      modifies this`c, oci`o
      ensures Valid() && Abs() == Started(old(Abs())) && rowFrom == ResumeRow(old(Abs()))
    {
      c := c.(nbProcessed := 0);
      rowFrom := 0;
      if (!c.force || c.resConv == DprFull) && nbErr > 0 {
        rowFrom := errRows[nbErr - 1];
      }
      if c.resConv == DprFull {
        oci.StreamReset();
      }
      c := c.(resConv := DprError);
    }

    /** One more pass of the Convert that started in `s`, from row `rowFrom`. */
    method PassFrom(ghost s: Dp, rowFrom: nat) returns (ghost next: nat)
      requires Valid() && CellsValid() && Shape(s) && s.c.status == Prepared && ConvertRoom(oci.server, s)
      requires Reaches(oci.server, s, rowFrom, Abs())
      requires rowFrom != ResumeRow(s) ==> GoesOn(Abs())
      modifies this`c, this`nbEntries, this`nbErr, this`errs, errRows, errCols, oci`arr, oci`o
      ensures Valid() && CellsValid()
      ensures InProgress(oci.server, s, next, Abs()) && next > rowFrom && c.force == old(c.force)
    {
      PassReady(oci.server, s, rowFrom, Abs());
      ghost var p := RunFrom(rowFrom);
      OnePassMore(oci.server, s, rowFrom, p, Abs());
      next := rowFrom + p.q + 1;
    }

    /** Converts the current rows into the stream; in FORCE mode, skips the rows that do not convert. */
    method Convert() returns (res: Res)
      requires Valid() && CellsValid() && ConvertRoom(oci.server, Abs())
      modifies this`c, this`nbEntries, this`nbErr, this`errs, errRows, errCols, oci`arr, oci`o
      ensures Valid() && CellsValid() && ConvertStep(oci.server, old(Abs()), Abs(), res)
      ensures old(c.status) != Prepared ==> res == DprError && Abs() == old(Abs())
    {
      if c.status != Prepared { return DprError; }
      ghost var s := Abs();
      ghost var next := ConvertRows();
      FinishConvert(oci.server, s, next, Abs());
      res := ReportConverted();
    }

    /** The affected rows of a Convert are all rows converted since the last Reset. */
    method ReportConverted() returns (res: Res)
      requires Valid()
      modifies this`c
      ensures Valid() && Abs() == Reported(old(Abs())) && res == c.resConv
    {
      c := c.(nbProcessed := c.nbConverted);
      res := c.resConv;
    }

    /** All the passes of a Convert. */
    method ConvertRows() returns (ghost next: nat)
      requires Valid() && CellsValid() && ConvertRoom(oci.server, Abs()) && c.status == Prepared
      modifies this`c, this`nbEntries, this`nbErr, this`errs, errRows, errCols, oci`arr, oci`o
      ensures Valid() && CellsValid() && InProgress(oci.server, old(Abs()), next, Abs())
      ensures c.resConv == DprError && c.force ==> nbErr > c.nbCur
    {
      ghost var s := Abs();
      var rowFrom := StartConvert();
      next := PassFrom(s, rowFrom);
      if c.force && c.resConv == DprError {
        next := SkipErrors(s, next);
      }
    }

    /** FORCE mode: goes on behind the last recorded error until a pass ends otherwise. */
    method SkipErrors(ghost s: Dp, ghost start: nat) returns (ghost next: nat)
      requires Valid() && CellsValid() && Shape(s) && s.c.status == Prepared && ConvertRoom(oci.server, s)
      requires InProgress(oci.server, s, start, Abs()) && c.force
      modifies this`c, this`nbEntries, this`nbErr, this`errs, errRows, errCols, oci`arr, oci`o
      ensures Valid() && CellsValid() && InProgress(oci.server, s, next, Abs())
      ensures c.resConv == DprError ==> nbErr > c.nbCur
    {
      next := start;
      while c.resConv == DprError && nbErr <= c.nbCur
        invariant Valid() && CellsValid() && InProgress(oci.server, s, next, Abs()) && c.force
        decreases |s.rows| - next
      {
        LastError(oci.server, s, next, Abs());
        next := PassFrom(s, errRows[nbErr - 1] + 1);
      }
    }

    // ----------------------------------------------------------------------------- loading

    /** Loads the stream, calling again while the server reports errors and moves on. */
    method Load() returns (res: Res)
      requires Valid() && LoadRoom(oci.server, Abs(), oci.idle)
      modifies this`c, this`nbErr, this`errs, errRows, errCols, oci`o, oci`idle
      ensures Valid() && LoadStep(oci.server, old(Abs()), Abs(), res) && oci.idle <= old(oci.idle)
      ensures old(c.status) != Converted ==> res == DprError && Abs() == old(Abs())
      ensures old(c.status) == Converted && oci.idle == old(oci.idle) ==>
        res == DprComplete && SteadyLoad(oci.server, old(Abs()), Abs())
    {
      if c.status != Converted { return DprError; }
      ghost var s, budget := Abs(), oci.idle;
      ghost var first, used := LoadRows();
      FinishLoad(oci.server, budget - oci.idle, s, Abs(), first, used);
      res := c.resLoad;
    }

    /** All the calls of a Load. */
    method LoadRows() returns (ghost first: bool, ghost used: nat)
      requires Valid() && LoadRoom(oci.server, Abs(), oci.idle) && c.status == Converted
      modifies this`c, this`nbErr, this`errs, errRows, errCols, oci`o, oci`idle
      ensures Valid() && oci.idle <= old(oci.idle)
      ensures CalledTo(oci.server, old(oci.idle) - oci.idle, old(Abs()), Abs(), first, used)
      ensures c.resLoad == DprError ==> !first && used == 0
    {
      ghost var s, budget := Abs(), oci.idle;
      StartLoad();
      first, used := CallOnce(s, budget);
      var loadOffset := c.loadOffset;
      while c.resLoad == DprError
        invariant Valid() && oci.idle <= budget && CalledTo(oci.server, budget - oci.idle, s, Abs(), first, used)
        invariant loadOffset == c.loadOffset == oci.o.offset && (first || used > 0)
        decreases |oci.o.rows| - loadOffset, c.resLoad == DprError
      {
        used := NextCall(s, budget, first, used);
        first := false;
        if loadOffset >= c.loadOffset {
          break;
        }
        loadOffset := c.loadOffset;
      }
    }

    /** Another call of the Load that started in `s`, behind a failure that was the first or moved on. */
    method NextCall(ghost s: Dp, ghost budget: nat, ghost first: bool, ghost used: nat) returns (ghost again: nat)
      requires Valid() && Shape(s) && s.c.status == Converted && LoadRoom(oci.server, s, budget) && oci.idle <= budget
      requires CalledTo(oci.server, budget - oci.idle, s, Abs(), first, used) && c.resLoad == DprError && (first || used > 0)
      modifies this`c, this`nbErr, this`errs, errRows, errCols, oci`o, oci`idle
      ensures Valid() && oci.idle <= budget && CalledTo(oci.server, budget - oci.idle, s, Abs(), false, again)
      ensures c.loadOffset == oci.o.offset == old(oci.o.offset) + again && oci.o.rows == old(oci.o.rows)
    {
      CallAgain(oci.server, budget - oci.idle, s, Abs(), first, used);
      ghost var one;
      one, again := CallOnce(s, budget);
    }

    /** The errors of the conversion are dropped. */
    method StartLoad()
      requires Valid() && c.status == Converted
      modifies this`c, this`nbErr, this`errs
      ensures Valid() && Abs() == LoadStarted(old(Abs())) && MayCall(oci.server, 0, old(Abs()), Abs())
    {
      NothingCalled(oci.server, Abs());
      c := c.(nbProcessed := 0, idxRow := 0, idxCol := 0, resLoad := DprComplete);
      nbErr, errs := 0, [];
    }

    /** One call of the Load that started in `s`, when the server could be idle `budget` times. */
    method CallOnce(ghost s: Dp, ghost budget: nat) returns (ghost first: bool, ghost used: nat)
      requires Valid() && Shape(s) && s.c.status == Converted && LoadRoom(oci.server, s, budget)
      requires oci.idle <= budget && MayCall(oci.server, budget - oci.idle, s, Abs())
      modifies this`c, this`nbErr, this`errs, errRows, errCols, oci`o, oci`idle
      ensures Valid() && oci.idle <= budget && CalledTo(oci.server, budget - oci.idle, s, Abs(), first, used)
      ensures first == (old(errs) == []) && c.loadOffset == oci.o.offset == old(oci.o.offset) + used
      ensures oci.o.rows == old(oci.o.rows)
    {
      ghost var t, spent := Abs(), budget - oci.idle;
      ghost var call;
      var res;
      res, call := LoadStream(s, budget);
      CallCounts(oci.server, spent, s, t, call);
      first, used := t.errs == [], Used(call);
      KeepResult(res);
    }

    method KeepResult(res: Res)
      requires Valid()
      modifies this`c
      ensures Valid() && Abs() == WithResLoad(old(Abs()), res)
    {
      c := c.(resLoad := res);
    }

    /** Pushes the stream once, adds up the loaded rows and records the error of a failure. */
    method LoadStream(ghost s: Dp, ghost budget: nat) returns (res: Res, ghost call: LoadCall)
      requires Valid() && Shape(s) && s.c.status == Converted && LoadRoom(oci.server, s, budget)
      requires oci.idle <= budget && MayCall(oci.server, budget - oci.idle, s, Abs())
      modifies this`c, this`nbErr, this`errs, errRows, errCols, oci`o, oci`idle
      ensures CallOk(oci.server, old(oci.o.rows), old(oci.o.offset), call) && old(oci.idle) == Spending(oci.idle, call)
      ensures Valid() && Abs() == Called(old(Abs()), call) && res == ResOf(call.ret)
    {
      ghost var t, spent := Abs(), budget - oci.idle;
      var report := PushStream();
      call := report;
      CallRoom(oci.server, spent, budget, s, t, call);
      res := ResOf(report.ret);
      if report.ret != LoadSuccess {
        RecordError(if nbErr > 0 then Add32(Add32(errRows[nbErr - 1], report.accepted), 1) else c.nbLoaded, 0);
      }
    }

    method PushStream() returns (report: LoadCall)
      requires Valid() && c.status == Converted
      modifies this`c, oci`o, oci`idle
      ensures CallOk(oci.server, old(oci.o.rows), old(oci.o.offset), report) && old(oci.idle) == Spending(oci.idle, report)
      ensures Valid() && Abs() == Pushed(old(Abs()), report)
    {
      report := oci.LoadStream();
      c := c.(status := if report.ret == LoadSuccess then Prepared else c.status,
              loadOffset := oci.o.offset,
              nbLoaded := Add32(c.nbLoaded, report.accepted),
              nbProcessed := Add32(c.nbProcessed, report.accepted));
    }
  }
}
