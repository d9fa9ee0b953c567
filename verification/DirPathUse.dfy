/** Any use of the loader object is a run: what is proved of runs holds of every program. */
module DirPathUse {
  import opened Options
  import opened Words
  import opened Seqs
  import opened DirPathSpec
  import opened DirPathOci
  import opened DirPathCells
  import opened DirPath
  import opened DirPathRuns

  /** A call of the loader, as a program makes it. */
  datatype Request =
    | AskMode(force: bool)
    | AskPrepare(n: nat)
    | AskEntry(row: nat, col: nat, value: Option<seq<byte>>, size: nat, complete: bool)
    | AskRows(n: nat)
    | AskReset
    | AskConvert
    | AskLoad
    | AskEnd
    | AskErrorRow
    | AskErrorColumn

  /** The caller's buffer holds the bytes that are copied, and the column's cells hold them where they belong. */
  ghost predicate EntryAllowed(dp: Loader, col: nat, value: Option<seq<byte>>, size: nat)
    reads dp
  {
    value.Some? && 1 <= col <= |dp.columns| ==>
      var c := dp.columns[col - 1];
      && Min(size, c.maxsize) <= |value.value|
      && (c.ddt != DdtNumber ==> Min(size, c.maxsize) <= c.bufsize)
      && OffsetsFit(dp.c.nbRows, c.bufsize)
  }

  /** A call that cannot write outside the cells or the error arrays. */
  ghost predicate Allowed(dp: Loader, q: Request)
    requires dp.Valid()
    reads dp, dp.oci, dp.errRows, dp.errCols, dp.cells
  {
    match q
    case AskEntry(row, col, value, size, complete) => EntryAllowed(dp, col, value, size)
    case AskConvert => ConvertRoom(dp.oci.server, dp.Abs())
    case AskLoad => LoadRoom(dp.oci.server, dp.Abs(), dp.oci.idle)
    case _ => true
  }

  /** The operation a request stands for. */
  ghost predicate Matches(dp: Loader, q: Request, op: Op)
    requires dp.Valid() && Allowed(dp, q)
    reads dp, dp.oci, dp.errRows, dp.errCols, dp.cells
  {
    match q
    case AskMode(force) => op == SetConvertMode(force)
    case AskPrepare(n) => op == Prepare(n, |dp.columns|)
    case AskEntry(row, col, value, size, complete) =>
      op == SetEntry(row, col, EntryOf(dp.columns, dp.parse, col, value, size, complete))
    case AskRows(n) => op == SetCurrentRows(n)
    case AskReset => op == Op.Reset
    case AskConvert => op == Convert
    case AskLoad => op == Load
    case AskEnd => op == End
    case AskErrorRow => op == GetErrorRow
    case AskErrorColumn => op == GetErrorColumn
  }

  /** Every allowed call of the object is the step of the operation asked for. */
  method Perform(dp: Loader, q: Request) returns (ghost op: Op)
    requires dp.Valid() && dp.CellsValid() && Allowed(dp, q)
    modifies dp, dp.oci, dp.errRows, dp.errCols, dp.cells, if dp.cells == null then {} else dp.cells.Repr
    ensures dp.Valid() && dp.CellsValid() && Step(dp.oci.server, old(dp.Abs()), op, dp.Abs())
    ensures old(Matches(dp, q, op))
  {
    match q
    case AskPrepare(n) => op := PerformPrepare(dp, n);
    case AskEntry(row, col, value, size, complete) => op := PerformEntry(dp, row, col, value, size, complete);
    case AskConvert => op := PerformConvert(dp);
    case AskLoad => op := PerformLoad(dp);
    case AskErrorRow => op := PerformErrorRow(dp);
    case AskErrorColumn => op := PerformErrorColumn(dp);
    case _ => op := PerformControl(dp, q);
  }

  method PerformPrepare(dp: Loader, n: nat) returns (ghost op: Op)
    requires dp.Valid() && dp.CellsValid()
    modifies dp`c, dp`errRows, dp`errCols, dp`cells
    ensures dp.Valid() && dp.CellsValid() && Step(dp.oci.server, old(dp.Abs()), op, dp.Abs()) && op == Prepare(n, |dp.columns|)
  {
    ghost var s := dp.Abs();
    var ok := dp.Prepare(n);
    op := Prepare(n, |dp.columns|);
    assert PrepareStep(s, dp.Abs(), n, |dp.columns|, ok);
  }

  method PerformConvert(dp: Loader) returns (ghost op: Op)
    requires dp.Valid() && dp.CellsValid() && ConvertRoom(dp.oci.server, dp.Abs())
    modifies dp`c, dp`nbEntries, dp`nbErr, dp`errs, dp.errRows, dp.errCols, dp.oci`arr, dp.oci`o
    ensures dp.Valid() && dp.CellsValid() && Step(dp.oci.server, old(dp.Abs()), op, dp.Abs()) && op == Convert
  {
    ghost var s := dp.Abs();
    var r := dp.Convert();
    op := Convert;
    assert ConvertStep(dp.oci.server, s, dp.Abs(), r);
  }

  method PerformLoad(dp: Loader) returns (ghost op: Op)
    requires dp.Valid() && dp.CellsValid() && LoadRoom(dp.oci.server, dp.Abs(), dp.oci.idle)
    modifies dp`c, dp`nbErr, dp`errs, dp.errRows, dp.errCols, dp.oci`o, dp.oci`idle
    ensures dp.Valid() && dp.CellsValid() && Step(dp.oci.server, old(dp.Abs()), op, dp.Abs()) && op == Load
  {
    ghost var s := dp.Abs();
    var r := dp.Load();
    op := Load;
    assert LoadStep(dp.oci.server, s, dp.Abs(), r);
  }

  method PerformErrorRow(dp: Loader) returns (ghost op: Op)
    requires dp.Valid() && dp.CellsValid()
    modifies dp`c
    ensures dp.Valid() && dp.CellsValid() && Step(dp.oci.server, old(dp.Abs()), op, dp.Abs()) && op == GetErrorRow
  {
    ghost var s := dp.Abs();
    var r := dp.GetErrorRow();
    op := GetErrorRow;
    assert ErrorRowStep(s, dp.Abs(), r);
  }

  method PerformErrorColumn(dp: Loader) returns (ghost op: Op)
    requires dp.Valid() && dp.CellsValid()
    modifies dp`c
    ensures dp.Valid() && dp.CellsValid() && Step(dp.oci.server, old(dp.Abs()), op, dp.Abs()) && op == GetErrorColumn
  {
    ghost var s := dp.Abs();
    var r := dp.GetErrorColumn();
    op := GetErrorColumn;
    assert ErrorColumnStep(s, dp.Abs(), r);
  }

  /** The calls that set the mode, the current rows or the status. */
  method PerformControl(dp: Loader, q: Request) returns (ghost op: Op)
    requires dp.Valid() && dp.CellsValid() && (q.AskMode? || q.AskRows? || q.AskReset? || q.AskEnd?)
    modifies dp`c, dp`nbErr, dp`errs, dp.oci`arr, dp.oci`o
    ensures dp.Valid() && dp.CellsValid() && Step(dp.oci.server, old(dp.Abs()), op, dp.Abs())
    ensures op == match q
      case AskMode(force) => SetConvertMode(force)
      case AskRows(n) => SetCurrentRows(n)
      case AskReset => Op.Reset
      case _ => End
  {
    ghost var s := dp.Abs();
    if q.AskMode? {
      var ok := dp.SetConvertMode(q.force);
      op := SetConvertMode(q.force);
      assert SetModeStep(s, dp.Abs(), q.force, ok);
    } else if q.AskRows? {
      var ok := dp.SetCurrentRows(q.n);
      op := SetCurrentRows(q.n);
      assert SetCurrentRowsStep(s, dp.Abs(), q.n, ok);
    } else if q.AskReset? {
      var ok := dp.Reset();
      op := Op.Reset;
      assert ResetStep(s, dp.Abs(), ok);
    } else {
      var ok := dp.End();
      op := End;
      assert EndStep(s, dp.Abs(), ok);
    }
  }

  method PerformEntry(dp: Loader, row: nat, col: nat, value: Option<seq<byte>>, size: nat, complete: bool) returns (ghost op: Op)
    requires dp.Valid() && dp.CellsValid() && EntryAllowed(dp, col, value, size)
    modifies dp.cells, if dp.cells == null then {} else dp.cells.Repr
    ensures dp.Valid() && dp.CellsValid() && Step(dp.oci.server, old(dp.Abs()), op, dp.Abs())
    ensures op == SetEntry(row, col, EntryOf(dp.columns, dp.parse, col, value, size, complete))
  {
    ghost var s := dp.Abs();
    var ok := dp.SetEntry(row, col, value, size, complete);
    op := SetEntry(row, col, EntryOf(dp.columns, dp.parse, col, value, size, complete));
    assert SetEntryStep(s, dp.Abs(), row, col, op.e, ok);
  }

  /** The history of a program's use of a loader: a run that ends in the loader's present state. */
  ghost predicate History(dp: Loader, states: seq<Dp>, ops: seq<Op>)
    reads dp, dp.oci, dp.cells
  {
    Run(dp.oci.server, states, ops) && Last(states) == dp.Abs()
  }

  /** A new loader, on a stream and in front of a table that were not used yet, starts a history. */
  method Begin(oci: Oci, parse: nat -> seq<byte> -> Option<Digits>, columns: seq<Column>, nbRows: nat) returns (dp: Loader)
    requires oci.Valid() && oci.nbCols == |columns| && oci.o == Stream([], 0, [], [])
    requires forall k :: 0 <= k < |columns| ==> Describable(columns[k])
    ensures fresh(dp) && dp.oci == oci && dp.parse == parse && dp.columns == columns
    ensures dp.Valid() && dp.CellsValid() && History(dp, [dp.Abs()], [])
  {
    dp := new Loader(oci, parse, columns, nbRows);
    assert Created(dp.Abs());
  }

  /**
   One more call of any program, which adds its operation to the history. Whatever the program did before, the
   server's table is a subsequence of the batches its Converts were given, one behind the other, and of what the
   Converts put into the stream; all of it is good; and the loader's total is the table's size. A batch given twice
   counts twice: when a Convert puts a row into the stream again is what DirPathAgain says.
   */
  method Use(dp: Loader, q: Request, ghost states: seq<Dp>, ghost ops: seq<Op>) returns (ghost after: seq<Dp>, ghost done: seq<Op>)
    requires dp.Valid() && dp.CellsValid() && Allowed(dp, q) && History(dp, states, ops)
    modifies dp, dp.oci, dp.errRows, dp.errCols, dp.cells, if dp.cells == null then {} else dp.cells.Repr
    ensures dp.Valid() && dp.CellsValid() && History(dp, after, done)
    ensures after == states + [dp.Abs()] && done != [] && done == ops + [Last(done)] && old(Matches(dp, q, Last(done)))
    ensures |after| == |done| + 1 && IsSubseq(dp.oci.o.table, Given(after, done))
    ensures All(dp.oci.server.convertible, dp.oci.o.ever) && IsSubseq(dp.oci.o.table, dp.oci.o.ever)
    ensures All(dp.oci.server.acceptable, dp.oci.o.table) && dp.c.nbLoaded == |dp.oci.o.table| % U32
  {
    ghost var op := Perform(dp, q);
    after, done := states + [dp.Abs()], ops + [op];
    RunOneMore(dp.oci.server, states, ops, op, dp.Abs());
    TableOfARun(dp.oci.server, after, done);
  }

  lemma RunOneMore(v: Server, states: seq<Dp>, ops: seq<Op>, op: Op, t: Dp)
    requires Run(v, states, ops) && Step(v, Last(states), op, t)
    ensures Run(v, states + [t], ops + [op])
  {
  }
}
