/**
 Programs that use a loader the way the demonstration program of the library does: fill the cells,
 convert, correct or skip bad rows, load, and go on with what did not fit.
 */
module DirPathDrivers {
  import opened Options
  import opened Words
  import opened Seqs
  import opened DirPathSpec
  import opened DirPathCells
  import opened DirPath
  import opened DirPathRooms
  import opened DirPathTheorems
  import opened DirPathBatches
  import opened DirPathReports

  /** The values of one row, as the program has them. */
  type Values = seq<seq<byte>>

  /** The value is a number where the column wants one, and its cell is large enough. */
  predicate CellFits(c: Column, parse: seq<byte> -> Option<Digits>, value: seq<byte>) {
    && EntryFor(c, parse, Some(value), |value|, true).Some?
    && (c.ddt != DdtNumber ==> Min(|value|, c.maxsize) <= c.bufsize)
  }

  predicate RowFits(columns: seq<Column>, parse: nat -> seq<byte> -> Option<Digits>, values: Values) {
    |values| == |columns| && forall c :: 0 <= c < |columns| ==> CellFits(columns[c], parse(c), values[c])
  }

  /** The cells of a row once its values are set. */
  function Encoded(columns: seq<Column>, parse: nat -> seq<byte> -> Option<Digits>, values: Values): (r: Row)
    requires RowFits(columns, parse, values)
    ensures |r| == |columns|
  {
    seq(|columns|, c requires 0 <= c < |columns| && RowFits(columns, parse, values) =>
      assert CellFits(columns[c], parse(c), values[c]);
      EntryFor(columns[c], parse(c), Some(values[c]), |values[c]|, true).value)
  }

  /** Cells set to whole values are complete. */
  lemma EncodedComplete(columns: seq<Column>, parse: nat -> seq<byte> -> Option<Digits>, values: Values)
    requires RowFits(columns, parse, values)
    ensures !HasPartial(Encoded(columns, parse, values))
  {
    forall c | 0 <= c < |columns|
      ensures Encoded(columns, parse, values)[c].flag == ColComplete
    {
      assert CellFits(columns[c], parse(c), values[c]);
    }
  }

  predicate DataFits(columns: seq<Column>, parse: nat -> seq<byte> -> Option<Digits>, data: seq<Values>) {
    forall k :: 0 <= k < |data| ==> RowFits(columns, parse, data[k])
  }

  function EncodedRows(columns: seq<Column>, parse: nat -> seq<byte> -> Option<Digits>, data: seq<Values>): (rows: seq<Row>)
    requires DataFits(columns, parse, data)
    ensures |rows| == |data|
    ensures forall k :: 0 <= k < |data| ==> rows[k] == Encoded(columns, parse, data[k])
  {
    seq(|data|, k requires 0 <= k < |data| && DataFits(columns, parse, data) => Encoded(columns, parse, data[k]))
  }

  ghost predicate Ready(dp: Loader)
    reads dp, dp.oci, dp.errRows, dp.errCols, dp.cells, if dp.cells == null then {} else dp.cells.Repr
  {
    dp.Valid() && dp.CellsValid() && dp.c.status == Prepared && CellsReach(dp)
  }

  /** No cell offset of any column wraps. */
  ghost predicate CellsReach(dp: Loader)
    reads dp
  {
    forall k :: 0 <= k < |dp.columns| ==> OffsetsFit(dp.c.nbRows, dp.columns[k].bufsize)
  }

  /** One more element of `e` in front of what is left of `s`. */
  lemma FrontGrows<T>(e: seq<T>, s: seq<T>, k: nat)
    requires k < |e| <= |s|
    ensures e[..k] + s[k..] != [] && (e[..k] + s[k..])[k := e[k]] == e[..k + 1] + s[k + 1..]
  {
  }

  /** The state with row `r` replaced. */
  function WithRow(s: Dp, r: nat, row: Row): Dp
    requires r < |s.rows|
  {
    s.(rows := s.rows[r := row])
  }

  /** Sets one cell of row `row`, of which the cells before it are set. */
  method FillCell(dp: Loader, row: nat, values: Values, c: nat, ghost s: Dp, ghost was: Row)
    requires Ready(dp) && 1 <= row <= dp.c.nbCur && row <= |s.rows| && RowFits(dp.columns, dp.parse, values)
    requires c < |values| == |was|
    requires dp.Abs() == WithRow(s, row - 1, Encoded(dp.columns, dp.parse, values)[..c] + was[c..])
    modifies dp.cells, if dp.cells == null then {} else dp.cells.Repr
    ensures Ready(dp)
    ensures dp.Abs() == WithRow(s, row - 1, Encoded(dp.columns, dp.parse, values)[..c + 1] + was[c + 1..])
  {
    assert CellFits(dp.columns[c], dp.parse(c), values[c]);
    FrontGrows(Encoded(dp.columns, dp.parse, values), was, c);
    var ok := dp.SetEntry(row, c + 1, Some(values[c]), |values[c]|, true);
  }

  /** Sets every cell of row `row`, counted from 1. */
  method FillRow(dp: Loader, row: nat, values: Values)
    requires Ready(dp) && 1 <= row <= dp.c.nbCur && RowFits(dp.columns, dp.parse, values)
    modifies dp.cells, if dp.cells == null then {} else dp.cells.Repr
    ensures Ready(dp) && row <= |old(dp.Abs()).rows|
    ensures dp.Abs() == WithRow(old(dp.Abs()), row - 1, Encoded(dp.columns, dp.parse, values))
  {
    ghost var s := dp.Abs();
    ghost var e := Encoded(dp.columns, dp.parse, values);
    ghost var was := s.rows[row - 1];
    assert |was| == |dp.columns| && e[..0] + was == was && s.rows[row - 1 := was] == s.rows;
    var c := 0;
    while c < |values|
      invariant c <= |values| && Ready(dp)
      invariant dp.Abs() == WithRow(s, row - 1, e[..c] + was[c..])
    {
      FillCell(dp, row, values, c, s, was);
      c := c + 1;
    }
    assert e[..c] + was[c..] == e;
  }

  /** Sets the cells of the first rows to the values of `data`. */
  method Fill(dp: Loader, data: seq<Values>)
    requires Ready(dp) && |data| <= dp.c.nbCur && DataFits(dp.columns, dp.parse, data)
    modifies dp.cells, if dp.cells == null then {} else dp.cells.Repr
    ensures Ready(dp) && |data| <= |old(dp.Abs()).rows|
    ensures dp.Abs() == old(dp.Abs()).(rows := EncodedRows(dp.columns, dp.parse, data) + old(dp.Abs()).rows[|data|..])
  {
    ghost var s := dp.Abs();
    ghost var e := EncodedRows(dp.columns, dp.parse, data);
    var k := 0;
    assert e[..0] + s.rows[0..] == s.rows;
    while k < |data|
      invariant k <= |data| && Ready(dp)
      invariant dp.Abs() == s.(rows := e[..k] + s.rows[k..])
    {
      FillRow(dp, k + 1, data[k]);
      FrontGrows(e, s.rows, k);
      k := k + 1;
    }
    assert e[..k] == e;
  }

  /** The state with the first `k` recorded rows read. */
  function RowsRead(s: Dp, k: nat): Dp {
    s.(c := s.c.(idxRow := k))
  }

  /** Asks for the recorded row behind the first `k`. */
  method NextErred(dp: Loader, ghost s: Dp, ghost k: nat) returns (row: nat)
    requires dp.Valid() && dp.Abs() == RowsRead(s, k) && k <= |s.errs|
    requires forall i :: 0 <= i < |s.errs| ==> s.errs[i].0 + 1 < U32
    modifies dp`c
    ensures dp.Valid() && row == if k < |s.errs| then s.errs[k].0 + 1 else 0
    ensures dp.Abs() == RowsRead(s, if k < |s.errs| then k + 1 else k)
  {
    row := dp.GetErrorRow();
  }

  /** Asks for the recorded rows until there are no more. */
  method ErredRows(dp: Loader) returns (rows: seq<nat>)
    requires dp.Valid() && dp.c.idxRow == 0
    requires forall i :: 0 <= i < |dp.errs| ==> dp.errs[i].0 + 1 < U32
    modifies dp`c
    ensures dp.Valid() && |rows| == |dp.errs|
    ensures forall i :: 0 <= i < |rows| ==> rows[i] == dp.errs[i].0 + 1
    ensures dp.Abs() == RowsRead(old(dp.Abs()), |dp.errs|)
  {
    ghost var s := dp.Abs();
    rows := [];
    var row := NextErred(dp, s, 0);
    while row != 0
      invariant dp.Valid() && |rows| <= |s.errs|
      invariant forall i :: 0 <= i < |rows| ==> rows[i] == s.errs[i].0 + 1
      invariant if row == 0 then |rows| == |s.errs| else |rows| < |s.errs| && row == s.errs[|rows|].0 + 1
      invariant dp.Abs() == RowsRead(s, |rows| + if row == 0 then 0 else 1)
      decreases |s.errs| - |rows|
    {
      rows := rows + [row];
      row := NextErred(dp, s, |rows|);
    }
  }

  // ------------------------------------------------------- any data, through any stream

  /** `rows` are the current rows of a loader that was reset, and none of their cells is partial. */
  ghost predicate Filled(s: Dp, rows: seq<Row>) {
    && Fresh(s) && s.c.force && s.c.idxRow == 0 && 0 < s.c.nbCur == |rows| <= s.c.nbRows
    && s.rows[..s.c.nbCur] == rows
    && forall k :: 0 <= k < |rows| ==> !HasPartial(rows[k])
  }

  /** A FORCE Convert of filled rows, and what it leaves for the Load. */
  ghost predicate FilledBehind(v: Server, s: Dp, rows: seq<Row>, m: nat, t: Dp) {
    && Shape(t) && t.c.status == Converted && t.c.nbRows == s.c.nbRows && t.c.force
    && 0 < m <= |rows| && t.errs == Faults(v, rows[..m], 0)
    && Pending(t) == Filter(v.convertible, rows[..m]) && t.o.table == s.o.table
    && t.c.nbProcessed == |Pending(t)| < U32
  }

  lemma FilledConvert(v: Server, s: Dp, rows: seq<Row>, t: Dp, r: Res) returns (m: nat)
    requires Filled(s, rows) && ConvertStep(v, s, t, r)
    ensures FilledBehind(v, s, rows, m, t) && t.c.nbProcessed + |t.errs| == m && t.c.idxRow == 0
    ensures forall i :: 0 <= i < |t.errs| ==> t.errs[i].0 + 1 < U32
  {
    m := ConvertExact(v, s, t, r);
    NoPartialStop(v, s, rows, t, r);
    assert rows[..m] == s.rows[..m];
    FilledExact(v, s, rows, t, r, m);
  }

  lemma FilledExact(v: Server, s: Dp, rows: seq<Row>, t: Dp, r: Res, m: nat)
    requires Filled(s, rows) && Shape(t) && ConvertKeeps(s, t, r) && (r == DprComplete || r == DprFull)
    requires m <= |rows| && (r == DprComplete ==> m == |rows|) && (r == DprFull ==> m > 0)
    requires t.errs == Faults(v, rows[..m], 0) && |t.errs| + |Filter(v.convertible, rows[..m])| == m
    requires t.c.nbConverted == Add32(0, m - |t.errs|) && t.o.rows == Filter(v.convertible, rows[..m])
    ensures FilledBehind(v, s, rows, m, t) && t.c.nbProcessed + |t.errs| == m && t.c.idxRow == 0
    ensures forall i :: 0 <= i < |t.errs| ==> t.errs[i].0 + 1 < U32
  {
    SmallSum(0, m - |t.errs|);
  }

  lemma NoPartialStop(v: Server, s: Dp, rows: seq<Row>, t: Dp, r: Res)
    requires Filled(s, rows) && ConvertStep(v, s, t, r)
    ensures r != DprPartial
  {
    var m: nat :| ConvertedTo(v, s, t, r, m);
    assert Batch(s) == rows;
  }

  /** The Load behind it. */
  lemma FilledLoad(v: Server, s: Dp, rows: seq<Row>, m: nat, t: Dp, u: Dp)
    requires FilledBehind(v, s, rows, m, t) && LoadStep(v, t, u, DprComplete)
    ensures u.o.table == s.o.table + Filter(Both(v.convertible, v.acceptable), rows[..m])
    ensures u.c.status == Prepared && u.c.nbRows == s.c.nbRows && u.c.force
  {
    LoadIsFilter(v, t, u);
    FilterFilter(v.convertible, v.acceptable, rows[..m]);
  }

  lemma FilledLoadRead(v: Server, s: Dp, rows: seq<Row>, m: nat, t: Dp, u: Dp)
    requires FilledBehind(v, s, rows, m, t) && LoadedAndRead(v, t, u)
    ensures u.o.table == s.o.table + Filter(Both(v.convertible, v.acceptable), rows[..m])
    ensures u.c.status == Prepared && u.c.nbRows == s.c.nbRows && u.c.force
  {
    var w :| LoadStep(v, t, w, DprComplete) && u == w.(c := w.c.(idxRow := |w.errs|));
    FilledLoad(v, s, rows, m, t, w);
  }

  /** Empties the loader and sets the cells to the rows of `data`. */
  method FillFresh(dp: Loader, data: seq<Values>) returns (ghost rows: seq<Row>)
    requires Ready(dp) && dp.c.force
    requires 0 < |data| <= dp.c.nbRows && DataFits(dp.columns, dp.parse, data)
    modifies dp`c, dp`nbErr, dp`errs, dp.oci`arr, dp.oci`o
    modifies dp.cells, if dp.cells == null then {} else dp.cells.Repr
    ensures Ready(dp) && dp.c.nbRows == old(dp.c.nbRows) && dp.oci.o.table == old(dp.oci.o.table)
    ensures rows == EncodedRows(dp.columns, dp.parse, data) && Filled(dp.Abs(), rows)
  {
    rows := EncodedRows(dp.columns, dp.parse, data);
    ghost var s := dp.Abs();
    var ok := dp.Reset();
    ResetIsFresh(s, dp.Abs());
    ok := dp.SetCurrentRows(|data|);
    Fill(dp, data);
    assert dp.Abs().rows[..|data|] == rows;
  }

  method ConvertOnly(dp: Loader, ghost rows: seq<Row>) returns (ghost m: nat)
    requires Ready(dp) && Filled(dp.Abs(), rows)
    modifies dp`c, dp`nbEntries, dp`nbErr, dp`errs, dp.errRows, dp.errCols, dp.oci`arr, dp.oci`o
    ensures dp.Valid() && dp.CellsValid() && CellsReach(dp) && FilledBehind(dp.oci.server, old(dp.Abs()), rows, m, dp.Abs())
    ensures dp.c.nbProcessed + |dp.errs| == m && dp.c.idxRow == 0
    ensures forall i :: 0 <= i < |dp.errs| ==> dp.errs[i].0 + 1 < U32
  {
    ghost var s := dp.Abs();
    ForceConvertRoom(dp.oci.server, s);
    var res := dp.Convert();
    m := FilledConvert(dp.oci.server, s, rows, dp.Abs(), res);
  }

  /** Converts the filled rows; `done` are the affected and the reported rows together. */
  method ConvertFilled(dp: Loader, ghost rows: seq<Row>) returns (done: nat, bad: seq<nat>)
    requires Ready(dp) && Filled(dp.Abs(), rows)
    modifies dp`c, dp`nbEntries, dp`nbErr, dp`errs, dp.errRows, dp.errCols, dp.oci`arr, dp.oci`o
    ensures dp.Valid() && dp.CellsValid() && CellsReach(dp) && FilledBehind(dp.oci.server, old(dp.Abs()), rows, done, dp.Abs())
    ensures LoadRoom(dp.oci.server, dp.Abs(), 0)
    ensures bad == Shift(Misses(dp.oci.server.convertible, rows[..done]), 1)
  {
    ghost var s := dp.Abs();
    ghost var m := ConvertOnly(dp, rows);
    ghost var t := dp.Abs();
    bad := ErredRows(dp);
    done := dp.c.nbProcessed + |bad|;
    CursorMoved(dp.oci.server, s, rows, m, t, dp.Abs());
    FilledRoom(dp.oci.server, s, rows, m, dp.Abs());
  }

  lemma FilledRoom(v: Server, s: Dp, rows: seq<Row>, m: nat, t: Dp)
    requires Filled(s, rows) && FilledBehind(v, s, rows, m, t)
    ensures LoadRoom(v, t, 0)
  {
    BatchRoom(v, t);
  }

  /** Reading the errors changes nothing that the Load depends on. */
  lemma CursorMoved(v: Server, s: Dp, rows: seq<Row>, m: nat, t: Dp, u: Dp)
    requires FilledBehind(v, s, rows, m, t) && u == RowsRead(t, |t.errs|)
    ensures FilledBehind(v, s, rows, m, u)
  {
  }

  /** What loading `rows` adds to the table and reports: the rows not converted, and those refused. */
  ghost predicate Loads(v: Server, rows: seq<Row>, was: seq<Row>, now: seq<Row>, bad: seq<nat>, refused: seq<nat>) {
    && now == was + Filter(Both(v.convertible, v.acceptable), rows)
    && bad == Shift(Misses(v.convertible, rows), 1)
    && refused == Shift(Misses(Unless(v.convertible, v.acceptable), rows), 1)
  }

  ghost predicate LoadsFirst(v: Server, rows: seq<Row>, k: nat, was: seq<Row>, now: seq<Row>, bad: seq<nat>, refused: seq<nat>)
    requires k <= |rows|
  {
    exists front :: front == rows[..k] && Loads(v, front, was, now, bad, refused)
  }

  /**
   Loads as many of the rows of `data` as fit the stream. `done` is how many of them were consumed, `bad`
   are the numbers of those that were not convertible, and `refused` of those the server refused.
   */
  method LoadChunk(dp: Loader, data: seq<Values>) returns (done: nat, bad: seq<nat>, refused: seq<nat>)
    requires Ready(dp) && dp.c.force && dp.oci.idle == 0
    requires 0 < |data| <= dp.c.nbRows && DataFits(dp.columns, dp.parse, data)
    modifies dp`c, dp`nbEntries, dp`nbErr, dp`errs, dp.errRows, dp.errCols, dp.oci`arr, dp.oci`o, dp.oci`idle
    modifies dp.cells, if dp.cells == null then {} else dp.cells.Repr
    ensures Ready(dp) && dp.oci.idle == 0 && dp.c.force && dp.c.nbRows == old(dp.c.nbRows) && 0 < done <= |data|
    ensures LoadsFirst(dp.oci.server, EncodedRows(dp.columns, dp.parse, data), done,
                       old(dp.oci.o.table), dp.oci.o.table, bad, refused)
  {
    ghost var rows := FillFresh(dp, data);
    done, bad, refused := ConvertAndLoad(dp, rows);
  }

  /** Converts the filled rows and loads those that fit the stream. */
  method ConvertAndLoad(dp: Loader, ghost rows: seq<Row>) returns (done: nat, bad: seq<nat>, refused: seq<nat>)
    requires Ready(dp) && dp.oci.idle == 0 && Filled(dp.Abs(), rows)
    modifies dp`c, dp`nbEntries, dp`nbErr, dp`errs, dp.errRows, dp.errCols, dp.oci`arr, dp.oci`o, dp.oci`idle
    ensures Ready(dp) && dp.oci.idle == 0 && dp.c.force && dp.c.nbRows == old(dp.c.nbRows) && 0 < done <= |rows|
    ensures LoadsFirst(dp.oci.server, rows, done, old(dp.oci.o.table), dp.oci.o.table, bad, refused)
  {
    ghost var s := dp.Abs();
    done, bad := ConvertFilled(dp, rows);
    refused := LoadRefusing(dp, s, rows, done, bad);
  }

  /** Loads the converted rows, and says which of the first `m` rows were refused. */
  method LoadRefusing(dp: Loader, ghost s: Dp, ghost rows: seq<Row>, m: nat, bad: seq<nat>) returns (refused: seq<nat>)
    requires dp.Valid() && dp.CellsValid() && CellsReach(dp) && dp.oci.idle == 0 && FilledBehind(dp.oci.server, s, rows, m, dp.Abs())
    requires LoadRoom(dp.oci.server, dp.Abs(), 0) && bad == Shift(Misses(dp.oci.server.convertible, rows[..m]), 1)
    modifies dp`c, dp`nbErr, dp`errs, dp.errRows, dp.errCols, dp.oci`o, dp.oci`idle
    ensures Ready(dp) && dp.oci.idle == 0 && dp.c.force && dp.c.nbRows == s.c.nbRows
    ensures LoadsFirst(dp.oci.server, rows, m, s.o.table, dp.oci.o.table, bad, refused)
  {
    var positions := LoadFilled(dp, s, rows, m);
    refused := RefusedRows(m, bad, positions, dp.oci.server, rows[..m]);
    FirstLoaded(dp.oci.server, rows, m, s.o.table, dp.oci.o.table, bad, refused);
  }

  lemma FirstLoaded(v: Server, rows: seq<Row>, k: nat, was: seq<Row>, now: seq<Row>, bad: seq<nat>, refused: seq<nat>)
    requires k <= |rows| && now == was + Filter(Both(v.convertible, v.acceptable), rows[..k])
    requires bad == Shift(Misses(v.convertible, rows[..k]), 1)
    requires refused == Shift(Misses(Unless(v.convertible, v.acceptable), rows[..k]), 1)
    ensures LoadsFirst(v, rows, k, was, now, bad, refused)
  {
    assert Loads(v, rows[..k], was, now, bad, refused);
  }

  method LoadFilled(dp: Loader, ghost s: Dp, ghost rows: seq<Row>, ghost m: nat) returns (positions: seq<nat>)
    requires dp.Valid() && dp.CellsValid() && CellsReach(dp) && dp.oci.idle == 0 && FilledBehind(dp.oci.server, s, rows, m, dp.Abs())
    requires LoadRoom(dp.oci.server, dp.Abs(), 0)
    modifies dp`c, dp`nbErr, dp`errs, dp.errRows, dp.errCols, dp.oci`o, dp.oci`idle
    ensures Ready(dp) && dp.oci.idle == 0 && dp.c.force && dp.c.nbRows == s.c.nbRows
    ensures dp.oci.o.table == s.o.table + Filter(Both(dp.oci.server.convertible, dp.oci.server.acceptable), rows[..m])
    ensures positions == Misses(dp.oci.server.acceptable, Filter(dp.oci.server.convertible, rows[..m]))
  {
    ghost var t := dp.Abs();
    positions := LoadReporting(dp);
    FilledLoadRead(dp.oci.server, s, rows, m, t, dp.Abs());
  }

  /** The rows consumed by a chunk behind `k` consumed rows. */
  lemma ChunkOf(columns: seq<Column>, parse: nat -> seq<byte> -> Option<Digits>, data: seq<Values>, k: nat, n: nat, d: nat)
    requires DataFits(columns, parse, data) && d <= n && k + n <= |data|
    ensures DataFits(columns, parse, data[k..k + n])
    ensures var rows := EncodedRows(columns, parse, data);
      EncodedRows(columns, parse, data[k..k + n])[..d] == rows[k..k + d]
  {
  }

  lemma ChunkAddsUp(v: Server, table: seq<Row>, rows: seq<Row>, k: nat, d: nat, part: seq<Row>, now: seq<Row>, after: seq<Row>,
                    bad: seq<nat>, refused: seq<nat>, moreBad: seq<nat>, moreRefused: seq<nat>)
    requires k + d <= |rows| && LoadsFirst(v, rows, k, table, now, bad, refused)
    requires part == rows[k..k + d] && Loads(v, part, now, after, moreBad, moreRefused)
    ensures LoadsFirst(v, rows, k + d, table, after, bad + Shift(moreBad, k), refused + Shift(moreRefused, k))
  {
    assert rows[..k] + part == rows[..k + d];
    LoadsAddUp(v, table, rows[..k], part, now, after, bad, refused, moreBad, moreRefused);
  }

  lemma LoadsAddUp(v: Server, table: seq<Row>, front: seq<Row>, part: seq<Row>, now: seq<Row>, after: seq<Row>,
                   bad: seq<nat>, refused: seq<nat>, moreBad: seq<nat>, moreRefused: seq<nat>)
    requires Loads(v, front, table, now, bad, refused) && Loads(v, part, now, after, moreBad, moreRefused)
    ensures Loads(v, front + part, table, after, bad + Shift(moreBad, |front|), refused + Shift(moreRefused, |front|))
  {
    FilterConcat(Both(v.convertible, v.acceptable), front, part);
    NumbersAddUp(v.convertible, front, part);
    NumbersAddUp(Unless(v.convertible, v.acceptable), front, part);
    ConcatAssoc(table, Filter(Both(v.convertible, v.acceptable), front), Filter(Both(v.convertible, v.acceptable), part));
  }

  lemma NumbersAddUp(p: Row -> bool, front: seq<Row>, part: seq<Row>)
    ensures Shift(Misses(p, front + part), 1) == Shift(Misses(p, front), 1) + Shift(Shift(Misses(p, part), 1), |front|)
  {
    MissesConcat(p, front, part);
  }

  lemma NextChunk(columns: seq<Column>, parse: nat -> seq<byte> -> Option<Digits>, data: seq<Values>, k: nat, n: nat, d: nat,
                  v: Server, table: seq<Row>, now: seq<Row>, after: seq<Row>,
                  bad: seq<nat>, refused: seq<nat>, moreBad: seq<nat>, moreRefused: seq<nat>)
    requires DataFits(columns, parse, data) && d <= n && k + n <= |data| && DataFits(columns, parse, data[k..k + n])
    requires LoadsFirst(v, EncodedRows(columns, parse, data), k, table, now, bad, refused)
    requires LoadsFirst(v, EncodedRows(columns, parse, data[k..k + n]), d, now, after, moreBad, moreRefused)
    ensures LoadsFirst(v, EncodedRows(columns, parse, data), k + d, table, after, bad + Shift(moreBad, k), refused + Shift(moreRefused, k))
  {
    ChunkOf(columns, parse, data, k, n, d);
    var part :| part == EncodedRows(columns, parse, data[k..k + n])[..d] && Loads(v, part, now, after, moreBad, moreRefused);
    ChunkAddsUp(v, table, EncodedRows(columns, parse, data), k, d, part, now, after, bad, refused, moreBad, moreRefused);
  }

  /** The next chunk of `data`, of which `k` rows are loaded. */
  method LoadNext(dp: Loader, data: seq<Values>, k: nat, wasBad: seq<nat>, wasRefused: seq<nat>, ghost table: seq<Row>)
    returns (next: nat, bad: seq<nat>, refused: seq<nat>)
    requires Ready(dp) && dp.c.force && dp.oci.idle == 0 && dp.c.nbRows > 0
    requires DataFits(dp.columns, dp.parse, data) && k < |data|
    requires LoadsFirst(dp.oci.server, EncodedRows(dp.columns, dp.parse, data), k, table, dp.oci.o.table, wasBad, wasRefused)
    modifies dp`c, dp`nbEntries, dp`nbErr, dp`errs, dp.errRows, dp.errCols, dp.oci`arr, dp.oci`o, dp.oci`idle
    modifies dp.cells, if dp.cells == null then {} else dp.cells.Repr
    ensures Ready(dp) && dp.oci.idle == 0 && dp.c.force && dp.c.nbRows == old(dp.c.nbRows) && k < next <= |data|
    ensures LoadsFirst(dp.oci.server, EncodedRows(dp.columns, dp.parse, data), next, table, dp.oci.o.table, bad, refused)
  {
    var n := Min(|data| - k, dp.c.nbRows);
    ghost var now := dp.oci.o.table;
    ChunkOf(dp.columns, dp.parse, data, k, n, 0);
    var done, moreBad, moreRefused := LoadChunk(dp, data[k..k + n]);
    next, bad, refused := k + done, wasBad + Shift(moreBad, k), wasRefused + Shift(moreRefused, k);
    NextChunk(dp.columns, dp.parse, data, k, n, done, dp.oci.server, table, now, dp.oci.o.table, wasBad, wasRefused, moreBad, moreRefused);
  }

  /**
   Loads data of any length in FORCE mode, through a stream of any capacity and into a loader with any
   history. The table grows by exactly the rows that are convertible and acceptable, each once and in
   order. Counted over all of `data` from 1, `bad` are exactly the rows that are not convertible, and
   `refused` exactly those that are, but that the server did not accept.
   */
  method LoadAll(dp: Loader, data: seq<Values>) returns (bad: seq<nat>, refused: seq<nat>)
    requires Ready(dp) && dp.c.force && dp.oci.idle == 0 && dp.c.nbRows > 0
    requires DataFits(dp.columns, dp.parse, data)
    modifies dp`c, dp`nbEntries, dp`nbErr, dp`errs, dp.errRows, dp.errCols, dp.oci`arr, dp.oci`o, dp.oci`idle
    modifies dp.cells, if dp.cells == null then {} else dp.cells.Repr
    ensures Ready(dp)
    ensures var v, rows := dp.oci.server, EncodedRows(dp.columns, dp.parse, data);
      && dp.oci.o.table == old(dp.oci.o.table) + Filter(Both(v.convertible, v.acceptable), rows)
      && bad == Shift(Misses(v.convertible, rows), 1)
      && refused == Shift(Misses(Unless(v.convertible, v.acceptable), rows), 1)
  {
    ghost var v, rows, table := dp.oci.server, EncodedRows(dp.columns, dp.parse, data), dp.oci.o.table;
    var k := 0;
    bad, refused := [], [];
    assert Loads(v, rows[..0], table, table, bad, refused);
    while k < |data|
      invariant k <= |data| && Ready(dp) && dp.oci.idle == 0 && dp.c.force && dp.c.nbRows == old(dp.c.nbRows)
      invariant LoadsFirst(v, rows, k, table, dp.oci.o.table, bad, refused)
    {
      k, bad, refused := LoadNext(dp, data, k, bad, refused, table);
    }
    assert rows[..k] == rows;
  }

  // ------------------------------------------------- chunks without a Reset between them

  /** No row of `rows` is refused, cannot be converted or has a partial column. */
  ghost predicate Clean(v: Server, rows: seq<Row>) {
    && All(v.convertible, rows) && All(v.acceptable, rows)
    && forall k :: 0 <= k < |rows| ==> !HasPartial(rows[k])
  }

  /** The first `k` of `rows` are loaded behind `table`, and the next chunk can be converted. */
  ghost predicate Counting(s: Dp, table: seq<Row>, rows: seq<Row>, k: nat) {
    && Shape(s) && s.c.status == Prepared && k <= |rows| <= s.c.nbRows
    && s.c.nbConverted == k && s.o.table == table + rows[..k]
    && (k < |rows| ==> ChunkReady(s))
  }

  /** The rest of `rows` is set up as the current rows. */
  ghost predicate Rebased(s: Dp, rows: seq<Row>, k: nat) {
    k < |rows| && s.c.nbCur == |rows| - k <= |s.rows| && s.rows[..s.c.nbCur] == rows[k..]
  }

  /** A Convert of clean rows put the first ones, `part`, into the empty stream. */
  ghost predicate CleanBehind(s: Dp, part: seq<Row>, t: Dp) {
    && Shape(t) && t.c.status == Converted && t.errs == [] && t.c.nbRows == s.c.nbRows
    && part != [] && |part| <= t.c.nbRows && Pending(t) == part && t.o.table == s.o.table
    && t.c.nbProcessed == t.c.nbConverted == Add32(s.c.nbConverted, |part|)
    && (t.c.resConv == DprFull || |part| == s.c.nbCur)
  }

  lemma CleanConvert(v: Server, s: Dp, t: Dp, r: Res) returns (m: nat)
    requires ChunkReady(s) && s.c.nbCur > 0 && Clean(v, s.rows[..s.c.nbCur]) && ConvertStep(v, s, t, r)
    ensures m <= s.c.nbCur && CleanBehind(s, s.rows[..m], t) && LoadRoom(v, t, 0)
  {
    CleanStop(v, s, t, r);
    m := ConvertExact(v, s, t, r);
    FilterFirst(v.convertible, s.rows, s.c.nbCur, m);
    BatchRoom(v, t);
  }

  lemma FilterFirst<T>(p: T -> bool, s: seq<T>, n: nat, m: nat)
    requires m <= n <= |s| && All(p, s[..n])
    ensures Filter(p, s[..m]) == s[..m]
  {
    assert forall k :: 0 <= k < m ==> s[..m][k] == s[..n][k];
    FilterAll(p, s[..m]);
  }

  lemma CleanStop(v: Server, s: Dp, t: Dp, r: Res)
    requires ChunkReady(s) && Clean(v, s.rows[..s.c.nbCur]) && ConvertStep(v, s, t, r)
    ensures r != DprPartial
  {
    var m: nat :| ConvertedTo(v, s, t, r, m);
    assert Batch(s) == s.rows[..s.c.nbCur];
  }

  lemma CleanConvertRoom(v: Server, s: Dp)
    requires ChunkReady(s) && Clean(v, s.rows[..s.c.nbCur])
    ensures ConvertRoom(v, s)
  {
    assert Batch(s) == s.rows[..s.c.nbCur];
    AllIffNoMisses(v.convertible, Batch(s));
  }

  lemma CleanLoad(v: Server, s: Dp, part: seq<Row>, t: Dp, u: Dp)
    requires CleanBehind(s, part, t) && All(v.acceptable, part) && SteadyLoad(v, t, u)
    ensures Shape(u) && u.c.status == Prepared && u.c.nbRows == s.c.nbRows
    ensures u.o.table == s.o.table + part && u.c.nbConverted == t.c.nbConverted
    ensures |part| < s.c.nbCur ==> ChunkReady(u)
  {
    LoadErrorPositions(v, t, u);
    LoadIsFilter(v, t, u);
    FilterAll(v.acceptable, part);
  }

  /** A Convert and a Load of the rest: the count of converted rows is the number of rows loaded. */
  lemma CleanChunk(v: Server, s: Dp, m: nat, t: Dp, u: Dp, table: seq<Row>, rows: seq<Row>, k: nat)
    requires Counting(s, table, rows, k) && Rebased(s, rows, k) && Clean(v, rows)
    requires m <= s.c.nbCur && CleanBehind(s, s.rows[..m], t) && SteadyLoad(v, t, u)
    ensures t.c.nbProcessed > k && Counting(u, table, rows, t.c.nbProcessed)
  {
    var part := rows[k..k + m];
    assert s.rows[..m] == part;
    CleanLoad(v, s, part, t, u);
    assert rows[..k] + part == rows[..k + m];
    ConcatAssoc(table, rows[..k], part);
    SmallSum(k, m);
  }

  lemma CleanRest(v: Server, rows: seq<Row>, k: nat)
    requires k <= |rows| && Clean(v, rows)
    ensures Clean(v, rows[k..])
  {
  }

  /** Makes the rest of `data`, behind the first `k` rows, the current rows. */
  method Rebase(dp: Loader, data: seq<Values>, k: nat, ghost table: seq<Row>)
    requires Ready(dp) && DataFits(dp.columns, dp.parse, data) && k < |data|
    requires Counting(dp.Abs(), table, EncodedRows(dp.columns, dp.parse, data), k)
    modifies dp`c, dp.cells, if dp.cells == null then {} else dp.cells.Repr
    ensures Ready(dp) && Rebased(dp.Abs(), EncodedRows(dp.columns, dp.parse, data), k)
    ensures Counting(dp.Abs(), table, EncodedRows(dp.columns, dp.parse, data), k)
  {
    var ok := dp.SetCurrentRows(|data| - k);
    Fill(dp, data[k..]);
  }

  /** Converts the current rows, which are the rest of `rows`; `m` of them go to the stream. */
  method ConvertRebased(dp: Loader, ghost rows: seq<Row>, ghost k: nat, ghost table: seq<Row>) returns (ghost m: nat)
    requires Ready(dp) && Clean(dp.oci.server, rows)
    requires Rebased(dp.Abs(), rows, k) && Counting(dp.Abs(), table, rows, k)
    modifies dp`c, dp`nbEntries, dp`nbErr, dp`errs, dp.errRows, dp.errCols, dp.oci`arr, dp.oci`o
    ensures dp.Valid() && dp.CellsValid() && CellsReach(dp) && LoadRoom(dp.oci.server, dp.Abs(), 0)
    ensures m <= old(dp.c.nbCur) <= |old(dp.Abs()).rows| && CleanBehind(old(dp.Abs()), old(dp.Abs()).rows[..m], dp.Abs())
  {
    ghost var v, s := dp.oci.server, dp.Abs();
    CleanRest(v, rows, k);
    CleanConvertRoom(v, s);
    var res := dp.Convert();
    m := CleanConvert(v, s, dp.Abs(), res);
  }

  /** Converts and loads the current rows, which are the rest of `rows`. */
  method LoadRebased(dp: Loader, ghost rows: seq<Row>, k: nat, ghost table: seq<Row>) returns (affected: nat)
    requires Ready(dp) && dp.oci.idle == 0 && Clean(dp.oci.server, rows)
    requires Rebased(dp.Abs(), rows, k) && Counting(dp.Abs(), table, rows, k)
    modifies dp`c, dp`nbEntries, dp`nbErr, dp`errs, dp.errRows, dp.errCols, dp.oci`arr, dp.oci`o, dp.oci`idle
    ensures Ready(dp) && dp.oci.idle == 0 && affected > k && Counting(dp.Abs(), table, rows, affected)
  {
    ghost var v, s := dp.oci.server, dp.Abs();
    ghost var m := ConvertRebased(dp, rows, k, table);
    affected := dp.c.nbProcessed;
    ghost var t := dp.Abs();
    var res := dp.Load();
    CleanChunk(v, s, m, t, dp.Abs(), table, rows, k);
  }

  /**
   Loads a batch without rejections through a stream of any capacity: after every Convert that fills
   the stream, the stream is loaded and the rest is moved to the first row and made current, without a
   Reset. Every row is loaded once and in order, and the last affected count is the full row count.
   */
  method LoadCounting(dp: Loader, data: seq<Values>) returns (affected: nat)
    requires Ready(dp) && dp.oci.idle == 0 && |data| <= dp.c.nbRows && DataFits(dp.columns, dp.parse, data)
    requires Clean(dp.oci.server, EncodedRows(dp.columns, dp.parse, data))
    modifies dp`c, dp`nbEntries, dp`nbErr, dp`errs, dp.errRows, dp.errCols, dp.oci`arr, dp.oci`o, dp.oci`idle
    modifies dp.cells, if dp.cells == null then {} else dp.cells.Repr
    ensures Ready(dp) && affected == |data|
    ensures dp.oci.o.table == old(dp.oci.o.table) + EncodedRows(dp.columns, dp.parse, data)
  {
    ghost var table, rows := dp.oci.o.table, EncodedRows(dp.columns, dp.parse, data);
    var ok := dp.Reset();
    affected := 0;
    while affected < |data|
      invariant Ready(dp) && dp.oci.idle == 0 && affected <= |data| && Counting(dp.Abs(), table, rows, affected)
    {
      Rebase(dp, data, affected, table);
      affected := LoadRebased(dp, rows, affected, table);
    }
    assert rows[..affected] == rows;
  }
}
