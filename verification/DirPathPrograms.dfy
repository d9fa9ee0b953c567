/** Whole programs, from the creation of a loader on: what they require is said in full. */
module DirPathPrograms {
  import opened Options
  import opened Words
  import opened Seqs
  import opened DirPathSpec
  import opened DirPathOci
  import opened DirPathCells
  import opened DirPath
  import opened DirPathTheorems
  import opened DirPathRooms
  import opened DirPathReports
  import opened DirPathDrivers
  import opened DirPathCorrections

  /** A number fits its cell when it parses; any other value when what is kept of it does. */
  predicate ValueFits(c: Column, parse: seq<byte> -> Option<Digits>, value: seq<byte>) {
    if c.ddt == DdtNumber then parse(value).Some? else |value| <= c.bufsize || c.maxsize <= c.bufsize
  }

  /** What the loader keeps of a value: the digits of a number, or the first bytes, as many as the column takes. */
  function Stored(c: Column, parse: seq<byte> -> Option<Digits>, value: seq<byte>): Entry
    requires ValueFits(c, parse, value)
  {
    Entry(if c.ddt == DdtNumber then parse(value).value
          else if |value| <= c.maxsize then value else value[..c.maxsize], ColComplete)
  }

  /** A row of values for the columns. */
  predicate ValuesFit(columns: seq<Column>, parse: nat -> seq<byte> -> Option<Digits>, values: Values) {
    |values| == |columns| && forall c :: 0 <= c < |columns| ==> ValueFits(columns[c], parse(c), values[c])
  }

  function StoredRow(columns: seq<Column>, parse: nat -> seq<byte> -> Option<Digits>, values: Values): (row: Row)
    requires ValuesFit(columns, parse, values)
    ensures |row| == |columns| && forall c :: 0 <= c < |row| ==> row[c] == Stored(columns[c], parse(c), values[c])
  {
    seq(|columns|, c requires 0 <= c < |columns| && ValuesFit(columns, parse, values) => Stored(columns[c], parse(c), values[c]))
  }

  function StoredRows(columns: seq<Column>, parse: nat -> seq<byte> -> Option<Digits>, data: seq<Values>): (rows: seq<Row>)
    requires forall k :: 0 <= k < |data| ==> ValuesFit(columns, parse, data[k])
    ensures |rows| == |data| && forall k :: 0 <= k < |rows| ==> rows[k] == StoredRow(columns, parse, data[k])
  {
    seq(|data|, k requires 0 <= k < |data| && ValuesFit(columns, parse, data[k]) => StoredRow(columns, parse, data[k]))
  }

  lemma StoredIsEncoded(columns: seq<Column>, parse: nat -> seq<byte> -> Option<Digits>, values: Values)
    requires ValuesFit(columns, parse, values)
    ensures RowFits(columns, parse, values) && Encoded(columns, parse, values) == StoredRow(columns, parse, values)
  {
    forall c | 0 <= c < |columns|
      ensures CellFits(columns[c], parse(c), values[c])
      ensures EntryFor(columns[c], parse(c), Some(values[c]), |values[c]|, true) == Some(Stored(columns[c], parse(c), values[c]))
    {
      assert ValueFits(columns[c], parse(c), values[c]);
      assert values[c][..|values[c]|] == values[c];
    }
  }

  lemma AllStored(columns: seq<Column>, parse: nat -> seq<byte> -> Option<Digits>, data: seq<Values>)
    requires forall k :: 0 <= k < |data| ==> ValuesFit(columns, parse, data[k])
    ensures DataFits(columns, parse, data) && EncodedRows(columns, parse, data) == StoredRows(columns, parse, data)
  {
    forall k | 0 <= k < |data|
      ensures RowFits(columns, parse, data[k]) && Encoded(columns, parse, data[k]) == StoredRow(columns, parse, data[k])
    {
      StoredIsEncoded(columns, parse, data[k]);
    }
  }

  /** The columns are as they can be described, and no offset of a cell wraps with `nbRows` rows. */
  predicate ColumnsFit(columns: seq<Column>, nbRows: nat) {
    forall c :: 0 <= c < |columns| ==>
      (columns[c].ddt == DdtNumber ==> columns[c].bufsize == 22) && columns[c].bufsize * (nbRows - 1) < U32
  }

  /** Creates a loader, sets its mode when FORCE is wanted, and prepares it. */
  method Start(oci: Oci, parse: nat -> seq<byte> -> Option<Digits>, columns: seq<Column>, force: bool, nbRows: nat) returns (dp: Loader)
    requires oci.Valid() && oci.nbCols == |columns| && 0 < nbRows < 0x1_0000 && ColumnsFit(columns, nbRows)
    ensures fresh(dp) && dp.oci == oci && dp.parse == parse && dp.columns == columns && dp.cells != null
    ensures fresh(dp.cells) && fresh(dp.cells.Repr) && fresh(dp.errRows) && fresh(dp.errCols)
    ensures Ready(dp) && dp.c.force == force && dp.c.nbRows == dp.c.nbCur == nbRows
  {
    forall c | 0 <= c < |columns|
      ensures OffsetsFit(nbRows, columns[c].bufsize)
    {
      CellsLengthIsProduct(nbRows - 1, columns[c].bufsize);
    }
    dp := new Loader(oci, parse, columns, nbRows);
    if force {
      var done := dp.SetConvertMode(true);
    }
    var ok := dp.Prepare(nbRows);
  }

  /**
   A program in FORCE mode: whatever the data, the table gets exactly the good rows, once and in order, and the
   program knows exactly which rows did not convert, and which were refused.
   */
  method ForceProgram(oci: Oci, parse: nat -> seq<byte> -> Option<Digits>, columns: seq<Column>, nbRows: nat, data: seq<Values>)
    returns (bad: seq<nat>, refused: seq<nat>)
    requires oci.Valid() && oci.nbCols == |columns| && oci.idle == 0 && 0 < nbRows < 0x1_0000 && ColumnsFit(columns, nbRows)
    requires forall k :: 0 <= k < |data| ==> ValuesFit(columns, parse, data[k])
    modifies oci
    ensures var v, rows := oci.server, StoredRows(columns, parse, data);
      && oci.o.table == old(oci.o.table) + Filter(Both(v.convertible, v.acceptable), rows)
      && bad == Shift(Misses(v.convertible, rows), 1)
      && refused == Shift(Misses(Unless(v.convertible, v.acceptable), rows), 1)
  {
    AllStored(columns, parse, data);
    var dp := Start(oci, parse, columns, true, nbRows);
    bad, refused := LoadAll(dp, data);
  }

  /**
   A program that asks for no mode, so that it is in DEFAULT mode: it fills the rows, replaces every bad row by
   one that converts, and loads. When everything fits the stream, the table gets every row, or its replacement if
   it was bad, once and in order, but for those the server refuses.
   */
  method DefaultProgram(oci: Oci, parse: nat -> seq<byte> -> Option<Digits>, columns: seq<Column>, data: seq<Values>, fix: nat -> Values)
    returns (res: Res)
    requires oci.Valid() && oci.nbCols == |columns| && oci.idle == 0 && 0 < |data| < 0x1_0000 && ColumnsFit(columns, |data|)
    requires forall k :: 0 <= k < |data| ==> ValuesFit(columns, parse, data[k]) && ValuesFit(columns, parse, fix(k))
    requires forall k :: 0 <= k < |data| ==> oci.server.convertible(StoredRow(columns, parse, fix(k)))
    modifies oci
    ensures res == DprComplete || res == DprFull
    ensures res == DprFull ==> oci.o.table == old(oci.o.table)
    ensures res == DprComplete ==>
      exists mended :: MendedRows(oci.server, columns, parse, data, fix, mended)
                       && oci.o.table == old(oci.o.table) + Filter(oci.server.acceptable, mended)
  {
    var dp := Start(oci, parse, columns, false, |data|);
    res := MendProgram(dp, data, fix);
    if res == DprComplete {
      ghost var mended := Pending(dp.Abs());
      LoadMended(dp);
    }
  }

  /** Every row as it is stored, or its replacement if that does not convert. */
  ghost predicate MendedRows(v: Server, columns: seq<Column>, parse: nat -> seq<byte> -> Option<Digits>, data: seq<Values>,
                             fix: nat -> Values, mended: seq<Row>)
    requires forall k :: 0 <= k < |data| ==> ValuesFit(columns, parse, data[k]) && ValuesFit(columns, parse, fix(k))
  {
    && |mended| == |data|
    && forall k :: 0 <= k < |data| ==>
         mended[k] == StoredRow(columns, parse, if v.convertible(StoredRow(columns, parse, data[k])) then data[k] else fix(k))
  }

  /** Fills the rows of a loader in DEFAULT mode, and replaces the bad ones. */
  method MendProgram(dp: Loader, data: seq<Values>, fix: nat -> Values) returns (res: Res)
    requires Ready(dp) && !dp.c.force && 0 < |data| == dp.c.nbRows == dp.c.nbCur
    requires forall k :: 0 <= k < |data| ==> ValuesFit(dp.columns, dp.parse, data[k]) && ValuesFit(dp.columns, dp.parse, fix(k))
    requires forall k :: 0 <= k < |data| ==> dp.oci.server.convertible(StoredRow(dp.columns, dp.parse, fix(k)))
    modifies dp`c, dp`nbEntries, dp`nbErr, dp`errs, dp.errRows, dp.errCols, dp.oci`arr, dp.oci`o
    modifies dp.cells, if dp.cells == null then {} else dp.cells.Repr
    ensures dp.Valid() && dp.oci.o.table == old(dp.oci.o.table) && dp.c.nbRows == |data| && dp.c.status == Converted
    ensures res == DprComplete || res == DprFull
    ensures res == DprComplete ==>
      |Pending(dp.Abs())| == |data| && MendedRows(dp.oci.server, dp.columns, dp.parse, data, fix, Pending(dp.Abs()))
  {
    AllStored(dp.columns, dp.parse, data);
    forall k | 0 <= k < |data|
      ensures RowFits(dp.columns, dp.parse, fix(k)) && Encoded(dp.columns, dp.parse, fix(k)) == StoredRow(dp.columns, dp.parse, fix(k))
    {
      StoredIsEncoded(dp.columns, dp.parse, fix(k));
    }
    Fill(dp, data);
    assert dp.Abs().rows == StoredRows(dp.columns, dp.parse, data);
    ghost var k;
    res, k := CorrectAll(dp, fix);
    if k < |data| {
      StoredComplete(dp.columns, dp.parse, data[k]);
    }
  }

  /** A row is partial if and only if a value of it was given as not being whole yet. */
  lemma PartialRow(columns: seq<Column>, parse: nat -> seq<byte> -> Option<Digits>, given: seq<Option<seq<byte>>>, whole: seq<bool>, row: Row)
    requires |given| == |whole| == |row| == |columns|
    requires forall c :: 0 <= c < |row| ==>
      EntryFor(columns[c], parse(c), given[c], if given[c].Some? then |given[c].value| else 0, whole[c]) == Some(row[c])
    ensures HasPartial(row) <==> exists c :: 0 <= c < |row| && given[c].Some? && !whole[c]
  {
    if HasPartial(row) {
      var c :| 0 <= c < |row| && row[c].flag == ColPartial;
      assert given[c].Some? && !whole[c];
    }
    if c :| 0 <= c < |row| && given[c].Some? && !whole[c] {
      assert row[c].flag == ColPartial;
    }
  }

  lemma StoredComplete(columns: seq<Column>, parse: nat -> seq<byte> -> Option<Digits>, values: Values)
    requires ValuesFit(columns, parse, values)
    ensures !HasPartial(StoredRow(columns, parse, values))
  {
  }

  /** Loads a batch that was converted completely. */
  method LoadMended(dp: Loader)
    requires dp.Valid() && dp.oci.idle == 0 && dp.c.status == Converted && |Pending(dp.Abs())| <= dp.c.nbRows
    modifies dp`c, dp`nbErr, dp`errs, dp.errRows, dp.errCols, dp.oci`o, dp.oci`idle
    ensures dp.oci.o.table == old(dp.oci.o.table) + Filter(dp.oci.server.acceptable, old(Pending(dp.Abs())))
  {
    ghost var t := dp.Abs();
    BatchRoom(dp.oci.server, t);
    var res := dp.Load();
    LoadIsFilter(dp.oci.server, t, dp.Abs());
  }
}
