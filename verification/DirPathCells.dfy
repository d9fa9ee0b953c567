/**
 The cell buffers of a loader: for every column one flat byte buffer of `bufsize` bytes a row, with
 the length and the flag of every row beside it. ANSI build: one byte a character.
 */
module DirPathCells {
  import opened Offsets
  import opened Words
  import opened DirPathSpec

  /** How a value reaches its cell: a copy of the bytes, or a number parsed into an OCINumber. */
  datatype ColumnType = DdtText | DdtNumber | DdtBinary | DdtOthers

  datatype Column = Column(ddt: ColumnType, maxsize: ub4, bufsize: ub4)

  /** The datatypes of a table column, as far as sizing needs them. */
  datatype TableType = TText | TNumeric | TTimed | TBinary | TOtherLob

  /** sizeof(OCINumber) */
  const NUMBER_SIZE: ub4 := 22

  /** OCI_UTF8_BYTES_PER_CHAR */
  const UTF8_BYTES: ub4 := 4

  /** The sizes a column gets when it is described; `format` is the length of its format string. */
  function DescribeColumn(t: TableType, declared: ub4, format: ub4, utf8: bool): Column {
    var plain := Add32(declared, 1);
    match t
    case TText => Column(DdtText, declared, if utf8 then Mul32(plain, UTF8_BYTES) else plain)
    case TNumeric =>
      if format > 0 then Column(DdtNumber, NUMBER_SIZE, NUMBER_SIZE) else Column(DdtOthers, declared, plain)
    case TTimed => Column(DdtOthers, if format > 0 then Max(format, declared) else declared, plain)
    case TBinary => Column(DdtBinary, declared, plain)
    case TOtherLob => Column(DdtText, declared, plain)
  }

  /**
   How a column takes its values: only a number column with a format parses them, into an OCINumber of 22 bytes;
   any other takes bytes, and a formatted date, time or interval at least as many as its format is long.
   */
  lemma DescribedType(t: TableType, declared: ub4, format: ub4, utf8: bool)
    ensures var c := DescribeColumn(t, declared, format, utf8);
      && (c.ddt == DdtNumber <==> t == TNumeric && format > 0)
      && (c.ddt == DdtNumber ==> c.bufsize == c.maxsize == 22)
      && (c.ddt == DdtBinary <==> t == TBinary) && (c.ddt == DdtText <==> t == TText || t == TOtherLob)
      && (c.ddt != DdtNumber ==> c.maxsize == if t == TTimed && format > declared then format else declared)
      && (c.ddt != DdtNumber && !(t == TText && utf8) ==> c.bufsize == (declared + 1) % U32)
      && (t == TText && utf8 ==> c.bufsize == (4 * (declared + 1)) % U32)
  {
  }

  /** The declared sizes for which the cell of a text in a UTF-8 environment still holds the maximum. */
  predicate Utf8Fits(declared: ub4) {
    declared < 0x3FFF_FFFF || 0x5555_5554 <= declared < 0x7FFF_FFFF || 0xAAAA_AAAA <= declared < 0xBFFF_FFFF
  }

  /**
   An entry clamped to the column's maximum fits the column's cell if and only if: the column is a
   formatted number; or adding the terminator to the declared size does not wrap, nor does, for a text in
   a UTF-8 environment, the size in bytes to less than the maximum; and the format of a date, time or
   interval is longer than the declared size by at most one character.
   */
  lemma ClampedEntryFits(t: TableType, declared: ub4, format: ub4, utf8: bool)
    ensures var c := DescribeColumn(t, declared, format, utf8);
      c.maxsize <= c.bufsize <==>
        || (t == TNumeric && format > 0)
        || (declared < U32 - 1
            && (t == TText && utf8 ==> Utf8Fits(declared))
            && (t == TTimed ==> format <= declared + 1))
  {
    if t == TText && utf8 && declared < U32 - 1 {
      Utf8Cell(declared);
    }
  }

  lemma Utf8Cell(declared: ub4)
    requires declared < U32 - 1
    ensures declared <= Mul32(declared + 1, UTF8_BYTES) <==> Utf8Fits(declared)
  {
    var bytes := 4 * (declared + 1);
    var wraps := bytes / U32;
    assert bytes == wraps * U32 + bytes % U32 && 0 <= wraps < 4;
  }

  /** 2^30 characters of text in a UTF-8 environment get a cell of four bytes. */
  lemma WrappedCell()
    ensures DescribeColumn(TText, 0x4000_0000, 0, true) == Column(DdtText, 0x4000_0000, 4)
  {
  }

  // ------------------------------------------------------------------- where the cells are

  /** The bytes of `r` cells of `size` bytes: `r * size`. */
  function CellsLength(r: nat, size: ub4): nat {
    if r == 0 then 0 else CellsLength(r - 1, size) + size
  }

  /** Where the cell of row `r` starts: a product of 32-bit numbers. */
  function CellStart(r: nat, size: ub4): ub4 {
    CellsLength(r, size) % U32
  }

  lemma {:induction false} CellsLengthIsProduct(r: nat, size: ub4)
    ensures CellsLength(r, size) == size * r
  {
    if r > 0 {
      CellsLengthIsProduct(r - 1, size);
      assert size * r == size * (r - 1) + size;
    }
  }

  /** No offset of a cell wraps. */
  predicate OffsetsFit(nbRows: nat, size: ub4) {
    nbRows > 0 ==> CellsLength(nbRows - 1, size) < U32
  }

  /** Every cell is inside the buffer of its column, wrapped or not. */
  lemma CellInside(r: nat, nbRows: nat, size: ub4)
    requires r < nbRows
    ensures CellStart(r, size) + size <= CellsLength(nbRows, size)
  {
    LengthsApart(r, nbRows, size);
  }

  lemma {:induction false} LengthsApart(r1: nat, r2: nat, size: ub4)
    requires r1 < r2
    ensures CellsLength(r1, size) + size <= CellsLength(r2, size)
  {
    if r1 + 1 < r2 {
      LengthsApart(r1, r2 - 1, size);
    }
  }

  /** The cells of different rows of one buffer do not overlap when no offset wraps. */
  lemma RowsApart(r1: nat, r2: nat, nbRows: nat, size: ub4)
    requires r1 < r2 < nbRows && OffsetsFit(nbRows, size)
    ensures CellStart(r1, size) + size <= CellStart(r2, size)
  {
    LengthsApart(r1, r2, size);
    if r2 < nbRows - 1 {
      LengthsApart(r2, nbRows - 1, size);
    }
  }

  /**
   The cells of a column do not overlap if and only if no offset wraps, that is, if the size of a cell
   times the number of the last row is below 2^32.
   */
  lemma CellsApartIffFit(nbRows: nat, size: ub4)
    requires nbRows > 0 && size > 0
    ensures OffsetsFit(nbRows, size) <==> size * (nbRows - 1) < U32
    ensures OffsetsFit(nbRows, size) <==>
      forall i, j :: 0 <= i < j < nbRows ==> RangesApart(CellStart(i, size), CellStart(j, size), size)
  {
    CellsLengthIsProduct(nbRows - 1, size);
    CellsApartExactly(size, nbRows);
    SameCells(nbRows, size);
  }

  lemma SameCells(nbRows: nat, size: ub4)
    ensures CellsApart(size, nbRows) <==>
      forall i, j :: 0 <= i < j < nbRows ==> RangesApart(CellStart(i, size), CellStart(j, size), size)
  {
    forall i, j | 0 <= i < j < nbRows
      ensures RangesApart((size * i) % U32, (size * j) % U32, size) == RangesApart(CellStart(i, size), CellStart(j, size), size)
    {
      CellsLengthIsProduct(i, size);
      CellsLengthIsProduct(j, size);
    }
  }

  /** With cells of 100000 bytes, writing the first bytes of row 42951 writes into row 1. */
  lemma CellsCanCollide()
    ensures 0 < CellStart(42950, 100000) < 100000 && CellStart(0, 100000) == 0
  {
    CellsLengthIsProduct(42950, 100000);
  }

  /** Bytes of a cell OCI is not handed: the length byte of an OCINumber. */
  function Lead(c: Column): nat {
    if c.ddt == DdtNumber then 1 else 0
  }

  /** The bytes OCI is handed for row `r` of a column buffer, when `len` of them are set. */
  function CellBytes(c: Column, data: seq<byte>, r: nat, len: nat): (v: seq<byte>)
    requires Lead(c) + len <= c.bufsize && CellStart(r, c.bufsize) + c.bufsize <= |data|
    ensures |v| == len
  {
    data[CellStart(r, c.bufsize) + Lead(c)..][..len]
  }

  /** When an offset wraps, there is a row whose first byte is a byte of row 1: writing the one writes the other. */
  lemma WrappedWrite(c: Column, nbRows: nat, data: seq<byte>, b: byte) returns (r: nat)
    requires !OffsetsFit(nbRows, c.bufsize) && |data| == CellsLength(nbRows, c.bufsize) && Lead(c) == 0
    ensures 0 < r < nbRows && CellStart(r, c.bufsize) < c.bufsize && CellStart(0, c.bufsize) + c.bufsize <= |data|
    ensures CellBytes(c, data[CellStart(r, c.bufsize) := b], 0, c.bufsize)
         == CellBytes(c, data, 0, c.bufsize)[CellStart(r, c.bufsize) := b]
  {
    CellsLengthIsProduct(nbRows - 1, c.bufsize);
    r := FirstWrap(c.bufsize, nbRows);
    CellsLengthIsProduct(r, c.bufsize);
    CellInside(0, nbRows, c.bufsize);
  }

  /** Writing inside cell `r` leaves the bytes of every other cell as they were, when no offset wraps. */
  lemma OtherCellKept(c: Column, before: seq<byte>, after: seq<byte>, nbRows: nat, r: nat, q: nat, len: nat)
    requires |before| == |after| == CellsLength(nbRows, c.bufsize) && OffsetsFit(nbRows, c.bufsize)
    requires r < nbRows && q < nbRows && q != r && Lead(c) + len <= c.bufsize
    requires forall k :: 0 <= k < |before| && !(CellStart(r, c.bufsize) <= k < CellStart(r, c.bufsize) + c.bufsize) ==> after[k] == before[k]
    ensures CellStart(q, c.bufsize) + c.bufsize <= |before|
    ensures CellBytes(c, after, q, len) == CellBytes(c, before, q, len)
  {
    CellInside(q, nbRows, c.bufsize);
    if q < r { RowsApart(q, r, nbRows, c.bufsize); } else { RowsApart(r, q, nbRows, c.bufsize); }
    forall k | 0 <= k < len
      ensures CellBytes(c, after, q, len)[k] == CellBytes(c, before, q, len)[k]
    {
      assert CellBytes(c, after, q, len)[k] == after[CellStart(q, c.bufsize) + Lead(c) + k];
    }
  }

  /** `entries` is what OCI is handed, row by row, for a column with these buffers. */
  ghost predicate Holds(c: Column, nbRows: nat, data: seq<byte>, lens: seq<nat>, flags: seq<Flag>, entries: seq<Entry>) {
    && |data| == CellsLength(nbRows, c.bufsize) && |lens| == |flags| == |entries| == nbRows
    && forall r :: 0 <= r < |entries| ==> HoldsAt(c, nbRows, data, lens[r], flags[r], r, entries[r])
  }

  ghost predicate HoldsAt(c: Column, nbRows: nat, data: seq<byte>, len: nat, flag: Flag, r: nat, e: Entry)
    requires r < nbRows && |data| == CellsLength(nbRows, c.bufsize)
  {
    CellInside(r, nbRows, c.bufsize);
    Lead(c) + len <= c.bufsize && e == Entry(CellBytes(c, data, r, len), flag)
  }

  /**
   Writing bytes at the start of cell `r` and setting its length and flag changes that entry only, when no
   offset wraps; a null, which writes no bytes, always does.
   */
  lemma OneCellWritten(c: Column, nbRows: nat, before: seq<byte>, after: seq<byte>, lens: seq<nat>, flags: seq<Flag>,
                       entries: seq<Entry>, r: nat, bytes: seq<byte>, e: Entry)
    requires Holds(c, nbRows, before, lens, flags, entries) && r < nbRows
    requires Lead(c) + |e.value| <= c.bufsize
    requires if e.flag == ColNull then bytes == [] && e.value == []
             else |bytes| == Lead(c) + |e.value| && bytes[Lead(c)..] == e.value
    requires CellStart(r, c.bufsize) + |bytes| <= |before| == |after|
    requires after == before[..CellStart(r, c.bufsize)] + bytes + before[CellStart(r, c.bufsize) + |bytes|..]
    requires e.flag != ColNull ==> OffsetsFit(nbRows, c.bufsize)
    ensures Holds(c, nbRows, after, lens[r := |e.value|], flags[r := e.flag], entries[r := e])
  {
    CellInside(r, nbRows, c.bufsize);
    assert HoldsAt(c, nbRows, before, lens[r], flags[r], r, entries[r]);
    var ls, fs, es := lens[r := |e.value|], flags[r := e.flag], entries[r := e];
    CellHolds(c, before, after, r, bytes, e);
    forall q | 0 <= q < |es|
      ensures HoldsAt(c, nbRows, after, ls[q], fs[q], q, es[q])
    {
      if q != r {
        assert HoldsAt(c, nbRows, before, lens[q], flags[q], q, entries[q]);
        if e.flag == ColNull {
          assert after == before;
        } else {
          OtherCellKept(c, before, after, nbRows, r, q, lens[q]);
        }
      }
    }
  }

  lemma CellHolds(c: Column, before: seq<byte>, after: seq<byte>, r: nat, bytes: seq<byte>, e: Entry)
    requires Lead(c) + |e.value| <= c.bufsize && CellStart(r, c.bufsize) + c.bufsize <= |before| == |after|
    requires if e.flag == ColNull then bytes == [] && e.value == []
             else |bytes| == Lead(c) + |e.value| && bytes[Lead(c)..] == e.value
    requires CellStart(r, c.bufsize) + |bytes| <= |before|
    requires after == before[..CellStart(r, c.bufsize)] + bytes + before[CellStart(r, c.bufsize) + |bytes|..]
    ensures CellBytes(c, after, r, |e.value|) == e.value
    ensures forall k :: 0 <= k < |before| && !(CellStart(r, c.bufsize) <= k < CellStart(r, c.bufsize) + c.bufsize) ==> after[k] == before[k]
  {
    var s := CellStart(r, c.bufsize);
    Spliced(before, after, s, bytes);
    if e.flag != ColNull {
      assert CellBytes(c, after, r, |e.value|) == after[s..s + |bytes|][Lead(c)..];
    }
  }

  lemma Spliced<T>(before: seq<T>, after: seq<T>, s: nat, part: seq<T>)
    requires s + |part| <= |before| == |after|
    requires after == before[..s] + part + before[s + |part|..]
    ensures after[s..s + |part|] == part
    ensures forall k :: 0 <= k < |before| && !(s <= k < s + |part|) ==> after[k] == before[k]
  {
  }

  /** One column's buffers: OCI_DirPathColumn. */
  class ColumnCells {
    const col: Column
    const nbRows: nat
    const data: array<byte>
    const lens: array<nat>
    const flags: array<Flag>
    ghost var entries: seq<Entry>

    ghost function Buffers(): set<object> {
      {data, lens, flags}
    }

    ghost predicate Valid()
      reads this, data, lens, flags
    {
      Holds(col, nbRows, data[..], lens[..], flags[..], entries)
    }

    /** Fresh buffers are zero-filled: every length 0, every flag OCI_DIRPATH_COL_COMPLETE. */
    constructor (col: Column, nbRows: nat)
      requires Lead(col) <= col.bufsize
      ensures this.col == col && this.nbRows == nbRows
      ensures Valid() && fresh(Buffers()) && forall k :: 0 <= k < data.Length ==> data[k] == 0
      ensures entries == seq(nbRows, _ => Entry([], ColComplete))
    {
      this.col, this.nbRows := col, nbRows;
      data := new byte[CellsLength(nbRows, col.bufsize)](_ => 0);
      lens := new nat[nbRows](_ => 0);
      flags := new Flag[nbRows](_ => ColComplete);
      entries := seq(nbRows, _ => Entry([], ColComplete));
      new;
      forall r | 0 <= r < nbRows
        ensures HoldsAt(col, nbRows, data[..], lens[..][r], flags[..][r], r, entries[r])
      {
        CellInside(r, nbRows, col.bufsize);
      }
    }

    /** The value, length and flag SetArray hands to OCI for a row. */
    function EntryAt(r: nat): (e: Entry)
      requires Valid() && r < nbRows
      reads this, data, lens, flags
      ensures r < |entries| && e == entries[r]
    {
      assert HoldsAt(col, nbRows, data[..], lens[..][r], flags[..][r], r, entries[r]);
      CellInside(r, nbRows, col.bufsize);
      Entry(CellBytes(col, data[..], r, lens[r]), flags[r])
    }

    /**
     Puts one value in a cell. Every other row keeps its value, length and flag; a null value leaves
     the bytes of the buffer alone.
     */
    method Store(r: nat, e: Entry)
      requires Valid() && r < nbRows
      requires Lead(col) + |e.value| <= col.bufsize
      requires Lead(col) == 1 ==> |e.value| < 256
      requires e.flag == ColNull ==> e.value == []
      requires e.flag != ColNull ==> OffsetsFit(nbRows, col.bufsize)
      modifies this`entries, data, lens, flags
      ensures Valid() && |old(entries)| == nbRows && entries == old(entries)[r := e]
      ensures e.flag != ColNull ==>
        var bytes := if col.ddt == DdtNumber then [|e.value|] + e.value else e.value;
        var at := (col.bufsize * r) % U32;
        at + |bytes| <= data.Length && data[at..at + |bytes|] == bytes
    {
      CellsLengthIsProduct(r, col.bufsize);
      CellInside(r, nbRows, col.bufsize);
      var bytes: seq<byte> :=
        if e.flag == ColNull then [] else if Lead(col) == 1 then [|e.value|] + e.value else e.value;
      ghost var d, l, f, es := data[..], lens[..], flags[..], entries;
      Write(r, bytes, e);
      OneCellWritten(col, nbRows, d, data[..], l, f, es, r, bytes, e);
      Spliced(d, data[..], CellStart(r, col.bufsize), bytes);
    }

    method Write(r: nat, bytes: seq<byte>, e: Entry)
      requires CellStart(r, col.bufsize) + |bytes| <= data.Length && r < lens.Length == flags.Length == |entries|
      modifies this`entries, data, lens, flags
      ensures data[..] == old(data[..CellStart(r, col.bufsize)]) + bytes + old(data[CellStart(r, col.bufsize) + |bytes|..])
      ensures lens[..] == old(lens[..])[r := |e.value|] && flags[..] == old(flags[..])[r := e.flag]
      ensures entries == old(entries)[r := e]
    {
      CopyInto(data, CellStart(r, col.bufsize), bytes);
      lens[r] := |e.value|;
      flags[r] := e.flag;
      entries := entries[r := e];
    }
  }

  /** One zeroed buffer a column, all of them new. */
  method AllocateColumns(columns: seq<Column>, n: nat) returns (cols: seq<ColumnCells>, ghost repr: set<object>)
    requires forall c :: 0 <= c < |columns| ==> Lead(columns[c]) <= columns[c].bufsize
    ensures |cols| == |columns| && fresh(repr)
    ensures forall c :: 0 <= c < |cols| ==> cols[c] in repr && cols[c].Buffers() <= repr
    ensures forall c :: 0 <= c < |cols| ==>
      && cols[c].Valid()
      && cols[c].col == columns[c] && cols[c].nbRows == n
      && cols[c].entries == seq(n, _ => Entry([], ColComplete))
    ensures forall c, d :: 0 <= c < d < |cols| ==> cols[c] != cols[d] && cols[c].Buffers() !! cols[d].Buffers()
  {
    cols, repr := [], {};
    while |cols| < |columns|
      invariant |cols| <= |columns| && fresh(repr)
      invariant forall c :: 0 <= c < |cols| ==> cols[c] in repr && cols[c].Buffers() <= repr
      invariant forall c :: 0 <= c < |cols| ==>
        && cols[c].Valid()
        && cols[c].col == columns[c] && cols[c].nbRows == n
        && cols[c].entries == seq(n, _ => Entry([], ColComplete))
      invariant forall c, d :: 0 <= c < d < |cols| ==> cols[c] != cols[d] && cols[c].Buffers() !! cols[d].Buffers()
    {
      var c := new ColumnCells(columns[|cols|], n);
      cols := cols + [c];
      repr := repr + {c} + c.Buffers();
    }
  }

  /** The buffers of all columns. */
  class Cells {
    const columns: seq<Column>
    const nbRows: nat
    const cols: seq<ColumnCells>
    ghost var rows: seq<Row>          // the cells, row by row
    ghost const Repr: set<object>

    ghost predicate Valid()
      reads this, Repr
    {
      && this !in Repr
      && |cols| == |columns| && |rows| == nbRows
      && (forall c :: 0 <= c < |cols| ==> cols[c] in Repr && cols[c].Buffers() <= Repr)
      && (forall c, d :: 0 <= c < d < |cols| ==> cols[c] != cols[d] && cols[c].Buffers() !! cols[d].Buffers())
      && (forall c :: 0 <= c < |cols| ==> ColumnShows(c, rows))
      && (forall r :: 0 <= r < nbRows ==> |rows[r]| == |cols|)
    }

    /** Column `c` of `rows` is what the buffers of that column hold. */
    ghost predicate ColumnShows(c: nat, rows: seq<Row>)
      requires c < |cols| == |columns|
      reads cols[c], cols[c].Buffers()
    {
      && cols[c].Valid() && cols[c].nbRows == nbRows == |rows| && cols[c].col == columns[c]
      && |cols[c].entries| == nbRows
      && forall r :: 0 <= r < nbRows ==> c < |rows[r]| && rows[r][c] == cols[c].entries[r]
    }

    constructor (columns: seq<Column>, nbRows: nat)
      requires forall c :: 0 <= c < |columns| ==> Lead(columns[c]) <= columns[c].bufsize
      ensures this.columns == columns && this.nbRows == nbRows
      ensures Valid() && fresh(Repr) && rows == BlankRows(nbRows, |columns|)
    {
      var cs, repr := AllocateColumns(columns, nbRows);
      this.columns, this.nbRows, cols, Repr := columns, nbRows, cs, repr;
      rows := BlankRows(nbRows, |columns|);
    }

    function EntryAt(c: nat, r: nat): (e: Entry)
      requires Valid() && c < |columns| && r < nbRows
      reads this, Repr
      ensures |rows| == nbRows && |rows[r]| == |columns| && e == rows[r][c]
    {
      assert ColumnShows(c, rows);
      cols[c].EntryAt(r)
    }

    /** Puts one value in a cell; every other cell of every column stays as it was. */
    method Store(r: nat, c: nat, e: Entry)
      requires Valid() && r < nbRows && c < |columns|
      requires Lead(columns[c]) + |e.value| <= columns[c].bufsize
      requires Lead(columns[c]) == 1 ==> |e.value| < 256
      requires e.flag == ColNull ==> e.value == []
      requires e.flag != ColNull ==> OffsetsFit(nbRows, columns[c].bufsize)
      modifies this`rows, Repr
      ensures Valid()
      ensures r < |old(rows)| && c < |old(rows)[r]| && rows == WithCell(old(rows), r, c, e)
    {
      assert ColumnShows(c, rows);
      ghost var before := rows;
      rows := WithCell(rows, r, c, e);
      cols[c].Store(r, e);
      forall d | 0 <= d < |cols|
        ensures ColumnShows(d, rows)
      {
        assert old(ColumnShows(d, rows));
        if d != c {
          assert cols[d].Buffers() !! cols[c].Buffers();
          assert cols[d].Valid() && cols[d].entries == old(cols[d].entries);
        }
      }
    }
  }

  /** memcpy */
  method CopyInto(a: array<byte>, at: nat, value: seq<byte>)
    requires at + |value| <= a.Length
    modifies a
    ensures a[..] == old(a[..at]) + value + old(a[at + |value|..])
  {
    var i := 0;
    while i < |value|
      invariant 0 <= i <= |value|
      invariant forall k :: 0 <= k < a.Length ==> a[k] == if at <= k < at + i then value[k - at] else old(a[k])
    {
      a[at + i] := value[i];
      i := i + 1;
    }
  }
}
