/** DEFAULT mode: a program that corrects every reported row. */
module DirPathCorrections {
  import opened Words
  import opened Seqs
  import opened DirPathSpec
  import opened DirPath
  import opened DirPathTheorems
  import opened DirPathDefault
  import opened DirPathDrivers

  /** The current rows, with a replacement in place of every row that does not convert. */
  function Mended(v: Server, was: seq<Row>, mend: seq<Row>): seq<Row>
    requires |mend| <= |was|
  {
    seq(|mend|, k requires 0 <= k < |mend| => if v.convertible(was[k]) then was[k] else mend[k])
  }

  /** The rows before row `k` are mended, the others are as they were. */
  ghost predicate MendedTo(v: Server, was: seq<Row>, mend: seq<Row>, rows: seq<Row>, k: nat) {
    && k <= |mend| <= |was| == |rows|
    && forall i :: 0 <= i < |rows| ==> rows[i] == if i < k then Mended(v, was, mend)[i] else was[i]
  }

  /** About to convert: everything up to the row that was corrected last is in order. */
  ghost predicate Correcting(v: Server, s: Dp, was: seq<Row>, mend: seq<Row>) {
    && Resumable(s) && s.c.idxRow == |s.errs| && |mend| == s.c.nbCur
    && All(v.convertible, mend)
    && (s.errs != [] ==> v.convertible(s.rows[ResumeRow(s)]))
    && MendedTo(v, was, mend, s.rows, if s.errs == [] then 0 else ResumeRow(s) + 1)
  }

  /** Stopped at a bad row that the error cursor reports next. */
  ghost predicate Stopped(v: Server, t: Dp, was: seq<Row>, mend: seq<Row>) {
    && Resumable(t) && t.errs != [] && t.c.idxRow == |t.errs| - 1 && |mend| == t.c.nbCur
    && t.c.resConv == DprError && All(v.convertible, mend)
    && MendedTo(v, was, mend, t.rows, ResumeRow(t)) && !v.convertible(was[ResumeRow(t)])
  }

  lemma MendedFurther(v: Server, was: seq<Row>, mend: seq<Row>, rows: seq<Row>, j: nat, from: nat, k: nat)
    requires MendedTo(v, was, mend, rows, j) && from <= j <= k <= |mend| && All(v.convertible, rows[from..k])
    ensures MendedTo(v, was, mend, rows, k)
  {
    forall i | j <= i < k
      ensures rows[i] == Mended(v, was, mend)[i]
    {
      assert rows[i] == rows[from..k][i - from];
    }
  }

  /** A Convert that did not stop at a bad row ended with `r` behind the first `k` rows, which are mended. */
  ghost predicate EndedAt(v: Server, t: Dp, r: Res, was: seq<Row>, mend: seq<Row>, k: nat) {
    && k <= |mend| <= |was| && r == t.c.resConv && t.c.status == (if r == DprPartial then Prepared else Converted) && t.o.offset <= |t.o.rows| && Pending(t) == Mended(v, was, mend)[..k]
    && match r
       case DprComplete => k == |mend|
       case DprFull => 0 < k < |mend|
       case DprPartial => k < |mend| && (HasPartial(was[k]) || HasPartial(mend[k]))
       case _ => false
  }

  /** The next Convert ends behind mended rows, or stops at a later bad row. */
  lemma CorrectingConvert(v: Server, s: Dp, t: Dp, r: Res, was: seq<Row>, mend: seq<Row>)
    requires Correcting(v, s, was, mend) && ConvertStep(v, s, t, r)
    ensures if r == DprError then Stopped(v, t, was, mend) && (s.errs != [] ==> ResumeRow(t) > ResumeRow(s))
            else exists k :: EndedAt(v, t, r, was, mend, k)
    ensures t.o.table == s.o.table && t.c.nbCur == s.c.nbCur
  {
    var row := DefaultConvert(v, s, t, r);
    var f := ResumeRow(s);
    var j := if s.errs == [] then 0 else f + 1;
    if r == DprError {
      ErrorIsResumable(v, s, t);
      MendedFurther(v, was, mend, s.rows, j, f, row);
      StopsBehind(v, s, t, was, mend, row);
    } else {
      if j <= row {
        MendedFurther(v, was, mend, s.rows, j, f, row);
      }
      EndsBehind(v, s, t, r, was, mend, row, Max(j, row));
    }
  }

  lemma EndsBehind(v: Server, s: Dp, t: Dp, r: Res, was: seq<Row>, mend: seq<Row>, row: nat, to: nat)
    requires Correcting(v, s, was, mend) && ConvertKeeps(s, t, r) && row <= s.c.nbCur
    requires row <= to && MendedTo(v, was, mend, s.rows, to) && t.o.rows == s.rows[..row]
    requires match r
      case DprComplete => row == s.c.nbCur
      case DprFull => 0 < row < s.c.nbCur
      case DprPartial => row < s.c.nbCur && HasPartial(s.rows[row])
      case _ => false
    ensures EndedAt(v, t, r, was, mend, row)
  {
    assert s.rows[..row] == Mended(v, was, mend)[..row];
  }

  lemma StopsBehind(v: Server, s: Dp, t: Dp, was: seq<Row>, mend: seq<Row>, row: nat)
    requires Correcting(v, s, was, mend) && Resumable(t) && ConvertKeeps(s, t, DprError)
    requires ResumeRow(s) <= row < |s.rows| && MendedTo(v, was, mend, s.rows, row) && !v.convertible(s.rows[row])
    requires t.errs == s.errs + [(row, v.badColumn(s.rows[row]))]
    ensures Stopped(v, t, was, mend) && (s.errs != [] ==> ResumeRow(t) > ResumeRow(s))
  {
    assert ResumeRow(t) == row && s.rows[row] == was[row];
  }

  /** Replacing the reported row is the correction. */
  lemma CorrectingAgain(v: Server, t: Dp, u: Dp, was: seq<Row>, mend: seq<Row>)
    requires Stopped(v, t, was, mend)
    requires u == t.(c := t.c.(idxRow := |t.errs|), rows := t.rows[ResumeRow(t) := mend[ResumeRow(t)]])
    ensures Correcting(v, u, was, mend) && ResumeRow(u) == ResumeRow(t) && u.errs == t.errs
  {
    CorrectedIsResumable(v, t, u);
  }

  /** Asks for the bad row and sets its cells again. */
  method CorrectRow(dp: Loader, fix: nat -> Values, ghost was: seq<Row>, ghost mend: seq<Row>)
    requires Ready(dp) && Stopped(dp.oci.server, dp.Abs(), was, mend)
    requires forall k :: 0 <= k < |mend| ==> RowFits(dp.columns, dp.parse, fix(k)) && mend[k] == Encoded(dp.columns, dp.parse, fix(k))
    modifies dp`c, dp.cells, if dp.cells == null then {} else dp.cells.Repr
    ensures Ready(dp) && Correcting(dp.oci.server, dp.Abs(), was, mend)
    ensures dp.errs == old(dp.errs) && ResumeRow(dp.Abs()) == old(ResumeRow(dp.Abs())) && dp.errs != []
    ensures dp.oci.o == old(dp.oci.o)
  {
    ghost var t := dp.Abs();
    var row := dp.GetErrorRow();
    FillRow(dp, row, fix(row - 1));
    CorrectingAgain(dp.oci.server, t, dp.Abs(), was, mend);
  }

  /** One Convert of the correction loop. */
  method ConvertCorrected(dp: Loader, ghost was: seq<Row>, ghost mend: seq<Row>) returns (res: Res)
    requires Ready(dp) && Correcting(dp.oci.server, dp.Abs(), was, mend)
    modifies dp`c, dp`nbEntries, dp`nbErr, dp`errs, dp.errRows, dp.errCols, dp.oci`arr, dp.oci`o
    ensures dp.Valid() && dp.CellsValid() && dp.oci.o.table == old(dp.oci.o.table)
    ensures CorrectedTo(dp, was, mend, res)
    ensures res == DprError && old(dp.errs) != [] ==> ResumeRow(dp.Abs()) > old(ResumeRow(dp.Abs()))
  {
    ghost var s := dp.Abs();
    CorrectionRoom(dp.oci.server, s);
    res := dp.Convert();
    CorrectingConvert(dp.oci.server, s, dp.Abs(), res, was, mend);
  }

  /** Stopped at a bad row, or ended. */
  ghost predicate CorrectedTo(dp: Loader, was: seq<Row>, mend: seq<Row>, res: Res)
    reads dp, dp.oci, dp.cells
  {
    if res == DprError then dp.c.status == Prepared && Stopped(dp.oci.server, dp.Abs(), was, mend)
    else exists k :: EndedAt(dp.oci.server, dp.Abs(), res, was, mend, k)
  }

  lemma StartsCorrecting(v: Server, s: Dp, mend: seq<Row>)
    requires Fresh(s) && !s.c.force && s.c.idxRow == 0 && |mend| == s.c.nbCur && All(v.convertible, mend)
    ensures Correcting(v, s, s.rows, mend)
  {
  }

  /** Converts and corrects until a Convert does not end in error. */
  method CorrectRows(dp: Loader, fix: nat -> Values, ghost was: seq<Row>, ghost mend: seq<Row>) returns (res: Res)
    requires Ready(dp) && Correcting(dp.oci.server, dp.Abs(), was, mend)
    requires forall k :: 0 <= k < |mend| ==> RowFits(dp.columns, dp.parse, fix(k)) && mend[k] == Encoded(dp.columns, dp.parse, fix(k))
    modifies dp`c, dp`nbEntries, dp`nbErr, dp`errs, dp.errRows, dp.errCols, dp.oci`arr, dp.oci`o
    modifies dp.cells, if dp.cells == null then {} else dp.cells.Repr
    ensures dp.Valid() && dp.CellsValid() && dp.oci.o.table == old(dp.oci.o.table) && res != DprError
    ensures CorrectedTo(dp, was, mend, res)
  {
    res := ConvertCorrected(dp, was, mend);
    while res == DprError
      invariant dp.Valid() && dp.CellsValid() && dp.oci.o.table == old(dp.oci.o.table)
      invariant CorrectedTo(dp, was, mend, res)
      decreases if res == DprError then |mend| - ResumeRow(dp.Abs()) else 0
    {
      CorrectRow(dp, fix, was, mend);
      res := ConvertCorrected(dp, was, mend);
    }
  }

  /**
   Converts in DEFAULT mode and replaces every row that is reported, until a Convert does not end in error: every
   Convert goes on behind the corrected row, so that there are at most as many corrections as rows. The stream
   holds the first `k` current rows, as corrected, once and in order: all of them on COMPLETE, some but not
   all on FULL, and on PARTIAL those in front of a row that had a partial column from the beginning.
   */
  method CorrectAll(dp: Loader, fix: nat -> Values) returns (res: Res, ghost k: nat)
    requires Ready(dp) && !dp.c.force
    requires forall k :: 0 <= k < dp.c.nbCur ==>
      RowFits(dp.columns, dp.parse, fix(k)) && dp.oci.server.convertible(Encoded(dp.columns, dp.parse, fix(k)))
    modifies dp`c, dp`nbEntries, dp`nbErr, dp`errs, dp.errRows, dp.errCols, dp.oci`arr, dp.oci`o
    modifies dp.cells, if dp.cells == null then {} else dp.cells.Repr
    ensures dp.Valid() && dp.CellsValid() && dp.oci.o.table == old(dp.oci.o.table)
    ensures res == dp.c.resConv && dp.c.status == if res == DprPartial then Prepared else Converted
    ensures dp.c.nbRows == old(dp.c.nbRows) && k <= old(dp.c.nbCur) <= |old(dp.Abs().rows)|
    ensures match res
      case DprComplete => k == old(dp.c.nbCur)
      case DprFull => 0 < k < old(dp.c.nbCur)
      case DprPartial => k < old(dp.c.nbCur) && HasPartial(old(dp.Abs().rows)[k])
      case _ => false
    ensures |Pending(dp.Abs())| == k
    ensures forall i :: 0 <= i < k ==>
      Pending(dp.Abs())[i] == if dp.oci.server.convertible(old(dp.Abs().rows)[i]) then old(dp.Abs().rows)[i]
                              else Encoded(dp.columns, dp.parse, fix(i))
  {
    ghost var was := dp.Abs().rows;
    ghost var n := dp.c.nbCur;
    ghost var fixes: seq<Values> := seq(n, k requires 0 <= k < n => fix(k));
    assert forall k :: 0 <= k < |fixes| ==> fixes[k] == fix(k);
    ghost var mend := EncodedRows(dp.columns, dp.parse, fixes);
    var ok := dp.Reset();
    StartsCorrecting(dp.oci.server, dp.Abs(), mend);
    res := CorrectRows(dp, fix, was, mend);
    k :| EndedAt(dp.oci.server, dp.Abs(), res, was, mend, k);
    if k < n {
      EncodedComplete(dp.columns, dp.parse, fix(k));
    }
  }
}
