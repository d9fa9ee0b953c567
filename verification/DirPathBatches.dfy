/**
 Whole batches: a FORCE batch, corrections in DEFAULT mode, a chunk of a batch that does not fit the
 stream, and the numbers reported for refused rows.
 */
module DirPathBatches {
  import opened Words
  import opened Seqs
  import opened DirPathSpec
  import opened DirPathLoads
  import opened DirPathRooms
  import opened DirPathTheorems

  // -------------------------------------------------------------------------- FORCE batches

  /**
   From a Reset, Convert and Load, both returning COMPLETE, extend the table by exactly the rows that
   are convertible and acceptable, each once and in order, against any server; the affected rows are
   the converted rows, then the loaded rows; and the loader is ready for the next batch.
   */
  lemma ForceBatch(v: Server, s: Dp, t: Dp, u: Dp)
    requires Fresh(s) && s.c.force
    requires ConvertStep(v, s, t, DprComplete) && LoadStep(v, t, u, DprComplete)
    ensures u.o.table == s.o.table + Filter(Both(v.convertible, v.acceptable), s.rows[..s.c.nbCur])
    ensures t.c.nbProcessed == |Filter(v.convertible, s.rows[..s.c.nbCur])| == s.c.nbCur - |t.errs|
    ensures u.c.nbProcessed == |Filter(Both(v.convertible, v.acceptable), s.rows[..s.c.nbCur])|
    ensures u.c.nbLoaded == Add32(s.c.nbLoaded, u.c.nbProcessed)
    ensures u.c.status == Prepared && u.rows == s.rows
  {
    var m := ConvertExact(v, s, t, DprComplete);
    var batch := s.rows[..s.c.nbCur];
    var good := Filter(v.convertible, batch);
    assert Pending(t) == good;
    LoadIsFilter(v, t, u);
    FilterFilter(v.convertible, v.acceptable, batch);
    SmallSum(0, |good|);
    SmallSum(0, |Filter(v.acceptable, good)|);
  }

  // ------------------------------------------------------- the number of a refused row

  function Not<T>(p: T -> bool): T -> bool {
    x => !p(x)
  }

  /** The index in `s` of every kept element. */
  function Kept<T>(p: T -> bool, s: seq<T>): seq<nat> {
    Misses(Not(p), s)
  }

  /** The i-th kept element is at index `Kept[i]`, behind i kept ones and the misses in front of it. */
  lemma {:induction false} KeptIndex<T>(p: T -> bool, s: seq<T>, i: nat)
    requires i < |Filter(p, s)|
    ensures |Kept(p, s)| == |Filter(p, s)|
    ensures Kept(p, s)[i] < |s| && s[Kept(p, s)[i]] == Filter(p, s)[i]
    ensures Kept(p, s)[i] == i + |Misses(p, s[..Kept(p, s)[i]])|
  {
    KeptCount(p, s);
    var n := |s| - 1;
    var front, x := s[..n], s[n];
    assert s == front + [x];
    FilterSnoc(p, front, x);
    FilterSnoc(Not(p), front, x);
    KeptCount(p, front);
    if i < |Filter(p, front)| {
      KeptIndex(p, front, i);
      assert front[..Kept(p, front)[i]] == s[..Kept(p, front)[i]];
    } else {
      FilterMissesCount(p, front);
    }
  }

  lemma {:induction false} KeptCount<T>(p: T -> bool, s: seq<T>)
    ensures |Kept(p, s)| == |Filter(p, s)|
  {
    if s != [] {
      KeptCount(p, s[..|s| - 1]);
    }
  }

  /** The batch row behind the j-th refused row of a Load. */
  function RefusedBatchRow(v: Server, batch: seq<Row>, j: nat): nat
    requires j < |Misses(v.acceptable, Filter(v.convertible, batch))|
    requires |Kept(v.convertible, batch)| == |Filter(v.convertible, batch)|
  {
    Kept(v.convertible, batch)[Misses(v.acceptable, Filter(v.convertible, batch))[j]]
  }

  /**
   The number Load reports for a refused row of a FORCE batch is the row's number in the batch if and
   only if the rows loaded before this Load, over the life of the loader, are as many as the
   unconvertible rows in front of it.
   */
  lemma RefusedRowReported(v: Server, s: Dp, t: Dp, u: Dp, j: nat)
    requires Fresh(s) && s.c.force
    requires ConvertStep(v, s, t, DprComplete) && SteadyLoad(v, t, u) && j < |u.errs|
    ensures var batch := s.rows[..s.c.nbCur];
      && |Kept(v.convertible, batch)| == |Filter(v.convertible, batch)|
      && |u.errs| == |Misses(v.acceptable, Filter(v.convertible, batch))|
      && var row := RefusedBatchRow(v, batch, j);
      && row < s.c.nbCur && v.convertible(batch[row]) && !v.acceptable(batch[row])
      && (u.errs[j].0 == row <==> s.c.nbLoaded == |Misses(v.convertible, batch[..row])|)
  {
    var m := ConvertExact(v, s, t, DprComplete);
    var batch := s.rows[..s.c.nbCur];
    var good := Filter(v.convertible, batch);
    assert Pending(t) == good;
    LoadErrorPositions(v, t, u);
    KeptCount(v.convertible, batch);
    var p := Misses(v.acceptable, good)[j];
    KeptIndex(v.convertible, batch, p);
    var row := RefusedBatchRow(v, batch, j);
    assert u.errs[j].0 == Add32(s.c.nbLoaded, p);
    SameNumber(s.c.nbLoaded, p, row, |Misses(v.convertible, batch[..row])|);
  }

  lemma SameNumber(loaded: ub4, p: nat, row: nat, missed: nat)
    requires row == p + missed < U32
    ensures Add32(loaded, p) == row <==> loaded == missed
  {
  }

  /**
   With every row convertible, the numbers are right exactly in the first Load that loads anything: the
   total of loaded rows they are based on survives every Reset.
   */
  lemma ReportedIffFirstLoad(v: Server, s: Dp, t: Dp, u: Dp, j: nat)
    requires Fresh(s) && s.c.force && All(v.convertible, s.rows[..s.c.nbCur])
    requires ConvertStep(v, s, t, DprComplete) && SteadyLoad(v, t, u) && j < |u.errs|
    ensures var good := Filter(v.convertible, s.rows[..s.c.nbCur]);
      && j < |Misses(v.acceptable, good)|
      && (u.errs[j].0 == Misses(v.acceptable, good)[j] <==> s.c.nbLoaded == 0)
  {
    var batch := s.rows[..s.c.nbCur];
    RefusedRowReported(v, s, t, u, j);
    KeptOfAll(v.convertible, batch, Misses(v.acceptable, Filter(v.convertible, batch))[j]);
  }

  lemma KeptOfAll<T>(p: T -> bool, s: seq<T>, i: nat)
    requires All(p, s) && i < |Filter(p, s)|
    ensures |Kept(p, s)| == |Filter(p, s)| && Kept(p, s)[i] == i <= |s| && Misses(p, s[..i]) == []
  {
    KeptIndex(p, s, i);
    FilterAll(p, s[..Kept(p, s)[i]]);
  }

  // ----------------------------------------------------------------- a stream that is full

  /**
   Behind FULL and a Load, or in DEFAULT mode behind any Load, the next Convert starts on the first row, as the
   caller who set up the next rows expects, if and only if the server refused no row, or the last refusal
   happens to be numbered 0: the number of a refused row is taken for the row to resume from.
   */
  lemma ResumesOnFirstRow(v: Server, s: Dp, t: Dp)
    requires Shape(s) && s.c.status == Converted && (!s.c.force || s.c.resConv == DprFull) && SteadyLoad(v, s, t)
    ensures var m := Misses(v.acceptable, Pending(s));
      ResumeRow(t) == 0 <==> m == [] || Add32(s.c.nbLoaded, Last(m)) == 0
  {
    LoadErrorPositions(v, s, t);
    LoadIsFilter(v, s, t);
    LastRefusal(v, s.c.nbLoaded, Pending(s));
  }

  lemma LastRefusal(v: Server, loaded: ub4, pending: seq<Row>)
    ensures var m, r := Misses(v.acceptable, pending), Refusals(v, loaded, pending);
      (m == [] <==> r == []) && (m != [] ==> Last(r).0 == Add32(loaded, Last(m)))
  {
  }

  /** A Reset in between always makes it start on the first row, and keeps the table. */
  lemma ResetResumesOnFirstRow(s: Dp, t: Dp)
    requires Shape(s) && ResetStep(s, t, true)
    ensures ResumeRow(t) == 0 && BaseStream(t).rows == [] && t.o.table == s.o.table && t.rows == s.rows
  {
  }

  /** Ready to convert a chunk: no errors recorded, nothing left in the stream. */
  ghost predicate ChunkReady(s: Dp) {
    && Shape(s) && s.c.status == Prepared && s.errs == []
    && BaseStream(s).rows == [] && BaseStream(s).offset == 0
  }

  /**
   One chunk: a Convert that returns COMPLETE or FULL, then a Load that completes. The rows consumed are
   the rows the Convert counted and the errors it recorded, at least one, and all of them unless the
   stream was full; the table grows by their convertible and acceptable ones. With no errors recorded
   by the Load, the loader is ready for the next chunk.
   */
  lemma Chunk(v: Server, s: Dp, t: Dp, r: Res, u: Dp) returns (m: nat)
    requires ChunkReady(s) && s.c.nbCur > 0
    requires s.c.force || All(v.convertible, s.rows[..s.c.nbCur])
    requires ConvertStep(v, s, t, r) && (r == DprComplete || r == DprFull) && LoadStep(v, t, u, DprComplete)
    ensures 0 < m <= s.c.nbCur && (r == DprComplete ==> m == s.c.nbCur)
    ensures t.c.nbConverted == Add32(s.c.nbConverted, m - |t.errs|) && |t.errs| <= m
    ensures |t.errs| == |Misses(v.convertible, s.rows[..m])|
    ensures u.o.table == s.o.table + Filter(Both(v.convertible, v.acceptable), s.rows[..m])
    ensures u.c.status == Prepared && u.rows == s.rows && u.c.force == s.c.force
    ensures u.c.nbRows == s.c.nbRows && u.c.nbCur == s.c.nbCur && u.c.nbConverted == t.c.nbConverted
    ensures r == DprFull && u.errs == [] ==> ChunkReady(u)
  {
    m := ConvertExact(v, s, t, r);
    assert Pending(t) == Filter(v.convertible, s.rows[..m]);
    LoadIsFilter(v, t, u);
    FilterFilter(v.convertible, v.acceptable, s.rows[..m]);
  }

  // ---------------------------------------------------------------------- how a Load ends

  /** A Load returns what its last call came to; none ever returns FULL. */
  lemma LoadReturns(v: Server, s: Dp, t: Dp, r: Res, calls: seq<LoadCall>)
    requires LoadedBy(v, s, t, r, calls)
    ensures r == DprComplete <==> Last(calls).ret == LoadSuccess
    ensures r == DprError <==> Last(calls).ret == LoadFailed
    ensures r == DprEmpty <==> Last(calls).ret == LoadNoData
    ensures r == DprPartial <==> Last(calls).ret == LoadNeedData
    ensures r != DprFull && t.c.resLoad == r
  {
  }

  /**
   A Load gives up with ERROR only when a call behind its first failed without moving: the first failure, and
   every failure that refused or accepted rows, is followed by another call.
   */
  lemma LoadGivesUp(v: Server, s: Dp, t: Dp, r: Res, calls: seq<LoadCall>)
    requires LoadedBy(v, s, t, r, calls)
    ensures r == DprError ==> |calls| >= 2 && Last(calls) == LoadCall(LoadFailed, 0, false)
    ensures forall i :: 0 <= i < |calls| - 1 ==>
      calls[i].ret == LoadFailed && (i == 0 || calls[i].accepted > 0 || calls[i].rejects)
    ensures r == DprError ==> t.o.offset == After(s.o.offset, calls[..|calls| - 1])
  {
  }

  /**
   A Load that ends with PARTIAL, every failure before having refused a row, has handed over the rows up to
   where it stands: it records one error more than rows of these were refused, and leaves the loader converted,
   with the rest of the stream pending. No Convert and no Finish is possible, but a Load, which goes on there.
   */
  lemma PartialLoad(v: Server, s: Dp, t: Dp, calls: seq<LoadCall>)
    requires LoadedBy(v, s, t, DprPartial, calls) && Steady(calls[..|calls| - 1])
    ensures s.o.offset <= t.o.offset <= |s.o.rows| && t.o.rows == s.o.rows && Pending(t) == s.o.rows[t.o.offset..]
    ensures t.o.table == s.o.table + Filter(v.acceptable, s.o.rows[s.o.offset..t.o.offset])
    ensures |t.errs| == |Misses(v.acceptable, s.o.rows[s.o.offset..t.o.offset])| + 1
    ensures t.c.status == Converted
    ensures forall u, r :: ConvertStep(v, t, u, r) ==> u == t
    ensures forall u, ok :: EndStep(t, u, ok) ==> u == t
    ensures forall u, r :: LoadStep(v, t, u, r) && Shape(t) ==> t.o.offset <= u.o.offset
  {
    LoadReturns(v, s, t, DprPartial, calls);
    AcceptedAreFiltered(v, s.o.rows, s.o.offset, calls);
    StoppedNumbered(v, s.o.rows, s.o.offset, calls, s.c.nbLoaded);
  }

  lemma StoppedNumbered(v: Server, rows: seq<Row>, o: nat, calls: seq<LoadCall>, loaded: ub4)
    requires o <= |rows| && calls != [] && CallsOk(v, rows, o, calls) && Steady(calls[..|calls| - 1])
    requires !Last(calls).rejects && Last(calls).ret != LoadSuccess
    requires forall i :: 0 <= i < |calls| - 1 ==> calls[i].ret == LoadFailed
    ensures After(o, calls) <= |rows| && |LoadErrs(loaded, calls)| == |Misses(v.acceptable, rows[o..After(o, calls)])| + 1
  {
    ErrorsOfCalls(v, rows, o, calls, loaded);
    var front, c := calls[..|calls| - 1], Last(calls);
    assert forall i :: 0 <= i < |front| ==> front[i] == calls[i];
    SteadyNotIdle(front);
    IdlesAppend(front, c);
    assert calls == front + [c];
  }

  lemma {:induction false} SteadyNotIdle(calls: seq<LoadCall>)
    requires Steady(calls)
    ensures Idles(calls) == 0
  {
    if calls != [] {
      SteadyNotIdle(calls[..|calls| - 1]);
    }
  }

  // ------------------------------------------------------------------- a drained stream

  /**
   A Load that ends with EMPTY, every failure before having refused a row, has handed over all pending
   rows, but reports one error more than rows were refused, and leaves the loader converted: no Convert
   and no Finish is possible, and only a Load that the server answers with success leads on.
   */
  lemma EmptyLoad(v: Server, s: Dp, t: Dp, calls: seq<LoadCall>)
    requires LoadedBy(v, s, t, DprEmpty, calls) && Steady(calls[..|calls| - 1])
    ensures t.o.table == s.o.table + Filter(v.acceptable, Pending(s)) && Pending(t) == []
    ensures |t.errs| == |Misses(v.acceptable, Pending(s))| + 1
    ensures t.c.status == Converted
    ensures forall u, r :: ConvertStep(v, t, u, r) ==> u == t
    ensures forall u, ok :: EndStep(t, u, ok) ==> u == t
  {
    var n := |calls| - 1;
    assert CallOk(v, s.o.rows, After(s.o.offset, calls[..n]), Last(calls));
    AcceptedAreFiltered(v, s.o.rows, s.o.offset, calls);
    assert s.o.rows[s.o.offset..After(s.o.offset, calls)] == Pending(s);
    EmptyNumbered(v, s.o.rows, s.o.offset, calls, s.c.nbLoaded);
  }

  lemma EmptyNumbered(v: Server, rows: seq<Row>, o: nat, calls: seq<LoadCall>, loaded: ub4)
    requires o <= |rows| && calls != [] && CallsOk(v, rows, o, calls) && Steady(calls[..|calls| - 1])
    requires Last(calls).ret == LoadNoData
    requires forall i :: 0 <= i < |calls| - 1 ==> calls[i].ret == LoadFailed
    ensures |LoadErrs(loaded, calls)| == |Misses(v.acceptable, rows[o..])| + 1
  {
    var front, c := calls[..|calls| - 1], Last(calls);
    LastCallOk(v, rows, o, calls);
    assert forall i :: 0 <= i < |front| ==> front[i] == calls[i];
    RefusalsNumbered(v, rows, o, front, loaded);
    NumberedCount(v, rows, o, After(o, front), loaded, LoadErrs(loaded, front), LoadedCount(front));
    LastRecords(loaded, calls);
  }

  lemma NumberedCount(v: Server, rows: seq<Row>, o: nat, p: nat, loaded: ub4, errs: seq<(nat, nat)>, count: nat)
    requires Numbered(v, rows, o, p, loaded, errs, count) && p == |rows|
    ensures o <= |rows| && |errs| == |Misses(v.acceptable, rows[o..])|
  {
    assert rows[o..p] == rows[o..];
  }

  lemma LastRecords(loaded: ub4, calls: seq<LoadCall>)
    requires calls != [] && Last(calls).ret != LoadSuccess
    ensures |LoadErrs(loaded, calls)| == |LoadErrs(loaded, calls[..|calls| - 1])| + 1
  {
  }
}
