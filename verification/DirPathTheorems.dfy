/**
 What a batch does: which rows reach the server, which rows are reported, and where a Convert starts.
 Every statement is about the relations the class Loader is proved to follow.
 */
module DirPathTheorems {
  import opened Words
  import opened Seqs
  import opened DirPathSpec
  import opened DirPathLoads

  // ------------------------------------------------------------------------ one Convert

  /** Nothing recorded, nothing in the stream: the state a Reset leaves in a prepared loader. */
  ghost predicate Fresh(s: Dp) {
    && Shape(s) && s.c.status == Prepared && s.errs == []
    && s.o.rows == [] && s.o.offset == 0 && s.c.nbConverted == 0
  }

  lemma ResetIsFresh(s: Dp, t: Dp)
    requires Shape(s) && s.c.status == Prepared && ResetStep(s, t, true)
    ensures Fresh(t) && t.rows == s.rows && t.o.table == s.o.table && t.c.nbLoaded == s.c.nbLoaded
    ensures ResumeRow(t) == 0 && Batch(t) == t.rows[..t.c.nbCur]
  {
  }

  /** The recorded errors `errs` are exactly the unconvertible rows among the first `m` rows, in order. */
  ghost predicate ErrorsAre(v: Server, rows: seq<Row>, m: nat, errs: seq<(nat, nat)>)
    requires m <= |rows|
  {
    && (forall i, j :: 0 <= i < j < |errs| ==> errs[i].0 < errs[j].0)
    && (forall i :: 0 <= i < |errs| ==>
          errs[i].0 < m && !v.convertible(rows[errs[i].0]) && errs[i].1 == v.badColumn(rows[errs[i].0]))
    && (forall k :: 0 <= k < m && !v.convertible(rows[k]) ==> exists i :: 0 <= i < |errs| && errs[i].0 == k)
  }

  lemma FaultsExact(v: Server, rows: seq<Row>, m: nat)
    requires m <= |rows|
    ensures ErrorsAre(v, rows, m, Faults(v, rows[..m], 0))
    ensures |Faults(v, rows[..m], 0)| + |Filter(v.convertible, rows[..m])| == m
  {
    var b := rows[..m];
    var miss := Misses(v.convertible, b);
    MissesExact(v.convertible, b);
    FilterMissesCount(v.convertible, b);
    forall k | 0 <= k < m && !v.convertible(rows[k])
      ensures exists i :: 0 <= i < |miss| && Faults(v, b, 0)[i].0 == k
    {
      assert b[k] == rows[k];
      assert k in miss;
      var i :| 0 <= i < |miss| && miss[i] == k;
      assert Faults(v, b, 0)[i].0 == k;
    }
  }

  /** What no Convert changes, and how it sets the status and the affected rows. */
  ghost predicate ConvertKeeps(s: Dp, t: Dp, r: Res) {
    && t.rows == s.rows && t.o.table == s.o.table && t.o.offset == BaseStream(s).offset
    && t.c == s.c.(nbConverted := t.c.nbConverted, nbProcessed := t.c.nbConverted, resConv := r,
                   status := if r == DprComplete || r == DprFull then Converted else Prepared)
  }

  /**
   No errors recorded before, and FORCE mode or nothing to stop at: a Convert never ends in error, its
   errors are exactly the unconvertible rows of the rows it consumed, and converted and erred rows add
   up to them. On COMPLETE it consumed every current row; on FULL it consumed at least one.
   */
  lemma ConvertExact(v: Server, s: Dp, t: Dp, r: Res) returns (m: nat)
    requires Shape(s) && s.c.status == Prepared && s.errs == []
    requires s.c.force || All(v.convertible, s.rows[..s.c.nbCur])
    requires ConvertStep(v, s, t, r)
    ensures r != DprError && m <= s.c.nbCur && (r == DprComplete ==> m == s.c.nbCur)
    ensures t.errs == Faults(v, s.rows[..m], 0) && ErrorsAre(v, s.rows, m, t.errs)
    ensures |t.errs| + |Filter(v.convertible, s.rows[..m])| == m
    ensures t.c.nbConverted == Add32(s.c.nbConverted, m - |t.errs|)
    ensures t.o.rows == BaseStream(s).rows + Filter(v.convertible, s.rows[..m])
    ensures r == DprFull && BaseStream(s).rows == [] ==> m > 0
    ensures Shape(t) && ConvertKeeps(s, t, r)
  {
    m :| ConvertedTo(v, s, t, r, m);
    NoErrorStops(v, s, t, r, m);
    FirstRows(s, m);
    FaultsExact(v, s.rows, m);
    assert t.errs == Faults(v, s.rows[..m], 0);
  }

  /**
   The affected rows of a Convert are the rows this call put into the stream if and only if none had been
   converted since the last Reset: they count all calls.
   */
  lemma AffectedRowsOfCall(v: Server, s: Dp, t: Dp, r: Res)
    requires Shape(s) && s.c.status == Prepared && ConvertStep(v, s, t, r)
    ensures t.c.nbProcessed == |t.o.ever| - |s.o.ever| <==> s.c.nbConverted == 0
    ensures t.c.nbProcessed == Add32(s.c.nbConverted, |t.o.ever| - |s.o.ever|)
  {
    var m: nat :| ConvertedTo(v, s, t, r, m);
    AffectedRows(s, t, r, Good(v, s, m), NewErrors(v, s, r, m));
  }

  lemma AffectedRows(s: Dp, t: Dp, r: Res, good: seq<Row>, errors: seq<(nat, nat)>)
    requires t == Behind(s, r, good, errors) && |good| < U32
    ensures t.c.nbProcessed == |t.o.ever| - |s.o.ever| <==> s.c.nbConverted == 0
    ensures t.c.nbProcessed == Add32(s.c.nbConverted, |t.o.ever| - |s.o.ever|)
  {
  }

  /** A Convert of the convertible rows `run` that stops behind them, without a bad row. */
  lemma CleanStep(v: Server, s: Dp, t: Dp, r: Res, run: seq<Row>)
    requires Shape(s) && s.c.status == Prepared && (r == DprComplete || r == DprPartial)
    requires run <= Batch(s) && All(v.convertible, run) && t == Behind(s, r, run, [])
    requires if r == DprComplete then run == Batch(s) else run < Batch(s) && HasPartial(Batch(s)[|run|])
    ensures ConvertStep(v, s, t, r)
  {
    assert Batch(s)[..|run|] == run;
    FilterAll(v.convertible, run);
    assert ConvertedTo(v, s, t, r, |run|);
  }

  /** One row was converted and loaded before, as in front of a second chunk: the Convert of one more row affects two. */
  lemma AffectedRowsOfSecondChunk() returns (v: Server, s: Dp, t: Dp)
    ensures Shape(s) && s.c.status == Prepared && ConvertStep(v, s, t, DprComplete)
    ensures |t.o.ever| - |s.o.ever| == 1 && t.c.nbProcessed == 2
  {
    var row: Row := [Entry([], ColComplete)];
    v := Server(_ => true, _ => 0, _ => true);
    s := Dp(NewCounters(1).(status := Prepared, nbConverted := 1, nbProcessed := 1, nbLoaded := 1, resConv := DprFull),
            [], [row], Stream([row], 1, [row], [row]));
    assert Batch(s) == [row];
    t := Behind(s, DprComplete, [row], []);
    CleanStep(v, s, t, DprComplete, [row]);
  }

  /** The retry guard never stops a FORCE Convert that started without errors. */
  lemma NoErrorStops(v: Server, s: Dp, t: Dp, r: Res, m: nat)
    requires s.errs == [] && ConvertedTo(v, s, t, r, m)
    requires s.c.force || All(v.convertible, s.rows[..s.c.nbCur])
    ensures r != DprError
  {
    FilterMissesCount(v.convertible, Batch(s)[..m]);
    assert |t.errs| <= s.c.nbCur;
  }

  lemma FirstRows(s: Dp, m: nat)
    requires Shape(s) && s.c.status == Prepared && ResumeRow(s) == 0 && m <= |Batch(s)|
    ensures Batch(s)[..m] == s.rows[..m]
  {
  }

  /** FORCE mode, no errors recorded before: every error finds its place in the error arrays. */
  lemma ForceConvertRoom(v: Server, s: Dp)
    requires Shape(s) && s.c.force && s.errs == []
    ensures ConvertRoom(v, s)
  {
    if s.c.status == Prepared {
      FilterMissesCount(v.convertible, Batch(s));
    }
  }

  // --------------------------------------------------------------------------- one Load

  /** A run of accepted rows, then perhaps one refused row, behind the rows from `o` to `p`. */
  lemma CallFilters(v: Server, rows: seq<Row>, o: nat, p: nat, c: LoadCall)
    requires o <= p && CallOk(v, rows, p, c)
    ensures Filter(v.acceptable, rows[o..p + Used(c)]) == Filter(v.acceptable, rows[o..p]) + rows[p..p + c.accepted]
    ensures Misses(v.acceptable, rows[o..p + Used(c)])
         == Misses(v.acceptable, rows[o..p]) + if c.rejects then [p - o + c.accepted] else []
  {
    var front, run, all := rows[o..p], rows[p..p + c.accepted], rows[o..p + Used(c)];
    if c.rejects {
      assert all == front + run + [rows[p + c.accepted]];
      FilterRunThenMiss(v.acceptable, front, run, rows[p + c.accepted]);
    } else {
      assert all == front + run;
      FilterRun(v.acceptable, front, run);
    }
  }

  /** The calls of a Load accept exactly the acceptable rows among those they went through. */
  lemma {:induction false} AcceptedAreFiltered(v: Server, rows: seq<Row>, o: nat, calls: seq<LoadCall>)
    requires o <= |rows| && CallsOk(v, rows, o, calls)
    ensures After(o, calls) <= |rows|
    ensures AcceptedRows(rows, o, calls) == Filter(v.acceptable, rows[o..After(o, calls)])
  {
    if calls == [] {
      assert rows[o..o] == [];
    } else {
      var front, c := calls[..|calls| - 1], Last(calls);
      LastCallOk(v, rows, o, calls);
      AcceptedAreFiltered(v, rows, o, front);
      AcceptedOneMore(v, rows, o, front, c);
      assert calls == front + [c];
    }
  }

  lemma AcceptedOneMore(v: Server, rows: seq<Row>, o: nat, front: seq<LoadCall>, c: LoadCall)
    requires o <= |rows| && After(o, front) <= |rows| && CallOk(v, rows, After(o, front), c)
    requires AcceptedRows(rows, o, front) == Filter(v.acceptable, rows[o..After(o, front)])
    ensures After(o, front + [c]) <= |rows|
    ensures AcceptedRows(rows, o, front + [c]) == Filter(v.acceptable, rows[o..After(o, front + [c])])
  {
    CountsAppend(o, front, c);
    RowsAppend(rows, o, front, c);
    AcceptedBehind(v, rows, o, After(o, front), After(o, front + [c]), c, AcceptedRows(rows, o, front), AcceptedRows(rows, o, front + [c]));
  }

  lemma AcceptedBehind(v: Server, rows: seq<Row>, o: nat, p: nat, next: nat, c: LoadCall, before: seq<Row>, after: seq<Row>)
    requires o <= p && CallOk(v, rows, p, c) && before == Filter(v.acceptable, rows[o..p])
    requires next == p + Used(c) && after == before + rows[p..p + c.accepted]
    ensures next <= |rows| && after == Filter(v.acceptable, rows[o..next])
  {
    CallFilters(v, rows, o, p, c);
  }

  /**
   A Load that completes, against any server, hands over everything that was pending: the table grows
   by exactly the acceptable pending rows, each once and in order.
   */
  lemma LoadIsFilter(v: Server, s: Dp, t: Dp)
    requires Shape(s) && s.c.status == Converted && LoadStep(v, s, t, DprComplete)
    ensures t.c.status == Prepared && Pending(t) == [] && t.rows == s.rows && t.o.rows == s.o.rows && t.o.ever == s.o.ever
    ensures t.o.table == s.o.table + Filter(v.acceptable, Pending(s))
    ensures t.c.nbProcessed == Add32(0, |Filter(v.acceptable, Pending(s))|)
    ensures t.c.nbLoaded == Add32(s.c.nbLoaded, |Filter(v.acceptable, Pending(s))|)
    ensures t.c.resConv == s.c.resConv && t.c.force == s.c.force && t.c.nbRows == s.c.nbRows
    ensures t.c.nbCur == s.c.nbCur && t.c.nbConverted == s.c.nbConverted
    ensures |t.errs| <= t.c.nbRows ==> Shape(t)
  {
    var calls :| LoadedBy(v, s, t, DprComplete, calls);
    var n := |calls| - 1;
    AcceptedAreFiltered(v, s.o.rows, s.o.offset, calls);
    assert CallOk(v, s.o.rows, After(s.o.offset, calls[..n]), Last(calls));
    assert After(s.o.offset, calls) == |s.o.rows|;
    assert s.o.rows[s.o.offset..After(s.o.offset, calls)] == Pending(s);
  }

  /** Any Load, complete or not: the table grows by the acceptable rows of what it went through. */
  lemma LoadIsFilterOfPrefix(v: Server, s: Dp, t: Dp, r: Res)
    requires Shape(s) && s.c.status == Converted && LoadStep(v, s, t, r)
    ensures s.o.offset <= t.o.offset <= |s.o.rows| && t.o.rows == s.o.rows
    ensures t.o.table == s.o.table + Filter(v.acceptable, s.o.rows[s.o.offset..t.o.offset])
    ensures t.c.nbLoaded == Add32(s.c.nbLoaded, |t.o.table| - |s.o.table|)
  {
    var calls :| LoadedBy(v, s, t, r, calls);
    AcceptedAreFiltered(v, s.o.rows, s.o.offset, calls);
  }

  /** The refused rows among the pending ones, counted from the rows loaded before. */
  function Refusals(v: Server, loaded: ub4, pending: seq<Row>): (r: seq<(nat, nat)>)
    ensures |r| == |Misses(v.acceptable, pending)|
  {
    var m := Misses(v.acceptable, pending);
    seq(|m|, i requires 0 <= i < |m| => (Add32(loaded, m[i]), 0))
  }

  lemma RefusalsAppend(v: Server, loaded: ub4, before: seq<Row>, after: seq<Row>, k: nat)
    requires Misses(v.acceptable, after) == Misses(v.acceptable, before) + [k]
    ensures Refusals(v, loaded, after) == Refusals(v, loaded, before) + [(Add32(loaded, k), 0)]
  {
  }

  /**
   From `o` to `p`, `errs` are the refused rows, by their position behind the `loaded` rows, and `count`
   the accepted ones; the last row was refused.
   */
  ghost predicate Numbered(v: Server, rows: seq<Row>, o: nat, p: nat, loaded: ub4, errs: seq<(nat, nat)>, count: nat) {
    exists gone :: gone == p - o && NumberedBehind(v, rows, o, gone, loaded, errs, count)
  }

  ghost predicate NumberedBehind(v: Server, rows: seq<Row>, o: nat, gone: int, loaded: ub4, errs: seq<(nat, nat)>, count: nat) {
    && 0 <= gone && o + gone <= |rows| && errs == Refusals(v, loaded, rows[o..o + gone]) && count + |errs| == gone
    && if errs == [] then gone == 0 else gone > 0 && Last(errs).0 == Add32(loaded, gone - 1)
  }

  /** A refused row behind `accepted` accepted ones gets the number of its position. */
  lemma RefusalNumbered(v: Server, loaded: ub4, rows: seq<Row>, o: nat, p: nat, errs: seq<(nat, nat)>, count: nat, c: LoadCall)
    requires Numbered(v, rows, o, p, loaded, errs, count) && CallOk(v, rows, p, c) && c.rejects
    ensures Numbered(v, rows, o, p + Used(c), loaded, errs + CallError(errs, Add32(loaded, count), c), count + c.accepted)
  {
    RefusedNext(v, loaded, rows, o, p, c);
    ErrorNumber(loaded, errs, count, c, p - o);
    var all := errs + CallError(errs, Add32(loaded, count), c);
    assert NumberedBehind(v, rows, o, p + Used(c) - o, loaded, all, count + c.accepted);
  }

  lemma RefusedNext(v: Server, loaded: ub4, rows: seq<Row>, o: nat, p: nat, c: LoadCall)
    requires o <= p && CallOk(v, rows, p, c) && c.rejects
    ensures Refusals(v, loaded, rows[o..p + Used(c)]) == Refusals(v, loaded, rows[o..p]) + [(Add32(loaded, p - o + c.accepted), 0)]
  {
    CallFilters(v, rows, o, p, c);
    RefusalsAppend(v, loaded, rows[o..p], rows[o..p + Used(c)], p - o + c.accepted);
  }

  /** Both ways of numbering an error come to the position of the row. */
  lemma ErrorNumber(loaded: ub4, errs: seq<(nat, nat)>, count: nat, c: LoadCall, gone: nat)
    requires c.ret != LoadSuccess && (errs == [] ==> count == gone)
    requires errs != [] ==> gone > 0 && Last(errs).0 == Add32(loaded, gone - 1)
    ensures CallError(errs, Add32(loaded, count), c) == [(Add32(loaded, gone + c.accepted), 0)]
  {
    Add32Assoc(loaded, count, c.accepted);
    Add32Assoc(loaded, gone - 1, c.accepted);
    Add32Assoc(loaded, gone - 1 + c.accepted, 1);
  }

  lemma LastCallOk(v: Server, rows: seq<Row>, o: nat, calls: seq<LoadCall>)
    requires calls != [] && CallsOk(v, rows, o, calls)
    ensures CallsOk(v, rows, o, calls[..|calls| - 1]) && CallOk(v, rows, After(o, calls[..|calls| - 1]), Last(calls))
  {
  }

  /**
   When every failing call refuses a row, numbering the first error by the rows loaded so far and each
   further one by the previous error comes to the position of the refused row in what was pending.
   */
  lemma {:induction false} RefusalsNumbered(v: Server, rows: seq<Row>, o: nat, calls: seq<LoadCall>, loaded: ub4)
    requires o <= |rows| && CallsOk(v, rows, o, calls)
    requires forall i :: 0 <= i < |calls| ==> calls[i].rejects
    ensures Numbered(v, rows, o, After(o, calls), loaded, LoadErrs(loaded, calls), LoadedCount(calls))
  {
    if calls == [] {
      assert rows[o..o] == [];
      assert NumberedBehind(v, rows, o, 0, loaded, [], 0);
    } else {
      var front, c := calls[..|calls| - 1], Last(calls);
      LastCallOk(v, rows, o, calls);
      RefusalsNumbered(v, rows, o, front, loaded);
      NumberedAppend(v, rows, o, front, c, loaded);
      assert calls == front + [c];
    }
  }

  lemma NumberedAppend(v: Server, rows: seq<Row>, o: nat, front: seq<LoadCall>, c: LoadCall, loaded: ub4)
    requires Numbered(v, rows, o, After(o, front), loaded, LoadErrs(loaded, front), LoadedCount(front))
    requires CallOk(v, rows, After(o, front), c) && c.rejects
    ensures Numbered(v, rows, o, After(o, front + [c]), loaded, LoadErrs(loaded, front + [c]), LoadedCount(front + [c]))
  {
    RefusalNumbered(v, loaded, rows, o, After(o, front), LoadErrs(loaded, front), LoadedCount(front), c);
    ErrorsAppend(loaded, front, c);
    CountsAppend(o, front, c);
  }

  /**
   A Load without idle failures records error number j at the rows loaded before the Load plus
   the position, among the pending rows, of the j-th refused one; and accepted and refused rows add
   up to the pending ones.
   */
  lemma LoadErrorPositions(v: Server, s: Dp, t: Dp)
    requires Shape(s) && s.c.status == Converted && SteadyLoad(v, s, t)
    ensures LoadStep(v, s, t, DprComplete)
    ensures t.errs == Refusals(v, s.c.nbLoaded, Pending(s))
    ensures |t.o.table| - |s.o.table| + |t.errs| == |Pending(s)|
  {
    var calls :| LoadedBy(v, s, t, DprComplete, calls) && Steady(calls);
    assert LoadStep(v, s, t, DprComplete);
    LoadIsFilter(v, s, t);
    SteadyCallsNumbered(v, s.o.rows, s.o.offset, calls, s.c.nbLoaded);
    FilterMissesCount(v.acceptable, Pending(s));
  }

  lemma SteadyCallsNumbered(v: Server, rows: seq<Row>, o: nat, calls: seq<LoadCall>, loaded: ub4)
    requires o <= |rows| && calls != [] && CallsOk(v, rows, o, calls) && Steady(calls)
    requires Last(calls).ret == LoadSuccess
    requires forall i :: 0 <= i < |calls| - 1 ==> calls[i].ret == LoadFailed
    ensures LoadErrs(loaded, calls) == Refusals(v, loaded, rows[o..])
  {
    var front, c := calls[..|calls| - 1], Last(calls);
    LastSucceeds(v, rows, o, calls, loaded);
    RefusalsNumbered(v, rows, o, front, loaded);
    NothingRefused(v, rows, o, After(o, front), c, loaded);
  }

  lemma LastSucceeds(v: Server, rows: seq<Row>, o: nat, calls: seq<LoadCall>, loaded: ub4)
    requires calls != [] && CallsOk(v, rows, o, calls) && Steady(calls) && Last(calls).ret == LoadSuccess
    requires forall i :: 0 <= i < |calls| - 1 ==> calls[i].ret == LoadFailed
    ensures var front, c := calls[..|calls| - 1], Last(calls);
      && LoadErrs(loaded, calls) == LoadErrs(loaded, front)
      && CallsOk(v, rows, o, front) && CallOk(v, rows, After(o, front), c)
      && forall i :: 0 <= i < |front| ==> front[i].rejects
  {
  }

  lemma NothingRefused(v: Server, rows: seq<Row>, o: nat, p: nat, c: LoadCall, loaded: ub4)
    requires o <= p && CallOk(v, rows, p, c) && c.ret == LoadSuccess
    ensures Refusals(v, loaded, rows[o..p]) == Refusals(v, loaded, rows[o..])
  {
    CallFilters(v, rows, o, p, c);
    SameRefusals(v, loaded, rows, o, p);
  }

  lemma SameRefusals(v: Server, loaded: ub4, rows: seq<Row>, o: nat, p: nat)
    requires o <= p <= |rows| && Misses(v.acceptable, rows[o..|rows|]) == Misses(v.acceptable, rows[o..p])
    ensures Refusals(v, loaded, rows[o..p]) == Refusals(v, loaded, rows[o..])
  {
    assert rows[o..|rows|] == rows[o..];
  }
}
