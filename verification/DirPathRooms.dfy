/**
 The error arrays have one place a row, and nothing checks their bounds. How many errors a Convert and a
 Load can record, exactly, and that a Load always ends.
 */
module DirPathRooms {
  import opened Words
  import opened Seqs
  import opened DirPathSpec
  import opened DirPathLoads
  import opened DirPathTheorems

  // --------------------------------------------------------------------------- a Convert

  /** In front of the i-th miss there are i misses. */
  lemma {:induction false} MissesBefore<T>(p: T -> bool, s: seq<T>, i: nat)
    requires i < |Misses(p, s)|
    ensures |Misses(p, s[..Misses(p, s)[i]])| == i
  {
    var n := |s| - 1;
    var front, x := s[..n], s[n];
    assert s == front + [x];
    FilterSnoc(p, front, x);
    if i < |Misses(p, front)| {
      MissesBefore(p, front, i);
      assert front[..Misses(p, front)[i]] == s[..Misses(p, front)[i]];
    }
  }

  /** The most errors a Convert may leave recorded. */
  function MostConverted(v: Server, s: Dp): nat
    requires Shape(s) && s.c.status == Prepared
  {
    |s.errs| + Min(|Misses(v.convertible, Batch(s))|, ErrorLimit(s))
  }

  /** Whatever OCI does, a Convert records no more. */
  lemma ConvertRecords(v: Server, s: Dp, t: Dp, r: Res)
    requires Shape(s) && s.c.status == Prepared && ConvertStep(v, s, t, r)
    ensures |t.errs| <= MostConverted(v, s)
  {
    var m: nat :| ConvertedTo(v, s, t, r, m);
    var b := Batch(s);
    AllIffNoMisses(v.convertible, b[..m]);
    if r == DprError {
      MissesTo(v, b, m);
    } else {
      MissesUpTo(v, b, m);
    }
  }

  lemma MissesUpTo(v: Server, b: seq<Row>, m: nat)
    requires m <= |b|
    ensures |Misses(v.convertible, b[..m])| <= |Misses(v.convertible, b)|
  {
    MissesConcat(v.convertible, b[..m], b[m..]);
    assert b == b[..m] + b[m..];
  }

  lemma MissesTo(v: Server, b: seq<Row>, m: nat)
    requires m < |b| && !v.convertible(b[m])
    ensures |Misses(v.convertible, b[..m])| + 1 <= |Misses(v.convertible, b)|
  {
    FilterSnoc(v.convertible, b[..m], b[m]);
    assert b[..m] + [b[m]] == b[..m + 1];
    MissesUpTo(v, b, m + 1);
  }

  /** And OCI may make it record as many: it stops for no other reason than rows that do not convert. */
  lemma ConvertMayRecord(v: Server, s: Dp) returns (t: Dp, r: Res)
    requires Shape(s) && s.c.status == Prepared
    ensures ConvertStep(v, s, t, r) && |t.errs| == MostConverted(v, s)
  {
    var m: nat;
    r, m := MostStops(v, s);
    t := Behind(s, r, Good(v, s, m), NewErrors(v, s, r, m));
    assert ConvertedTo(v, s, t, r, m);
  }

  /** It consumes everything, or stops at the row that is one too many. */
  lemma MostStops(v: Server, s: Dp) returns (r: Res, m: nat)
    requires Shape(s) && s.c.status == Prepared
    ensures r == DprComplete || r == DprError
    ensures ConvertEnds(v, s, BaseStream(s).rows, r, m) && Guarded(v, s, m)
    ensures |s.errs| + |NewErrors(v, s, r, m)| == MostConverted(v, s)
    ensures r == DprError && s.c.force ==> |s.errs| + |NewErrors(v, s, r, m)| > s.c.nbCur
  {
    var b, limit := Batch(s), ErrorLimit(s);
    var miss := Misses(v.convertible, b);
    if |miss| < limit {
      r, m := DprComplete, |b|;
      assert b[..m] == b;
      AllIffNoMisses(v.convertible, b);
    } else {
      r, m := DprError, miss[limit - 1];
      MissesBefore(v.convertible, b, limit - 1);
      AllIffNoMisses(v.convertible, b[..m]);
    }
  }

  /** No Convert can write outside the error arrays if and only if there is room for the most it may record. */
  lemma ConvertRoomExact(v: Server, s: Dp)
    requires Shape(s) && s.c.status == Prepared
    ensures ConvertRoom(v, s) <==> forall t, r :: ConvertStep(v, s, t, r) ==> |t.errs| <= s.c.nbRows
  {
    if ConvertRoom(v, s) {
      forall t, r | ConvertStep(v, s, t, r)
        ensures |t.errs| <= s.c.nbRows
      {
        ConvertRecords(v, s, t, r);
      }
    } else {
      var t, r := ConvertMayRecord(v, s);
      assert ConvertStep(v, s, t, r);
    }
  }

  // ------------------------------------------------------------------------------ a Load

  /** Every call but a success records an error: one for each row refused, and one for each idle failure. */
  lemma {:induction false} ErrorsOfCalls(v: Server, rows: seq<Row>, o: nat, calls: seq<LoadCall>, loaded: ub4)
    requires o <= |rows| && CallsOk(v, rows, o, calls)
    ensures After(o, calls) <= |rows|
    ensures |LoadErrs(loaded, calls)| == Idles(calls) + |Misses(v.acceptable, rows[o..After(o, calls)])|
  {
    if calls == [] {
      assert rows[o..o] == [];
    } else {
      var front, c := calls[..|calls| - 1], Last(calls);
      LastCallOk(v, rows, o, calls);
      ErrorsOfCalls(v, rows, o, front, loaded);
      ErrorOfCall(v, rows, o, front, c, loaded);
      assert calls == front + [c];
    }
  }

  lemma ErrorOfCall(v: Server, rows: seq<Row>, o: nat, front: seq<LoadCall>, c: LoadCall, loaded: ub4)
    requires o <= |rows| && After(o, front) <= |rows| && CallOk(v, rows, After(o, front), c)
    requires |LoadErrs(loaded, front)| == Idles(front) + |Misses(v.acceptable, rows[o..After(o, front)])|
    ensures After(o, front + [c]) <= |rows|
    ensures |LoadErrs(loaded, front + [c])| == Idles(front + [c]) + |Misses(v.acceptable, rows[o..After(o, front + [c])])|
  {
    var all, p := front + [c], After(o, front);
    CountsAppend(o, front, c);
    IdlesAppend(front, c);
    ErrorAdded(loaded, front, c);
    OneMissOrIdle(v, rows, o, p, c);
    assert After(o, all) == p + Used(c);
  }

  lemma ErrorAdded(loaded: ub4, front: seq<LoadCall>, c: LoadCall)
    ensures |LoadErrs(loaded, front + [c])| == |LoadErrs(loaded, front)| + if c.ret == LoadSuccess then 0 else 1
  {
    ErrorsAppend(loaded, front, c);
  }

  lemma OneMissOrIdle(v: Server, rows: seq<Row>, o: nat, p: nat, c: LoadCall)
    requires o <= p && CallOk(v, rows, p, c)
    ensures |Misses(v.acceptable, rows[o..p + Used(c)])| + (if Idle(c) then 1 else 0)
         == |Misses(v.acceptable, rows[o..p])| + if c.ret == LoadSuccess then 0 else 1
  {
    CallFilters(v, rows, o, p, c);
  }

  /** Behind the first call, an idle failure that moved accepted a row. */
  lemma {:induction false} IdleRows(calls: seq<LoadCall>)
    requires forall i :: 0 < i < |calls| ==> Used(calls[i]) > 0
    ensures Idles(calls) <= LoadedCount(calls) + 1
  {
    if calls != [] {
      IdleRows(calls[..|calls| - 1]);
    }
  }

  /** So there is at most one for every accepted row, one before and one after. */
  lemma IdlesOfLoad(v: Server, rows: seq<Row>, o: nat, calls: seq<LoadCall>)
    requires o <= |rows| && CallsOk(v, rows, o, calls) && Retrying(calls)
    ensures After(o, calls) <= |rows| && Idles(calls) <= |Filter(v.acceptable, rows[o..After(o, calls)])| + 2
  {
    AcceptedAreFiltered(v, rows, o, calls);
    AcceptedCount(rows, o, calls);
    if calls != [] {
      IdleRows(calls[..|calls| - 1]);
    }
  }

  lemma RowsBefore(v: Server, rows: seq<Row>, o: nat, p: nat)
    requires o <= p <= |rows|
    ensures |Misses(v.acceptable, rows[o..p])| <= |Misses(v.acceptable, rows[o..])|
    ensures |Filter(v.acceptable, rows[o..p])| <= |Filter(v.acceptable, rows[o..])|
  {
    assert rows[o..] == rows[o..p] + rows[p..];
    MissesConcat(v.acceptable, rows[o..p], rows[p..]);
    FilterConcat(v.acceptable, rows[o..p], rows[p..]);
  }

  /** The most errors a Load of the pending rows may record when the server can be idle `idle` times. */
  function MostLoaded(v: Server, pending: seq<Row>, idle: nat): nat {
    |Misses(v.acceptable, pending)| + Min(idle, |Filter(v.acceptable, pending)| + 2)
  }

  /** No Load, at any point of it, has recorded more. */
  lemma LoadRecords(v: Server, s: Dp, calls: seq<LoadCall>, idle: nat)
    requires Shape(s) && CallsOk(v, s.o.rows, s.o.offset, calls) && Retrying(calls) && Idles(calls) <= idle
    ensures |LoadErrs(s.c.nbLoaded, calls)| <= MostLoaded(v, Pending(s), idle)
  {
    ErrorsOfCalls(v, s.o.rows, s.o.offset, calls, s.c.nbLoaded);
    IdlesOfLoad(v, s.o.rows, s.o.offset, calls);
    RowsBefore(v, s.o.rows, s.o.offset, After(s.o.offset, calls));
  }

  /** There is a place in the error arrays for the error of the next call. */
  lemma CallRoom(v: Server, spent: nat, idle: nat, s: Dp, t: Dp, call: LoadCall)
    requires Shape(s) && s.c.status == Converted && LoadRoom(v, s, idle)
    requires MayCall(v, spent, s, t) && CallOk(v, t.o.rows, t.o.offset, call) && Spending(spent, call) <= idle
    ensures t.c.status == Converted && t.c.nbRows == s.c.nbRows
    ensures call.ret != LoadSuccess ==> |t.errs| < s.c.nbRows
  {
    var calls: seq<LoadCall> :| Loading(v, spent, s, calls, t) && Failed(calls);
    RoomForOne(v, s, calls, call, idle);
  }

  lemma RoomForOne(v: Server, s: Dp, calls: seq<LoadCall>, call: LoadCall, idle: nat)
    requires Shape(s) && s.c.status == Converted && LoadRoom(v, s, idle)
    requires CallsOk(v, s.o.rows, s.o.offset, calls) && CallOk(v, s.o.rows, After(s.o.offset, calls), call)
    requires Failed(calls)
    requires Spending(Idles(calls), call) <= idle
    ensures call.ret != LoadSuccess ==> |LoadErrs(s.c.nbLoaded, calls)| < s.c.nbRows
  {
    CallsOkAppend(v, s.o.rows, s.o.offset, calls, call);
    IdlesAppend(calls, call);
    RetryingAppend(calls, call);
    ErrorsAppend(s.c.nbLoaded, calls, call);
    LoadRecords(v, s, calls + [call], idle);
  }

  /**
   A Load ends against every server, whether or not there is room for its errors: it makes at most two
   calls more than rows are pending, since every call between the first and the last moves the offset.
   */
  lemma LoadEnds(v: Server, s: Dp, calls: seq<LoadCall>)
    requires Shape(s) && CallsOk(v, s.o.rows, s.o.offset, calls) && Retrying(calls)
    ensures |calls| <= |Pending(s)| + 2
  {
    AcceptedAreFiltered(v, s.o.rows, s.o.offset, calls);
    if calls != [] {
      UsedRows(s.o.offset, calls[..|calls| - 1]);
    }
  }

  /** Calls that each use a row, but for the first. */
  lemma {:induction false} UsedRows(o: nat, calls: seq<LoadCall>)
    requires forall i :: 0 < i < |calls| ==> Used(calls[i]) > 0
    ensures |calls| <= After(o, calls) - o + 1
  {
    if calls != [] {
      UsedRows(o, calls[..|calls| - 1]);
    }
  }

  // ------------------------------------------------------ a Load that records the most

  const IDLE := LoadCall(LoadFailed, 0, false)

  /**
   The calls behind `start` went through `n` rows, but for the last `held` of them, which are acceptable:
   each failed, refusing a row or accepting one, and `k` of the failures, or as many as rows are
   acceptable, refused nothing.
   */
  ghost predicate Failing(v: Server, rows: seq<Row>, start: nat, n: nat, k: nat, calls: seq<LoadCall>, held: nat)
    requires n <= |rows|
  {
    && held <= n && CallsOk(v, rows, 0, calls) && After(0, calls) == n - held
    && All(v.acceptable, rows[n - held..n])
    && Failed(calls) && Idles(calls) == start + Min(k, |Filter(v.acceptable, rows[..n])|)
    && (held > 0 ==> |Filter(v.acceptable, rows[..n])| > k)
  }

  lemma FailingMore(v: Server, rows: seq<Row>, start: nat, n: nat, k: nat, calls: seq<LoadCall>, held: nat, c: LoadCall)
    requires n < |rows| && Failing(v, rows, start, n, k, calls, held)
    requires c.ret == LoadFailed && CallOk(v, rows, n - held, c) && Used(c) == held + 1
    requires if v.acceptable(rows[n]) then !c.rejects && |Filter(v.acceptable, rows[..n])| < k else c.rejects
    ensures Failing(v, rows, start, n + 1, k, calls + [c], 0)
  {
    assert rows[..n + 1] == rows[..n] + [rows[n]];
    FilterSnoc(v.acceptable, rows[..n], rows[n]);
    CallsOkAppend(v, rows, 0, calls, c);
    CountsAppend(0, calls, c);
    IdlesAppend(calls, c);
  }

  lemma FailingHeld(v: Server, rows: seq<Row>, start: nat, n: nat, k: nat, calls: seq<LoadCall>, held: nat)
    requires n < |rows| && Failing(v, rows, start, n, k, calls, held)
    requires v.acceptable(rows[n]) && |Filter(v.acceptable, rows[..n])| >= k
    ensures Failing(v, rows, start, n + 1, k, calls, held + 1)
  {
    assert rows[..n + 1] == rows[..n] + [rows[n]];
    FilterSnoc(v.acceptable, rows[..n], rows[n]);
  }

  lemma {:induction false} FailingCalls(v: Server, rows: seq<Row>, first: bool, n: nat, k: nat)
    returns (calls: seq<LoadCall>, held: nat)
    requires n <= |rows|
    ensures Failing(v, rows, if first then 1 else 0, n, k, calls, held) && (first ==> calls != [])
  {
    if n == 0 {
      calls, held := if first then [IDLE] else [], 0;
      FailingStart(v, rows, first, k);
    } else {
      calls, held := FailingCalls(v, rows, first, n - 1, k);
      calls, held := FailingNext(v, rows, if first then 1 else 0, n, k, calls, held);
    }
  }

  lemma FailingNext(v: Server, rows: seq<Row>, start: nat, n: nat, k: nat, before: seq<LoadCall>, kept: nat)
    returns (calls: seq<LoadCall>, held: nat)
    requires 0 < n <= |rows| && Failing(v, rows, start, n - 1, k, before, kept)
    ensures Failing(v, rows, start, n, k, calls, held) && before <= calls
  {
    var m: nat := n - 1;
    if v.acceptable(rows[m]) && |Filter(v.acceptable, rows[..m])| >= k {
      FailingHeld(v, rows, start, m, k, before, kept);
      calls, held := before, kept + 1;
    } else {
      var c := if v.acceptable(rows[m]) then LoadCall(LoadFailed, 1, false) else LoadCall(LoadFailed, kept, true);
      HeldRows(v, rows, m, kept);
      FailingMore(v, rows, start, m, k, before, kept, c);
      calls, held := before + [c], 0;
    }
  }

  lemma HeldRows(v: Server, rows: seq<Row>, n: nat, held: nat)
    requires held <= n < |rows| && All(v.acceptable, rows[n - held..n])
    ensures All(v.acceptable, rows[n - held..n - held + held])
    ensures v.acceptable(rows[n]) ==> All(v.acceptable, rows[n..n + 1])
  {
  }

  lemma FailingStart(v: Server, rows: seq<Row>, first: bool, k: nat)
    ensures Failing(v, rows, if first then 1 else 0, 0, k, if first then [IDLE] else [], 0)
  {
    CallsOkAppend(v, rows, 0, [], IDLE);
    CountsAppend(0, [], IDLE);
    IdlesAppend([], IDLE);
    assert [] + [IDLE] == [IDLE];
  }

  lemma {:induction false} FromOffset(v: Server, rows: seq<Row>, o: nat, calls: seq<LoadCall>)
    requires o <= |rows| && CallsOk(v, rows[o..], 0, calls)
    ensures CallsOk(v, rows, o, calls) && After(o, calls) == o + After(0, calls)
  {
    if calls != [] {
      var front, c := calls[..|calls| - 1], Last(calls);
      LastCallOk(v, rows[o..], 0, calls);
      FromOffset(v, rows, o, front);
      CallFromOffset(v, rows, o, After(0, front), c);
    }
  }

  lemma CallFromOffset(v: Server, rows: seq<Row>, o: nat, p: nat, c: LoadCall)
    requires o <= |rows| && CallOk(v, rows[o..], p, c)
    ensures CallOk(v, rows, o + p, c)
  {
    assert rows[o..][p..p + c.accepted] == rows[o + p..o + p + c.accepted];
  }

  /** The last call: success, or one more idle failure. */
  lemma LastOfMost(v: Server, rows: seq<Row>, start: nat, k: nat, calls: seq<LoadCall>, held: nat, c: LoadCall, loaded: ub4)
    requires Failing(v, rows, start, |rows|, k, calls, held)
    requires c == LoadCall(LoadSuccess, held, false) || (c == IDLE && held == 0 && calls != [])
    ensures RetriesWhileAdvancing(calls + [c]) && CallsOk(v, rows, 0, calls + [c])
    ensures Idles(calls + [c]) == start + Min(k, |Filter(v.acceptable, rows)|) + if c == IDLE then 1 else 0
    ensures |LoadErrs(loaded, calls + [c])| == |Misses(v.acceptable, rows)| + Idles(calls + [c])
  {
    assert rows[..|rows|] == rows && rows[0..|rows|] == rows;
    CallsOkAppend(v, rows, 0, calls, c);
    CountsAppend(0, calls, c);
    IdlesAppend(calls, c);
    ErrorsOfCalls(v, rows, 0, calls + [c], loaded);
  }

  /** The calls of a Load, if the server does its worst. */
  lemma LoadMayRecord(v: Server, rows: seq<Row>, idle: nat, loaded: ub4) returns (calls: seq<LoadCall>)
    ensures RetriesWhileAdvancing(calls) && CallsOk(v, rows, 0, calls) && Idles(calls) <= idle
    ensures |LoadErrs(loaded, calls)| == MostLoaded(v, rows, idle)
  {
    var good := |Filter(v.acceptable, rows)|;
    assert rows[..|rows|] == rows;
    var front, held := FailingCalls(v, rows, idle > good, |rows|, idle);
    var c := if idle > good + 1 then IDLE else LoadCall(LoadSuccess, held, false);
    LastOfMost(v, rows, if idle > good then 1 else 0, idle, front, held, c, loaded);
    calls := front + [c];
  }

  /**
   Against any server that can be idle `idle` times, no Load can write outside the error arrays if and
   only if there is room for the rows it refuses and for its idle failures.
   */
  lemma LoadRoomExact(v: Server, s: Dp, idle: nat)
    requires Shape(s) && s.c.status == Converted
    ensures LoadRoom(v, s, idle) <==>
      forall calls :: RetriesWhileAdvancing(calls) && CallsOk(v, s.o.rows, s.o.offset, calls) && Idles(calls) <= idle ==>
        |LoadErrs(s.c.nbLoaded, calls)| <= s.c.nbRows
  {
    if LoadRoom(v, s, idle) {
      forall calls | RetriesWhileAdvancing(calls) && CallsOk(v, s.o.rows, s.o.offset, calls) && Idles(calls) <= idle
        ensures |LoadErrs(s.c.nbLoaded, calls)| <= s.c.nbRows
      {
        LoadRecords(v, s, calls, idle);
      }
    } else {
      var calls := LoadMayRecord(v, Pending(s), idle, s.c.nbLoaded);
      FromOffset(v, s.o.rows, s.o.offset, calls);
    }
  }

  /** Without idle failures: if and only if there is a place for every pending row the server refuses. */
  lemma SteadyRoom(v: Server, s: Dp)
    requires Shape(s) && s.c.status == Converted
    ensures LoadRoom(v, s, 0) <==> |Misses(v.acceptable, Pending(s))| <= s.c.nbRows
  {
  }

  /** A batch that fits the error arrays has room against a server without idle failures. */
  lemma BatchRoom(v: Server, s: Dp)
    requires Shape(s) && |Pending(s)| <= s.c.nbRows
    ensures LoadRoom(v, s, 0)
  {
    FilterMissesCount(v.acceptable, Pending(s));
  }

  /** However often the server may be idle: if and only if two rows fewer are pending than were allocated. */
  lemma AnyServerRoom(v: Server, s: Dp)
    requires Shape(s) && s.c.status == Converted
    ensures (forall idle: nat :: LoadRoom(v, s, idle)) <==> |Pending(s)| + 2 <= s.c.nbRows
  {
    FilterMissesCount(v.acceptable, Pending(s));
    if |Pending(s)| + 2 > s.c.nbRows {
      assert !LoadRoom(v, s, |Pending(s)| + 2);
    }
  }
}
