/**
 A Load is one call that pushes the stream, or several while the calls fail but advance. The lemmas
 here add calls up.
 */
module DirPathLoads {
  import opened Words
  import opened Seqs
  import opened DirPathSpec

  /** The error one failing call adds: behind the last one recorded, or the rows loaded so far. */
  function CallError(errs: seq<(nat, nat)>, loaded: ub4, call: LoadCall): seq<(nat, nat)> {
    if call.ret == LoadSuccess then []
    else if errs != [] then [(Add32(Add32(Last(errs).0, call.accepted), 1), 0)]
    else [(Add32(loaded, call.accepted), 0)]
  }

  /** The state behind one call, but for the error it may have recorded. */
  function Pushed(s: Dp, call: LoadCall): Dp
    requires s.o.offset + Used(call) <= |s.o.rows|
  {
    s.(c := s.c.(status := if call.ret == LoadSuccess then Prepared else s.c.status,
                 loadOffset := s.o.offset + Used(call),
                 nbLoaded := Add32(s.c.nbLoaded, call.accepted),
                 nbProcessed := Add32(s.c.nbProcessed, call.accepted)),
       o := Handed(s.o, call))
  }

  /** The state behind one call. */
  function Called(s: Dp, call: LoadCall): Dp
    requires s.o.offset + Used(call) <= |s.o.rows|
  {
    Pushed(s, call).(errs := s.errs + CallError(s.errs, s.c.nbLoaded, call))
  }

  function WithResLoad(s: Dp, r: Res): Dp {
    s.(c := s.c.(resLoad := r))
  }

  /** The state in which the first call of a Load is made. */
  function LoadStarted(s: Dp): Dp {
    s.(c := s.c.(nbProcessed := 0, idxRow := 0, idxCol := 0, resLoad := DprComplete), errs := [])
  }

  /** Every call but the last failed, and every call between the first and the last advanced. */
  ghost predicate Retrying(calls: seq<LoadCall>) {
    && (forall i :: 0 <= i < |calls| - 1 ==> calls[i].ret == LoadFailed)
    && (forall i :: 0 < i < |calls| - 1 ==> Used(calls[i]) > 0)
  }

  /** All calls failed, and all but the first advanced: another one follows. */
  ghost predicate Failed(calls: seq<LoadCall>) {
    && (forall i :: 0 <= i < |calls| ==> calls[i].ret == LoadFailed)
    && (forall i :: 0 < i < |calls| ==> Used(calls[i]) > 0)
  }

  /** The calls made so far, of which `spent` were idle failures. */
  ghost predicate Loading(v: Server, spent: nat, s: Dp, calls: seq<LoadCall>, t: Dp) {
    && Shape(s) && s.c.status == Converted
    && Retrying(calls) && Idles(calls) == spent
    && CallsOk(v, s.o.rows, s.o.offset, calls)
    && t == LoadingState(s, calls)
  }

  /** The Load that started in `s` may make another call in state `t`. */
  ghost predicate MayCall(v: Server, spent: nat, s: Dp, t: Dp) {
    exists calls: seq<LoadCall> :: Loading(v, spent, s, calls, t) && Failed(calls)
  }

  /** The Load that started in `s` got to `t` by a last call that used `used` rows. */
  ghost predicate CalledTo(v: Server, spent: nat, s: Dp, t: Dp, first: bool, used: nat) {
    exists calls: seq<LoadCall> ::
      calls != [] && Loading(v, spent, s, calls, t) && used == Used(Last(calls)) && first == (|calls| == 1)
  }

  lemma NothingCalled(v: Server, s: Dp)
    requires Shape(s) && s.c.status == Converted
    ensures MayCall(v, 0, s, LoadStarted(s))
  {
    assert Loading(v, 0, s, [], LoadStarted(s));
  }

  lemma CountsAppend(o: nat, calls: seq<LoadCall>, call: LoadCall)
    ensures After(o, calls + [call]) == After(o, calls) + Used(call)
    ensures LoadedCount(calls + [call]) == LoadedCount(calls) + call.accepted
  {
    assert (calls + [call])[..|calls|] == calls;
  }

  lemma RowsAppend(rows: seq<Row>, o: nat, calls: seq<LoadCall>, call: LoadCall)
    requires After(o, calls) + Used(call) <= |rows|
    ensures AcceptedRows(rows, o, calls + [call])
         == AcceptedRows(rows, o, calls) + rows[After(o, calls)..After(o, calls) + call.accepted]
  {
    assert (calls + [call])[..|calls|] == calls;
  }

  lemma ErrorsAppend(loaded: ub4, calls: seq<LoadCall>, call: LoadCall)
    ensures LoadErrs(loaded, calls + [call])
         == LoadErrs(loaded, calls) + CallError(LoadErrs(loaded, calls), Add32(loaded, LoadedCount(calls)), call)
  {
    assert (calls + [call])[..|calls|] == calls;
    Add32Assoc(loaded, LoadedCount(calls), call.accepted);
  }

  lemma CallsOkAppend(v: Server, rows: seq<Row>, o: nat, calls: seq<LoadCall>, call: LoadCall)
    requires CallsOk(v, rows, o, calls) && CallOk(v, rows, After(o, calls), call)
    ensures CallsOk(v, rows, o, calls + [call])
  {
    assert (calls + [call])[..|calls|] == calls;
  }

  /** The state of a Load after some calls, none included. */
  function LoadingState(s: Dp, calls: seq<LoadCall>): Dp {
    if calls == [] then LoadStarted(s) else LoadedState(s, calls)
  }

  /** The first call, and one behind a failed call, add up. */
  lemma CallAddsUp(s: Dp, t: Dp, loaded: seq<Row>, errs: seq<(nat, nat)>, offset: nat, call: LoadCall)
    requires s.c.status == Converted && offset + Used(call) <= |s.o.rows|
    requires t == LoadedWith(s, LoadFailed, loaded, errs, offset)
          || (t == LoadStarted(s) && loaded == [] && errs == [] && offset == s.o.offset)
    ensures t.o.rows == s.o.rows && t.o.offset == offset
    ensures WithResLoad(Called(t, call), ResOf(call.ret))
         == LoadedWith(s, call.ret, loaded + s.o.rows[offset..offset + call.accepted],
                       errs + CallError(errs, Add32(s.c.nbLoaded, |loaded|), call), offset + Used(call))
  {
    Add32Assoc(s.c.nbLoaded, |loaded|, call.accepted);
    Add32Assoc(0, |loaded|, call.accepted);
    ConcatAssoc(s.o.table, loaded, s.o.rows[offset..offset + call.accepted]);
  }

  lemma OneMore(s: Dp, calls: seq<LoadCall>, call: LoadCall)
    requires s.c.status == Converted && (calls != [] ==> Last(calls).ret == LoadFailed)
    requires After(s.o.offset, calls) + Used(call) <= |s.o.rows|
    ensures LoadingState(s, calls).o.rows == s.o.rows && LoadingState(s, calls).o.offset == After(s.o.offset, calls)
    ensures WithResLoad(Called(LoadingState(s, calls), call), ResOf(call.ret)) == LoadedState(s, calls + [call])
  {
    CountsAppend(s.o.offset, calls, call);
    RowsAppend(s.o.rows, s.o.offset, calls, call);
    ErrorsAppend(s.c.nbLoaded, calls, call);
    AcceptedCount(s.o.rows, s.o.offset, calls);
    CallAddsUp(s, LoadingState(s, calls), AcceptedRows(s.o.rows, s.o.offset, calls), LoadErrs(s.c.nbLoaded, calls),
               After(s.o.offset, calls), call);
  }

  lemma {:induction false} AcceptedCount(rows: seq<Row>, o: nat, calls: seq<LoadCall>)
    requires After(o, calls) <= |rows|
    ensures |AcceptedRows(rows, o, calls)| == LoadedCount(calls)
  {
    if calls != [] {
      AcceptedCount(rows, o, calls[..|calls| - 1]);
    }
  }

  /** Every failing call records one error. */
  lemma {:induction false} ErrorsRecorded(loaded: ub4, calls: seq<LoadCall>)
    requires forall i :: 0 <= i < |calls| ==> calls[i].ret == LoadFailed
    ensures |LoadErrs(loaded, calls)| == |calls|
  {
    if calls != [] {
      ErrorsRecorded(loaded, calls[..|calls| - 1]);
    }
  }

  /** How many idle failures one more call makes. */
  function Spending(spent: nat, call: LoadCall): nat {
    spent + if Idle(call) then 1 else 0
  }

  lemma CallCounts(v: Server, spent: nat, s: Dp, t: Dp, call: LoadCall)
    requires MayCall(v, spent, s, t) && CallOk(v, t.o.rows, t.o.offset, call)
    ensures CalledTo(v, Spending(spent, call), s, WithResLoad(Called(t, call), ResOf(call.ret)), t.errs == [], Used(call))
  {
    var calls: seq<LoadCall> :| Loading(v, spent, s, calls, t) && Failed(calls);
    var u := LoadingAppend(v, spent, s, calls, t, call);
    ErrorsRecorded(s.c.nbLoaded, calls);
    assert CalledTo(v, Spending(spent, call), s, u, t.errs == [], Used(call)) by {
      assert Last(calls + [call]) == call;
    }
  }

  lemma LoadingAppend(v: Server, spent: nat, s: Dp, calls: seq<LoadCall>, t: Dp, call: LoadCall) returns (u: Dp)
    requires Loading(v, spent, s, calls, t)
    requires Failed(calls)
    requires CallOk(v, t.o.rows, t.o.offset, call)
    ensures t.o.offset + Used(call) <= |t.o.rows| && u == WithResLoad(Called(t, call), ResOf(call.ret))
    ensures Loading(v, Spending(spent, call), s, calls + [call], u)
  {
    OneMore(s, calls, call);
    u := WithResLoad(Called(t, call), ResOf(call.ret));
    CallsOkAppend(v, s.o.rows, s.o.offset, calls, call);
    IdlesAppend(calls, call);
    RetryingAppend(calls, call);
    assert u == LoadingState(s, calls + [call]);
  }

  lemma RetryingAppend(calls: seq<LoadCall>, call: LoadCall)
    requires Failed(calls)
    ensures Retrying(calls + [call])
  {
  }

  lemma IdlesAppend(calls: seq<LoadCall>, call: LoadCall)
    ensures Idles(calls + [call]) == Spending(Idles(calls), call)
  {
    assert (calls + [call])[..|calls|] == calls;
  }

  /** A server without idle failures is steady. */
  lemma {:induction false} NoIdles(calls: seq<LoadCall>)
    requires Idles(calls) == 0 && forall i :: 0 <= i < |calls| ==> calls[i].rejects ==> calls[i].ret == LoadFailed
    ensures Steady(calls)
  {
    if calls != [] {
      NoIdles(calls[..|calls| - 1]);
    }
  }

  lemma {:induction false} RejectsFail(v: Server, rows: seq<Row>, o: nat, calls: seq<LoadCall>)
    requires CallsOk(v, rows, o, calls)
    ensures forall i :: 0 <= i < |calls| ==> calls[i].rejects ==> calls[i].ret == LoadFailed
  {
    if calls != [] {
      var front := calls[..|calls| - 1];
      RejectsFail(v, rows, o, front);
      assert forall i :: 0 <= i < |front| ==> front[i] == calls[i];
    }
  }

  /** A failed first call, or a failed call that advanced, is followed by another one. */
  lemma CallAgain(v: Server, spent: nat, s: Dp, t: Dp, first: bool, used: nat)
    requires CalledTo(v, spent, s, t, first, used) && t.c.resLoad == DprError && (first || used > 0)
    ensures MayCall(v, spent, s, t) && t.errs != []
  {
    var calls: seq<LoadCall> :|
      calls != [] && Loading(v, spent, s, calls, t) && used == Used(Last(calls)) && first == (|calls| == 1);
    LastFailed(v, spent, s, calls, t);
    FailuresRecorded(s, calls, t);
  }

  lemma LastFailed(v: Server, spent: nat, s: Dp, calls: seq<LoadCall>, t: Dp)
    requires calls != [] && Loading(v, spent, s, calls, t) && t.c.resLoad == DprError
    requires |calls| == 1 || Used(Last(calls)) > 0
    ensures t == LoadedState(s, calls) && Failed(calls)
  {
    assert ResOf(Last(calls).ret) == DprError;
  }

  lemma FailuresRecorded(s: Dp, calls: seq<LoadCall>, t: Dp)
    requires calls != [] && t == LoadedState(s, calls) && Failed(calls)
    ensures t.errs != []
  {
    ErrorsRecorded(s.c.nbLoaded, calls);
  }

  /** Any other call is the last one. */
  lemma FinishLoad(v: Server, spent: nat, s: Dp, t: Dp, first: bool, used: nat)
    requires CalledTo(v, spent, s, t, first, used)
    requires t.c.resLoad == DprError ==> !first && used == 0
    ensures LoadStep(v, s, t, t.c.resLoad)
    ensures spent == 0 ==> t.c.resLoad == DprComplete && SteadyLoad(v, s, t)
  {
    var calls: seq<LoadCall> :|
      calls != [] && Loading(v, spent, s, calls, t) && used == Used(Last(calls)) && first == (|calls| == 1);
    assert LoadedBy(v, s, t, t.c.resLoad, calls);
    if spent == 0 {
      RejectsFail(v, s.o.rows, s.o.offset, calls);
      NoIdles(calls);
    }
  }
}
