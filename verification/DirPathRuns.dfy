/**
 Whole runs of a loader: any operations in any order, from its creation. The statements hold in every
 state reached without a write outside a cell or the error arrays; DirPathUse ties them to the object.
 */
module DirPathRuns {
  import opened Options
  import opened Words
  import opened Seqs
  import opened DirPathSpec
  import opened DirPathTheorems

  datatype Op =
    | SetConvertMode(force: bool)
    | Prepare(n: nat, nbCols: nat)
    | SetEntry(row: nat, col: nat, e: Option<Entry>)
    | SetCurrentRows(n: nat)
    | Reset
    | Convert
    | Load
    | End
    | GetErrorRow
    | GetErrorColumn

  /**
   Calling `op` in `s` may lead to `t`. A Convert or a Load is a step unless it wrote outside the error
   arrays; DirPathRooms says when that can happen. A call that sets an entry changes one cell, which
   DirPathCells says when it does.
   */
  ghost predicate Step(v: Server, s: Dp, op: Op, t: Dp) {
    match op
    case SetConvertMode(force) => exists ok :: SetModeStep(s, t, force, ok)
    case Prepare(n, nbCols) => exists ok :: PrepareStep(s, t, n, nbCols, ok)
    case SetEntry(row, col, e) => exists ok :: SetEntryStep(s, t, row, col, e, ok)
    case SetCurrentRows(n) => exists ok :: SetCurrentRowsStep(s, t, n, ok)
    case Reset => exists ok :: ResetStep(s, t, ok)
    case Convert => |t.errs| <= s.c.nbRows && exists r :: ConvertStep(v, s, t, r)
    case Load => |t.errs| <= s.c.nbRows && exists r :: LoadStep(v, s, t, r)
    case End => exists ok :: EndStep(s, t, ok)
    case GetErrorRow => exists r :: ErrorRowStep(s, t, r)
    case GetErrorColumn => exists r :: ErrorColumnStep(s, t, r)
  }

  /** A new loader in front of a table to which it has not added anything yet. */
  ghost predicate Created(s: Dp) {
    exists n :: s == Dp(NewCounters(n), [], [], Stream([], 0, [], []))
  }

  ghost predicate Run(v: Server, states: seq<Dp>, ops: seq<Op>) {
    && |states| == |ops| + 1
    && Created(states[0])
    && forall i :: 0 <= i < |ops| ==> Step(v, states[i], ops[i], states[i + 1])
  }

  /** The rows the Converts of a run were given, one batch behind the other. */
  function Given(states: seq<Dp>, ops: seq<Op>): seq<Row>
    requires |states| == |ops| + 1
  {
    if ops == [] then [] else
      var n := |ops| - 1;
      Given(states[..|states| - 1], ops[..n]) + GivenTo(states[n], ops[n])
  }

  function GivenTo(s: Dp, op: Op): seq<Row> {
    if op == Convert && s.c.status == Prepared && s.c.nbCur <= |s.rows| then Batch(s) else []
  }

  // ------------------------------------------------------------------------ the invariant

  /**
   What holds in every reachable state. The rows still to be handed over are the tail of all rows ever
   converted, and the table is a subsequence of the rest.
   */
  ghost predicate Inv(v: Server, s: Dp) {
    && Shape(s)
    && s.c.nbLoaded == |s.o.table| % U32
    && (s.c.status == Converted ==> s.c.resConv == DprComplete || s.c.resConv == DprFull)
    && All(v.convertible, s.o.ever) && All(v.acceptable, s.o.table)
    && Tail(s.o)
  }

  ghost predicate Tail(o: Stream) {
    exists gone :: TailBehind(o, gone)
  }

  ghost predicate TailBehind(o: Stream, gone: seq<Row>) {
    o.offset <= |o.rows| && o.ever == gone + o.rows[o.offset..] && IsSubseq(o.table, gone)
  }

  lemma CreatedInv(v: Server, s: Dp)
    requires Created(s)
    ensures Inv(v, s)
  {
    assert TailBehind(s.o, []);
  }

  /** Emptying the stream gives its pending rows up. */
  lemma ResetTail(o: Stream)
    requires Tail(o)
    ensures Tail(o.(rows := [], offset := 0))
  {
    var gone :| TailBehind(o, gone);
    var u := o.(rows := [], offset := 0);
    SubseqWiden(o.table, gone, o.rows[o.offset..]);
    assert u.ever == o.ever + [] && u.rows[0..] == [];
    assert TailBehind(u, o.ever);
  }

  lemma AppendTail(o: Stream, good: seq<Row>)
    requires Tail(o)
    ensures Tail(o.(rows := o.rows + good, ever := o.ever + good))
  {
    var gone :| TailBehind(o, gone);
    var u := o.(rows := o.rows + good, ever := o.ever + good);
    assert u.rows[u.offset..] == o.rows[o.offset..] + good;
    ConcatAssoc(gone, o.rows[o.offset..], good);
    assert TailBehind(u, gone);
  }

  lemma LoadTail(v: Server, o: Stream, to: nat)
    requires Tail(o) && o.offset <= to <= |o.rows|
    ensures Tail(o.(offset := to, table := o.table + Filter(v.acceptable, o.rows[o.offset..to])))
  {
    var gone :| TailBehind(o, gone);
    var part := o.rows[o.offset..to];
    var u := o.(offset := to, table := o.table + Filter(v.acceptable, part));
    SubseqAppend(v.acceptable, o.table, gone, part);
    assert o.rows[o.offset..] == part + o.rows[to..];
    ConcatAssoc(gone, part, o.rows[to..]);
    assert TailBehind(u, gone + part);
  }

  lemma {:induction false} FilteredAll<T>(p: T -> bool, s: seq<T>)
    ensures All(p, Filter(p, s))
  {
    if s != [] {
      FilteredAll(p, s[..|s| - 1]);
    }
  }

  lemma ConvertInv(v: Server, s: Dp, t: Dp, r: Res)
    requires Inv(v, s) && ConvertStep(v, s, t, r) && |t.errs| <= s.c.nbRows
    ensures Inv(v, t)
  {
    if s.c.status == Prepared {
      var m: nat :| ConvertedTo(v, s, t, r, m);
      FilteredAll(v.convertible, Batch(s)[..m]);
      ResetTail(s.o);
      AppendTail(BaseStream(s), Good(v, s, m));
    }
  }

  lemma LoadInv(v: Server, s: Dp, t: Dp, r: Res)
    requires Inv(v, s) && LoadStep(v, s, t, r) && |t.errs| <= s.c.nbRows
    ensures Inv(v, t)
  {
    if s.c.status == Converted {
      LoadKeeps(v, s, t, r);
      LoadedStream(v, s, t, r);
      CountsUp(s.c.nbLoaded, |s.o.table|, t.c.nbLoaded, |t.o.table|);
    }
  }

  lemma LoadKeeps(v: Server, s: Dp, t: Dp, r: Res)
    requires Shape(s) && s.c.status == Converted && LoadStep(v, s, t, r) && |t.errs| <= s.c.nbRows
    ensures t.c.resConv == s.c.resConv && Shape(t) && t.o.ever == s.o.ever && t.rows == s.rows
  {
    var calls :| LoadedBy(v, s, t, r, calls);
    AcceptedAreFiltered(v, s.o.rows, s.o.offset, calls);
  }

  lemma LoadedStream(v: Server, s: Dp, t: Dp, r: Res)
    requires Inv(v, s) && s.c.status == Converted && LoadStep(v, s, t, r) && t.o.ever == s.o.ever
    ensures All(v.acceptable, t.o.table) && Tail(t.o)
    ensures |t.o.table| >= |s.o.table| && t.c.nbLoaded == Add32(s.c.nbLoaded, |t.o.table| - |s.o.table|)
  {
    LoadIsFilterOfPrefix(v, s, t, r);
    FilteredAll(v.acceptable, s.o.rows[s.o.offset..t.o.offset]);
    LoadTail(v, s.o, t.o.offset);
    assert t.o == s.o.(offset := t.o.offset, table := t.o.table);
  }

  lemma CountsUp(a: ub4, m: nat, b: ub4, n: nat)
    requires a == m % U32 && n >= m && b == Add32(a, n - m)
    ensures b == n % U32
  {
  }

  /** Every operation keeps the invariant. */
  lemma StepInv(v: Server, s: Dp, op: Op, t: Dp)
    requires Inv(v, s) && Step(v, s, op, t)
    ensures Inv(v, t)
  {
    match op
    case Convert =>
      var r :| ConvertStep(v, s, t, r);
      ConvertInv(v, s, t, r);
    case Load =>
      var r :| LoadStep(v, s, t, r);
      LoadInv(v, s, t, r);
    case Reset =>
      ResetTail(s.o);
    case _ =>
  }

  /** Every state of a run satisfies the invariant. */
  lemma {:induction false} RunInv(v: Server, states: seq<Dp>, ops: seq<Op>)
    requires Run(v, states, ops)
    ensures forall i :: 0 <= i < |states| ==> Inv(v, states[i])
  {
    if ops == [] {
      CreatedInv(v, states[0]);
    } else {
      var n := |ops| - 1;
      RunInv(v, states[..n + 1], ops[..n]);
      assert Inv(v, states[..n + 1][n]);
      StepInv(v, states[n], ops[n], states[n + 1]);
      forall i | 0 <= i < |states| ensures Inv(v, states[i]) {
        assert i <= n ==> states[i] == states[..n + 1][i];
      }
    }
  }

  // ------------------------------------------------------------------------- over whole runs

  /**
   In every reachable state the table is a subsequence of the batches the Converts were given, one behind the
   other, all of it convertible and acceptable; and the total of loaded rows is the size of the table, modulo
   2^32, whatever was reset in between. A batch given to two Converts is there twice: a row may be loaded twice
   (see DirPathAgain).
   */
  lemma TableOfARun(v: Server, states: seq<Dp>, ops: seq<Op>)
    requires Run(v, states, ops)
    ensures var t := Last(states);
      && IsSubseq(t.o.table, Given(states, ops)) && |t.o.table| <= |Given(states, ops)|
      && All(v.convertible, t.o.ever) && IsSubseq(t.o.table, t.o.ever)
      && All(v.acceptable, t.o.table)
      && t.c.nbLoaded == |t.o.table| % U32
  {
    RunInv(v, states, ops);
    var t := Last(states);
    var gone :| TailBehind(t.o, gone);
    SubseqWiden(t.o.table, gone, t.o.rows[t.o.offset..]);
    EverIsGiven(v, states, ops);
    SubseqTrans(t.o.table, t.o.ever, Given(states, ops));
    SubseqLength(t.o.table, Given(states, ops));
  }

  lemma {:induction false} EverIsGiven(v: Server, states: seq<Dp>, ops: seq<Op>)
    requires Run(v, states, ops)
    ensures IsSubseq(Last(states).o.ever, Given(states, ops))
  {
    if ops != [] {
      var n := |ops| - 1;
      EverIsGiven(v, states[..n + 1], ops[..n]);
      assert Last(states[..n + 1]) == states[n];
      RunInv(v, states, ops);
      assert Step(v, states[n], ops[n], states[n + 1]);
      StepEver(v, states[n], ops[n], states[n + 1], Given(states[..n + 1], ops[..n]));
    }
  }

  lemma StepEver(v: Server, s: Dp, op: Op, t: Dp, given: seq<Row>)
    requires Inv(v, s) && Step(v, s, op, t) && IsSubseq(s.o.ever, given)
    ensures IsSubseq(t.o.ever, given + GivenTo(s, op))
  {
    if op == Convert && s.c.status == Prepared {
      var r :| ConvertStep(v, s, t, r);
      var m: nat :| ConvertedTo(v, s, t, r, m);
      EverGrows(v, s.o.ever, given, Batch(s), m);
    } else {
      assert given + [] == given;
      EverStays(v, s, op, t);
    }
  }

  lemma EverGrows(v: Server, ever: seq<Row>, given: seq<Row>, b: seq<Row>, m: nat)
    requires m <= |b| && IsSubseq(ever, given)
    ensures IsSubseq(ever + Filter(v.convertible, b[..m]), given + b)
  {
    SubseqAppend(v.convertible, ever, given, b[..m]);
    SubseqWiden(ever + Filter(v.convertible, b[..m]), given + b[..m], b[m..]);
    ConcatAssoc(given, b[..m], b[m..]);
    assert b[..m] + b[m..] == b;
  }

  lemma EverStays(v: Server, s: Dp, op: Op, t: Dp)
    requires Step(v, s, op, t) && !(op == Convert && s.c.status == Prepared)
    ensures t.o.ever == s.o.ever
  {
    if op == Load && s.c.status == Converted {
      var r :| LoadStep(v, s, t, r);
    }
  }

  /** A finished or aborted loader stays so: nothing it does reaches the table, the cells or the totals. */
  lemma TerminatedStep(v: Server, s: Dp, op: Op, t: Dp)
    requires s.c.status == Terminated && Step(v, s, op, t)
    ensures t.c.status == Terminated && t.o.table == s.o.table && t.o.ever == s.o.ever
    ensures t.rows == s.rows && t.c.nbLoaded == s.c.nbLoaded
  {
  }

  lemma {:induction false} TerminatedForever(v: Server, states: seq<Dp>, ops: seq<Op>, i: nat, j: nat)
    requires Run(v, states, ops) && i <= j < |states| && states[i].c.status == Terminated
    ensures states[j].c.status == Terminated && states[j].o.table == states[i].o.table
    ensures states[j].rows == states[i].rows && states[j].c.nbLoaded == states[i].c.nbLoaded
  {
    if i < j {
      var k: nat := j - 1;
      TerminatedForever(v, states, ops, i, k);
      assert Step(v, states[k], ops[k], states[k + 1]);
      TerminatedStep(v, states[k], ops[k], states[j]);
    }
  }

  /** Only a Convert leads to the converted state, and only a Load or nothing leads out of it. */
  lemma StatusStep(v: Server, s: Dp, op: Op, t: Dp)
    requires Inv(v, s) && Step(v, s, op, t)
    ensures t.c.status == Converted && s.c.status != Converted ==> op == Convert && s.c.status == Prepared
    ensures s.c.status == Converted ==> t.rows == s.rows
    ensures s.c.status == Converted && t.c.status != Converted ==>
      op == Load && t.c.status == Prepared && LoadStep(v, s, t, DprComplete)
    ensures t.o.table != s.o.table ==> op == Load && s.c.status == Converted
  {
    if op == Load && s.c.status == Converted {
      var r :| LoadStep(v, s, t, r);
      var calls :| LoadedBy(v, s, t, r, calls);
    } else if op == Convert && s.c.status == Prepared {
      var r :| ConvertStep(v, s, t, r);
      var m: nat :| ConvertedTo(v, s, t, r, m);
    }
  }

  /** From step `j + 1` to state `i` the loader was converted, and no cell changed since state `j`. */
  ghost predicate ConvertedSince(states: seq<Dp>, ops: seq<Op>, j: nat, i: nat)
    requires |states| == |ops| + 1
  {
    && j < i < |states| && ops[j] == Convert && states[j].c.status == Prepared
    && forall k :: j < k <= i ==> states[k].c.status == Converted && states[k].rows == states[j].rows
  }

  lemma {:induction false} ConvertedOnlyByConvert(v: Server, states: seq<Dp>, ops: seq<Op>, i: nat) returns (j: nat)
    requires Run(v, states, ops) && i < |states| && states[i].c.status == Converted
    ensures ConvertedSince(states, ops, j, i)
  {
    RunInv(v, states, ops);
    assert i > 0;
    var k: nat := i - 1;
    assert Step(v, states[k], ops[k], states[k + 1]);
    StatusStep(v, states[k], ops[k], states[i]);
    if states[k].c.status == Converted {
      j := ConvertedOnlyByConvert(v, states, ops, k);
      StillConverted(states, ops, j, k, i);
    } else {
      j := k;
      JustConverted(v, states, ops, k, i);
    }
  }

  lemma JustConverted(v: Server, states: seq<Dp>, ops: seq<Op>, k: nat, i: nat)
    requires |states| == |ops| + 1 && i == k + 1 < |states| && ops[k] == Convert && Step(v, states[k], Convert, states[i])
    requires states[k].c.status == Prepared && states[i].c.status == Converted
    ensures ConvertedSince(states, ops, k, i)
  {
    ConvertKeepsRows(v, states[k], states[i]);
  }

  lemma StillConverted(states: seq<Dp>, ops: seq<Op>, j: nat, k: nat, i: nat)
    requires |states| == |ops| + 1 && i == k + 1 < |states| && ConvertedSince(states, ops, j, k)
    requires states[i].c.status == Converted && states[i].rows == states[k].rows
    ensures ConvertedSince(states, ops, j, i)
  {
  }

  lemma ConvertKeepsRows(v: Server, s: Dp, t: Dp)
    requires Step(v, s, Convert, t)
    ensures t.rows == s.rows
  {
    var r :| ConvertStep(v, s, t, r);
    if s.c.status == Prepared {
      var m: nat :| ConvertedTo(v, s, t, r, m);
    }
  }

  /**
   Whatever reaches the server was converted before: in front of every operation that changes the table,
   which is a Load, there is a Convert, and no cell can have changed between the two.
   */
  lemma LoadedWasConverted(v: Server, states: seq<Dp>, ops: seq<Op>, i: nat) returns (j: nat)
    requires Run(v, states, ops) && i < |ops| && states[i + 1].o.table != states[i].o.table
    ensures ops[i] == Load && ConvertedSince(states, ops, j, i)
  {
    RunInv(v, states, ops);
    StatusStep(v, states[i], ops[i], states[i + 1]);
    j := ConvertedOnlyByConvert(v, states, ops, i);
  }

  // ---------------------------------------------------------------------- the error cursors

  /** Calls of GetErrorRow (true) and GetErrorColumn (false), in any order, and what they returned. */
  ghost predicate Reads(s: Dp, calls: seq<bool>, outs: seq<nat>, t: Dp)
    decreases |calls|
  {
    |calls| == |outs| &&
    if calls == [] then t == s else
      exists mid ::
        && Reads(s, calls[..|calls| - 1], outs[..|outs| - 1], mid)
        && if Last(calls) then ErrorRowStep(mid, t, Last(outs)) else ErrorColumnStep(mid, t, Last(outs))
  }

  /** What the calls of one of the two functions returned, in order. */
  function OutsOf(which: bool, calls: seq<bool>, outs: seq<nat>): seq<nat>
    requires |calls| == |outs|
  {
    if calls == [] then [] else
      OutsOf(which, calls[..|calls| - 1], outs[..|outs| - 1]) + if Last(calls) == which then [Last(outs)] else []
  }

  /** The number the k-th call reports: recorded error `first + k`, counted from 1, or 0 behind the last. */
  function Reported(errs: seq<(nat, nat)>, which: bool, k: nat): nat {
    if k >= |errs| then 0 else Add32(if which then errs[k].0 else errs[k].1, 1)
  }

  /** `outs` are the numbers reported from error `from` on, and `idx` is where the cursor is behind them. */
  ghost predicate Drained(errs: seq<(nat, nat)>, which: bool, from: nat, outs: seq<nat>, idx: nat) {
    && idx == Min(|errs|, from + |outs|)
    && forall k :: 0 <= k < |outs| ==> outs[k] == Reported(errs, which, from + k)
  }

  lemma DrainOne(errs: seq<(nat, nat)>, which: bool, from: nat, outs: seq<nat>, idx: nat, out: nat, next: nat)
    requires from <= |errs| && Drained(errs, which, from, outs, idx)
    requires out == Reported(errs, which, idx) && next == if idx < |errs| then idx + 1 else idx
    ensures Drained(errs, which, from, outs + [out], next)
  {
  }

  /**
   However the calls are interleaved, each of the two functions returns its own numbers of the
   recorded errors, one after the other from where it was, and from then on 0.
   */
  lemma {:induction false} CursorsIndependent(s: Dp, calls: seq<bool>, outs: seq<nat>, t: Dp)
    requires Shape(s) && Reads(s, calls, outs, t)
    ensures t == s.(c := s.c.(idxRow := t.c.idxRow, idxCol := t.c.idxCol))
    ensures Drained(s.errs, true, s.c.idxRow, OutsOf(true, calls, outs), t.c.idxRow)
    ensures Drained(s.errs, false, s.c.idxCol, OutsOf(false, calls, outs), t.c.idxCol)
    decreases |calls|
  {
    if calls != [] {
      var n := |calls| - 1;
      var mid :|
        && Reads(s, calls[..n], outs[..n], mid)
        && if Last(calls) then ErrorRowStep(mid, t, Last(outs)) else ErrorColumnStep(mid, t, Last(outs));
      CursorsIndependent(s, calls[..n], outs[..n], mid);
      var rows, cols := OutsOf(true, calls[..n], outs[..n]), OutsOf(false, calls[..n], outs[..n]);
      if Last(calls) {
        DrainOne(s.errs, true, s.c.idxRow, rows, mid.c.idxRow, Last(outs), t.c.idxRow);
        assert OutsOf(false, calls, outs) == cols;
      } else {
        DrainOne(s.errs, false, s.c.idxCol, cols, mid.c.idxCol, Last(outs), t.c.idxCol);
        assert OutsOf(true, calls, outs) == rows;
      }
    }
  }
}
