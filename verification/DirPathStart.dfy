/** What a new loader is: which mode it is in, and what the first Convert of a program does. */
module DirPathStart {
  import opened Seqs
  import opened DirPathSpec
  import opened DirPathDefault
  import opened DirPathRuns

  /** The operations prepare the loader. */
  predicate Prepares(ops: seq<Op>) {
    exists i :: 0 <= i < |ops| && ops[i].Prepare?
  }

  /** The mode asked for last before the loader was prepared; DEFAULT (false) when none was. */
  function ModeAsked(ops: seq<Op>): bool {
    if ops == [] then false else
      var n := |ops| - 1;
      if ops[n].SetConvertMode? && !Prepares(ops[..n]) then ops[n].force else ModeAsked(ops[..n])
  }

  /** In every run, the mode is the one asked for last before the first Prepare. */
  lemma {:induction false} ModeOfRun(v: Server, states: seq<Dp>, ops: seq<Op>)
    requires Run(v, states, ops)
    ensures Last(states).c.force == ModeAsked(ops)
    ensures Last(states).c.status == NotPrepared <==> !Prepares(ops)
  {
    if ops != [] {
      var n := |ops| - 1;
      RunFront(v, states, ops, n);
      ModeOfRun(v, states[..n + 1], ops[..n]);
      ModeStep(v, states[n], ops[n], states[n + 1]);
      PreparesLast(ops, n);
    }
  }

  lemma RunFront(v: Server, states: seq<Dp>, ops: seq<Op>, n: nat)
    requires Run(v, states, ops) && n + 1 == |ops|
    ensures Run(v, states[..n + 1], ops[..n]) && Last(states[..n + 1]) == states[n]
    ensures Step(v, states[n], ops[n], states[n + 1]) && Last(states) == states[n + 1]
  {
    assert Step(v, states[n], ops[n], states[n + 1]);
  }

  lemma PreparesLast(ops: seq<Op>, n: nat)
    requires n + 1 == |ops|
    ensures Prepares(ops) <==> Prepares(ops[..n]) || ops[n].Prepare?
  {
    if Prepares(ops[..n]) {
      var i :| 0 <= i < n && ops[..n][i].Prepare?;
      assert ops[i].Prepare?;
    }
    if Prepares(ops) {
      var i :| 0 <= i < |ops| && ops[i].Prepare?;
      assert i < n ==> ops[..n][i].Prepare?;
    }
  }

  lemma ModeStep(v: Server, s: Dp, op: Op, t: Dp)
    requires Step(v, s, op, t)
    ensures t.c.force == if op.SetConvertMode? && s.c.status == NotPrepared then op.force else s.c.force
    ensures t.c.status == NotPrepared <==> s.c.status == NotPrepared && !op.Prepare?
  {
    if op == Convert && s.c.status == Prepared {
      var r :| ConvertStep(v, s, t, r);
      var m: nat :| ConvertedTo(v, s, t, r, m);
    } else if op == Load && s.c.status == Converted {
      var r :| LoadStep(v, s, t, r);
      var calls :| LoadedBy(v, s, t, r, calls);
    }
  }

  /** A program that never asks for a mode converts in DEFAULT mode throughout. */
  lemma {:induction false} DefaultUnlessAsked(v: Server, states: seq<Dp>, ops: seq<Op>)
    requires Run(v, states, ops) && forall i :: 0 <= i < |ops| ==> !ops[i].SetConvertMode?
    ensures forall i :: 0 <= i < |states| ==> !states[i].c.force
  {
    forall i | 0 <= i < |states|
      ensures !states[i].c.force
    {
      ModeOfRun(v, states[..i + 1], ops[..i]);
      NothingAsked(ops[..i]);
      assert Last(states[..i + 1]) == states[i];
    }
  }

  lemma {:induction false} NothingAsked(ops: seq<Op>)
    requires forall i :: 0 <= i < |ops| ==> !ops[i].SetConvertMode?
    ensures !ModeAsked(ops)
  {
    if ops != [] {
      NothingAsked(ops[..|ops| - 1]);
    }
  }

  /** A Prepare, then only cells are set. */
  ghost predicate SetsUp(ops: seq<Op>) {
    ops != [] && ops[0].Prepare? && forall i :: 1 <= i < |ops| ==> ops[i].SetEntry?
  }

  /** The loader is prepared for `n` rows, and nothing was converted, recorded or loaded. */
  ghost predicate Untouched(s: Dp, n: nat) {
    && s.c.status == Prepared && !s.c.force && s.c.nbRows == s.c.nbCur == |s.rows| == n % 0x1_0000
    && s.c.nbConverted == s.c.nbProcessed == s.c.nbLoaded == 0 && s.c.idxRow == s.c.idxCol == 0
    && s.c.resConv == DprEmpty && s.errs == [] && s.o == Stream([], 0, [], [])
  }

  lemma {:induction false} SetUp(v: Server, states: seq<Dp>, ops: seq<Op>)
    requires Run(v, states, ops) && SetsUp(ops)
    ensures Untouched(Last(states), ops[0].n)
  {
    var k := |ops| - 1;
    assert Step(v, states[k], ops[k], states[k + 1]);
    if k > 0 {
      SetUp(v, states[..k + 1], ops[..k]);
      assert Last(states[..k + 1]) == states[k] && ops[..k][0] == ops[0];
    }
  }

  /**
   The first Convert of a program that prepared a loader and set cells, and did not ask for a mode. It consumes
   rows up to the first bad one, `k`, unless the stream is full or a partial column comes before it: they are in
   the stream, in order, and counted. On the bad row it stops with ERROR, and records it and nothing else.
   */
  lemma FirstConvert(v: Server, states: seq<Dp>, ops: seq<Op>, k: nat)
    requires Run(v, states, ops) && ops != [] && Last(ops) == Convert && SetsUp(ops[..|ops| - 1])
    requires k < ops[0].n % 0x1_0000
    requires k < |states[|ops| - 1].rows| ==> !v.convertible(states[|ops| - 1].rows[k])
    requires k <= |states[|ops| - 1].rows| ==> All(v.convertible, states[|ops| - 1].rows[..k])
    ensures var rows, t := states[|ops| - 1].rows, Last(states);
      var m := |t.o.rows|;
      && |rows| == ops[0].n % 0x1_0000 && m <= k && t.o.rows == rows[..m]
      && t.c.nbConverted == t.c.nbProcessed == m && t.o.table == []
      && match t.c.resConv
         case DprError => m == k && t.errs == [(k, v.badColumn(rows[k]))] && t.c.status == Prepared
         case DprFull => 0 < m && t.errs == [] && t.c.status == Converted
         case DprPartial => HasPartial(rows[m]) && t.errs == [] && t.c.status == Prepared
         case _ => false
  {
    var n := |ops| - 1;
    assert Step(v, states[n], ops[n], states[n + 1]) && ops[n] == Convert;
    SetUpFront(v, states, ops, n);
    var r :| ConvertStep(v, states[n], states[n + 1], r);
    StopsAtFirst(v, states[n], states[n + 1], r, k);
  }

  lemma SetUpFront(v: Server, states: seq<Dp>, ops: seq<Op>, n: nat)
    requires Run(v, states, ops) && n + 1 == |ops| && SetsUp(ops[..n])
    ensures Untouched(states[n], ops[0].n)
  {
    SetUp(v, states[..n + 1], ops[..n]);
    assert Last(states[..n + 1]) == states[n] && ops[..n][0] == ops[0];
  }

  lemma StopsAtFirst(v: Server, s: Dp, t: Dp, r: Res, k: nat)
    requires Untouched(s, |s.rows|) && ConvertStep(v, s, t, r) && k < |s.rows|
    requires !v.convertible(s.rows[k]) && All(v.convertible, s.rows[..k])
    ensures var m := |t.o.rows|;
      && m <= k && t.o.rows == s.rows[..m] && t.c.nbConverted == t.c.nbProcessed == m && t.o.table == [] && r == t.c.resConv
      && match r
         case DprError => m == k && t.errs == [(k, v.badColumn(s.rows[k]))] && t.c.status == Prepared
         case DprFull => 0 < m && t.errs == [] && t.c.status == Converted
         case DprPartial => HasPartial(s.rows[m]) && t.errs == [] && t.c.status == Prepared
         case _ => false
  {
    var m := DefaultConvert(v, s, t, r);
    assert s.rows[0..m] == s.rows[..m];
    NotAmong(v, s.rows, m, k);
    if r == DprError {
      NotAmong(v, s.rows, k, m);
    }
  }

  /** A row that does not convert is not among rows that all do. */
  lemma NotAmong(v: Server, rows: seq<Row>, n: nat, i: nat)
    requires n <= |rows| && i < |rows| && All(v.convertible, rows[..n]) && !v.convertible(rows[i])
    ensures n <= i
  {
    var front := rows[..n];
    assert forall j :: 0 <= j < n ==> front[j] == rows[j];
  }
}
