/**
 A Convert is one pass of the column array into the stream, or, in FORCE mode, several: each pass
 restarts on the row after the one that stopped the previous pass. The lemmas here add passes up.
 */
module DirPathPasses {
  import opened Words
  import opened Seqs
  import opened DirPathSpec

  /** Why a pass over the rows from `from` on stopped with `r` behind `q` converted rows. */
  ghost predicate PassEnds(v: Server, s: Dp, stream: seq<Row>, from: nat, r: Res, q: nat)
    requires s.c.nbCur <= |s.rows|
  {
    var b := RowsFrom(s, from);
    && q <= |b| && All(v.convertible, b[..q])
    && match r
       case DprComplete => q == |b|
       case DprFull => q < |b| && stream != []
       case DprError => q < |b| && !v.convertible(b[q])
       case DprPartial => q < |b| && HasPartial(b[q])
       case DprEmpty => false
  }

  /** The state behind a pass that converted `run`, but for the error it may have stopped at. */
  function PassResult(s: Dp, r: Res, run: seq<Row>): Dp {
    s.(c := s.c.(status := if r == DprComplete || r == DprFull then Converted else Prepared,
                 nbConverted := Add32(s.c.nbConverted, |run|)),
       o := s.o.(rows := s.o.rows + run, ever := s.o.ever + run))
  }

  /** The error a pass from row `from` on stopped at. */
  function PassError(v: Server, s: Dp, from: nat, r: Res, q: nat): (e: seq<(nat, nat)>)
    requires s.c.nbCur <= |s.rows| && (r == DprError ==> q < |RowsFrom(s, from)|)
  {
    if r == DprError then [(from + q, v.badColumn(RowsFrom(s, from)[q]))] else []
  }

  /** A pass: the state it started in, how it ended, and how many rows it converted. */
  datatype Pass = Pass(before: Dp, res: Res, q: nat)

  function PassedState(v: Server, s: Dp, from: nat, r: Res, q: nat): Dp
    requires s.c.nbCur <= |s.rows| && q <= |RowsFrom(s, from)| && (r == DprError ==> q < |RowsFrom(s, from)|)
  {
    PassResult(s, r, RowsFrom(s, from)[..q]).(errs := s.errs + PassError(v, s, from, r, q))
  }

  /** The pass went over the rows from `from` on and left the loader in state `t`. */
  ghost predicate Passed(v: Server, p: Pass, t: Dp, from: nat) {
    && Shape(p.before) && p.before.c.status == Prepared
    && PassEnds(v, p.before, t.o.rows, from, p.res, p.q)
    && t == WithResConv(PassedState(v, p.before, from, p.res, p.q), p.res)
  }

  /** The state in which the first pass of a Convert starts. */
  function Started(s: Dp): Dp {
    s.(c := s.c.(nbProcessed := 0, resConv := DprError), o := BaseStream(s))
  }

  function Reported(s: Dp): Dp {
    s.(c := s.c.(nbProcessed := s.c.nbConverted))
  }

  /** Until a Convert returns, it reports no processed rows. */
  function Unreported(s: Dp): Dp {
    s.(c := s.c.(nbProcessed := 0))
  }

  function WithResConv(s: Dp, r: Res): Dp {
    s.(c := s.c.(resConv := r))
  }

  /** The passes so far consumed `m` rows of the batch of `s`, and the last one ended with `r`. */
  ghost predicate Converting(v: Server, s: Dp, t: Dp, r: Res, m: nat) {
    && Shape(s) && s.c.status == Prepared
    && ConvertEnds(v, s, t.o.rows, r, m) && Guarded(v, s, m)
    && t == Unreported(Behind(s, r, Good(v, s, m), NewErrors(v, s, r, m)))
  }

  lemma FirstPass(v: Server, s: Dp, p: Pass, t: Dp, from: nat)
    requires Shape(s) && p.before == Started(s) && from == ResumeRow(s) && Passed(v, p, t, from)
    ensures Converting(v, s, t, t.c.resConv, p.q)
  {
    var b := Batch(s);
    FilterAll(v.convertible, b[..p.q]);
    assert NewErrors(v, s, p.res, p.q) == PassError(v, Started(s), ResumeRow(s), p.res, p.q);
  }

  /** Two results add up. */
  lemma PassBehind(s: Dp, good: seq<Row>, errors: seq<(nat, nat)>, t: Dp, r: Res, run: seq<Row>, more: seq<(nat, nat)>)
    requires t == Unreported(Behind(s, DprError, good, errors))
    ensures WithResConv(PassResult(t, r, run).(errs := t.errs + more), r)
         == Unreported(Behind(s, r, good + run, errors + more))
  {
    Add32Assoc(s.c.nbConverted, |good|, |run|);
    ConcatAssoc(s.errs, errors, more);
    ConcatAssoc(BaseStream(s).rows, good, run);
    ConcatAssoc(s.o.ever, good, run);
  }

  /** A row that does not convert, then a run that does, behind `m` consumed rows. */
  lemma FaultsExtend(v: Server, b: seq<Row>, from: nat, m: nat, run: seq<Row>)
    requires m < |b| && run <= b[m + 1..]
    requires !v.convertible(b[m]) && All(v.convertible, run)
    ensures Filter(v.convertible, b[..m + 1 + |run|]) == Filter(v.convertible, b[..m]) + run
    ensures Faults(v, b[..m + 1 + |run|], from) == Faults(v, b[..m], from) + [(from + m, v.badColumn(b[m]))]
  {
    var head := b[..m] + [b[m]];
    var whole := b[..m + 1 + |run|];
    assert whole == head + run;
    FilterAll(v.convertible, run);
    FilterConcat(v.convertible, head, run);
    MissesConcat(v.convertible, head, run);
    assert head[..m] == b[..m];
    assert Misses(v.convertible, whole) == Misses(v.convertible, b[..m]) + [m];
    var f := Faults(v, b[..m], from) + [(from + m, v.badColumn(b[m]))];
    forall i | 0 <= i < |f|
      ensures Faults(v, whole, from)[i] == f[i]
    {
    }
  }

  lemma PassAddsUp(v: Server, s: Dp, m: nat, r: Res, q: nat)
    requires s.c.nbCur <= |s.rows| && m + 1 + q <= |Batch(s)|
    requires !v.convertible(Batch(s)[m]) && All(v.convertible, Batch(s)[m + 1..][..q])
    requires r == DprError ==> m + 1 + q < |Batch(s)|
    ensures Good(v, s, m + 1 + q) == Good(v, s, m) + Batch(s)[m + 1..][..q]
    ensures NewErrors(v, s, r, m + 1 + q) == NewErrors(v, s, DprError, m) + StopError(v, s, r, m + 1 + q)
  {
    FaultsExtend(v, Batch(s), ResumeRow(s), m, Batch(s)[m + 1..][..q]);
  }

  /** Every fault in front of the next pass was recorded, under the guard. */
  lemma NextGuarded(v: Server, s: Dp, m: nat, q: nat)
    requires s.c.nbCur <= |s.rows| && m + 1 + q <= |Batch(s)|
    requires !v.convertible(Batch(s)[m]) && All(v.convertible, Batch(s)[m + 1..][..q])
    requires |s.errs + NewErrors(v, s, DprError, m)| <= s.c.nbCur
    ensures Guarded(v, s, m + 1 + q)
  {
    FaultsExtend(v, Batch(s), ResumeRow(s), m, Batch(s)[m + 1..][..q]);
  }

  /** FORCE mode: a pass that restarts behind the row that stopped the previous one adds up. */
  lemma NextPass(v: Server, s: Dp, m: nat, p: Pass, t: Dp, from: nat)
    requires s.c.force && Converting(v, s, p.before, DprError, m)
    requires from == ResumeRow(s) + m + 1 && Passed(v, p, t, from) && |p.before.errs| <= s.c.nbCur
    ensures Converting(v, s, t, t.c.resConv, m + 1 + p.q)
  {
    NextKept(v, s, m, p, t, from);
    NextEnds(v, s, m, p, t, from);
    NextState(v, s, m, p, t, from);
  }

  lemma NextKept(v: Server, s: Dp, m: nat, p: Pass, t: Dp, from: nat)
    requires s.c.force && Converting(v, s, p.before, DprError, m)
    requires from == ResumeRow(s) + m + 1 && Passed(v, p, t, from) && |p.before.errs| <= s.c.nbCur
    ensures m + 1 + p.q <= |Batch(s)| && Guarded(v, s, m + 1 + p.q)
  {
    RowsFromRest(s, p.before, m);
    NextGuarded(v, s, m, p.q);
  }

  lemma NextState(v: Server, s: Dp, m: nat, p: Pass, t: Dp, from: nat)
    requires s.c.force && Converting(v, s, p.before, DprError, m)
    requires from == ResumeRow(s) + m + 1 && Passed(v, p, t, from)
    ensures m + 1 + p.q <= |Batch(s)| && (p.res == DprError ==> m + 1 + p.q < |Batch(s)|)
    ensures t == Unreported(Behind(s, p.res, Good(v, s, m + 1 + p.q), NewErrors(v, s, p.res, m + 1 + p.q)))
  {
    var run, more := RestPassed(v, s, m, p, t, from);
    var good, errors := Good(v, s, m), NewErrors(v, s, DprError, m);
    PassBehind(s, good, errors, p.before, p.res, run, more);
    PassAddsUp(v, s, m, p.res, p.q);
    assert good + run == Good(v, s, m + 1 + p.q) && errors + more == NewErrors(v, s, p.res, m + 1 + p.q);
  }

  /** What the pass converted and recorded, as rows of the batch. */
  lemma RestPassed(v: Server, s: Dp, m: nat, p: Pass, t: Dp, from: nat) returns (run: seq<Row>, more: seq<(nat, nat)>)
    requires s.c.force && Converting(v, s, p.before, DprError, m)
    requires from == ResumeRow(s) + m + 1 && Passed(v, p, t, from)
    ensures m + 1 + p.q <= |Batch(s)| && (p.res == DprError ==> m + 1 + p.q < |Batch(s)|)
    ensures !v.convertible(Batch(s)[m]) && All(v.convertible, Batch(s)[m + 1..][..p.q])
    ensures run == Batch(s)[m + 1..][..p.q] && more == StopError(v, s, p.res, m + 1 + p.q)
    ensures t == WithResConv(PassResult(p.before, p.res, run).(errs := p.before.errs + more), p.res)
    ensures p.before == Unreported(Behind(s, DprError, Good(v, s, m), NewErrors(v, s, DprError, m)))
  {
    RowsFromRest(s, p.before, m);
    run, more := Batch(s)[m + 1..][..p.q], StopError(v, s, p.res, m + 1 + p.q);
  }

  lemma NextEnds(v: Server, s: Dp, m: nat, p: Pass, t: Dp, from: nat)
    requires s.c.force && Converting(v, s, p.before, DprError, m)
    requires from == ResumeRow(s) + m + 1 && Passed(v, p, t, from)
    ensures ConvertEnds(v, s, t.o.rows, p.res, m + 1 + p.q) && t.c.resConv == p.res
  {
    RowsFromRest(s, p.before, m);
  }

  lemma RowsFromRest(s: Dp, t: Dp, m: nat)
    requires Shape(s) && s.c.status != NotPrepared && m < |Batch(s)|
    requires t.rows == s.rows && t.c.nbCur == s.c.nbCur
    ensures RowsFrom(t, ResumeRow(s) + m + 1) == Batch(s)[m + 1..]
  {
  }

  /** The passes so far went through the rows before `next`. */
  ghost predicate InProgress(v: Server, s: Dp, next: nat, t: Dp) {
    exists m: nat :: Converting(v, s, t, t.c.resConv, m) && next == ResumeRow(s) + m + 1
  }

  /** The Convert that started in `s` got to `t`, and its next pass would start on row `next`. */
  ghost predicate Reaches(v: Server, s: Dp, next: nat, t: Dp) {
    (t == Started(s) && next == ResumeRow(s)) || InProgress(v, s, next, t)
  }

  /** The guard of the loop of a FORCE Convert. */
  predicate GoesOn(t: Dp) {
    t.c.force && t.c.resConv == DprError && |t.errs| <= t.c.nbCur
  }

  /** One more pass, behind an error unless it is the first. */
  lemma OnePassMore(v: Server, s: Dp, next: nat, p: Pass, t: Dp)
    requires Shape(s) && s.c.status == Prepared
    requires Reaches(v, s, next, p.before) && Passed(v, p, t, next)
    requires next != ResumeRow(s) ==> GoesOn(p.before)
    ensures InProgress(v, s, next + p.q + 1, t)
  {
    if next == ResumeRow(s) {
      FirstPass(v, s, p, t, next);
    } else {
      var m: nat :| Converting(v, s, p.before, p.before.c.resConv, m) && next == ResumeRow(s) + m + 1;
      NextPass(v, s, m, p, t, next);
    }
  }

  /** With room for the errors of the whole batch there is room for the error of the next pass. */
  lemma PassReady(v: Server, s: Dp, next: nat, t: Dp)
    requires Shape(s) && s.c.status == Prepared && ConvertRoom(v, s)
    requires Reaches(v, s, next, t) && (next != ResumeRow(s) ==> GoesOn(t))
    ensures t.c.status == Prepared && t.c.nbRows == s.c.nbRows && t.c.nbCur <= |t.rows|
    ensures All(v.convertible, RowsFrom(t, next)) || |t.errs| < s.c.nbRows
  {
    if next != ResumeRow(s) {
      var m: nat :| Converting(v, s, t, t.c.resConv, m) && next == ResumeRow(s) + m + 1;
      ErrorBehind(v, s, t, m);
    } else {
      FirstPassReady(v, s);
    }
  }

  lemma FirstPassReady(v: Server, s: Dp)
    requires Shape(s) && s.c.status == Prepared && ConvertRoom(v, s)
    ensures RowsFrom(Started(s), ResumeRow(s)) == Batch(s)
    ensures All(v.convertible, Batch(s)) || |s.errs| < s.c.nbRows
  {
    AllIffNoMisses(v.convertible, Batch(s));
  }

  /** Behind an error in FORCE mode, the last recorded error is the row in front of the next pass. */
  lemma LastError(v: Server, s: Dp, next: nat, t: Dp)
    requires Shape(s) && s.c.status == Prepared && ConvertRoom(v, s)
    requires InProgress(v, s, next, t) && t.c.force && t.c.resConv == DprError
    ensures t.errs != [] && Last(t.errs).0 + 1 == next && next <= |s.rows| && next > ResumeRow(s)
  {
    var m: nat :| Converting(v, s, t, t.c.resConv, m) && next == ResumeRow(s) + m + 1;
    ErrorBehind(v, s, t, m);
  }

  lemma ErrorBehind(v: Server, s: Dp, t: Dp, m: nat)
    requires ConvertRoom(v, s) && s.c.force && Converting(v, s, t, DprError, m)
    ensures t.errs != [] && Last(t.errs).0 == ResumeRow(s) + m && ResumeRow(s) + m < |s.rows|
    ensures GoesOn(t) ==> All(v.convertible, RowsFrom(t, ResumeRow(s) + m + 1)) || |t.errs| < s.c.nbRows
  {
    var b := Batch(s);
    assert b == b[..m] + [b[m]] + b[m + 1..];
    MissesConcat(v.convertible, b[..m] + [b[m]], b[m + 1..]);
    FilterSnoc(v.convertible, b[..m], b[m]);
    AllIffNoMisses(v.convertible, b[m + 1..]);
    RowsFromRest(s, t, m);
    assert Last(NewErrors(v, s, DprError, m)) == StopError(v, s, DprError, m)[0];
  }

  /** A Convert stops on success, on a full stream or a partial column, or on an error it may not pass. */
  lemma FinishConvert(v: Server, s: Dp, next: nat, t: Dp)
    requires Shape(s) && s.c.status == Prepared && InProgress(v, s, next, t)
    requires t.c.resConv == DprError && t.c.force ==> |t.errs| > t.c.nbCur
    ensures ConvertStep(v, s, Reported(t), t.c.resConv)
  {
    var m: nat :| Converting(v, s, t, t.c.resConv, m) && next == ResumeRow(s) + m + 1;
    assert ConvertedTo(v, s, Reported(t), t.c.resConv, m);
  }
}
