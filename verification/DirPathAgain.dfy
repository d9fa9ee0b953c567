/**
 Several Converts into one stream: when a row that is already there is put into it again. Only recorded errors
 tell a Convert where to start, so behind one that ended on a partial column nothing resumes.
 */
module DirPathAgain {
  import opened Words
  import opened Seqs
  import opened DirPathSpec
  import opened DirPathTheorems
  import opened DirPathRuns

  /** The rows from `from` on, and before `to`. */
  function Between(rows: seq<Row>, from: nat, to: nat): seq<Row> {
    if from <= to <= |rows| then rows[from..to] else []
  }

  /**
   With the first `next` rows consumed before, the rows that a Convert of `m` rows puts into the stream again:
   the convertible ones from its first row on that were consumed.
   */
  function Again(v: Server, s: Dp, next: nat, m: nat): seq<Row> {
    Filter(v.convertible, Between(s.rows, ResumeRow(s), Min(next, ResumeRow(s) + m)))
  }

  /** A Convert puts the convertible ones of the rows it consumed into the stream. */
  lemma ConvertAdds(v: Server, s: Dp, t: Dp, r: Res, m: nat, f: nat)
    requires ConvertedTo(v, s, t, r, m) && f == ResumeRow(s)
    ensures t.rows == s.rows && (m > 0 ==> f + m <= |s.rows|)
    ensures t.o.rows == BaseStream(s).rows + Filter(v.convertible, Between(s.rows, f, f + m))
  {
    if m > 0 {
      assert Batch(s)[..m] == s.rows[f..f + m];
    } else {
      assert Batch(s)[..m] == [] == Between(s.rows, f, f);
    }
  }

  /** The stream gets rows it had not seen, `more`, behind those it gets again. */
  lemma OneConvert(v: Server, s: Dp, t: Dp, r: Res, m: nat, next: nat, f: nat, reached: nat) returns (more: seq<Row>)
    requires ConvertedTo(v, s, t, r, m) && f == ResumeRow(s) <= next <= |s.rows| && reached == Max(next, f + m)
    ensures reached <= |s.rows| && t.rows == s.rows && more == Filter(v.convertible, Between(s.rows, next, reached))
    ensures t.o.rows == BaseStream(s).rows + Again(v, s, next, m) + more
    ensures Filter(v.convertible, Between(s.rows, 0, reached)) == Filter(v.convertible, Between(s.rows, 0, next)) + more
  {
    ConvertAdds(v, s, t, r, m, f);
    var again;
    again, more := RowsSplit(v.convertible, s.rows, f, m, next, reached);
    ConcatAssoc(BaseStream(s).rows, again, more);
  }

  lemma RowsSplit(p: Row -> bool, rows: seq<Row>, f: nat, m: nat, next: nat, reached: nat) returns (again: seq<Row>, more: seq<Row>)
    requires f <= next <= |rows| && (m > 0 ==> f + m <= |rows|) && reached == Max(next, f + m)
    ensures reached <= |rows| && again == Filter(p, Between(rows, f, Min(next, f + m))) && more == Filter(p, Between(rows, next, reached))
    ensures Filter(p, Between(rows, f, f + m)) == again + more
    ensures Filter(p, Between(rows, 0, reached)) == Filter(p, Between(rows, 0, next)) + more
  {
    again, more := Filter(p, Between(rows, f, Min(next, f + m))), Filter(p, Between(rows, next, reached));
    assert Between(rows, 0, reached) == Between(rows, 0, next) + Between(rows, next, reached);
    FilterConcat(p, Between(rows, 0, next), Between(rows, next, reached));
    assert m > 0 ==> Between(rows, f, f + m) == Between(rows, f, Min(next, f + m)) + Between(rows, next, reached);
    FilterConcat(p, Between(rows, f, Min(next, f + m)), Between(rows, next, reached));
  }

  /** What a program does between two Converts: it reads errors, and sets cells of rows behind the first `next`. */
  ghost predicate Touched(t: Dp, u: Dp, next: nat) {
    && u == t.(rows := u.rows, c := t.c.(idxRow := u.c.idxRow, idxCol := u.c.idxCol))
    && next <= |t.rows| == |u.rows| && u.rows[..next] == t.rows[..next]
  }

  /** That is every call that sets an entry of such a row or asks for an error, and any number of them. */
  lemma StepTouches(v: Server, s: Dp, op: Op, t: Dp, next: nat)
    requires Step(v, s, op, t) && next <= |s.rows|
    requires (op.SetEntry? && next < op.row) || op.GetErrorRow? || op.GetErrorColumn?
    ensures Touched(s, t, next)
    ensures forall u :: Touched(t, u, next) ==> Touched(s, u, next)
  {
  }

  /** Where the next Convert starts: FORCE mode starts over, DEFAULT mode goes on at a bad row only. */
  lemma NextStart(v: Server, s: Dp, t: Dp, r: Res, m: nat, u: Dp, next: nat)
    requires ConvertedTo(v, s, t, r, m) && Touched(t, u, next) && u.c.status == Prepared
    ensures r == DprPartial || r == DprError
    ensures BaseStream(u) == u.o == t.o
    ensures ResumeRow(u) == if s.c.force then 0 else if r == DprError then ResumeRow(s) + m else ResumeRow(s)
  {
    AllIffNoMisses(v.convertible, Batch(s)[..m]);
  }

  // -------------------------------------------------------------------------- runs of Converts

  /** How many of the first rows were consumed by Converts of `ms` rows each, begun in `states`. */
  function Reached(states: seq<Dp>, ms: seq<nat>): nat
    requires |ms| <= |states|
  {
    if ms == [] then 0 else
      var n := |ms| - 1;
      Max(Reached(states, ms[..n]), ResumeRow(states[n]) + ms[n])
  }

  /** A Convert that consumed `m` rows, and what the program did behind it. */
  ghost predicate ConvertedAndTouched(v: Server, s: Dp, m: nat, u: Dp, next: nat) {
    exists t, r :: ConvertedTo(v, s, t, r, m) && Touched(t, u, next)
  }

  /** Converts into a stream that was empty, from the first row on. */
  ghost predicate Converts(v: Server, states: seq<Dp>, ms: seq<nat>) {
    && |states| == |ms| + 1 && BaseStream(states[0]).rows == [] && ResumeRow(states[0]) == 0
    && forall i :: 0 <= i < |ms| ==> ConvertedAndTouched(v, states[i], ms[i], states[i + 1], Reached(states, ms[..i + 1]))
  }

  /** What the stream holds in front of the next Convert, or behind the last one. */
  function Holding(s: Dp, n: nat): seq<Row> {
    if n == 0 then BaseStream(s).rows else s.o.rows
  }

  /** How many rows were put into the stream again. */
  function AgainCount(v: Server, states: seq<Dp>, ms: seq<nat>): nat
    requires |ms| <= |states|
  {
    if ms == [] then 0 else
      var n := |ms| - 1;
      AgainCount(v, states, ms[..n]) + |Again(v, states[n], Reached(states, ms[..n]), ms[n])|
  }

  /** Nothing is lost or made up: the stream holds the consumed convertible rows, and those put into it again. */
  ghost predicate Counted(v: Server, z: Dp, held: seq<Row>, next: nat, again: nat) {
    next <= |z.rows| && exists good :: good == Filter(v.convertible, Between(z.rows, 0, next)) && Adds(good, again, held)
  }

  predicate Adds(good: seq<Row>, again: nat, held: seq<Row>) {
    |held| == |good| + again && (again == 0 ==> held == good)
  }

  lemma CountedBy(v: Server, z: Dp, held: seq<Row>, next: nat, again: nat, good: seq<Row>)
    requires next <= |z.rows| && good == Filter(v.convertible, Between(z.rows, 0, next)) && Adds(good, again, held)
    ensures Counted(v, z, held, next, again)
  {
  }

  /** Where a run of Converts got to: what the stream holds, and where the next Convert would start. */
  ghost predicate GotTo(v: Server, z: Dp, n: nat, next: nat, again: nat) {
    && Counted(v, z, Holding(z, n), next, again)
    && (n == 0 || z.c.status == Prepared ==> ResumeRow(z) <= next && Holding(z, n) == BaseStream(z).rows)
  }

  ghost predicate Followed(v: Server, states: seq<Dp>, ms: seq<nat>)
    requires |ms| < |states|
  {
    exists next, again :: next == Reached(states, ms) && again == AgainCount(v, states, ms) && GotTo(v, states[|ms|], |ms|, next, again)
  }

  lemma {:induction false} StreamOfConverts(v: Server, states: seq<Dp>, ms: seq<nat>)
    requires Converts(v, states, ms)
    ensures Followed(v, states, ms)
    decreases |ms|
  {
    if ms == [] {
      NothingYet(v, states[0]);
      assert GotTo(v, states[0], 0, 0, 0);
    } else {
      var n := |ms| - 1;
      PrefixConverts(v, states, ms);
      StreamOfConverts(v, states[..n + 1], ms[..n]);
      SameReached(v, states[..n + 1], states, ms[..n]);
      FollowedOn(v, states, ms, n);
    }
  }

  lemma FollowedOn(v: Server, states: seq<Dp>, ms: seq<nat>, n: nat)
    requires Converts(v, states, ms) && n + 1 == |ms| && Followed(v, states, ms[..n])
    ensures Followed(v, states, ms)
  {
    var next, again :| next == Reached(states, ms[..n]) && again == AgainCount(v, states, ms[..n]) && GotTo(v, states[n], n, next, again);
    var reached, all := OneMore(v, states, ms, n, next, again);
    StreamOneMore(v, states[n], ms[n], states[n + 1], n, next, again, reached, all);
  }

  lemma NothingYet(v: Server, s: Dp)
    requires BaseStream(s).rows == [] && ResumeRow(s) == 0
    ensures GotTo(v, s, 0, 0, 0)
  {
    assert Between(s.rows, 0, 0) == [];
    CountedBy(v, s, [], 0, 0, []);
  }

  lemma OneMore(v: Server, states: seq<Dp>, ms: seq<nat>, n: nat, next: nat, again: nat) returns (reached: nat, all: nat)
    requires Converts(v, states, ms) && n + 1 == |ms| && next == Reached(states, ms[..n]) && again == AgainCount(v, states, ms[..n])
    ensures reached == Reached(states, ms) == Max(next, ResumeRow(states[n]) + ms[n])
    ensures all == AgainCount(v, states, ms) == again + |Again(v, states[n], next, ms[n])|
    ensures ConvertedAndTouched(v, states[n], ms[n], states[n + 1], reached)
  {
    reached, all := Reached(states, ms), AgainCount(v, states, ms);
    assert ms[..n + 1] == ms;
    assert ConvertedAndTouched(v, states[n], ms[n], states[n + 1], Reached(states, ms[..n + 1]));
  }

  lemma StreamOneMore(v: Server, s: Dp, m: nat, u: Dp, n: nat, next: nat, again: nat, reached: nat, all: nat)
    requires GotTo(v, s, n, next, again) && ConvertedAndTouched(v, s, m, u, reached)
    requires reached == Max(next, ResumeRow(s) + m) && all == again + |Again(v, s, next, m)|
    ensures GotTo(v, u, n + 1, reached, all)
  {
    CountedAfter(v, s, m, u, Holding(s, n), next, again, reached, all);
    if u.c.status == Prepared {
      StartsAfter(v, s, m, u, reached);
    }
  }

  lemma StartsAfter(v: Server, s: Dp, m: nat, u: Dp, reached: nat)
    requires ConvertedAndTouched(v, s, m, u, reached) && ResumeRow(s) + m <= reached && u.c.status == Prepared
    ensures ResumeRow(u) <= reached && u.o == BaseStream(u)
  {
    var t, r :| ConvertedTo(v, s, t, r, m) && Touched(t, u, reached);
    NextStart(v, s, t, r, m, u, reached);
  }

  lemma CountedAfter(v: Server, s: Dp, m: nat, u: Dp, held: seq<Row>, next: nat, again: nat, reached: nat, all: nat)
    requires Counted(v, s, held, next, again) && ConvertedAndTouched(v, s, m, u, reached)
    requires ResumeRow(s) <= next && held == BaseStream(s).rows
    requires reached == Max(next, ResumeRow(s) + m) && all == again + |Again(v, s, next, m)|
    ensures Counted(v, u, u.o.rows, reached, all)
  {
    var more := PutBehind(v, s, m, u, next, reached);
    CountedMore(v, s, u, held, next, again, reached, all, Again(v, s, next, m), more, u.o.rows);
  }

  lemma PutBehind(v: Server, s: Dp, m: nat, u: Dp, next: nat, reached: nat) returns (more: seq<Row>)
    requires ConvertedAndTouched(v, s, m, u, reached) && ResumeRow(s) <= next <= |s.rows| && reached == Max(next, ResumeRow(s) + m)
    ensures reached <= |s.rows| == |u.rows| && u.rows[..reached] == s.rows[..reached]
    ensures u.o.rows == BaseStream(s).rows + Again(v, s, next, m) + more
    ensures Filter(v.convertible, Between(s.rows, 0, reached)) == Filter(v.convertible, Between(s.rows, 0, next)) + more
  {
    var t, r :| ConvertedTo(v, s, t, r, m) && Touched(t, u, reached);
    more := OneConvert(v, s, t, r, m, next, ResumeRow(s), reached);
  }

  lemma CountedMore(v: Server, s: Dp, u: Dp, held: seq<Row>, next: nat, again: nat, reached: nat, all: nat,
                    repeated: seq<Row>, more: seq<Row>, now: seq<Row>)
    requires Counted(v, s, held, next, again) && reached <= |s.rows| == |u.rows| && u.rows[..reached] == s.rows[..reached]
    requires Filter(v.convertible, Between(s.rows, 0, reached)) == Filter(v.convertible, Between(s.rows, 0, next)) + more
    requires now == held + repeated + more && all == again + |repeated|
    ensures Counted(v, u, now, reached, all)
  {
    var good :| good == Filter(v.convertible, Between(s.rows, 0, next)) && Adds(good, again, held);
    assert Between(u.rows, 0, reached) == Between(s.rows, 0, reached);
    assert repeated == [] ==> held + repeated == held;
    CountedBy(v, u, now, reached, all, good + more);
  }

  lemma {:induction false} SameReached(v: Server, a: seq<Dp>, b: seq<Dp>, ms: seq<nat>)
    requires |ms| <= |a| <= |b| && a == b[..|a|]
    ensures Reached(a, ms) == Reached(b, ms) && AgainCount(v, a, ms) == AgainCount(v, b, ms)
  {
    if ms != [] {
      SameReached(v, a, b, ms[..|ms| - 1]);
    }
  }

  lemma PrefixConverts(v: Server, states: seq<Dp>, ms: seq<nat>)
    requires Converts(v, states, ms) && ms != []
    ensures var n := |ms| - 1;
      && Converts(v, states[..n + 1], ms[..n])
      && Reached(states[..n + 1], ms[..n]) == Reached(states, ms[..n])
      && AgainCount(v, states[..n + 1], ms[..n]) == AgainCount(v, states, ms[..n])
  {
    var n := |ms| - 1;
    SameReached(v, states[..n + 1], states, ms[..n]);
    forall i | 0 <= i < n
      ensures ConvertedAndTouched(v, states[..n + 1][i], ms[..n][i], states[..n + 1][i + 1], Reached(states[..n + 1], ms[..n][..i + 1]))
    {
      assert ms[..n][..i + 1] == ms[..i + 1];
      SameReached(v, states[..n + 1], states, ms[..i + 1]);
      assert ConvertedAndTouched(v, states[i], ms[i], states[i + 1], Reached(states, ms[..i + 1]));
    }
  }

  /** Convert `i` put nothing into the stream again. */
  ghost predicate NothingAgain(v: Server, states: seq<Dp>, ms: seq<nat>, i: nat)
    requires i < |ms| <= |states|
  {
    Again(v, states[i], Reached(states, ms[..i]), ms[i]) == []
  }

  /** None of the first `n` Converts did. */
  ghost predicate NoneOf(v: Server, states: seq<Dp>, ms: seq<nat>, n: nat)
    requires n <= |ms| <= |states|
  {
    forall i :: 0 <= i < n ==> NothingAgain(v, states, ms, i)
  }

  lemma {:induction false} NoneAgain(v: Server, states: seq<Dp>, ms: seq<nat>)
    requires |ms| <= |states|
    ensures AgainCount(v, states, ms) == 0 <==> NoneOf(v, states, ms, |ms|)
  {
    if ms != [] {
      var n := |ms| - 1;
      NoneAgain(v, states, ms[..n]);
      FrontAgain(v, states, ms, n);
      LastAgain(v, states, ms, n);
    }
  }

  lemma FrontAgain(v: Server, states: seq<Dp>, ms: seq<nat>, n: nat)
    requires n <= |ms| <= |states|
    ensures NoneOf(v, states, ms[..n], n) == NoneOf(v, states, ms, n)
  {
    forall i | 0 <= i < n
      ensures NothingAgain(v, states, ms[..n], i) == NothingAgain(v, states, ms, i)
    {
      assert ms[..n][..i] == ms[..i];
    }
  }

  lemma LastAgain(v: Server, states: seq<Dp>, ms: seq<nat>, n: nat)
    requires n + 1 == |ms| <= |states|
    ensures AgainCount(v, states, ms) == 0 <==> AgainCount(v, states, ms[..n]) == 0 && NothingAgain(v, states, ms, n)
  {
  }

  /**
   However often a program converts, corrects rows and converts again, the stream holds every convertible row of
   those consumed, once and in order, if and only if no Convert started in front of one of them that it then
   consumed again.
   */
  lemma RowsOnceIff(v: Server, states: seq<Dp>, ms: seq<nat>)
    requires Converts(v, states, ms) && ms != []
    ensures Reached(states, ms) <= |Last(states).rows|
    ensures Last(states).o.rows == Filter(v.convertible, Between(Last(states).rows, 0, Reached(states, ms))) <==>
      NoneOf(v, states, ms, |ms|)
  {
    StreamOfConverts(v, states, ms);
    NoneAgain(v, states, ms);
    var z := Last(states);
    var next, again :| next == Reached(states, ms) && again == AgainCount(v, states, ms) && GotTo(v, z, |ms|, next, again);
    CountedOnce(v, z, z.o.rows, next, again);
  }

  lemma CountedOnce(v: Server, z: Dp, held: seq<Row>, next: nat, again: nat)
    requires Counted(v, z, held, next, again)
    ensures next <= |z.rows| && (held == Filter(v.convertible, Between(z.rows, 0, next)) <==> again == 0)
  {
  }

  // ------------------------------------------------------------------- when rows are put again

  /**
   In DEFAULT mode, a Convert of `n` rows puts rows again exactly behind one that ended on a partial column and
   had consumed rows.
   */
  lemma DefaultAgain(v: Server, s: Dp, t: Dp, r: Res, m: nat, u: Dp, n: nat)
    requires !s.c.force && ConvertedTo(v, s, t, r, m)
    requires Touched(t, u, ResumeRow(s) + m) && u.c.status == Prepared
    ensures Again(v, u, ResumeRow(s) + m, n) != [] <==> r == DprPartial && m > 0 && n > 0
  {
    NextStart(v, s, t, r, m, u, ResumeRow(s) + m);
    if r == DprPartial {
      StoppedInside(s, m, ResumeRow(s));
      PartialAgain(v, s.rows, u, ResumeRow(s), m, n);
    } else {
      NothingBefore(v, u, ResumeRow(s) + m, n);
    }
  }

  lemma NothingBefore(v: Server, u: Dp, next: nat, n: nat)
    requires ResumeRow(u) == next
    ensures Again(v, u, next, n) == []
  {
    assert Between(u.rows, next, next) == [];
  }

  lemma PartialAgain(v: Server, was: seq<Row>, u: Dp, f: nat, m: nat, n: nat)
    requires ResumeRow(u) == f && f + m <= |was| == |u.rows| && u.rows[..f + m] == was[..f + m]
    requires All(v.convertible, was[f..f + m])
    ensures Again(v, u, f + m, n) != [] <==> m > 0 && n > 0
  {
    var part := Between(u.rows, f, Min(f + m, f + n));
    SameRows(was, u.rows, f, m, n);
    AllGood(v, was[f..f + m], part, Min(m, n));
  }

  lemma StoppedInside(s: Dp, m: nat, f: nat)
    requires s.c.nbCur <= |s.rows| && m < |Batch(s)| && f == ResumeRow(s)
    ensures f + m <= |s.rows| && Batch(s)[..m] == s.rows[f..f + m]
  {
  }

  lemma SameRows(was: seq<Row>, rows: seq<Row>, f: nat, m: nat, n: nat)
    requires f + m <= |was| == |rows| && rows[..f + m] == was[..f + m]
    ensures Between(rows, f, Min(f + m, f + n)) == was[f..f + m][..Min(m, n)]
  {
    var k := Min(m, n);
    assert rows[f..f + k] == rows[..f + m][f..f + k];
  }

  lemma AllGood(v: Server, run: seq<Row>, part: seq<Row>, k: nat)
    requires All(v.convertible, run) && k <= |run| && part == run[..k]
    ensures Filter(v.convertible, part) == part
  {
    FilterAll(v.convertible, part);
  }

  /** In FORCE mode any Convert behind one starts over: what was consumed is consumed again. */
  lemma ForceAgain(v: Server, s: Dp, t: Dp, r: Res, m: nat, u: Dp, n: nat)
    requires s.c.force && ConvertedTo(v, s, t, r, m) && ResumeRow(s) == 0
    requires Touched(t, u, m) && u.c.status == Prepared
    ensures s.errs == [] ==> r == DprPartial
    ensures Again(v, u, m, n) == Filter(v.convertible, s.rows[..Min(m, n)])
  {
    NextStart(v, s, t, r, m, u, m);
    if s.errs == [] {
      NoErrorStops(v, s, t, r, m);
    }
    assert u.rows[..m][..Min(m, n)] == s.rows[..Min(m, n)] == Between(u.rows, 0, Min(m, n));
  }

  /** Two good rows, the second with a partial column: PARTIAL, then COMPLETE, and the first row is there twice. */
  lemma RowTwice(v: Server, s: Dp, a: Row, b: Row) returns (t: Dp, u: Dp)
    requires Fresh(s) && s.c.force && s.c.resConv != DprFull && Batch(s) == [a, b]
    requires v.convertible(a) && v.convertible(b) && HasPartial(b)
    ensures ConvertStep(v, s, t, DprPartial) && ConvertStep(v, t, u, DprComplete)
    ensures u.o.rows == [a, a, b] && u.errs == []
  {
    t := Behind(s, DprPartial, [a], []);
    FirstStops(v, s, a, b, t);
    u := Behind(t, DprComplete, [a, b], []);
    SecondCompletes(v, t, a, b, u);
  }

  lemma FirstStops(v: Server, s: Dp, a: Row, b: Row, t: Dp)
    requires Shape(s) && s.c.status == Prepared && s.errs == [] && Batch(s) == [a, b]
    requires v.convertible(a) && HasPartial(b) && t == Behind(s, DprPartial, [a], [])
    ensures ConvertStep(v, s, t, DprPartial)
    ensures s.c.force && s.c.resConv != DprFull ==> Shape(t) && t.c.status == Prepared && t.errs == [] && Batch(t) == [a, b]
  {
    assert [a, b][..1] == [a];
    CleanStep(v, s, t, DprPartial, [a]);
  }

  lemma SecondCompletes(v: Server, t: Dp, a: Row, b: Row, u: Dp)
    requires Shape(t) && t.c.status == Prepared && t.errs == [] && Batch(t) == [a, b]
    requires v.convertible(a) && v.convertible(b) && u == Behind(t, DprComplete, [a, b], [])
    ensures ConvertStep(v, t, u, DprComplete)
  {
    assert [a, b][..2] == [a, b];
    CleanStep(v, t, u, DprComplete, [a, b]);
  }
}
