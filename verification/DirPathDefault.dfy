/** DEFAULT mode: a Convert stops at the first bad row, the caller corrects it, and Convert resumes on it. */
module DirPathDefault {
  import opened Words
  import opened Seqs
  import opened DirPathSpec
  import opened DirPathTheorems

  /** The stream holds exactly the rows in front of the row the next Convert starts from. */
  ghost predicate Resumable(s: Dp) {
    && Shape(s) && s.c.status == Prepared && !s.c.force
    && ResumeRow(s) <= s.c.nbCur
    && (s.errs != [] ==> ResumeRow(s) < s.c.nbCur)
    && BaseStream(s).offset == 0 && BaseStream(s).rows == s.rows[..ResumeRow(s)]
    && s.c.nbConverted == ResumeRow(s)
    && Increasing(s.errs)
  }

  /** Each error is recorded at a later row than the one before. */
  ghost predicate Increasing(errs: seq<(nat, nat)>) {
    forall i, j :: 0 <= i < j < |errs| ==> errs[i].0 < errs[j].0
  }

  lemma {:induction false} IncreasingCount(errs: seq<(nat, nat)>)
    requires Increasing(errs) && errs != []
    ensures |errs| <= Last(errs).0 + 1
  {
    if |errs| > 1 {
      IncreasingCount(errs[..|errs| - 1]);
    }
  }

  /** The row the last Convert stopped at was replaced by a convertible one, and nothing else changed. */
  ghost predicate Corrected(v: Server, s: Dp, t: Dp) {
    && s.errs != [] && Last(s.errs).0 < |s.rows| == |t.rows|
    && v.convertible(t.rows[Last(s.errs).0])
    && t == s.(rows := s.rows[Last(s.errs).0 := t.rows[Last(s.errs).0]],
               c := s.c.(idxRow := t.c.idxRow, idxCol := t.c.idxCol))
    && t.c.idxRow <= |t.errs| && t.c.idxCol <= |t.errs|
  }

  /**
   A Convert on a resumable state: it goes on exactly behind the rows already in the stream. COMPLETE
   leaves all current rows in the stream, each once and in order; ERROR records the first bad row from
   the resume row on, and leaves the rows in front of it in the stream. The count of converted rows is
   the row the next Convert resumes from.
   */
  lemma DefaultConvert(v: Server, s: Dp, t: Dp, r: Res) returns (row: nat)
    requires Resumable(s) && ConvertStep(v, s, t, r)
    ensures ConvertKeeps(s, t, r)
    ensures ResumeRow(s) <= row <= s.c.nbCur && All(v.convertible, s.rows[ResumeRow(s)..row])
    ensures t.o.rows == s.rows[..row] && t.c.nbConverted == row
    ensures r == DprComplete ==> row == s.c.nbCur
    ensures r != DprError ==> t.errs == s.errs
    ensures r == DprFull ==> 0 < row < s.c.nbCur
    ensures r == DprPartial ==> row < s.c.nbCur && HasPartial(s.rows[row])
    ensures r != DprEmpty
    ensures r == DprError ==>
      && row < s.c.nbCur && !v.convertible(s.rows[row])
      && t.errs == s.errs + [(row, v.badColumn(s.rows[row]))]
  {
    var errs;
    row, errs := Consumed(v, s, t, r);
    Landed(s, t, r, row, errs);
  }

  lemma Landed(s: Dp, t: Dp, r: Res, row: nat, errs: seq<(nat, nat)>)
    requires Resumable(s) && ResumeRow(s) <= row <= s.c.nbCur
    requires t == Behind(s, r, s.rows[ResumeRow(s)..row], errs)
    ensures ConvertKeeps(s, t, r)
    ensures t.o.rows == s.rows[..row] && t.c.nbConverted == row && t.errs == s.errs + errs
  {
    SmallSum(ResumeRow(s), row - ResumeRow(s));
  }

  /** The rows consumed, all convertible, went to the stream; only the row it stopped at was recorded. */
  lemma Consumed(v: Server, s: Dp, t: Dp, r: Res) returns (row: nat, errs: seq<(nat, nat)>)
    requires Resumable(s) && ConvertStep(v, s, t, r)
    ensures ResumeRow(s) <= row <= s.c.nbCur && All(v.convertible, s.rows[ResumeRow(s)..row])
    ensures r == DprComplete ==> row == s.c.nbCur
    ensures r == DprFull ==> row < s.c.nbCur && t.o.rows != []
    ensures r == DprPartial ==> row < s.c.nbCur && HasPartial(s.rows[row])
    ensures r != DprEmpty
    ensures r == DprError ==> row < s.c.nbCur && !v.convertible(s.rows[row])
    ensures errs == if r == DprError then [(row, v.badColumn(s.rows[row]))] else []
    ensures t == Behind(s, r, s.rows[ResumeRow(s)..row], errs)
  {
    var m: nat :| ConvertedTo(v, s, t, r, m);
    row, errs := ResumeRow(s) + m, StopError(v, s, r, m);
    RunFromResumeRow(v, s, m);
    ErrorsAtStop(v, s, r, m);
  }

  /** Without misses, what a Convert adds to the stream extends the rows in front of the resume row. */
  lemma RunFromResumeRow(v: Server, s: Dp, m: nat)
    requires Resumable(s) && m <= |Batch(s)| && All(v.convertible, Batch(s)[..m])
    ensures Good(v, s, m) == s.rows[ResumeRow(s)..ResumeRow(s) + m]
    ensures All(v.convertible, s.rows[ResumeRow(s)..ResumeRow(s) + m])
    ensures Misses(v.convertible, Batch(s)[..m]) == []
    ensures BaseStream(s).rows + Good(v, s, m) == s.rows[..ResumeRow(s) + m]
    ensures |Good(v, s, m)| == m && Add32(s.c.nbConverted, m) == ResumeRow(s) + m
  {
    var f := ResumeRow(s);
    assert Batch(s)[..m] == s.rows[f..f + m];
    FilterAll(v.convertible, Batch(s)[..m]);
    assert s.rows[..f] + s.rows[f..f + m] == s.rows[..f + m];
    SmallSum(f, m);
  }

  lemma ErrorsAtStop(v: Server, s: Dp, r: Res, m: nat)
    requires Shape(s) && s.c.status == Prepared && m <= |Batch(s)| && (r == DprError ==> m < |Batch(s)|)
    requires Misses(v.convertible, Batch(s)[..m]) == []
    ensures NewErrors(v, s, r, m) == StopError(v, s, r, m)
    ensures s.errs + [] == s.errs
    ensures r == DprError ==> Batch(s)[m] == s.rows[ResumeRow(s) + m]
    ensures r == DprError ==> StopError(v, s, r, m) == [(ResumeRow(s) + m, v.badColumn(s.rows[ResumeRow(s) + m]))]
  {
  }

  /** After a corrected row, the next error is recorded at a later row: the state is resumable again. */
  lemma ErrorIsResumable(v: Server, s: Dp, t: Dp)
    requires Resumable(s) && ConvertStep(v, s, t, DprError)
    requires s.errs == [] || v.convertible(s.rows[ResumeRow(s)])
    ensures Resumable(t) && t.errs != [] && |t.errs| == |s.errs| + 1 && !v.convertible(t.rows[ResumeRow(t)])
    ensures s.errs != [] ==> ResumeRow(t) > ResumeRow(s)
  {
    var row := DefaultConvert(v, s, t, DprError);
    assert s.errs != [] ==> row != ResumeRow(s);
    IncreasingAppend(s.errs, (row, v.badColumn(s.rows[row])));
    IncreasingCount(t.errs);
  }

  lemma IncreasingAppend(errs: seq<(nat, nat)>, e: (nat, nat))
    requires Increasing(errs) && (errs != [] ==> Last(errs).0 < e.0)
    ensures Increasing(errs + [e])
  {
  }

  lemma CorrectedIsResumable(v: Server, s: Dp, t: Dp)
    requires Resumable(s) && Corrected(v, s, t) && s.c.resConv != DprFull
    ensures Resumable(t) && ResumeRow(t) == ResumeRow(s) && v.convertible(t.rows[ResumeRow(t)])
  {
    assert t.rows[..ResumeRow(t)] == s.rows[..ResumeRow(s)];
  }

  /** One round: a Convert that stops at a bad row, then its correction. */
  ghost predicate Round(v: Server, a: Dp, b: Dp) {
    exists mid :: ConvertStep(v, a, mid, DprError) && Corrected(v, mid, b)
  }

  lemma OneRound(v: Server, a: Dp, b: Dp)
    requires Resumable(a) && (a.errs == [] || v.convertible(a.rows[ResumeRow(a)])) && Round(v, a, b)
    ensures Resumable(b) && b.errs != [] && v.convertible(b.rows[ResumeRow(b)])
    ensures |b.errs| == |a.errs| + 1 && b.c.nbCur == a.c.nbCur
    ensures a.errs != [] ==> ResumeRow(b) > ResumeRow(a)
    ensures b.o.table == a.o.table
  {
    var mid :| ConvertStep(v, a, mid, DprError) && Corrected(v, mid, b);
    ErrorIsResumable(v, a, mid);
    var row := DefaultConvert(v, a, mid, DprError);
    CorrectedIsResumable(v, mid, b);
  }

  /**
   Any run of Converts and corrections from a Reset: at most one round for every current row, every
   round resumes behind the one before, and the Convert that completes it leaves every row, as
   corrected, in the stream, once and in order.
   */
  lemma {:induction false} CorrectionRun(v: Server, states: seq<Dp>)
    requires states != [] && Resumable(states[0]) && states[0].errs == []
    requires forall i :: 0 <= i < |states| - 1 ==> Round(v, states[i], states[i + 1])
    ensures var z := Last(states);
      && Resumable(z) && |z.errs| == |states| - 1 && (z.errs != [] ==> v.convertible(z.rows[ResumeRow(z)]))
      && z.c.nbCur == states[0].c.nbCur && z.o.table == states[0].o.table
    ensures |states| - 1 <= states[0].c.nbCur
    ensures forall t, r :: ConvertStep(v, Last(states), t, r) && r == DprComplete ==>
      t.o.rows == Last(states).rows[..states[0].c.nbCur] && Pending(t) == t.o.rows
    decreases |states|
  {
    var n := |states| - 1;
    if n > 0 {
      CorrectionRun(v, states[..n]);
      assert Last(states[..n]) == states[n - 1];
      assert Round(v, states[n - 1], states[n - 1 + 1]);
      OneRound(v, states[n - 1], states[n]);
      IncreasingCount(states[n].errs);
    }
    forall t, r | ConvertStep(v, Last(states), t, r) && r == DprComplete
      ensures t.o.rows == Last(states).rows[..states[0].c.nbCur] && Pending(t) == t.o.rows
    {
      var row := DefaultConvert(v, Last(states), t, r);
    }
  }

  /** A caller that corrects every reported row never runs out of places in the error arrays. */
  lemma CorrectionRoom(v: Server, s: Dp)
    requires Resumable(s) && (s.errs == [] || v.convertible(s.rows[ResumeRow(s)]))
    ensures ConvertRoom(v, s)
  {
    var b := Batch(s);
    FilterMissesCount(v.convertible, b);
    if s.errs != [] {
      IncreasingCount(s.errs);
      if |s.errs| == s.c.nbRows {
        assert b == [b[0]] && b[0] == s.rows[ResumeRow(s)];
        FilterAll(v.convertible, b);
      }
    }
  }

  /**
   A Convert does not set the error cursors back: behind one that stopped at a bad row, the next call of
   GetErrorRow reports that row if and only if all earlier errors had been read.
   */
  lemma StopReportedIfAllRead(v: Server, s: Dp, t: Dp, u: Dp, out: nat)
    requires Resumable(s) && (s.errs == [] || v.convertible(s.rows[ResumeRow(s)]))
    requires ConvertStep(v, s, t, DprError) && ErrorRowStep(t, u, out)
    ensures out == ResumeRow(t) + 1 <==> s.c.idxRow == |s.errs|
  {
    ErrorIsResumable(v, s, t);
    var row := DefaultConvert(v, s, t, DprError);
    CursorReads(t.errs, s.c.idxRow, out);
  }

  /** The cursor reports the last of increasing errors exactly when it stands on it. */
  lemma CursorReads(errs: seq<(nat, nat)>, idx: nat, out: nat)
    requires Increasing(errs) && idx < |errs| && Last(errs).0 + 1 < U32 && out == Add32(errs[idx].0, 1)
    ensures out == Last(errs).0 + 1 <==> idx == |errs| - 1
  {
    assert idx < |errs| - 1 ==> errs[idx].0 < Last(errs).0;
  }

  /** Left alone, a bad row is recorded again by every Convert. */
  lemma UncorrectedRowRepeats(v: Server, s: Dp, t: Dp, r: Res)
    requires Resumable(s) && s.errs != [] && !v.convertible(s.rows[ResumeRow(s)])
    requires ConvertStep(v, s, t, r) && (r == DprError || r == DprComplete)
    ensures r == DprError && t.errs == s.errs + [(ResumeRow(s), v.badColumn(s.rows[ResumeRow(s)]))]
    ensures t.o.rows == BaseStream(s).rows
  {
    var row := DefaultConvert(v, s, t, r);
    FirstOfAll(v.convertible, s.rows, ResumeRow(s), row);
  }

  lemma FirstOfAll<T>(p: T -> bool, s: seq<T>, from: nat, to: nat)
    requires from <= to <= |s| && All(p, s[from..to])
    ensures from == to || p(s[from])
  {
    assert from < to ==> s[from..to][0] == s[from];
  }
}
