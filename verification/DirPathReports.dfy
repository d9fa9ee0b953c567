/**
 From the numbers a loader reports back to rows of the data: a refused row is reported by its position
 among the converted rows, counted on from all rows ever loaded, modulo 2^32.
 */
module DirPathReports {
  import opened Words
  import opened Seqs
  import opened DirPathSpec
  import opened DirPath
  import opened DirPathTheorems
  import opened DirPathBatches

  // ------------------------------------------------------------ positions and batch rows

  /** The elements of `s` at the given indices. */
  function Picked(s: seq<nat>, at: seq<nat>): (r: seq<nat>)
    requires forall i :: 0 <= i < |at| ==> at[i] < |s|
    ensures |r| == |at| && forall i :: 0 <= i < |r| ==> r[i] == s[at[i]]
  {
    seq(|at|, i requires 0 <= i < |at| => s[at[i]])
  }

  /** Everything that `p` keeps is kept by `q`: what misses this was converted and then refused. */
  function Unless<T>(p: T -> bool, q: T -> bool): T -> bool {
    x => !p(x) || q(x)
  }

  /** The batch rows at the positions refused among the converted rows are the batch rows refused. */
  lemma {:induction false} RefusedAreMisses<T>(p: T -> bool, q: T -> bool, s: seq<T>)
    ensures |Kept(p, s)| == |Filter(p, s)|
    ensures Picked(Kept(p, s), Misses(q, Filter(p, s))) == Misses(Unless(p, q), s)
  {
    KeptCount(p, s);
    if s != [] {
      var n := |s| - 1;
      var front, x := s[..n], s[n];
      assert s == front + [x];
      RefusedAreMisses(p, q, front);
      FilterSnoc(p, front, x);
      FilterSnoc(Not(p), front, x);
      FilterSnoc(Unless(p, q), front, x);
      FilterSnoc(q, Filter(p, front), x);
      assert p(x) ==> Filter(p, s) == Filter(p, front) + [x];
      assert !p(x) ==> Filter(p, s) == Filter(p, front);
    }
  }

  /** The next row is the next one of the reported rows, or was converted. */
  lemma NextReported<T>(p: T -> bool, s: seq<T>, k: nat)
    requires k < |s|
    ensures Misses(p, s[..k]) <= Misses(p, s) && Misses(p, s[..k + 1]) <= Misses(p, s)
    ensures var j := |Misses(p, s[..k])|;
      !p(s[k]) <==> j < |Misses(p, s)| && Misses(p, s)[j] == k
    ensures |Misses(p, s[..k + 1])| == |Misses(p, s[..k])| + if p(s[k]) then 0 else 1
    ensures Kept(p, s[..k + 1]) == Kept(p, s[..k]) + if p(s[k]) then [k] else []
  {
    assert s[..k] + [s[k]] == s[..k + 1] && s[..k + 1] + s[k + 1..] == s && s[..k] + s[k..] == s;
    FilterSnoc(p, s[..k], s[k]);
    FilterSnoc(Not(p), s[..k], s[k]);
    MissesConcat(p, s[..k + 1], s[k + 1..]);
    MissesConcat(p, s[..k], s[k..]);
  }

  /** The rows that were converted are those that were not reported; `bad` counts from 1. */
  method KeptRows(done: nat, bad: seq<nat>, ghost p: Row -> bool, ghost rows: seq<Row>) returns (kept: seq<nat>)
    requires |rows| == done && bad == Shift(Misses(p, rows), 1)
    ensures kept == Kept(p, rows)
  {
    kept := [];
    var k, j := 0, 0;
    while k < done
      invariant k <= done && kept == Kept(p, rows[..k]) && j == |Misses(p, rows[..k])| <= |bad|
    {
      NextReported(p, rows, k);
      if j < |bad| && bad[j] == k + 1 {
        j := j + 1;
      } else {
        kept := kept + [k];
      }
      k := k + 1;
    }
    assert rows[..k] == rows;
  }

  /** The rows at `positions`, counted from 1. */
  method RowsAt(kept: seq<nat>, positions: seq<nat>) returns (rows: seq<nat>)
    requires forall i :: 0 <= i < |positions| ==> positions[i] < |kept|
    ensures rows == Shift(Picked(kept, positions), 1)
  {
    rows := [];
    for i := 0 to |positions|
      invariant |rows| == i && forall k :: 0 <= k < i ==> rows[k] == kept[positions[k]] + 1
    {
      rows := rows + [kept[positions[i]] + 1];
    }
  }

  /** The refused rows of a batch, from its unconvertible rows and the refused positions. */
  method RefusedRows(done: nat, bad: seq<nat>, positions: seq<nat>, ghost v: Server, ghost rows: seq<Row>) returns (refused: seq<nat>)
    requires |rows| == done && bad == Shift(Misses(v.convertible, rows), 1)
    requires positions == Misses(v.acceptable, Filter(v.convertible, rows))
    ensures refused == Shift(Misses(Unless(v.convertible, v.acceptable), rows), 1)
  {
    var kept := KeptRows(done, bad, v.convertible, rows);
    RefusedAreMisses(v.convertible, v.acceptable, rows);
    refused := RowsAt(kept, positions);
  }

  // ------------------------------------------------------------------ positions reported

  /** The position a refused row was reported from, when `loaded` rows were loaded before. */
  function Position(reported: ub4, loaded: ub4): nat {
    (reported - loaded - 1) % U32
  }

  /** It is recovered whatever wrapped around. */
  lemma PositionRecovered(loaded: ub4, k: nat)
    requires k < U32
    ensures Position(Add32(Add32(loaded, k), 1), loaded) == k
  {
    Add32Assoc(loaded, k, 1);
  }

  /** A complete Load led to `t`, but for the error cursor. */
  ghost predicate LoadedAndRead(v: Server, s: Dp, t: Dp) {
    exists u :: LoadStep(v, s, u, DprComplete) && t == u.(c := u.c.(idxRow := |u.errs|))
  }

  /**
   Loads the stream, and asks for as many rows as were converted but not loaded. Reading until 0 would
   not do: the number of a refused row can wrap around to 0.
   */
  method LoadReporting(dp: Loader) returns (positions: seq<nat>)
    requires dp.Valid() && dp.oci.idle == 0 && LoadRoom(dp.oci.server, dp.Abs(), 0) && dp.c.status == Converted
    requires dp.c.nbProcessed == |Pending(dp.Abs())| < U32
    modifies dp`c, dp`nbErr, dp`errs, dp.errRows, dp.errCols, dp.oci`o, dp.oci`idle
    ensures dp.Valid() && dp.oci.idle == 0
    ensures positions == Misses(dp.oci.server.acceptable, Pending(old(dp.Abs())))
    ensures LoadedAndRead(dp.oci.server, old(dp.Abs()), dp.Abs())
  {
    ghost var v, s := dp.oci.server, dp.Abs();
    var converted, loaded := dp.c.nbProcessed, dp.c.nbLoaded;
    var res := dp.Load();
    ghost var t := dp.Abs();
    RefusedCount(v, s, t);
    positions := ReadPositions(dp, converted - dp.c.nbProcessed, loaded, Pending(s));
  }

  lemma RefusedCount(v: Server, s: Dp, t: Dp)
    requires Shape(s) && s.c.status == Converted && SteadyLoad(v, s, t) && |Pending(s)| < U32
    ensures LoadStep(v, s, t, DprComplete) && t.c.idxRow == 0
    ensures t.errs == Refusals(v, s.c.nbLoaded, Pending(s)) && t.c.nbProcessed + |t.errs| == |Pending(s)|
  {
    LoadErrorPositions(v, s, t);
    LoadIsFilter(v, s, t);
    FilterMissesCount(v.acceptable, Pending(s));
    SmallSum(0, |Filter(v.acceptable, Pending(s))|);
  }

  /** Asks for `n` rows, and takes each back to its position among `pending`. */
  method ReadPositions(dp: Loader, n: nat, loaded: ub4, ghost pending: seq<Row>) returns (positions: seq<nat>)
    requires dp.Valid() && dp.c.idxRow == 0 && n == |dp.errs| && |pending| < U32
    requires dp.errs == Refusals(dp.oci.server, loaded, pending)
    modifies dp`c
    ensures dp.Valid() && positions == Misses(dp.oci.server.acceptable, pending)
    ensures dp.Abs() == old(dp.Abs()).(c := old(dp.c).(idxRow := n))
  {
    ghost var m := Misses(dp.oci.server.acceptable, pending);
    positions := [];
    while |positions| < n
      invariant dp.Valid() && |positions| <= n && positions == m[..|positions|]
      invariant dp.Abs() == old(dp.Abs()).(c := old(dp.c).(idxRow := |positions|))
    {
      var row := dp.GetErrorRow();
      PositionRecovered(loaded, m[|positions|]);
      positions := positions + [Position(row, loaded)];
    }
  }
}
