/** Filtering, positions of the rejected elements, and subsequences. */
module Seqs {

  /** The elements of `s` that satisfy `p`, in order. */
  function Filter<T>(p: T -> bool, s: seq<T>): (r: seq<T>)
    ensures |r| <= |s|
  {
    if s == [] then [] else
      var rest := Filter(p, s[..|s| - 1]);
      if p(s[|s| - 1]) then rest + [s[|s| - 1]] else rest
  }

  /** The indices of the elements of `s` that do not satisfy `p`, in order. */
  function Misses<T>(p: T -> bool, s: seq<T>): (r: seq<nat>)
    ensures forall i :: 0 <= i < |r| ==> r[i] < |s| && !p(s[r[i]])
  {
    if s == [] then [] else
      var rest := Misses(p, s[..|s| - 1]);
      if p(s[|s| - 1]) then rest else rest + [|s| - 1]
  }

  predicate All<T>(p: T -> bool, s: seq<T>) {
    forall i :: 0 <= i < |s| ==> p(s[i])
  }

  function Shift(s: seq<nat>, offset: nat): (r: seq<nat>)
    ensures |r| == |s| && forall i :: 0 <= i < |s| ==> r[i] == s[i] + offset
  {
    seq(|s|, i requires 0 <= i < |s| => s[i] + offset)
  }

  function Last<T>(s: seq<T>): T
    requires s != []
  {
    s[|s| - 1]
  }

  lemma ConcatAssoc<T>(a: seq<T>, b: seq<T>, c: seq<T>)
    ensures (a + b) + c == a + (b + c)
  {
  }

  lemma {:induction false} FilterConcat<T>(p: T -> bool, a: seq<T>, b: seq<T>)
    ensures Filter(p, a + b) == Filter(p, a) + Filter(p, b)
  {
    if b == [] {
      assert a + b == a;
    } else {
      assert (a + b)[..|a + b| - 1] == a + b[..|b| - 1];
      FilterConcat(p, a, b[..|b| - 1]);
    }
  }

  lemma {:induction false} MissesConcat<T>(p: T -> bool, a: seq<T>, b: seq<T>)
    ensures Misses(p, a + b) == Misses(p, a) + Shift(Misses(p, b), |a|)
  {
    if b == [] {
      assert a + b == a;
    } else {
      assert (a + b)[..|a + b| - 1] == a + b[..|b| - 1];
      MissesConcat(p, a, b[..|b| - 1]);
    }
  }

  /** Every element is either kept or missed. */
  lemma {:induction false} FilterMissesCount<T>(p: T -> bool, s: seq<T>)
    ensures |Filter(p, s)| + |Misses(p, s)| == |s|
  {
    if s != [] {
      FilterMissesCount(p, s[..|s| - 1]);
    }
  }

  /** The misses are strictly increasing and are exactly the failing indices. */
  lemma {:induction false} MissesExact<T>(p: T -> bool, s: seq<T>)
    ensures forall i, j :: 0 <= i < j < |Misses(p, s)| ==> Misses(p, s)[i] < Misses(p, s)[j]
    ensures forall k: nat :: k in Misses(p, s) <==> k < |s| && !p(s[k])
  {
    if s != [] {
      MissesExact(p, s[..|s| - 1]);
      var n := |s| - 1;
      assert forall k :: 0 <= k < n ==> s[..n][k] == s[k];
    }
  }

  lemma {:induction false} FilterAll<T>(p: T -> bool, s: seq<T>)
    requires All(p, s)
    ensures Filter(p, s) == s && Misses(p, s) == []
  {
    if s != [] {
      FilterAll(p, s[..|s| - 1]);
    }
  }

  lemma AllIffNoMisses<T>(p: T -> bool, s: seq<T>)
    ensures All(p, s) <==> Misses(p, s) == []
  {
    MissesExact(p, s);
    if !All(p, s) {
      var k :| 0 <= k < |s| && !p(s[k]);
      assert k in Misses(p, s);
    }
  }

  /** A run of kept elements behind `front`. */
  lemma FilterRun<T>(p: T -> bool, front: seq<T>, run: seq<T>)
    requires All(p, run)
    ensures Filter(p, front + run) == Filter(p, front) + run
    ensures Misses(p, front + run) == Misses(p, front)
  {
    FilterAll(p, run);
    FilterConcat(p, front, run);
    MissesConcat(p, front, run);
  }

  /** A run of kept elements behind `front`, then one miss. */
  lemma FilterRunThenMiss<T>(p: T -> bool, front: seq<T>, run: seq<T>, x: T)
    requires All(p, run) && !p(x)
    ensures Filter(p, front + run + [x]) == Filter(p, front) + run
    ensures Misses(p, front + run + [x]) == Misses(p, front) + [|front| + |run|]
  {
    FilterRun(p, front, run);
    FilterSnoc(p, front + run, x);
  }

  lemma FilterSnoc<T>(p: T -> bool, s: seq<T>, x: T)
    ensures Filter(p, s + [x]) == Filter(p, s) + if p(x) then [x] else []
    ensures Misses(p, s + [x]) == Misses(p, s) + if p(x) then [] else [|s|]
  {
    assert (s + [x])[..|s + [x]| - 1] == s;
  }

  function Both<T>(p: T -> bool, q: T -> bool): T -> bool {
    x => p(x) && q(x)
  }

  lemma {:induction false} FilterFilter<T>(p: T -> bool, q: T -> bool, s: seq<T>)
    ensures Filter(q, Filter(p, s)) == Filter(Both(p, q), s)
  {
    if s != [] {
      var n := |s| - 1;
      FilterFilter(p, q, s[..n]);
      if p(s[n]) {
        FilterConcat(q, Filter(p, s[..n]), [s[n]]);
        assert Filter(q, [s[n]]) == if q(s[n]) then [s[n]] else [] by {
          assert [s[n]][..0] == [];
        }
      }
    }
  }

  /** `a` can be obtained from `b` by dropping elements. */
  ghost predicate IsSubseq<T>(a: seq<T>, b: seq<T>) {
    if a == [] then true
    else if b == [] then false
    else (Last(a) == Last(b) && IsSubseq(a[..|a| - 1], b[..|b| - 1])) || IsSubseq(a, b[..|b| - 1])
  }

  /** Appending any filtering of `c` on the left and all of `c` on the right keeps a subsequence. */
  lemma {:induction false} SubseqAppend<T>(p: T -> bool, a: seq<T>, b: seq<T>, c: seq<T>)
    requires IsSubseq(a, b)
    ensures IsSubseq(a + Filter(p, c), b + c)
  {
    if c == [] {
      assert a + [] == a && b + c == b;
    } else {
      var n := |c| - 1;
      var l, r := a + Filter(p, c[..n]), b + c[..n];
      SubseqAppend(p, a, b, c[..n]);
      SubseqOneMore(p(c[n]), l, r, c[n]);
      assert b + c == r + [c[n]] && a + Filter(p, c) == if p(c[n]) then l + [c[n]] else l;
    }
  }

  lemma SubseqOneMore<T>(both: bool, a: seq<T>, b: seq<T>, x: T)
    requires IsSubseq(a, b)
    ensures IsSubseq(if both then a + [x] else a, b + [x])
  {
    assert (a + [x])[..|a|] == a && (b + [x])[..|b|] == b;
  }

  /** Extending the right-hand side keeps a subsequence. */
  lemma SubseqWiden<T>(a: seq<T>, b: seq<T>, c: seq<T>)
    requires IsSubseq(a, b)
    ensures IsSubseq(a, b + c)
  {
    SubseqAppend(x => false, a, b, c);
    assert Filter(x => false, c) == [] by { FilterNone(c); }
    assert a + [] == a;
  }

  lemma {:induction false} FilterNone<T>(c: seq<T>)
    ensures Filter((x: T) => false, c) == []
  {
    if c != [] {
      FilterNone(c[..|c| - 1]);
    }
  }

  lemma {:induction false} SubseqLength<T>(a: seq<T>, b: seq<T>)
    requires IsSubseq(a, b)
    ensures |a| <= |b|
    decreases |b|
  {
    if a != [] {
      if Last(a) == Last(b) && IsSubseq(a[..|a| - 1], b[..|b| - 1]) {
        SubseqLength(a[..|a| - 1], b[..|b| - 1]);
      } else {
        SubseqLength(a, b[..|b| - 1]);
      }
    }
  }

  lemma {:induction false} SubseqTrans<T>(a: seq<T>, b: seq<T>, c: seq<T>)
    requires IsSubseq(a, b) && IsSubseq(b, c)
    ensures IsSubseq(a, c)
    decreases |c|
  {
    if a != [] {
      if IsSubseq(b, c[..|c| - 1]) {
        SubseqTrans(a, b, c[..|c| - 1]);
      } else if IsSubseq(a, b[..|b| - 1]) {
        SubseqTrans(a, b[..|b| - 1], c[..|c| - 1]);
      } else {
        SubseqTrans(a[..|a| - 1], b[..|b| - 1], c[..|c| - 1]);
      }
    }
  }
}
