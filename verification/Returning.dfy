/**
 RETURNING INTO: where the values of a DML statement are put by the bind callbacks, and where the
 reading functions of a result set look for them.
 */
module Returning {
  import opened Offsets
  import opened Options
  import opened Words

  type ub2 = x: int | 0 <= x < 0x1_0000

  /**
   How a value is kept: in the cell itself, in a descriptor whose handle is in the cell, or behind a
   pointer OCI puts into the cell (objects, collections and references).
   */
  datatype Kind = Scalar | Descriptor | Slot

  /** sizeof(void *) */
  const ADDRESS_SIZE := 8

  /** `named`: a named type (SQLT_NTY), which has a second indicator array. */
  datatype Shape = Shape(kind: Kind, named: bool, bufsize: ub4)

  predicate ValidShape(s: Shape) {
    s.bufsize > 0 && (s.kind != Scalar ==> s.bufsize == ADDRESS_SIZE)
  }

  /** A column of a result set: its cells, lengths and indicators, at their addresses. */
  datatype Define = Define(shape: Shape, count: nat, data: nat, lens: nat, inds: nat, end: nat, handles: seq<nat>)

  datatype Resultset = Resultset(count: nat, defs: seq<Define>)

  /** What a callback hands to OCI: memory or a descriptor for the value, and the places of length and indicator. */
  datatype Target = Memory(at: nat) | Handle(handle: nat)
  datatype Given = Given(target: Target, lenAt: nat, indAt: nat)

  // -------------------------------------------------------------------------- the addresses

  function CellOf(d: Define, index: nat): Target
    requires index < |d.handles| == d.count
  {
    if d.shape.kind == Descriptor then Handle(d.handles[index])
    else Memory(d.data + (d.shape.bufsize * index) % U32)
  }

  /** What the out-bind callback gives for row `index`; offsets are 32-bit products. */
  function Give(d: Define, index: nat): Given
    requires index < |d.handles| == d.count
  {
    Given(CellOf(d, index), d.lens + (4 * index) % U32, d.inds + (2 * index) % U32)
  }

  /** Where OcilibDefineGetData finds the value of the current row: pointer-sized cells are indexed as an array. */
  function DataOf(d: Define, rowCur: nat): Target
    requires 1 <= rowCur <= |d.handles| == d.count
  {
    match d.shape.kind
    case Descriptor => Handle(d.handles[rowCur - 1])
    case Slot => Memory(d.data + ADDRESS_SIZE * (rowCur - 1))
    case Scalar => Memory(d.data + (d.shape.bufsize * (rowCur - 1)) % U32)
  }

  /** Where OcilibDefineIsDataNotNull looks for the indicator; a named type has its own indicator objects. */
  function IndicatorOf(d: Define, rowCur: nat): Option<nat>
    requires rowCur >= 1
  {
    if d.shape.named then None else Some(d.inds + 2 * (rowCur - 1))
  }

  /** The reading functions look at row index + 1 where the callback let OCI write row index. */
  lemma ReadsWhatWasGiven(d: Define, index: nat)
    requires ValidShape(d.shape) && index < |d.handles| == d.count
    ensures DataOf(d, index + 1) == CellOf(d, index) <==> (d.shape.kind == Slot ==> ADDRESS_SIZE * index < U32)
    ensures IndicatorOf(d, index + 1) == Some(Give(d, index).indAt) <==> !d.shape.named && 2 * index < U32
  {
    Wraps(ADDRESS_SIZE * index);
    Wraps(2 * index);
  }

  lemma Wraps(x: nat)
    ensures x % U32 == x <==> x < U32
  {
  }

  // ------------------------------------------------------------------------ the result sets

  predicate Wellformed(d: Define) {
    && ValidShape(d.shape) && |d.handles| == d.count
    && d.lens == d.data + d.shape.bufsize * d.count && d.inds == d.lens + 4 * d.count && d.end == d.inds + 2 * d.count
    && forall i, j :: 0 <= i < j < d.count ==> d.handles[i] != d.handles[j]
  }

  /** Two columns share no memory and no descriptor. */
  predicate DefinesApart(a: Define, b: Define) {
    && (a.end <= b.data || b.end <= a.data)
    && forall i, j :: 0 <= i < |a.handles| && 0 <= j < |b.handles| ==> a.handles[i] != b.handles[j]
  }

  /** No offset of a column of `count` rows wraps. */
  predicate NoWrap(d: Define) {
    LastFits(d.shape.bufsize, d.count) && LastFits(4, d.count)
  }

  /** `n` bytes from `a` on and `m` bytes from `b` on do not overlap. */
  predicate Apart(a: nat, n: nat, b: nat, m: nat) {
    a + n <= b || b + m <= a
  }

  /** The value, the length and the indicator of `g` are between these bounds: values, lengths, indicators. */
  predicate GivenIn(g: Given, size: nat, lo: nat, lens: nat, inds: nat, hi: nat) {
    && (g.target.Memory? ==> lo <= g.target.at && g.target.at + size <= lens)
    && lens <= g.lenAt && g.lenAt + 4 <= inds && inds <= g.indAt && g.indAt + 2 <= hi
  }

  /**
   What is given for a row is entry `index` of three arrays, one behind the other: the cells, or a
   descriptor; 4-byte lengths; and 2-byte indicators.
   */
  lemma GivenInside(d: Define, index: nat)
    requires Wellformed(d) && index < d.count && NoWrap(d)
    ensures var g, size := Give(d, index), d.shape.bufsize;
      && g.target == (if d.shape.kind == Descriptor then Handle(d.handles[index]) else Memory(d.data + size * index))
      && g.lenAt == d.data + size * d.count + 4 * index
      && g.indAt == d.data + size * d.count + 4 * d.count + 2 * index
      && GivenIn(g, size, d.data, d.lens, d.inds, d.end)
  {
    OffsetInside(d.shape.bufsize, index, d.count);
    OffsetInside(4, index, d.count);
    OffsetInside(2, index, d.count);
  }

  /** No part of `g` overlaps memory from `b` to `b + m`. */
  predicate ClearOf(g: Given, size: nat, b: nat, m: nat) {
    && (g.target.Memory? ==> Apart(g.target.at, size, b, m)) && Apart(g.lenAt, 4, b, m) && Apart(g.indAt, 2, b, m)
  }

  /**
   Nothing given for one row, of columns with values of these sizes, overlaps anything given for the other:
   values, lengths and indicators, also of one kind with another.
   */
  predicate GivenApart(g: Given, size: nat, h: Given, other: nat) {
    && (g.target.Handle? && h.target.Handle? ==> g.target.handle != h.target.handle)
    && (h.target.Memory? ==> ClearOf(g, size, h.target.at, other)) && ClearOf(g, size, h.lenAt, 4) && ClearOf(g, size, h.indAt, 2)
  }

  /** Nor do the value, the length and the indicator of one row overlap. */
  predicate GivenSound(g: Given, size: nat) {
    && (g.target.Memory? ==> Apart(g.target.at, size, g.lenAt, 4) && Apart(g.target.at, size, g.indAt, 2))
    && Apart(g.lenAt, 4, g.indAt, 2)
  }

  /** One row of a column. */
  lemma RowSound(d: Define, i: nat)
    requires Wellformed(d) && NoWrap(d) && i < d.count
    ensures GivenSound(Give(d, i), d.shape.bufsize)
  {
    GivenInside(d, i);
  }

  /** Two rows of one column. */
  lemma RowsApart(d: Define, i: nat, j: nat)
    requires Wellformed(d) && NoWrap(d) && i < j < d.count
    ensures GivenApart(Give(d, i), d.shape.bufsize, Give(d, j), d.shape.bufsize)
  {
    GivenInside(d, i);
    GivenInside(d, j);
    RowOffsets(d.shape.bufsize, i, j, d.count);
  }

  /** Rows of two columns. */
  lemma ColumnsApart(a: Define, b: Define, i: nat, j: nat)
    requires Wellformed(a) && Wellformed(b) && NoWrap(a) && NoWrap(b) && DefinesApart(a, b)
    requires i < a.count && j < b.count
    ensures GivenApart(Give(a, i), a.shape.bufsize, Give(b, j), b.shape.bufsize)
  {
    InsideBounds(a, i);
    InsideBounds(b, j);
    InsideApart(Give(a, i), a.shape.bufsize, a.data, a.lens, a.inds, a.end, Give(b, j), b.shape.bufsize, b.data, b.lens, b.inds, b.end);
  }

  lemma InsideBounds(d: Define, i: nat)
    requires Wellformed(d) && NoWrap(d) && i < d.count
    ensures GivenIn(Give(d, i), d.shape.bufsize, d.data, d.lens, d.inds, d.end)
    ensures Give(d, i).target.Handle? ==> Give(d, i).target.handle == d.handles[i]
  {
    GivenInside(d, i);
  }

  lemma InsideApart(g: Given, size: nat, lo: nat, lens: nat, inds: nat, hi: nat,
                    h: Given, other: nat, from: nat, otherLens: nat, otherInds: nat, to: nat)
    requires GivenIn(g, size, lo, lens, inds, hi) && GivenIn(h, other, from, otherLens, otherInds, to) && (hi <= from || to <= lo)
    requires lo <= lens && from <= otherLens && (g.target.Handle? && h.target.Handle? ==> g.target != h.target)
    ensures GivenApart(g, size, h, other)
  {
  }

  // ------------------------------------------------------------------------------- the lengths

  /**
   Where the functions that return the length of a value look for it: they take the array of lengths for one of
   2-byte numbers, as it is in a fetch, although the lengths of returned values have 4 bytes.
   */
  function LengthOf(d: Define, rowCur: nat): nat
    requires rowCur >= 1
  {
    d.lens + 2 * (rowCur - 1)
  }

  /** The length of a returned value is looked for where OCI put it if and only if it is that of the first row. */
  lemma LengthFoundIff(d: Define, index: nat)
    requires index < |d.handles| == d.count
    ensures LengthOf(d, index + 1) == Give(d, index).lenAt <==> index == 0
  {
  }

  /** For any other row they look into the length of the row in the middle before it. */
  lemma LengthOfOtherRow(d: Define, index: nat)
    requires Wellformed(d) && NoWrap(d) && 0 < index < d.count
    ensures index / 2 < index && Give(d, index / 2).lenAt <= LengthOf(d, index + 1) < LengthOf(d, index + 1) + 2 <= Give(d, index / 2).lenAt + 4
    ensures Apart(LengthOf(d, index + 1), 2, Give(d, index).lenAt, 4)
  {
    GivenInside(d, index);
    GivenInside(d, index / 2);
  }

  // -------------------------------------------------------------------------- the callbacks

  /** A registered bind: OCI_Bind. */
  class Bind {
    const shape: Shape
    var dynpos: ub2
    const inds: array<int>

    constructor (shape: Shape, count: nat)
      ensures this.shape == shape && dynpos == 0 && fresh(inds) && inds.Length == count
      ensures forall k :: 0 <= k < count ==> inds[k] == 0
    {
      this.shape, dynpos := shape, 0;
      inds := new int[count](_ => 0);
    }
  }

  /** The positions are the places of the binds in the RETURNING clause: each column has one bind. */
  ghost predicate Placed(binds: seq<Bind>)
    reads binds
  {
    && (forall b :: 0 <= b < |binds| ==> binds[b].dynpos < |binds| && ValidShape(binds[b].shape))
    && (forall b, c :: 0 <= b < c < |binds| ==> binds[b].dynpos != binds[c].dynpos)
  }

  class Statement {
    const nbIters: nat
    const binds: seq<Bind>
    var dynidx: ub2
    /** The result sets by iteration; no elements while no array is allocated. */
    var rsts: seq<Option<Resultset>>
    /** Memory and descriptor handles below these are in use. */
    var brk: nat
    var handles: nat

    constructor (nbIters: nat, binds: seq<Bind>)
      requires nbIters > 0
      ensures this.nbIters == nbIters && this.binds == binds && dynidx == 0 && rsts == [] && brk == handles == 0 && Valid()
    {
      this.nbIters, this.binds, dynidx, rsts, brk, handles := nbIters, binds, 0, [], 0, 0;
    }

    /** Result sets are wellformed, fit the statement, and share nothing with each other. */
    ghost predicate Valid()
      reads this
    {
      && nbIters > 0 && (rsts == [] || |rsts| == nbIters)
      && (forall i :: 0 <= i < |rsts| && rsts[i].Some? ==> Sound(rsts[i].value, |binds|, 0, brk, 0, handles))
      && (forall i, j :: 0 <= i < j < |rsts| && rsts[i].Some? && rsts[j].Some? ==>
            SetsApart(rsts[i].value, rsts[j].value))
    }

    /** OcilibCallbackInBind: no input, all values null; the first iteration fixes the bind's position. */
    method InBind(bnd: Bind, iter: nat)
      modifies this`dynidx, bnd`dynpos, bnd.inds
      ensures forall k :: 0 <= k < bnd.inds.Length ==> bnd.inds[k] == -1
      ensures bnd.dynpos == if iter == 0 then old(dynidx) else old(bnd.dynpos)
      ensures dynidx == if iter == 0 then (old(dynidx) + 1) % 0x1_0000 else old(dynidx)
    {
      var i := 0;
      while i < bnd.inds.Length
        invariant bnd.dynpos == old(bnd.dynpos) && dynidx == old(dynidx)
        invariant i <= bnd.inds.Length && forall k :: 0 <= k < i ==> bnd.inds[k] == -1
      {
        bnd.inds[i] := -1;
        i := i + 1;
      }
      if iter == 0 {
        bnd.dynpos := dynidx;
        dynidx := (dynidx + 1) % 0x1_0000;
      }
    }

    /** A column for `bnd`, in memory nobody uses yet. */
    method Allocate(bnd: Bind, size: nat) returns (d: Define)
      requires ValidShape(bnd.shape)
      modifies this`brk, this`handles
      ensures d.shape == bnd.shape && Within(d, size, old(brk), brk, old(handles), handles)
      ensures brk >= old(brk) && handles >= old(handles)
    {
      var lens := brk + bnd.shape.bufsize * size;
      var first := handles;
      d := Define(bnd.shape, size, brk, lens, lens + 4 * size, lens + 4 * size + 2 * size, seq(size, k => first + k));
      brk, handles := d.end, handles + size;
    }

    /** OcilibResultsetCreate: one column for every bind, at the bind's position. */
    method CreateResultset(size: nat) returns (rs: Resultset)
      requires Placed(binds)
      modifies this`brk, this`handles
      ensures rs.count == size && Sound(rs, |binds|, old(brk), brk, old(handles), handles)
      ensures Matches(rs, binds) && brk >= old(brk) && handles >= old(handles)
    {
      var defs: seq<Define> := seq(|binds|, _ => Define(Shape(Scalar, false, 1), 0, 0, 0, 0, 0, []));
      var b := 0;
      while b < |binds|
        invariant b <= |binds| == |defs| && brk >= old(brk) && handles >= old(handles)
        invariant FilledBy(defs, binds[..b], size, old(brk), brk, old(handles), handles)
      {
        defs := FillColumn(defs, b, size, old(brk), old(handles));
        b := b + 1;
      }
      assert binds[..b] == binds;
      AllFilled(defs, binds, size, old(brk), brk, old(handles), handles);
      rs := Resultset(size, defs);
    }

    method FillColumn(defs: seq<Define>, b: nat, size: nat, ghost lo: nat, ghost first: nat) returns (filled: seq<Define>)
      requires Placed(binds) && b < |binds| == |defs| && lo <= brk && first <= handles
      requires FilledBy(defs, binds[..b], size, lo, brk, first, handles)
      modifies this`brk, this`handles
      ensures |filled| == |defs| && brk >= old(brk) && handles >= old(handles)
      ensures FilledBy(filled, binds[..b + 1], size, lo, brk, first, handles)
    {
      ghost var mid, between := brk, handles;
      var d := Allocate(binds[b], size);
      FillOne(defs, binds, b, size, lo, mid, brk, first, between, handles, d);
      filled := defs[binds[b].dynpos := d];
    }

    /** The result set of an iteration, made when there is none. */
    method Open(iter: nat, rows: nat)
      requires Valid() && Placed(binds) && iter < nbIters
      requires forall i :: 0 <= i < |rsts| && rsts[i].Some? ==> Matches(rsts[i].value, binds)
      requires rsts != [] && rsts[iter].Some? ==> rsts[iter].value.count == rows
      modifies this`rsts, this`brk, this`handles
      ensures Valid() && |rsts| == nbIters && rsts[iter].Some? && rsts[iter].value.count == rows
      ensures forall i :: 0 <= i < |rsts| && rsts[i].Some? ==> Matches(rsts[i].value, binds)
      ensures Grew(old(rsts), rsts, iter)
    {
      if rsts == [] {
        rsts := seq(nbIters, _ => None);
      }
      if rsts[iter].None? {
        ghost var lo, first := brk, handles;
        var rs := CreateResultset(rows);
        NewSetApart(rsts, rs, |binds|, lo, brk, first, handles);
        rsts := rsts[iter := Some(rs)];
      }
    }

    /**
     OcilibCallbackOutBind. `rows` is what OCI says the iteration returns. An iteration gets its result
     set at the first call for its row 0, and keeps it; a call for a later row before that fails.
     */
    method OutBind(bnd: Bind, iter: nat, index: nat, rows: nat) returns (given: Option<Given>)
      requires Valid() && Placed(binds) && bnd in binds && iter < nbIters && index < rows
      requires forall i :: 0 <= i < |rsts| && rsts[i].Some? ==> Matches(rsts[i].value, binds)
      requires rsts != [] && rsts[iter].Some? ==> rsts[iter].value.count == rows
      modifies this`rsts, this`brk, this`handles
      ensures Valid()
      ensures forall i :: 0 <= i < |rsts| && rsts[i].Some? ==> Matches(rsts[i].value, binds)
      ensures given.None? <==> index > 0 && (old(rsts) == [] || old(rsts)[iter].None?)
      ensures given.None? ==> rsts == old(rsts)
      ensures given.Some? ==>
        && |rsts| == nbIters && rsts[iter].Some? && rsts[iter].value.count == rows
        && given.value == Give(rsts[iter].value.defs[bnd.dynpos], index)
      ensures Grew(old(rsts), rsts, iter)
    {
      if index == 0 {
        Open(iter, rows);
      }
      if rsts == [] || rsts[iter].None? {
        return None;
      }
      return Some(Give(rsts[iter].value.defs[bnd.dynpos], index));
    }
  }

  /** At most one result set was added, for iteration `iter`, and none was replaced. */
  predicate Grew(before: seq<Option<Resultset>>, after: seq<Option<Resultset>>, iter: nat) {
    && |before| <= |after| && (before == [] || |before| == |after|)
    && (forall i :: 0 <= i < |before| && before[i].Some? ==> after[i] == before[i])
    && forall i :: 0 <= i < |after| && i != iter && (before == [] || before[i].None?) ==> after[i].None?
  }

  /** A new result set shares nothing with those there are. */
  lemma NewSetApart(rsts: seq<Option<Resultset>>, rs: Resultset, columns: nat, lo: nat, hi: nat, first: nat, next: nat)
    requires lo <= hi && first <= next && Sound(rs, columns, lo, hi, first, next)
    requires forall i :: 0 <= i < |rsts| && rsts[i].Some? ==> Sound(rsts[i].value, columns, 0, lo, 0, first)
    ensures Sound(rs, columns, 0, hi, 0, next)
    ensures forall i :: 0 <= i < |rsts| && rsts[i].Some? ==>
      Sound(rsts[i].value, columns, 0, hi, 0, next) && SetsApart(rsts[i].value, rs) && SetsApart(rs, rsts[i].value)
  {
    SoundWidens(rs, columns, lo, hi, first, next, hi, next);
    forall i | 0 <= i < |rsts| && rsts[i].Some?
      ensures Sound(rsts[i].value, columns, 0, hi, 0, next) && SetsApart(rsts[i].value, rs) && SetsApart(rs, rsts[i].value)
    {
      SoundWidens(rsts[i].value, columns, 0, lo, 0, first, hi, next);
      BehindApart(rsts[i].value, rs, columns, lo, hi, first, next);
    }
  }

  lemma SoundWidens(rs: Resultset, columns: nat, lo: nat, hi: nat, first: nat, next: nat, to: nat, upTo: nat)
    requires Sound(rs, columns, lo, hi, first, next) && hi <= to && next <= upTo
    ensures Sound(rs, columns, 0, to, 0, upTo)
  {
    forall d | 0 <= d < |rs.defs| ensures Within(rs.defs[d], rs.count, 0, to, 0, upTo) {
      assert Within(rs.defs[d], rs.count, lo, hi, first, next);
    }
  }

  lemma BehindApart(a: Resultset, b: Resultset, columns: nat, mid: nat, hi: nat, between: nat, next: nat)
    requires Sound(a, columns, 0, mid, 0, between) && Sound(b, columns, mid, hi, between, next)
    ensures SetsApart(a, b) && SetsApart(b, a)
  {
    forall d, e | 0 <= d < |a.defs| && 0 <= e < |b.defs|
      ensures DefinesApart(a.defs[d], b.defs[e]) && DefinesApart(b.defs[e], a.defs[d])
    {
      assert Within(a.defs[d], a.count, 0, mid, 0, between) && Within(b.defs[e], b.count, mid, hi, between, next);
    }
  }

  /** The columns of a result set, within the memory and the handles given. */
  ghost predicate Sound(rs: Resultset, columns: nat, lo: nat, hi: nat, first: nat, next: nat) {
    && |rs.defs| == columns
    && (forall d :: 0 <= d < |rs.defs| ==> Within(rs.defs[d], rs.count, lo, hi, first, next))
    && (forall d, e :: 0 <= d < e < |rs.defs| ==> DefinesApart(rs.defs[d], rs.defs[e]))
  }

  ghost predicate Within(d: Define, count: nat, lo: nat, hi: nat, first: nat, next: nat) {
    && Wellformed(d) && d.count == count && lo <= d.data && d.end <= hi
    && forall k :: 0 <= k < |d.handles| ==> first <= d.handles[k] < next
  }

  ghost predicate SetsApart(a: Resultset, b: Resultset) {
    forall d, e :: 0 <= d < |a.defs| && 0 <= e < |b.defs| ==> DefinesApart(a.defs[d], b.defs[e])
  }

  ghost predicate Matches(rs: Resultset, binds: seq<Bind>)
    reads binds
  {
    forall b :: 0 <= b < |binds| ==> binds[b].dynpos < |rs.defs| && rs.defs[binds[b].dynpos].shape == binds[b].shape
  }

  /** The columns of the binds `front` are filled, and share nothing. */
  ghost predicate FilledBy(defs: seq<Define>, front: seq<Bind>, size: nat, lo: nat, hi: nat, first: nat, next: nat)
    reads front
  {
    && (forall b :: 0 <= b < |front| ==> front[b].dynpos < |defs| && defs[front[b].dynpos].shape == front[b].shape)
    && (forall b :: 0 <= b < |front| ==> Within(defs[front[b].dynpos], size, lo, hi, first, next))
    && (forall b, c :: 0 <= b < c < |front| ==> DefinesApart(defs[front[b].dynpos], defs[front[c].dynpos]))
  }

  /** A column in memory behind the others joins them. */
  lemma FillOne(defs: seq<Define>, binds: seq<Bind>, b: nat, size: nat, lo: nat, mid: nat, hi: nat,
                first: nat, between: nat, next: nat, d: Define)
    requires Placed(binds) && b < |binds| == |defs| && lo <= mid <= hi && first <= between <= next
    requires FilledBy(defs, binds[..b], size, lo, mid, first, between)
    requires d.shape == binds[b].shape && Within(d, size, mid, hi, between, next)
    ensures FilledBy(defs[binds[b].dynpos := d], binds[..b + 1], size, lo, hi, first, next)
  {
    var after := defs[binds[b].dynpos := d];
    forall c | 0 <= c < b
      ensures after[binds[c].dynpos] == defs[binds[c].dynpos] && DefinesApart(after[binds[c].dynpos], d)
      ensures Within(after[binds[c].dynpos], size, lo, hi, first, next)
    {
      assert binds[..b][c] == binds[c];
    }
  }

  /** With as many binds as columns, every column is filled. */
  lemma AllFilled(defs: seq<Define>, binds: seq<Bind>, size: nat, lo: nat, hi: nat, first: nat, next: nat)
    requires Placed(binds) && |binds| == |defs| && FilledBy(defs, binds, size, lo, hi, first, next)
    ensures Sound(Resultset(size, defs), |binds|, lo, hi, first, next)
  {
    var pos := seq(|binds|, b requires 0 <= b < |binds| reads binds => binds[b].dynpos as nat);
    Onto(pos);
    forall d | 0 <= d < |defs|
      ensures Within(defs[d], size, lo, hi, first, next)
    {
      var b := BindAt(pos, d);
    }
    forall d, e | 0 <= d < e < |defs|
      ensures DefinesApart(defs[d], defs[e])
    {
      var b := BindAt(pos, d);
      var c := BindAt(pos, e);
    }
  }

  lemma BindAt(pos: seq<nat>, d: nat) returns (b: nat)
    requires d in pos
    ensures b < |pos| && pos[b] == d
  {
    b :| 0 <= b < |pos| && pos[b] == d;
  }

  /** Distinct numbers below their number are all the numbers below it. */
  lemma Onto(pos: seq<nat>)
    requires forall i :: 0 <= i < |pos| ==> pos[i] < |pos|
    requires forall i, j :: 0 <= i < j < |pos| ==> pos[i] != pos[j]
    ensures forall d: nat :: d < |pos| ==> d in pos
  {
    DistinctCount(pos);
    SameSize(Image(pos), Numbers(|pos|));
  }

  function Image(pos: seq<nat>): (s: set<nat>)
    ensures forall d :: d in s <==> d in pos
  {
    if pos == [] then {} else Image(pos[..|pos| - 1]) + {pos[|pos| - 1]}
  }

  function Numbers(n: nat): (s: set<nat>)
    ensures |s| == n && forall d: nat :: d in s <==> d < n
  {
    if n == 0 then {} else Numbers(n - 1) + {n - 1}
  }

  lemma {:induction false} DistinctCount(pos: seq<nat>)
    requires forall i, j :: 0 <= i < j < |pos| ==> pos[i] != pos[j]
    ensures |Image(pos)| == |pos|
  {
    if pos != [] {
      DistinctCount(pos[..|pos| - 1]);
    }
  }

  lemma SameSize<T>(a: set<T>, b: set<T>)
    requires a <= b && |a| == |b|
    ensures a == b
  {
    assert b == a + (b - a);
  }

  // ---------------------------------------------------------------- positions over executions

  /** Every bind is called once: the clause names each of the `n` binds once. */
  predicate IsClause(clause: seq<nat>, n: nat) {
    && |clause| == n
    && (forall k :: 0 <= k < n ==> clause[k] < n)
    && forall j, k :: 0 <= j < k < n ==> clause[j] != clause[k]
  }

  /** The positions `pos` the binds get from the calls of one execution when the counter is at `dynidx`. */
  ghost predicate Positioned(pos: seq<nat>, clause: seq<nat>, dynidx: nat) {
    IsClause(clause, |pos|) && forall k :: 0 <= k < |clause| ==> pos[clause[k]] == (dynidx + k) % 0x1_0000
  }

  /**
   The positions are columns of the result set, and distinct, if and only if the counter was at 0: it is
   set back by preparing the statement, not by executing it again.
   */
  lemma PlacedOnlyOnce(pos: seq<nat>, clause: seq<nat>, dynidx: ub2)
    requires Positioned(pos, clause, dynidx) && 0 < |pos| < 0x1_0000
    ensures (forall b :: 0 <= b < |pos| ==> pos[b] < |pos|) <==> dynidx == 0
    ensures dynidx == 0 ==> IsClause(pos, |pos|)
  {
    Onto(clause);
    var z := if dynidx + |pos| <= 0x1_0000 then |pos| - 1 else 0xFFFF - dynidx;
    assert pos[clause[z]] == dynidx + z;
    if dynidx == 0 {
      forall b | 0 <= b < |pos|
        ensures pos[b] < |pos| && clause[pos[b]] == b
      {
        assert b in clause;
        var k :| 0 <= k < |clause| && clause[k] == b;
      }
    }
  }

  // ------------------------------------------------------------------------ a whole execution

  /** A call of the out-bind callback. */
  datatype OutCall = OutCall(bnd: nat, iter: nat, index: nat)

  /** What OCI may ask: any binds, iterations and rows there are, in any order. */
  predicate Askable(order: seq<OutCall>, n: nat, rowsOf: seq<nat>) {
    forall k :: 0 <= k < |order| ==>
      order[k].bnd < n && order[k].iter < |rowsOf| && order[k].index < rowsOf[order[k].iter]
  }

  /** Row 0 of an iteration is asked for among the calls before call `k`. */
  ghost predicate Opened(order: seq<OutCall>, k: nat, iter: nat)
    requires k <= |order|
  {
    exists j :: 0 <= j < k && order[j].iter == iter && order[j].index == 0
  }

  ghost predicate BindsDistinct(binds: seq<Bind>) {
    forall b, c :: 0 <= b < c < |binds| ==> binds[b] != binds[c] && binds[b].inds != binds[c].inds
  }

  /** The in-bind calls of the first iteration, in the order of the clause. */
  method PlaceBinds(stmt: Statement, clause: seq<nat>)
    requires IsClause(clause, |stmt.binds|) && BindsDistinct(stmt.binds)
    modifies stmt`dynidx, stmt.binds, set b | 0 <= b < |stmt.binds| :: stmt.binds[b].inds
    ensures stmt.dynidx == (old(stmt.dynidx) + |clause|) % 0x1_0000
    ensures Positioned(PositionsOf(stmt.binds), clause, old(stmt.dynidx))
  {
    var k := 0;
    while k < |clause|
      invariant k <= |clause| && stmt.dynidx == (old(stmt.dynidx) + k) % 0x1_0000
      invariant forall j :: 0 <= j < k ==> stmt.binds[clause[j]].dynpos == (old(stmt.dynidx) + j) % 0x1_0000
    {
      assert forall j :: 0 <= j < k ==> stmt.binds[clause[j]] != stmt.binds[clause[k]];
      stmt.InBind(stmt.binds[clause[k]], 0);
      k := k + 1;
    }
  }

  ghost function PositionsOf(binds: seq<Bind>): (pos: seq<nat>)
    reads binds
    ensures |pos| == |binds| && forall b :: 0 <= b < |binds| ==> pos[b] == binds[b].dynpos
  {
    seq(|binds|, b requires 0 <= b < |binds| reads binds => binds[b].dynpos as nat)
  }

  /** The answer to a call: nothing, or the place of its row in the column of its bind. */
  ghost predicate Answers(rsts: seq<Option<Resultset>>, pos: seq<nat>, call: OutCall, given: Option<Given>) {
    given.Some? ==>
      && call.iter < |rsts| && rsts[call.iter].Some? && call.bnd < |pos|
      && var rs := rsts[call.iter].value;
         pos[call.bnd] < |rs.defs| && GivenFor(rs.defs[pos[call.bnd]], call.index, given.value)
  }

  ghost predicate GivenFor(d: Define, index: nat, given: Given) {
    index < |d.handles| == d.count && given == Give(d, index)
  }

  /** The calls in `order` up to those answered by `gives`, and the result sets they led to. */
  ghost predicate Asked(rsts: seq<Option<Resultset>>, iters: nat, pos: seq<nat>, order: seq<OutCall>, gives: seq<Option<Given>>) {
    && |gives| <= |order| && (rsts == [] || |rsts| == iters)
    && (forall i :: 0 <= i < iters ==> (rsts != [] && rsts[i].Some? <==> Opened(order, |gives|, i)))
    && (forall k :: 0 <= k < |gives| ==> (gives[k].None? <==> order[k].index > 0 && !Opened(order, k, order[k].iter)))
    && forall k :: 0 <= k < |gives| ==> Answers(rsts, pos, order[k], gives[k])
  }

  lemma AskedOneMore(before: seq<Option<Resultset>>, after: seq<Option<Resultset>>, iters: nat, pos: seq<nat>,
                     order: seq<OutCall>, gives: seq<Option<Given>>, given: Option<Given>)
    requires Asked(before, iters, pos, order, gives) && |gives| < |order| && order[|gives|].iter < iters
    requires Grew(before, after, order[|gives|].iter) && (after == [] || |after| == iters)
    requires given.None? <==> order[|gives|].index > 0 && (before == [] || before[order[|gives|].iter].None?)
    requires given.None? ==> after == before
    requires Answers(after, pos, order[|gives|], given)
    requires order[|gives|].index > 0 ==> after == before
    ensures Asked(after, iters, pos, order, gives + [given])
  {
    OpenedOneMore(before, after, iters, order, |gives|, |gives + [given]|, given.Some?);
    forall k | 0 <= k < |gives|
      ensures Answers(after, pos, order[k], gives[k])
    {
      assert Answers(before, pos, order[k], gives[k]);
    }
  }

  lemma OpenedNext(order: seq<OutCall>, n: nat, i: nat)
    requires n < |order|
    ensures Opened(order, n + 1, i) <==> Opened(order, n, i) || (order[n].iter == i && order[n].index == 0)
  {
    if Opened(order, n, i) {
      var j :| 0 <= j < n && order[j].iter == i && order[j].index == 0;
      assert j < n + 1;
    }
  }

  lemma OpenedOneMore(before: seq<Option<Resultset>>, after: seq<Option<Resultset>>, iters: nat, order: seq<OutCall>, n: nat,
                      m: nat, given: bool)
    requires m == n + 1 && n < |order| && order[n].iter < iters && (before == [] || |before| == iters) && (after == [] || |after| == iters)
    requires forall i :: 0 <= i < iters ==> (before != [] && before[i].Some? <==> Opened(order, n, i))
    requires Grew(before, after, order[n].iter)
    requires given ==> after != [] && after[order[n].iter].Some?
    requires !given <==> order[n].index > 0 && (before == [] || before[order[n].iter].None?)
    requires order[n].index > 0 ==> after == before
    ensures forall i :: 0 <= i < iters ==> (after != [] && after[i].Some? <==> Opened(order, m, i))
  {
    forall i | 0 <= i < iters
      ensures after != [] && after[i].Some? <==> Opened(order, m, i)
    {
      OpenedNext(order, n, i);
    }
  }

  /**
   The out-bind calls of an execution, in whatever order OCI makes them. A call fails exactly when it is
   for a later row of an iteration whose row 0 nobody asked for yet; the others get the place of their
   row in the column of their bind.
   */
  method GivePlaces(stmt: Statement, rowsOf: seq<nat>, order: seq<OutCall>) returns (gives: seq<Option<Given>>)
    requires stmt.Valid() && Placed(stmt.binds) && stmt.rsts == [] && |rowsOf| == stmt.nbIters
    requires Askable(order, |stmt.binds|, rowsOf)
    modifies stmt`rsts, stmt`brk, stmt`handles
    ensures stmt.Valid() && |gives| == |order|
    ensures Asked(stmt.rsts, stmt.nbIters, PositionsOf(stmt.binds), order, gives)
    ensures CountsAre(stmt.rsts, stmt.binds, rowsOf)
  {
    gives := [];
    while |gives| < |order|
      invariant |gives| <= |order| && stmt.Valid() && CountsAre(stmt.rsts, stmt.binds, rowsOf)
      invariant Asked(stmt.rsts, stmt.nbIters, PositionsOf(stmt.binds), order, gives)
    {
      var call := order[|gives|];
      ghost var before := stmt.rsts;
      var given := stmt.OutBind(stmt.binds[call.bnd], call.iter, call.index, rowsOf[call.iter]);
      AskedOneMore(before, stmt.rsts, stmt.nbIters, PositionsOf(stmt.binds), order, gives, given);
      gives := gives + [given];
    }
  }

  ghost predicate CountsAre(rsts: seq<Option<Resultset>>, binds: seq<Bind>, rowsOf: seq<nat>)
    reads binds
  {
    |rsts| <= |rowsOf| && forall i :: 0 <= i < |rsts| && rsts[i].Some? ==> Matches(rsts[i].value, binds) && rsts[i].value.count == rowsOf[i]
  }

  /** No offset of any column wraps. */
  predicate Small(binds: seq<Bind>, rowsOf: seq<nat>) {
    forall b, i :: 0 <= b < |binds| && 0 <= i < |rowsOf| ==> LastFits(binds[b].shape.bufsize, rowsOf[i]) && LastFits(4, rowsOf[i])
  }

  /** The column the answer to a call is in. */
  ghost predicate ColumnFor(stmt: Statement, call: OutCall, d: Define)
    requires call.bnd < |stmt.binds| && call.iter < |stmt.rsts| && stmt.rsts[call.iter].Some?
    reads stmt, stmt.binds
  {
    && stmt.binds[call.bnd].dynpos < |stmt.rsts[call.iter].value.defs|
    && d == stmt.rsts[call.iter].value.defs[stmt.binds[call.bnd].dynpos]
  }

  lemma AnsweredIn(stmt: Statement, rowsOf: seq<nat>, order: seq<OutCall>, gives: seq<Option<Given>>, k: nat) returns (d: Define)
    requires stmt.Valid() && Placed(stmt.binds) && |rowsOf| == stmt.nbIters && Askable(order, |stmt.binds|, rowsOf)
    requires Asked(stmt.rsts, stmt.nbIters, PositionsOf(stmt.binds), order, gives)
    requires CountsAre(stmt.rsts, stmt.binds, rowsOf) && Small(stmt.binds, rowsOf)
    requires k < |gives| && gives[k].Some?
    ensures order[k].iter < |stmt.rsts| && stmt.rsts[order[k].iter].Some? && ColumnFor(stmt, order[k], d)
    ensures d.shape == stmt.binds[order[k].bnd].shape && Wellformed(d) && NoWrap(d)
    ensures order[k].index < d.count && gives[k].value == Give(d, order[k].index)
  {
    assert Answers(stmt.rsts, PositionsOf(stmt.binds), order[k], gives[k]);
    var rs := stmt.rsts[order[k].iter].value;
    d := rs.defs[stmt.binds[order[k].bnd].dynpos];
    assert Within(d, rs.count, 0, stmt.brk, 0, stmt.handles);
  }

  /** The answers to two different calls do not overlap. */
  lemma AnswersApart(stmt: Statement, rowsOf: seq<nat>, order: seq<OutCall>, gives: seq<Option<Given>>, j: nat, k: nat)
    requires stmt.Valid() && Placed(stmt.binds) && |rowsOf| == stmt.nbIters && Askable(order, |stmt.binds|, rowsOf)
    requires Asked(stmt.rsts, stmt.nbIters, PositionsOf(stmt.binds), order, gives)
    requires CountsAre(stmt.rsts, stmt.binds, rowsOf) && Small(stmt.binds, rowsOf)
    requires j < |gives| && k < |gives| && gives[j].Some? && gives[k].Some? && order[j] != order[k]
    ensures GivenApart(gives[j].value, stmt.binds[order[j].bnd].shape.bufsize, gives[k].value, stmt.binds[order[k].bnd].shape.bufsize)
  {
    var d := AnsweredIn(stmt, rowsOf, order, gives, j);
    var e := AnsweredIn(stmt, rowsOf, order, gives, k);
    if order[j].iter == order[k].iter && order[j].bnd == order[k].bnd {
      assert d == e;
      if order[j].index < order[k].index {
        RowsApart(d, order[j].index, order[k].index);
      } else {
        RowsApart(d, order[k].index, order[j].index);
      }
    } else {
      ColumnsOfCalls(stmt, order[j], order[k], d, e);
      ColumnsApart(d, e, order[j].index, order[k].index);
    }
  }

  lemma ColumnsOfCalls(stmt: Statement, p: OutCall, q: OutCall, d: Define, e: Define)
    requires stmt.Valid() && Placed(stmt.binds) && p.bnd < |stmt.binds| && q.bnd < |stmt.binds|
    requires p.iter < |stmt.rsts| && stmt.rsts[p.iter].Some? && q.iter < |stmt.rsts| && stmt.rsts[q.iter].Some?
    requires ColumnFor(stmt, p, d) && ColumnFor(stmt, q, e) && (p.iter != q.iter || p.bnd != q.bnd)
    ensures DefinesApart(d, e)
  {
    var a, b := stmt.binds[p.bnd].dynpos, stmt.binds[q.bnd].dynpos;
    if p.iter < q.iter {
      assert SetsApart(stmt.rsts[p.iter].value, stmt.rsts[q.iter].value);
    } else if q.iter < p.iter {
      assert SetsApart(stmt.rsts[q.iter].value, stmt.rsts[p.iter].value);
      assert DefinesApart(e, d);
    } else {
      var rs := stmt.rsts[p.iter].value;
      assert Sound(rs, |stmt.binds|, 0, stmt.brk, 0, stmt.handles);
      assert a != b;
      assert if a < b then DefinesApart(rs.defs[a], rs.defs[b]) else DefinesApart(rs.defs[b], rs.defs[a]);
    }
  }

  /** OcilibDefineGetData and, but for a named type, OcilibDefineIsDataNotNull look where OCI wrote. */
  ghost predicate ReadsBack(stmt: Statement, call: OutCall, given: Given)
    requires call.bnd < |stmt.binds|
    reads stmt, stmt.binds
  {
    && call.iter < |stmt.rsts| && stmt.rsts[call.iter].Some?
    && exists d :: ColumnFor(stmt, call, d) && ReadsFrom(d, call.index, given)
  }

  predicate ReadsFrom(d: Define, index: nat, given: Given) {
    && index < |d.handles| == d.count && DataOf(d, index + 1) == given.target
    && (!d.shape.named ==> IndicatorOf(d, index + 1) == Some(given.indAt))
  }

  lemma AnswerReadsBack(stmt: Statement, rowsOf: seq<nat>, order: seq<OutCall>, gives: seq<Option<Given>>, k: nat)
    requires stmt.Valid() && Placed(stmt.binds) && |rowsOf| == stmt.nbIters && Askable(order, |stmt.binds|, rowsOf)
    requires Asked(stmt.rsts, stmt.nbIters, PositionsOf(stmt.binds), order, gives)
    requires CountsAre(stmt.rsts, stmt.binds, rowsOf) && Small(stmt.binds, rowsOf)
    requires k < |gives| && gives[k].Some?
    ensures ReadsBack(stmt, order[k], gives[k].value) && GivenSound(gives[k].value, stmt.binds[order[k].bnd].shape.bufsize)
  {
    var d := AnsweredIn(stmt, rowsOf, order, gives, k);
    ReadsWhatWasGiven(d, order[k].index);
    OffsetInside(d.shape.bufsize, order[k].index, d.count);
    OffsetInside(2, order[k].index, d.count);
    RowSound(d, order[k].index);
    assert ReadsFrom(d, order[k].index, gives[k].value);
  }

  lemma PlacedFirst(binds: seq<Bind>, clause: seq<nat>)
    requires Positioned(PositionsOf(binds), clause, 0) && 0 < |binds| < 0x1_0000
    requires forall b :: 0 <= b < |binds| ==> ValidShape(binds[b].shape)
    ensures Placed(binds) && forall k :: 0 <= k < |clause| ==> binds[clause[k]].dynpos == k
  {
    PlacedOnlyOnce(PositionsOf(binds), clause, 0);
    assert forall b :: 0 <= b < |binds| ==> PositionsOf(binds)[b] == binds[b].dynpos;
  }

  /**
   A first execution: the binds get the places of the clause, whatever order they were registered in; the
   answers to different calls do not overlap; and the reading functions, on row index + 1 of the result
   set of an iteration, look exactly where OCI was told to write row index of the bind. No value, length or
   indicator overlaps another, of the same row or of any other.
   */
  method Execute(stmt: Statement, clause: seq<nat>, rowsOf: seq<nat>, order: seq<OutCall>) returns (gives: seq<Option<Given>>)
    requires stmt.Valid() && stmt.dynidx == 0 && stmt.rsts == [] && |rowsOf| == stmt.nbIters
    requires IsClause(clause, |stmt.binds|) && 0 < |clause| < 0x1_0000 && BindsDistinct(stmt.binds)
    requires forall b :: 0 <= b < |stmt.binds| ==> ValidShape(stmt.binds[b].shape)
    requires Askable(order, |stmt.binds|, rowsOf) && Small(stmt.binds, rowsOf)
    modifies stmt, stmt.binds, set b | 0 <= b < |stmt.binds| :: stmt.binds[b].inds
    ensures stmt.Valid() && |gives| == |order|
    ensures forall k :: 0 <= k < |clause| ==> stmt.binds[clause[k]].dynpos == k
    ensures forall k :: 0 <= k < |order| ==> (gives[k].None? <==> order[k].index > 0 && !Opened(order, k, order[k].iter))
    ensures forall j, k :: 0 <= j < k < |order| && gives[j].Some? && gives[k].Some? && order[j] != order[k] ==>
      GivenApart(gives[j].value, stmt.binds[order[j].bnd].shape.bufsize, gives[k].value, stmt.binds[order[k].bnd].shape.bufsize)
    ensures forall k :: 0 <= k < |order| && gives[k].Some? ==> ReadsBack(stmt, order[k], gives[k].value)
    ensures forall k :: 0 <= k < |order| && gives[k].Some? ==> GivenSound(gives[k].value, stmt.binds[order[k].bnd].shape.bufsize)
  {
    PlaceBinds(stmt, clause);
    PlacedFirst(stmt.binds, clause);
    gives := GivePlaces(stmt, rowsOf, order);
    AllApart(stmt, rowsOf, order, gives);
    AllReadBack(stmt, rowsOf, order, gives);
  }

  /**
   A statement that is prepared, gets its binds, and is executed once. `clause` names each bind once, and OCI
   asks for rows there are, in columns whose offsets do not wrap.
   */
  method RegisterAndExecute(shapes: seq<Shape>, clause: seq<nat>, rowsOf: seq<nat>, order: seq<OutCall>)
    returns (stmt: Statement, gives: seq<Option<Given>>)
    requires 0 < |shapes| == |clause| < 0x1_0000 && |rowsOf| > 0
    requires forall b :: 0 <= b < |shapes| ==> shapes[b].bufsize > 0 && (shapes[b].kind == Scalar || shapes[b].bufsize == 8)
    requires forall k :: 0 <= k < |clause| ==> clause[k] < |shapes|
    requires forall j, k :: 0 <= j < k < |clause| ==> clause[j] != clause[k]
    requires forall k :: 0 <= k < |order| ==>
      order[k].bnd < |shapes| && order[k].iter < |rowsOf| && order[k].index < rowsOf[order[k].iter]
    requires forall b, i :: 0 <= b < |shapes| && 0 <= i < |rowsOf| && rowsOf[i] > 0 ==>
      shapes[b].bufsize * (rowsOf[i] - 1) < U32 && 4 * (rowsOf[i] - 1) < U32
    ensures fresh(stmt) && stmt.Valid() && |gives| == |order| && |stmt.binds| == |shapes|
    ensures forall b :: 0 <= b < |shapes| ==> stmt.binds[b].shape == shapes[b]
    ensures forall k :: 0 <= k < |clause| ==> stmt.binds[clause[k]].dynpos == k
    ensures forall k :: 0 <= k < |order| ==> (gives[k].None? <==> order[k].index > 0 && !Opened(order, k, order[k].iter))
    ensures forall j, k :: 0 <= j < k < |order| && gives[j].Some? && gives[k].Some? && order[j] != order[k] ==>
      GivenApart(gives[j].value, shapes[order[j].bnd].bufsize, gives[k].value, shapes[order[k].bnd].bufsize)
    ensures forall k :: 0 <= k < |order| && gives[k].Some? ==>
      ReadsBack(stmt, order[k], gives[k].value) && GivenSound(gives[k].value, shapes[order[k].bnd].bufsize)
  {
    var binds := RegisterBinds(shapes);
    stmt := new Statement(|rowsOf|, binds);
    gives := Execute(stmt, clause, rowsOf, order);
  }

  method RegisterBinds(shapes: seq<Shape>) returns (binds: seq<Bind>)
    ensures |binds| == |shapes| && fresh(binds) && BindsDistinct(binds)
    ensures forall b :: 0 <= b < |binds| ==> binds[b].shape == shapes[b] && fresh(binds[b].inds) && binds[b].dynpos == 0
  {
    binds := [];
    while |binds| < |shapes|
      invariant |binds| <= |shapes| && fresh(binds) && BindsDistinct(binds)
      invariant forall b :: 0 <= b < |binds| ==> binds[b].shape == shapes[b] && fresh(binds[b].inds) && binds[b].dynpos == 0
    {
      var bnd := new Bind(shapes[|binds|], 1);
      binds := binds + [bnd];
    }
  }

  lemma AllApart(stmt: Statement, rowsOf: seq<nat>, order: seq<OutCall>, gives: seq<Option<Given>>)
    requires stmt.Valid() && Placed(stmt.binds) && |rowsOf| == stmt.nbIters && Askable(order, |stmt.binds|, rowsOf)
    requires Asked(stmt.rsts, stmt.nbIters, PositionsOf(stmt.binds), order, gives) && |gives| == |order|
    requires CountsAre(stmt.rsts, stmt.binds, rowsOf) && Small(stmt.binds, rowsOf)
    ensures forall j, k :: 0 <= j < k < |order| && gives[j].Some? && gives[k].Some? && order[j] != order[k] ==>
      GivenApart(gives[j].value, stmt.binds[order[j].bnd].shape.bufsize, gives[k].value, stmt.binds[order[k].bnd].shape.bufsize)
  {
    forall j, k | 0 <= j < k < |order| && gives[j].Some? && gives[k].Some? && order[j] != order[k]
      ensures GivenApart(gives[j].value, stmt.binds[order[j].bnd].shape.bufsize, gives[k].value, stmt.binds[order[k].bnd].shape.bufsize)
    {
      AnswersApart(stmt, rowsOf, order, gives, j, k);
    }
  }

  lemma AllReadBack(stmt: Statement, rowsOf: seq<nat>, order: seq<OutCall>, gives: seq<Option<Given>>)
    requires stmt.Valid() && Placed(stmt.binds) && |rowsOf| == stmt.nbIters && Askable(order, |stmt.binds|, rowsOf)
    requires Asked(stmt.rsts, stmt.nbIters, PositionsOf(stmt.binds), order, gives) && |gives| == |order|
    requires CountsAre(stmt.rsts, stmt.binds, rowsOf) && Small(stmt.binds, rowsOf)
    ensures forall k :: 0 <= k < |order| && gives[k].Some? ==> ReadsBack(stmt, order[k], gives[k].value)
    ensures forall k :: 0 <= k < |order| && gives[k].Some? ==> GivenSound(gives[k].value, stmt.binds[order[k].bnd].shape.bufsize)
  {
    forall k | 0 <= k < |order| && gives[k].Some?
      ensures ReadsBack(stmt, order[k], gives[k].value)
      ensures GivenSound(gives[k].value, stmt.binds[order[k].bnd].shape.bufsize)
    {
      AnswerReadsBack(stmt, rowsOf, order, gives, k);
    }
  }
}
