/** Cells of one size in a buffer, at 32-bit offsets. */
module Offsets {
  import opened Words

  lemma ProductGrows(size: nat, a: nat, b: nat)
    requires a <= b
    ensures size * a <= size * b
  {
  }

  predicate RangesApart(a: nat, b: nat, size: nat) {
    a + size <= b || b + size <= a
  }

  /** The cells of `count` rows do not overlap. */
  predicate CellsApart(size: ub4, count: nat) {
    forall i, j :: 0 <= i < j < count ==> RangesApart((size * i) % U32, (size * j) % U32, size)
  }

  /** The offset of the last of `count` cells does not wrap. */
  predicate LastFits(size: nat, count: nat) {
    count > 0 ==> size * (count - 1) < U32
  }

  /** They do not overlap if and only if no offset wraps. */
  lemma CellsApartExactly(size: ub4, count: nat)
    requires size > 0 && count > 0
    ensures CellsApart(size, count) <==> size * (count - 1) < U32
    ensures LastFits(size, count) <==> size * (count - 1) < U32
  {
    if size * (count - 1) < U32 {
      forall i, j | 0 <= i < j < count
        ensures RangesApart((size * i) % U32, (size * j) % U32, size)
      {
        RowOffsets(size, i, j, count);
      }
    } else {
      var k := FirstWrap(size, count);
      var at := (size * k) % U32;
      assert (size * 0) % U32 == 0 && at < size && !RangesApart(0, at, size);
    }
  }

  lemma RowOffsets(size: nat, i: nat, j: nat, count: nat)
    requires i < j < count
    ensures size * i + size <= size * j <= size * (count - 1)
  {
    ProductGrows(size, i + 1, j);
    ProductGrows(size, j, count - 1);
    assert size * (i + 1) == size * i + size;
  }

  /** The first row whose offset wraps lands in the cell of row 0. */
  lemma {:induction false} FirstWrap(size: ub4, count: nat) returns (k: nat)
    requires size > 0 && count > 0 && size * (count - 1) >= U32
    ensures 0 < k < count && (size * k) % U32 < size
  {
    if size * (count - 2) >= U32 {
      k := FirstWrap(size, count - 1);
    } else {
      k := count - 1;
      assert size * k == size * (k - 1) + size;
    }
  }

  lemma OffsetInside(size: nat, index: nat, count: nat)
    requires index < count && LastFits(size, count)
    ensures (size * index) % U32 == size * index && size * index + size <= size * count
  {
    ProductGrows(size, index, count - 1);
    ProductGrows(size, index + 1, count);
    assert size * (index + 1) == size * index + size;
  }
}
