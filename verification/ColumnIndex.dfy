/** The columns of a result set by name: a map from names to positions, built at the first question. */
module ColumnIndex {
  import opened HashTable

  /** Each name stands first for the first of the `n` columns with that name, whatever its case. */
  ghost predicate Indexed(m: Model, columns: seq<Name>, n: nat)
    requires n <= |columns|
  {
    && (forall k :: 0 <= k < n ==> Fold(columns[k]) in m)
    && forall f :: f in m ==> m[f] != [] && FirstOf(columns, f, m[f][0]) && m[f][0] <= n
  }

  /** Position `x`, counted from 1, is the first with the upper-case name `f`. */
  predicate FirstOf(columns: seq<Name>, f: Name, x: int) {
    && 1 <= x <= |columns| && Fold(columns[x - 1]) == f
    && forall k :: 0 <= k < x - 1 ==> Fold(columns[k]) != f
  }

  lemma IndexOneMore(m: Model, columns: seq<Name>, n: nat)
    requires n < |columns| && Indexed(m, columns, n)
    ensures Indexed(Appended(m, columns[n], n + 1), columns, n + 1)
  {
    var after := Appended(m, columns[n], n + 1);
    forall f | f in after
      ensures after[f] != [] && FirstOf(columns, f, after[f][0]) && after[f][0] <= n + 1
    {
      if f in m {
        assert after[f][0] == m[f][0];
      }
    }
  }

  class Resultset {
    const columns: seq<Name>
    var table: Table?

    constructor (columns: seq<Name>)
      ensures this.columns == columns && table == null && Valid()
    {
      this.columns, table := columns, null;
    }

    ghost predicate Valid()
      reads this, table, if table == null then {} else {table.items}
    {
      table != null ==> table.Valid() && Indexed(table.model, columns, |columns|)
    }

    method BuildMap() returns (t: Table)
      ensures fresh(t) && fresh(t.items) && t.Valid() && Indexed(t.model, columns, |columns|)
    {
      t := new Table(MAP_SIZE);
      var i := 0;
      while i < |columns|
        invariant i <= |columns| && t.Valid() && Indexed(t.model, columns, i) && fresh(t) && fresh(t.items)
      {
        IndexOneMore(t.model, columns, i);
        t.AddInt(columns[i], i + 1);
        i := i + 1;
      }
    }

    /**
     OcilibDefineGetIndex: the position of the first column of that name, in any case; -1, with an error,
     exactly when there is none. The first call builds the map, the others use it.
     */
    method GetIndex(name: Name) returns (index: int)
      requires Valid()
      modifies this`table
      ensures Valid() && table != null && (old(table) != null ==> table == old(table))
      ensures if index < 0 then index == -1 && forall k :: 0 <= k < |columns| ==> Fold(columns[k]) != Fold(name)
              else 1 <= index <= |columns| && Fold(columns[index - 1]) == Fold(name)
                   && forall k :: 0 <= k < index - 1 ==> Fold(columns[k]) != Fold(name)
    {
      if table == null {
        table := BuildMap();
      }
      var found, values := table.Lookup(name);
      index := if found then values[0] else -1;
    }
  }
}
