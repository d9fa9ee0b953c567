/**
 The hash table that maps names to lists of numbers: chained entries, keys compared without regard to
 case. It refines a map from upper-case names to lists.
 */
module HashTable {
  import opened Words

  /** OCI_HASH_DEFAULT_SIZE */
  const MAP_SIZE := 256

  /** A text has no terminator in it. */
  type Name = s: string | forall k :: 0 <= k < |s| ==> s[k] != '\0'

  function Upper(c: char): (u: char)
    ensures c != '\0' <==> u != '\0'
  {
    if 'a' <= c <= 'z' then c - 'a' + 'A' else c
  }

  function Fold(s: Name): (r: Name)
    ensures |r| == |s| && forall k :: 0 <= k < |s| ==> r[k] == Upper(s[k])
  {
    seq(|s|, k requires 0 <= k < |s| => Upper(s[k]))
  }

  /** The same letter in either case, or the same character. */
  predicate SameLetter(c: char, d: char) {
    || c == d
    || ('a' <= c <= 'z' && d as int == c as int - 32)
    || ('a' <= d <= 'z' && c as int == d as int - 32)
  }

  /** Two names are the same when they have the same letters, in whatever case. */
  lemma SameName(a: Name, b: Name)
    ensures Fold(a) == Fold(b) <==> |a| == |b| && forall k :: 0 <= k < |a| ==> SameLetter(a[k], b[k])
  {
    if Fold(a) == Fold(b) {
      assert |Fold(a)| == |Fold(b)|;
      forall k | 0 <= k < |a|
        ensures SameLetter(a[k], b[k])
      {
        assert Fold(a)[k] == Fold(b)[k];
      }
    }
  }

  lemma FoldTwice(s: Name)
    ensures Fold(Fold(s)) == Fold(s)
  {
  }

  /** The character at `k`, the terminator behind the last. */
  function At(s: Name, k: nat): char {
    if k < |s| then s[k] else '\0'
  }

  /** OcilibStringCaseCompare: 0 exactly for names that differ in case only. */
  method CaseCompare(a: Name, b: Name) returns (d: int)
    ensures d == 0 <==> Fold(a) == Fold(b)
    ensures d == 0 <==> |a| == |b| && forall k :: 0 <= k < |a| ==> SameLetter(a[k], b[k])
  {
    SameName(a, b);
    var k := 0;
    while k < |a| && k < |b| && Upper(a[k]) == Upper(b[k])
      invariant k <= |a| && k <= |b| && forall j :: 0 <= j < k ==> Upper(a[j]) == Upper(b[j])
    {
      k := k + 1;
    }
    d := Upper(At(a, k)) as int - Upper(At(b, k)) as int;
    assert Fold(a) == Fold(b) ==> forall j :: 0 <= j < |a| ==> Fold(a)[j] == Fold(b)[j];
  }

  /** The hash before it is reduced to the table size. */
  function HashOf(s: Name): ub4 {
    if s == "" then 0 else
      var front: Name := s[..|s| - 1];
      (31 * HashOf(front) + Upper(s[|s| - 1]) as int) % U32
  }

  /** The hash is the polynomial of the upper-case letters at 31, in 32-bit arithmetic. */
  lemma HashOfThree(a: char, b: char, c: char)
    requires 'a' <= a <= 'z' && 'A' <= b <= 'Z' && '0' <= c <= '9'
    ensures HashOf([a, b, c]) == 31 * (31 * (a as int - 32) + b as int) + c as int && HashOf([]) == 0
  {
    var x: Name, xy: Name, xyz: Name := [a], [a, b], [a, b, c];
    assert x[..0] == [] && xy[..1] == x && xyz[..2] == xy;
    assert HashOf(x) == a as int - 32;
    assert HashOf(xy) == 31 * (a as int - 32) + b as int;
    assert HashOf(xyz) == 31 * HashOf(xy) + c as int;
  }

  /** Names that differ in case only have the same hash. */
  lemma {:induction false} HashIgnoresCase(s: Name)
    ensures HashOf(Fold(s)) == HashOf(s)
  {
    if s != "" {
      HashIgnoresCase(s[..|s| - 1]);
      assert Fold(s)[..|s| - 1] == Fold(s[..|s| - 1]);
    }
  }

  function Bucket(s: Name, size: nat): (i: nat)
    requires size > 0
    ensures i < size
  {
    HashOf(s) % size
  }

  lemma SameBucket(a: Name, b: Name, size: nat)
    requires size > 0 && Fold(a) == Fold(b)
    ensures Bucket(a, size) == Bucket(b, size)
  {
    HashIgnoresCase(a);
    HashIgnoresCase(b);
  }

  datatype Entry = Entry(key: Name, values: seq<int>)

  type Model = map<Name, seq<int>>

  /** The entries of bucket `i` are those of the model that belong there, each once. */
  ghost predicate Chain(entries: seq<Entry>, i: nat, size: nat, m: Model)
    requires size > 0
  {
    && (forall j :: 0 <= j < |entries| ==> Bucket(entries[j].key, size) == i && Maps(m, entries[j]))
    && (forall j, k :: 0 <= j < k < |entries| ==> Fold(entries[j].key) != Fold(entries[k].key))
    && forall f :: f in m && Bucket(f, size) == i ==> exists j :: 0 <= j < |entries| && Fold(entries[j].key) == f
  }

  predicate Maps(m: Model, e: Entry) {
    Fold(e.key) in m && m[Fold(e.key)] == e.values
  }

  /** The model with one more value for `key`. */
  function Appended(m: Model, key: Name, value: int): Model {
    m[Fold(key) := (if Fold(key) in m then m[Fold(key)] else []) + [value]]
  }

  /** A name that no entry of its chain has is not in the model. */
  lemma NotInChain(entries: seq<Entry>, i: nat, size: nat, m: Model, key: Name)
    requires size > 0 && Chain(entries, i, size, m) && Bucket(key, size) == i
    requires forall k :: 0 <= k < |entries| ==> Fold(entries[k].key) != Fold(key)
    ensures Fold(key) !in m
  {
    FoldTwice(key);
    SameBucket(Fold(key), key, size);
  }

  /** Appending to an entry of the chain, or at its end, appends in the model. */
  lemma ChainAppended(entries: seq<Entry>, i: nat, size: nat, m: Model, key: Name, value: int, after: seq<Entry>)
    requires size > 0 && Chain(entries, i, size, m) && Bucket(key, size) == i
    requires
      || (exists j :: 0 <= j < |entries| && Fold(entries[j].key) == Fold(key)
                      && after == entries[j := Entry(entries[j].key, entries[j].values + [value])])
      || (Fold(key) !in m && after == entries + [Entry(key, [value])])
    ensures Chain(after, i, size, Appended(m, key, value))
  {
    var n := Appended(m, key, value);
    forall f | f in n && Bucket(f, size) == i
      ensures exists j :: 0 <= j < |after| && Fold(after[j].key) == f
    {
      if f in m {
        var j :| 0 <= j < |entries| && Fold(entries[j].key) == f;
        assert Fold(after[j].key) == f;
      } else {
        assert Fold(after[|entries|].key) == f;
      }
    }
  }

  /** The other chains stay what they are. */
  lemma OtherChain(entries: seq<Entry>, i: nat, size: nat, m: Model, key: Name, value: int)
    requires size > 0 && Chain(entries, i, size, m) && Bucket(key, size) != i
    ensures Chain(entries, i, size, Appended(m, key, value))
  {
    FoldTwice(key);
    SameBucket(Fold(key), key, size);
    forall j | 0 <= j < |entries|
      ensures Maps(Appended(m, key, value), entries[j])
    {
      if Fold(entries[j].key) == Fold(key) {
        SameBucket(entries[j].key, key, size);
      }
    }
  }

  /** The first entry of a chain with the name. */
  method FindIn(chain: seq<Entry>, key: Name) returns (j: nat)
    ensures j <= |chain| && forall k :: 0 <= k < j ==> Fold(chain[k].key) != Fold(key)
    ensures j < |chain| ==> Fold(chain[j].key) == Fold(key)
  {
    j := 0;
    while j < |chain|
      invariant j <= |chain| && forall k :: 0 <= k < j ==> Fold(chain[k].key) != Fold(key)
    {
      var d := CaseCompare(chain[j].key, key);
      if d == 0 { return; }
      j := j + 1;
    }
  }

  class Table {
    const items: array<seq<Entry>>
    ghost var model: Model

    ghost predicate Valid()
      reads this, items
    {
      items.Length > 0 && forall i :: 0 <= i < items.Length ==> Chain(items[i], i, items.Length, model)
    }

    constructor (size: nat)
      requires size > 0
      ensures Valid() && fresh(items) && model == map[]
    {
      items := new seq<Entry>[size](_ => []);
      model := map[];
    }

    /** Where the entry of `key` is in its bucket; behind the last entry when there is none. */
    method Find(key: Name) returns (i: nat, j: nat)
      requires Valid()
      ensures i < items.Length && i == Bucket(key, items.Length) && j <= |items[i]|
      ensures j < |items[i]| <==> Fold(key) in model
      ensures j < |items[i]| ==> Fold(items[i][j].key) == Fold(key) && items[i][j].values == model[Fold(key)]
    {
      i := ComputeHash(key);
      j := FindIn(items[i], key);
      ghost var chain := items[i];
      assert Chain(chain, i, items.Length, model);
      if j < |chain| {
        assert Maps(model, chain[j]);
      } else {
        NotInChain(chain, i, items.Length, model, key);
      }
    }

    /** OcilibHashCompute */
    method ComputeHash(key: Name) returns (i: nat)
      requires items.Length > 0
      ensures i == Bucket(key, items.Length)
    {
      var h: ub4, k := 0, 0;
      while k < |key|
        invariant k <= |key| && h == HashOf(key[..k])
      {
        h := (31 * h + Upper(key[k]) as int) % U32;
        assert key[..k + 1][..k] == key[..k];
        k := k + 1;
      }
      assert key[..k] == key;
      i := h % items.Length;
    }

    /** OcilibHashLookup, without creation: the values of a name, whatever its case. */
    method Lookup(key: Name) returns (found: bool, values: seq<int>)
      requires Valid()
      ensures found <==> Fold(key) in model
      ensures values == if Fold(key) in model then model[Fold(key)] else []
    {
      var i, j := Find(key);
      found := j < |items[i]|;
      values := if found then items[i][j].values else [];
    }

    /** OcilibHashAddInt: the value goes behind those the name has. */
    method AddInt(key: Name, value: int)
      requires Valid()
      modifies this`model, items
      ensures Valid() && model == Appended(old(model), key, value)
    {
      var i, j := Find(key);
      ghost var before := items[i];
      assert Chain(before, i, items.Length, model);
      if j < |items[i]| {
        items[i] := items[i][j := Entry(items[i][j].key, items[i][j].values + [value])];
      } else {
        items[i] := items[i] + [Entry(key, [value])];
      }
      ChainAppended(before, i, items.Length, model, key, value, items[i]);
      forall k | 0 <= k < items.Length && k != i
        ensures Chain(items[k], k, items.Length, Appended(model, key, value))
      {
        assert items[k] == old(items[k]);
        OtherChain(items[k], k, items.Length, model, key, value);
      }
      model := Appended(model, key, value);
    }
  }
}
