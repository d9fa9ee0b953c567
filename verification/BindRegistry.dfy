/**
 The bind registry of a statement: user binds and register binds, each in a growing array, and one map
 from names to signed indices for both.
 */
module BindRegistry {
  import opened Words
  import opened HashTable

  const BIND_MAX := 65535
  const GROWTH := 128

  // ---------------------------------------------------------------------- the signed map

  /**
   The list of a name: the index of a user bind can only come first, behind it come register binds as
   negative indices, in the order of their registration.
   */
  predicate Ordered(l: seq<int>) {
    && l != []
    && (forall k :: 1 <= k < |l| ==> l[k] < 0)
    && forall j, k :: 0 <= j < k < |l| ==> l[j] > l[k]
  }

  /** The signed index `x` is that of a bind with the upper-case name `f`. */
  predicate Denotes(x: int, f: Name, us: seq<Name>, rs: seq<Name>) {
    if x > 0 then x <= |us| && Fold(us[x - 1]) == f
    else x < 0 && -x <= |rs| && Fold(rs[-x - 1]) == f
  }

  /** The map and the two arrays agree; `us` and `rs` are the names in the arrays. */
  ghost predicate Inverse(m: Model, us: seq<Name>, rs: seq<Name>) {
    && (forall i :: 0 <= i < |us| ==> Fold(us[i]) in m && m[Fold(us[i])] != [] && m[Fold(us[i])][0] == i + 1)
    && (forall j :: 0 <= j < |rs| ==> Fold(rs[j]) in m && -(j + 1) in m[Fold(rs[j])])
    && forall f :: f in m ==> Listed(m[f], f, us, rs)
  }

  ghost predicate Listed(l: seq<int>, f: Name, us: seq<Name>, rs: seq<Name>) {
    Ordered(l) && forall k :: 0 <= k < |l| ==> Denotes(l[k], f, us, rs)
  }

  /** A user bind is added only under a name the map does not have yet. */
  lemma AddUser(m: Model, us: seq<Name>, rs: seq<Name>, name: Name)
    requires Inverse(m, us, rs) && Fold(name) !in m
    ensures Inverse(Appended(m, name, |us| + 1), us + [name], rs)
  {
    var n := Appended(m, name, |us| + 1);
    forall f | f in n
      ensures Listed(n[f], f, us + [name], rs)
    {
      if f in m {
        assert Listed(m[f], f, us, rs);
      }
    }
  }

  /** A register bind is added behind whatever its name already stands for. */
  lemma AddRegister(m: Model, us: seq<Name>, rs: seq<Name>, name: Name)
    requires Inverse(m, us, rs)
    ensures Inverse(Appended(m, name, -(|rs| + 1)), us, rs + [name])
  {
    var n := Appended(m, name, -(|rs| + 1));
    forall f | f in n
      ensures Listed(n[f], f, us, rs + [name])
    {
      if f in m {
        assert Listed(m[f], f, us, rs);
        ListedWider(m[f], f, us, rs, name);
      }
    }
    RegistersStay(m, us, rs, name);
  }

  /** A list stays right with one more register bind, and the new index may join it. */
  lemma ListedWider(l: seq<int>, f: Name, us: seq<Name>, rs: seq<Name>, name: Name)
    requires Listed(l, f, us, rs)
    ensures Listed(l, f, us, rs + [name])
    ensures Fold(name) == f ==> Listed(l + [-(|rs| + 1)], f, us, rs + [name])
  {
    forall k | 0 <= k < |l|
      ensures Denotes(l[k], f, us, rs + [name]) && l[k] > -(|rs| + 1)
    {
      assert Denotes(l[k], f, us, rs);
    }
  }

  lemma RegistersStay(m: Model, us: seq<Name>, rs: seq<Name>, name: Name)
    requires Inverse(m, us, rs)
    ensures var n, all := Appended(m, name, -(|rs| + 1)), rs + [name];
      forall j :: 0 <= j < |all| ==> Fold(all[j]) in n && -(j + 1) in n[Fold(all[j])]
  {
    var n, all := Appended(m, name, -(|rs| + 1)), rs + [name];
    forall j | 0 <= j < |all|
      ensures Fold(all[j]) in n && -(j + 1) in n[Fold(all[j])]
    {
      if j < |rs| {
        assert -(j + 1) in m[Fold(rs[j])];
      } else {
        assert n[Fold(name)][|n[Fold(name)]| - 1] == -(j + 1);
      }
    }
  }

  /** What OcilibBindGetIndex returns for a name. */
  function IndexOf(m: Model, name: Name): int {
    if Fold(name) !in m || m[Fold(name)] == [] then -1
    else if m[Fold(name)][0] < 0 then -m[Fold(name)][0] else m[Fold(name)][0]
  }

  /** The first signed index of a name. */
  function FirstIndex(m: Model, name: Name): int {
    if Fold(name) !in m || m[Fold(name)] == [] then 0 else m[Fold(name)][0]
  }

  /**
   The user bind at the index of a name has that name if and only if the first index of the name is
   positive; there is such a user bind then. Otherwise the index is that of a register bind, and there may
   be a user bind with another name at it, or none.
   */
  lemma ReusedName(m: Model, us: seq<Name>, rs: seq<Name>, name: Name)
    requires Inverse(m, us, rs)
    ensures FirstIndex(m, name) > 0 ==> FirstIndex(m, name) <= |us|
    ensures 0 < IndexOf(m, name) <= |us| ==> (Fold(us[IndexOf(m, name) - 1]) == Fold(name) <==> FirstIndex(m, name) > 0)
  {
    var f := Fold(name);
    if f in m {
      assert Listed(m[f], f, us, rs) && Denotes(m[f][0], f, us, rs);
    }
  }

  /** The index of a name is -1 if and only if no bind has it; else its first signed index without the sign. */
  lemma IndexMeaning(m: Model, us: seq<Name>, rs: seq<Name>, name: Name)
    requires Inverse(m, us, rs)
    ensures IndexOf(m, name) == -1 <==>
      (forall i :: 0 <= i < |us| ==> Fold(us[i]) != Fold(name)) && forall j :: 0 <= j < |rs| ==> Fold(rs[j]) != Fold(name)
    ensures IndexOf(m, name) != -1 ==>
      Fold(name) in m && m[Fold(name)] != [] && (IndexOf(m, name) == m[Fold(name)][0] > 0 || IndexOf(m, name) == -m[Fold(name)][0] > 0)
  {
    var f := Fold(name);
    if f in m {
      assert Listed(m[f], f, us, rs) && Denotes(m[f][0], f, us, rs);
    }
  }

  /** A register bind without any user bind: the index of its name is behind the user binds. */
  lemma ReuseReadsBehind(name: Name)
    ensures var m := Appended(map[], name, -1);
      Inverse(m, [], [name]) && IndexOf(m, name) == 1 && FirstIndex(m, name) == -1
  {
    AddRegister(map[], [], [], name);
    assert [] + [name] == [name];
  }

  /** Every user bind is found under its index, in every run; two user binds never share a name. */
  lemma UserFound(m: Model, us: seq<Name>, rs: seq<Name>, i: nat)
    requires Inverse(m, us, rs) && i < |us|
    ensures IndexOf(m, us[i]) == i + 1
    ensures forall k :: 0 <= k < |us| && Fold(us[k]) == Fold(us[i]) ==> k == i
  {
    forall k | 0 <= k < |us| && Fold(us[k]) == Fold(us[i])
      ensures k == i
    {
      assert m[Fold(us[k])][0] == k + 1 && m[Fold(us[i])][0] == i + 1;
    }
  }

  /** A register bind is what its name stands for if and only if no bind had the name before it. */
  lemma RegisterFound(m: Model, us: seq<Name>, rs: seq<Name>, j: nat)
    requires Inverse(m, us, rs) && j < |rs|
    ensures Fold(rs[j]) in m && m[Fold(rs[j])] != []
    ensures m[Fold(rs[j])][0] == -(j + 1) <==>
      (forall i :: 0 <= i < |us| ==> Fold(us[i]) != Fold(rs[j])) && (forall k :: 0 <= k < j ==> Fold(rs[k]) != Fold(rs[j]))
  {
    var f := Fold(rs[j]);
    var l := m[f];
    assert Listed(l, f, us, rs) && Denotes(l[0], f, us, rs);
    if l[0] == -(j + 1) {
      forall k | 0 <= k < j
        ensures Fold(rs[k]) != f
      {
        FirstIsFirst(m, us, rs, f, k, -(j + 1));
      }
      forall i | 0 <= i < |us|
        ensures Fold(us[i]) != f
      {
        assert m[Fold(us[i])][0] == i + 1;
      }
    } else if l[0] < 0 {
      FirstIsFirst(m, us, rs, f, j, l[0]);
      assert Fold(rs[-l[0] - 1]) == f;
    } else {
      assert Fold(us[l[0] - 1]) == f;
    }
  }

  /** A register bind of the name cannot come before the first in the list. */
  lemma FirstIsFirst(m: Model, us: seq<Name>, rs: seq<Name>, f: Name, k: nat, x: int)
    requires Inverse(m, us, rs) && f in m && m[f] != [] && m[f][0] == x < 0 && k < |rs|
    ensures Fold(rs[k]) == f ==> -(k + 1) <= x
  {
    if Fold(rs[k]) == f {
      var at :| 0 <= at < |m[f]| && m[f][at] == -(k + 1);
      assert Listed(m[f], f, us, rs);
      assert at > 0 ==> m[f][0] > m[f][at];
    }
  }

  /** No two binds share a name. */
  ghost predicate AllDistinct(us: seq<Name>, rs: seq<Name>) {
    && (forall i, k :: 0 <= i < k < |us| ==> Fold(us[i]) != Fold(us[k]))
    && (forall j, k :: 0 <= j < k < |rs| ==> Fold(rs[j]) != Fold(rs[k]))
    && forall i, j :: 0 <= i < |us| && 0 <= j < |rs| ==> Fold(us[i]) != Fold(rs[j])
  }

  /** With distinct names the map sends the i-th user bind to i, the j-th register bind to -j, and nothing else. */
  lemma ExactInverse(m: Model, us: seq<Name>, rs: seq<Name>)
    requires Inverse(m, us, rs) && AllDistinct(us, rs)
    ensures forall i :: 0 <= i < |us| ==> Fold(us[i]) in m && m[Fold(us[i])] == [i + 1]
    ensures forall j :: 0 <= j < |rs| ==> Fold(rs[j]) in m && m[Fold(rs[j])] == [-(j + 1)]
    ensures forall f :: f in m ==> (exists i :: 0 <= i < |us| && Fold(us[i]) == f) || (exists j :: 0 <= j < |rs| && Fold(rs[j]) == f)
  {
    forall f | f in m
      ensures |m[f]| == 1
      ensures (exists i :: 0 <= i < |us| && Fold(us[i]) == f) || (exists j :: 0 <= j < |rs| && Fold(rs[j]) == f)
    {
      OneMeaning(m[f], f, us, rs);
    }
    forall j | 0 <= j < |rs|
      ensures Fold(rs[j]) in m && m[Fold(rs[j])] == [-(j + 1)]
    {
      assert -(j + 1) in m[Fold(rs[j])];
    }
  }

  lemma OneMeaning(l: seq<int>, f: Name, us: seq<Name>, rs: seq<Name>)
    requires Listed(l, f, us, rs) && AllDistinct(us, rs)
    ensures |l| == 1
    ensures (exists i :: 0 <= i < |us| && Fold(us[i]) == f) || (exists j :: 0 <= j < |rs| && Fold(rs[j]) == f)
  {
    assert Denotes(l[0], f, us, rs);
    if l[0] > 0 {
      assert Fold(us[l[0] - 1]) == f;
    } else {
      assert Fold(rs[-l[0] - 1]) == f;
    }
    SecondMeaning(l, f, us, rs);
  }

  lemma SecondMeaning(l: seq<int>, f: Name, us: seq<Name>, rs: seq<Name>)
    requires Listed(l, f, us, rs)
    ensures |l| > 1 ==> l[1] < 0 && l[1] < l[0] && -l[1] <= |rs| && Fold(rs[-l[1] - 1]) == f
  {
    assert |l| > 1 ==> Denotes(l[1], f, us, rs);
  }

  // ------------------------------------------------------------------------ the statement

  class Bind {
    const name: Name
    const kind: nat
    var size: nat

    constructor (name: Name, kind: nat, size: nat)
      ensures this.name == name && this.kind == kind && this.size == size
    {
      this.name, this.kind, this.size := name, kind, size;
    }
  }

  function NamesOf(binds: seq<Bind>): (names: seq<Name>)
    ensures |names| == |binds| && forall i :: 0 <= i < |binds| ==> names[i] == binds[i].name
  {
    seq(|binds|, i requires 0 <= i < |binds| => binds[i].name)
  }

  lemma NamesAppend(binds: seq<Bind>, b: Bind)
    ensures NamesOf(binds + [b]) == NamesOf(binds) + [b.name]
  {
  }

  /** The map and the binds in the two arrays agree. */
  ghost predicate Agree(m: Model, users: seq<Bind>, registers: seq<Bind>) {
    exists us, rs :: us == NamesOf(users) && rs == NamesOf(registers) && Inverse(m, us, rs)
  }

  lemma AgreeNothing()
    ensures Agree(map[], [], [])
  {
    assert Inverse(map[], NamesOf([]), NamesOf([]));
  }

  lemma AgreeUser(m: Model, users: seq<Bind>, registers: seq<Bind>, bnd: Bind)
    requires Agree(m, users, registers) && Fold(bnd.name) !in m
    ensures Agree(Appended(m, bnd.name, |users| + 1), users + [bnd], registers)
  {
    AddUser(m, NamesOf(users), NamesOf(registers), bnd.name);
    NamesAppend(users, bnd);
  }

  lemma AgreeRegister(m: Model, users: seq<Bind>, registers: seq<Bind>, bnd: Bind)
    requires Agree(m, users, registers)
    ensures Agree(Appended(m, bnd.name, -(|registers| + 1)), users, registers + [bnd])
  {
    AddRegister(m, NamesOf(users), NamesOf(registers), bnd.name);
    NamesAppend(registers, bnd);
  }

  /** The used part of an array of binds. */
  ghost predicate Holds(a: array?<Bind?>, nb: nat, binds: seq<Bind>)
    reads a
  {
    && nb == |binds| <= BIND_MAX
    && (if a == null then nb == 0 else nb <= a.Length <= BIND_MAX && forall i :: 0 <= i < nb ==> a[i] == binds[i])
  }

  /** REALLOC_DATA: room for one more bind, if there may be one more. */
  method MakeRoom(a: array?<Bind?>, nb: nat, ghost binds: seq<Bind>) returns (b: array?<Bind?>)
    requires Holds(a, nb, binds) && nb < BIND_MAX
    ensures b != null && (b == a || fresh(b)) && Holds(b, nb, binds) && nb < b.Length
    ensures a != null && nb < a.Length ==> b == a
    ensures a == null || nb >= a.Length ==> b.Length == Min(nb + 128, 65535)
  {
    var requested := Min(nb + GROWTH, BIND_MAX);
    if a == null {
      b := new Bind?[requested](_ => null);
    } else if nb >= a.Length {
      var grown := new Bind?[requested](_ => null);
      var k := 0;
      while k < nb
        invariant k <= nb && forall i :: 0 <= i < k ==> grown[i] == binds[i]
      {
        grown[k] := a[k];
        k := k + 1;
      }
      b := grown;
    } else {
      b := a;
    }
  }

  /** The bind behind the used part of an array. */
  method Put(a: array<Bind?>, nb: nat, ghost binds: seq<Bind>, bnd: Bind)
    requires Holds(a, nb, binds) && nb < a.Length
    modifies a
    ensures Holds(a, nb + 1, binds + [bnd])
  {
    a[nb] := bnd;
  }

  class Statement {
    const byPosition: bool
    var bindReuse: bool
    var table: Table?
    var ubinds: array?<Bind?>
    var rbinds: array?<Bind?>
    var nbUbinds: nat
    var nbRbinds: nat
    ghost var users: seq<Bind>
    ghost var registers: seq<Bind>

    constructor (byPosition: bool, bindReuse: bool)
      ensures Valid() && users == [] && registers == [] && table == null
      ensures this.byPosition == byPosition && this.bindReuse == bindReuse
    {
      this.byPosition, this.bindReuse := byPosition, bindReuse;
      table, ubinds, rbinds, nbUbinds, nbRbinds, users, registers := null, null, null, 0, 0, [], [];
      AgreeNothing();
    }

    ghost function Names(): Model
      reads this, table
    {
      if table == null then map[] else table.model
    }

    ghost predicate Valid()
      reads this, ubinds, rbinds, table, if table == null then {} else {table.items}
    {
      && Holds(ubinds, nbUbinds, users) && Holds(rbinds, nbRbinds, registers)
      && (ubinds == null || ubinds != rbinds)
      && (table != null ==> table.Valid())
      && Agree(Names(), users, registers)
    }

    /** OcilibBindGetIndex */
    method GetIndex(name: Name) returns (index: int)
      requires Valid()
      ensures index == IndexOf(Names(), name)
    {
      if table == null { return -1; }
      var found, values := table.Lookup(name);
      index := -1;
      if found {
        assert Listed(table.model[Fold(name)], Fold(name), NamesOf(users), NamesOf(registers));
        index := values[0];
        if index < 0 {
          index := -index;
        }
      }
    }

    /** OcilibBindCheckAvailability: fails exactly when there are too many binds. A reused bind needs no room. */
    method CheckAvailability(output: bool, reused: bool) returns (ok: bool)
      requires Valid()
      modifies this`ubinds, this`rbinds
      ensures Valid() && ok == (reused || Room(output))
      ensures (ubinds == old(ubinds) || fresh(ubinds)) && (rbinds == old(rbinds) || fresh(rbinds))
      ensures reused ==> ubinds == old(ubinds) && rbinds == old(rbinds)
      ensures ok && !reused && !output ==> ubinds != null && nbUbinds < ubinds.Length
      ensures ok && !reused && output ==> rbinds != null && nbRbinds < rbinds.Length
    {
      if !reused {
        if !output {
          if nbUbinds >= BIND_MAX { return false; }
          ubinds := MakeRoom(ubinds, nbUbinds, users);
        } else {
          if nbRbinds >= BIND_MAX { return false; }
          rbinds := MakeRoom(rbinds, nbRbinds, registers);
        }
      }
      ok := true;
    }

    /** OcilibBindAddToStatement: a new bind joins its array, and the map under its signed index. */
    method AddToStatement(bnd: Bind, output: bool)
      requires Valid() && table != null
      requires if output then rbinds != null && nbRbinds < rbinds.Length
               else ubinds != null && nbUbinds < ubinds.Length && Fold(bnd.name) !in Names()
      modifies this`users, this`registers, this`nbUbinds, this`nbRbinds, table, table.items, ubinds, rbinds
      ensures Valid() && Joined(old(users), old(registers), old(Names()), bnd, output)
    {
      if output {
        AddRbind(bnd);
      } else {
        AddUbind(bnd);
      }
    }

    /** `bnd` was added behind the binds of its array, and to the map. */
    ghost predicate Joined(us: seq<Bind>, rs: seq<Bind>, m: Model, bnd: Bind, output: bool)
      reads this, table
    {
      && users == (if output then us else us + [bnd]) && registers == (if output then rs + [bnd] else rs)
      && Names() == Appended(m, bnd.name, if output then -(|rs| + 1) else |us| + 1)
    }

    method AddUbind(bnd: Bind)
      requires Valid() && table != null && ubinds != null && nbUbinds < ubinds.Length && Fold(bnd.name) !in Names()
      modifies this`users, this`nbUbinds, table, table.items, ubinds
      ensures Valid() && Joined(old(users), old(registers), old(Names()), bnd, false)
    {
      AgreeUser(table.model, users, registers, bnd);
      Put(ubinds, nbUbinds, users, bnd);
      nbUbinds, users := nbUbinds + 1, users + [bnd];
      table.AddInt(bnd.name, nbUbinds);
    }

    method AddRbind(bnd: Bind)
      requires Valid() && table != null && rbinds != null && nbRbinds < rbinds.Length
      modifies this`registers, this`nbRbinds, table, table.items, rbinds
      ensures Valid() && Joined(old(users), old(registers), old(Names()), bnd, true)
    {
      AgreeRegister(table.model, users, registers, bnd);
      Put(rbinds, nbRbinds, registers, bnd);
      nbRbinds, registers := nbRbinds + 1, registers + [bnd];
      table.AddInt(bnd.name, -(nbRbinds as int));
      assert Names() == Appended(old(Names()), bnd.name, -(|old(registers)| + 1));
    }

    /** The registry is as it was. */
    ghost predicate Same(us: seq<Bind>, rs: seq<Bind>, m: Model)
      reads this, table
    {
      users == us && registers == rs && Names() == m
    }

    /**
     What an input bind under a known name comes to: nothing unless binds are reused, and then the bind
     under the name's index, which must exist. A wrong type stops it, but the bind is returned.
     */
    method FindReused(name: Name, kind: nat) returns (prev: int, bnd: Bind?, go: bool)
      requires Valid()
      requires bindReuse ==> IndexOf(Names(), name) <= nbUbinds
      ensures prev == Known(name, false)
      ensures bnd == (if bindReuse then Previous(name, false) else null) && (bindReuse && prev > 0 ==> bnd in users)
      ensures go <==> prev <= 0 || (bindReuse && bnd.kind == kind)
      ensures bnd != null ==> (Fold(bnd.name) == Fold(name) <==> FirstIndex(Names(), name) > 0)
    {
      prev := GetIndex(name);
      ReusedName(Names(), NamesOf(users), NamesOf(registers), name);
      bnd, go := null, true;
      if prev > 0 {
        if !bindReuse { return prev, null, false; }
        bnd := ubinds[prev - 1];
        go := bnd.kind == kind;
      }
    }

    /** There may be one more bind of its direction. */
    predicate Room(output: bool)
      reads this
    {
      if output then nbRbinds < BIND_MAX else nbUbinds < BIND_MAX
    }

    /** Room for one more bind, and the map. */
    method MakeReady(output: bool) returns (ok: bool)
      requires Valid()
      modifies this`table, this`ubinds, this`rbinds
      ensures Valid() && ok == Room(output) && Names() == old(Names())
      ensures table == old(table) || (fresh(table) && fresh(table.items))
      ensures (ubinds == old(ubinds) || fresh(ubinds)) && (rbinds == old(rbinds) || fresh(rbinds))
      ensures ok ==> table != null && if output then rbinds != null && nbRbinds < rbinds.Length else ubinds != null && nbUbinds < ubinds.Length
    {
      ok := CheckAvailability(output, false);
      if ok && table == null {
        table := new Table(MAP_SIZE);
      }
    }

    /** A new bind: room for it, the map, the bind object, and when `works` the buffers and the binding by OCI. */
    method BoundNew(name: Name, output: bool, kind: nat, size: nat, works: bool) returns (bnd: Bind?, ok: bool)
      requires Valid() && (!output ==> Fold(name) !in Names())
      modifies this`table, this`ubinds, this`rbinds, this`users, this`registers, this`nbUbinds, this`nbRbinds
      modifies table, if table == null then {} else {table.items}, ubinds, rbinds
      ensures Valid() && ok == (works && old(Room(output)))
      ensures if ok then bnd != null && fresh(bnd) && bnd.name == name && bnd.kind == kind && bnd.size == size else bnd == null
      ensures Resized(old(users), bnd, kind, size)
      ensures if ok then Joined(old(users), old(registers), old(Names()), bnd, output)
              else Same(old(users), old(registers), old(Names()))
    {
      bnd := null;
      ok := MakeReady(output);
      ok := ok && works;
      if ok {
        bnd := new Bind(name, kind, size);
        AddToStatement(bnd, output);
      }
    }

    /** A bind that is used again: it needs no room, and its name is in the map. */
    method BoundAgain(bnd: Bind, size: nat, works: bool) returns (ok: bool)
      requires Valid() && bnd in users
      modifies bnd
      ensures Valid() && ok == works && Resized(users, bnd, bnd.kind, size)
    {
      bnd.size := size;
      ok := works;
    }

    /** Of the binds there were, only the one that is used again, with the right type, gets the new size. */
    twostate predicate Resized(binds: seq<Bind>, new again: Bind?, kind: nat, size: nat)
      reads binds
    {
      forall b :: b in binds ==> b.size == if b == again && b.kind == kind then size else old(b.size)
    }

    /** The index of the bind an input bind of this name would use again; a register bind uses none. */
    ghost function Known(name: Name, output: bool): int
      reads this, table
    {
      if output then -1 else IndexOf(Names(), name)
    }

    /** The user bind under that index. */
    ghost function Previous(name: Name, output: bool): Bind?
      reads this, table
    {
      if 0 < Known(name, output) <= |users| then users[Known(name, output) - 1] else null
    }

    /** The number in the name of a bind by position is one. */
    predicate PositionFits(position: int) {
      byPosition ==> 0 < position <= BIND_MAX
    }

    /**
     OcilibBindCreate. `position` is the number in the name of a bind by position, and `works` whether the
     buffers and OCI's own binding succeed. A user bind under a known name is refused, or reuses the bind
     under the name's index; with a wrong type it fails, and yet returns that bind. A user bind of an unknown
     name and every register bind get a new index, if there is room. When it fails, the registry is as it was,
     and reusing a bind never grows an array. Reusing a name that a register bind had first takes the user bind
     of the same number, which has another name and must exist.
     */
    method Create(name: Name, output: bool, kind: nat, size: nat, position: int, works: bool) returns (bnd: Bind?, ok: bool)
      requires Valid()
      requires bindReuse && PositionFits(position) ==> Known(name, output) <= nbUbinds
      modifies this`table, this`ubinds, this`rbinds, this`users, this`registers, this`nbUbinds, this`nbRbinds
      modifies table, if table == null then {} else {table.items}, ubinds, rbinds, users
      ensures Valid()
      ensures ok == (works && (byPosition ==> 1 <= position <= 65535) && if old(Known(name, output)) > 0
                     then bindReuse && old(Previous(name, output)) != null && old(Previous(name, output)).kind == kind
                     else (if output then |old(registers)| else |old(users)|) < 65535)
      ensures ok ==> bnd != null && bnd.kind == kind && bnd.size == size
      ensures Resized(old(users), bnd, kind, size)
      ensures if ok && old(Known(name, output)) <= 0 then
                bnd.name == name && Joined(old(users), old(registers), old(Names()), bnd, output)
              else Same(old(users), old(registers), old(Names()))
      ensures old(Known(name, output)) > 0 ==> ubinds == old(ubinds) && rbinds == old(rbinds)
      ensures old(Known(name, output)) > 0 && PositionFits(position) ==>
        bnd == if bindReuse then old(Previous(name, output)) else null
      ensures old(Known(name, output)) <= 0 && !ok ==> bnd == null
      ensures ok && old(Known(name, output)) > 0 ==> (Fold(bnd.name) == Fold(name) <==> old(FirstIndex(Names(), name)) > 0)
    {
      bnd, ok := null, false;
      if !PositionFits(position) { return; }
      if output {
        bnd, ok := BoundNew(name, true, kind, size, works);
      } else {
        bnd, ok := BoundInput(name, kind, size, works);
      }
    }

    /** An input bind: a new one, or the one under the index of the name. */
    method BoundInput(name: Name, kind: nat, size: nat, works: bool) returns (bnd: Bind?, ok: bool)
      requires Valid() && (bindReuse ==> IndexOf(Names(), name) <= nbUbinds)
      modifies this`table, this`ubinds, this`rbinds, this`users, this`registers, this`nbUbinds, this`nbRbinds
      modifies table, if table == null then {} else {table.items}, ubinds, rbinds, users
      ensures Valid()
      ensures ok == (works && if old(Known(name, false)) > 0
                     then bindReuse && old(Previous(name, false)) != null && old(Previous(name, false)).kind == kind
                     else old(Room(false)))
      ensures if ok && old(Known(name, false)) <= 0 then
                bnd != null && bnd.kind == kind && bnd.size == size && bnd.name == name
                && Joined(old(users), old(registers), old(Names()), bnd, false)
              else Same(old(users), old(registers), old(Names()))
      ensures if old(Known(name, false)) > 0 then
                ubinds == old(ubinds) && rbinds == old(rbinds) && bnd == if bindReuse then old(Previous(name, false)) else null
              else ok || bnd == null
      ensures Resized(old(users), bnd, kind, size)
      ensures bnd != null && old(Known(name, false)) > 0 ==> (Fold(bnd.name) == Fold(name) <==> old(FirstIndex(Names(), name)) > 0)
    {
      var prev, go;
      prev, bnd, go := FindReused(name, kind);
      ok := false;
      if prev <= 0 {
        UnknownName(Names(), NamesOf(users), NamesOf(registers), name);
        bnd, ok := BoundNew(name, false, kind, size, works);
      } else {
        ok := go && works;
        if go {
          var done := BoundAgain(bnd, size, works);
        }
      }
    }
  }

  /** Only a name the map does not have has no index. */
  lemma UnknownName(m: Model, us: seq<Name>, rs: seq<Name>, name: Name)
    requires Inverse(m, us, rs)
    ensures IndexOf(m, name) <= 0 ==> Fold(name) !in m
  {
    if Fold(name) in m {
      assert Listed(m[Fold(name)], Fold(name), us, rs);
      assert Denotes(m[Fold(name)][0], Fold(name), us, rs);
    }
  }
}
