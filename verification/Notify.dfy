/**
 Change notifications: the handler is called with one shared event object that the callback refills.
 The trace is what the handler saw at each call.
 */
module Notify {
  import opened Options
  import opened Words
  import opened Seqs

  // kinds of notification
  const EVENT_STARTUP := 1
  const EVENT_SHUTDOWN := 2
  const EVENT_SHUTDOWN_ANY := 3
  const EVENT_DEREG := 5
  const EVENT_OBJCHANGE := 6

  /** What a subscription asked for: OCI_CNT_OBJECTS, OCI_CNT_ROWS and OCI_CNT_DATABASES. */
  datatype Wanted = Wanted(objects: bool, rows: bool, databases: bool)

  /** What OCI hands to the callback; a text attribute or a collection may be absent. */
  datatype RowChange = RowChange(rowid: Option<string>, op: ub4)
  datatype TableChange = TableChange(name: Option<string>, op: ub4, rows: Option<seq<RowChange>>)
  datatype Change = Change(dbname: Option<string>, kind: nat, tables: Option<seq<TableChange>>)

  /** What the handler can read from the event; an absent text and an empty one look the same. */
  datatype Seen = Seen(kind: nat, op: ub4, dbname: string, objname: string, rowid: string)

  // ------------------------------------------------------------------------- specification

  /** The kind the event gets: 0 when the subscription did not ask for it. Deregistration is always reported. */
  function KindFor(w: Wanted, kind: nat): nat {
    if kind == EVENT_STARTUP || kind == EVENT_SHUTDOWN || kind == EVENT_SHUTDOWN_ANY then (if w.databases then kind else 0)
    else if kind == EVENT_DEREG then kind
    else if kind == EVENT_OBJCHANGE then (if w.objects then kind else 0)
    else 0
  }

  function Text(t: Option<string>): string {
    if t.Some? then t.value else ""
  }

  /** OCI_OPCODE_ALLROWS, the lowest bit, is cleared. */
  function Masked(op: ub4): (m: ub4)
    ensures m % 2 == 0 && (m == op || m + 1 == op)
  {
    op - op % 2
  }

  /** The rows reported one by one: none unless they were asked for. */
  function RowsOf(w: Wanted, t: TableChange): seq<RowChange> {
    if w.rows && t.rows.Some? then t.rows.value else []
  }

  function RowEvent(db: string, name: string, r: RowChange): Seen {
    Seen(EVENT_OBJCHANGE, r.op, db, name, Text(r.rowid))
  }

  function RowEvents(db: string, name: string, rows: seq<RowChange>): (r: seq<Seen>)
    ensures |r| == |rows|
  {
    seq(|rows|, j requires 0 <= j < |rows| => RowEvent(db, name, rows[j]))
  }

  /** One event for each row, or one for the table when there are no rows. */
  function TableEvents(w: Wanted, db: string, t: TableChange): (r: seq<Seen>)
    ensures |r| == Max(1, |RowsOf(w, t)|)
  {
    if RowsOf(w, t) == [] then [Seen(EVENT_OBJCHANGE, Masked(t.op), db, Text(t.name), "")]
    else RowEvents(db, Text(t.name), RowsOf(w, t))
  }

  function Flattened(w: Wanted, db: string, tables: seq<TableChange>): seq<Seen> {
    if tables == [] then [] else
      Flattened(w, db, tables[..|tables| - 1]) + TableEvents(w, db, tables[|tables| - 1])
  }

  /** The calls a notification leads to. */
  function Expected(w: Wanted, c: Change): seq<Seen> {
    var kind := KindFor(w, c.kind);
    if kind == EVENT_OBJCHANGE then (if c.tables.Some? then Flattened(w, Text(c.dbname), c.tables.value) else [])
    else if kind > 0 then [Seen(kind, 0, Text(c.dbname), "", "")]
    else []
  }

  /** How many events the tables lead to. */
  function EventCount(w: Wanted, tables: seq<TableChange>): nat {
    if tables == [] then 0 else EventCount(w, tables[..|tables| - 1]) + Max(1, |RowsOf(w, tables[|tables| - 1])|)
  }

  lemma {:induction false} FlattenedCount(w: Wanted, db: string, tables: seq<TableChange>)
    ensures |Flattened(w, db, tables)| == EventCount(w, tables)
  {
    if tables != [] {
      FlattenedCount(w, db, tables[..|tables| - 1]);
    }
  }

  lemma {:induction false} CountGrows(w: Wanted, tables: seq<TableChange>, i: nat)
    requires i < |tables|
    ensures EventCount(w, tables[..i]) + Max(1, |RowsOf(w, tables[i])|) <= EventCount(w, tables)
  {
    var n := |tables| - 1;
    if i < n {
      CountGrows(w, tables[..n], i);
      assert tables[..n][..i] == tables[..i];
    }
  }

  lemma {:induction false} FlattenedStart(w: Wanted, db: string, tables: seq<TableChange>, i: nat)
    requires i <= |tables|
    ensures Flattened(w, db, tables[..i]) <= Flattened(w, db, tables)
  {
    if i == |tables| {
      assert tables[..i] == tables;
    } else {
      FlattenedStart(w, db, tables[..|tables| - 1], i);
      assert tables[..|tables| - 1][..i] == tables[..i];
    }
  }

  lemma FlattenedNext(w: Wanted, db: string, tables: seq<TableChange>, i: nat)
    requires i < |tables|
    ensures Flattened(w, db, tables[..i + 1]) == Flattened(w, db, tables[..i]) + TableEvents(w, db, tables[i])
    ensures Flattened(w, db, tables[..i]) + TableEvents(w, db, tables[i]) <= Flattened(w, db, tables)
  {
    assert tables[..i + 1][..i] == tables[..i];
    FlattenedStart(w, db, tables, i + 1);
  }

  /**
   The events of table i start behind those of the tables before it, and tell about table i and its
   rows only: each row once, in order, with its own operation; or the table, with an empty row id.
   */
  lemma EventsOfTable(w: Wanted, db: string, tables: seq<TableChange>, i: nat, j: nat)
    requires i < |tables| && j < Max(1, |RowsOf(w, tables[i])|)
    ensures var at, t := EventCount(w, tables[..i]) + j, tables[i];
      && at < |Flattened(w, db, tables)|
      && Flattened(w, db, tables)[at] ==
         if w.rows && t.rows.Some? && t.rows.value != [] then
           Seen(6, t.rows.value[j].op, db, Text(t.name), Text(t.rows.value[j].rowid))
         else
           Seen(6, t.op - t.op % 2, db, Text(t.name), "")
  {
    var front, part, all := Flattened(w, db, tables[..i]), TableEvents(w, db, tables[i]), Flattened(w, db, tables);
    FlattenedNext(w, db, tables, i);
    FlattenedCount(w, db, tables[..i]);
    Behind(front, part, all, j);
    EventOfTable(w, db, tables[i], j);
  }

  lemma EventOfTable(w: Wanted, db: string, t: TableChange, j: nat)
    requires j < Max(1, |RowsOf(w, t)|)
    ensures TableEvents(w, db, t)[j] ==
      if w.rows && t.rows.Some? && t.rows.value != [] then
        Seen(6, t.rows.value[j].op, db, Text(t.name), Text(t.rows.value[j].rowid))
      else
        Seen(6, t.op - t.op % 2, db, Text(t.name), "")
  {
  }

  lemma Behind<T>(front: seq<T>, part: seq<T>, all: seq<T>, j: nat)
    requires front + part <= all && j < |part|
    ensures |front| + j < |all| && all[|front| + j] == part[j]
  {
    assert (front + part)[|front| + j] == part[j];
  }

  /** An object change that names tables always reaches the handler of a subscription to objects. */
  lemma {:induction false} EveryTableReported(w: Wanted, db: string, tables: seq<TableChange>)
    ensures |Flattened(w, db, tables)| >= |tables|
    ensures !w.rows ==> |Flattened(w, db, tables)| == |tables|
  {
    if tables != [] {
      EveryTableReported(w, db, tables[..|tables| - 1]);
    }
  }

  /**
   Which notifications reach the handler, and as what: a startup (1) or shutdown (2, 3) exactly once if the
   subscription is one to databases, and not at all otherwise; a deregistration (5) once; an object change (6) that
   names tables if and only if it is one to objects, and then at least once a table; any other kind never.
   */
  predicate Delivered(w: Wanted, c: Change, shown: seq<Seen>) {
    var db := Text(c.dbname);
    if c.kind == 1 || c.kind == 2 || c.kind == 3 then shown == if w.databases then [Seen(c.kind, 0, db, "", "")] else []
    else if c.kind == 5 then shown == [Seen(5, 0, db, "", "")]
    else if c.kind == 6 && c.tables.Some? && c.tables.value != [] then
      if w.objects then |shown| >= |c.tables.value| && forall i :: 0 <= i < |shown| ==> shown[i].kind == 6 && shown[i].dbname == db
      else shown == []
    else shown == []
  }

  lemma ExpectedDelivers(w: Wanted, c: Change)
    ensures Delivered(w, c, Expected(w, c))
  {
    if c.kind == EVENT_OBJCHANGE && w.objects && c.tables.Some? {
      EveryTableReported(w, Text(c.dbname), c.tables.value);
      KindOfEvents(w, Text(c.dbname), c.tables.value);
    }
  }

  lemma {:induction false} KindOfEvents(w: Wanted, db: string, tables: seq<TableChange>)
    ensures forall i :: 0 <= i < |Flattened(w, db, tables)| ==> Flattened(w, db, tables)[i].kind == 6 && Flattened(w, db, tables)[i].dbname == db
  {
    if tables != [] {
      KindOfEvents(w, db, tables[..|tables| - 1]);
    }
  }

  // ------------------------------------------------------------------ calls of OCI that fail

  /** What the callback does, in order: it asks OCI for something, which can fail, or calls the handler. */
  datatype Script = Ask(calls: nat) | Show(seen: Seen) | Then(first: Script, rest: Script)

  function Asks(s: Script): nat {
    match s
    case Ask(k) => k
    case Show(_) => 0
    case Then(a, b) => Asks(a) + Asks(b)
  }

  /** What the handler sees when the first `n` calls of OCI succeed, and the next one does not. */
  function ShownBehind(s: Script, n: nat): seq<Seen> {
    match s
    case Ask(_) => []
    case Show(e) => [e]
    case Then(a, b) => if n < Asks(a) then ShownBehind(a, n) else ShownBehind(a, Asks(a)) + ShownBehind(b, n - Asks(a))
  }

  /** Only when every call of `a` succeeds does `b` begin; `x` is what `a` shows, and `y` what `b` does. */
  lemma ThenShown(a: Script, b: Script, n: nat, asks: nat, x: seq<Seen>, y: seq<Seen>)
    requires asks == Asks(a) && x == ShownBehind(a, Min(n, asks))
    requires n >= asks ==> y == ShownBehind(b, n - asks)
    ensures Asks(Then(a, b)) == asks + Asks(b)
    ensures ShownBehind(Then(a, b), n) == if n < asks then x else x + y
  {
  }

  /** A later failure shows no less. */
  lemma {:induction false} ShownMore(s: Script, m: nat, n: nat)
    requires m <= n
    ensures ShownBehind(s, m) <= ShownBehind(s, n)
    ensures n >= Asks(s) ==> ShownBehind(s, n) == ShownBehind(s, Asks(s))
  {
    match s
    case Then(a, b) =>
      ShownMore(a, m, n);
      ShownMore(a, Min(m, Asks(a)), Asks(a));
      if n >= Asks(a) {
        ShownMore(b, if m < Asks(a) then 0 else m - Asks(a), n - Asks(a));
      }
    case _ =>
  }

  /** How many of the next `limit` calls of OCI succeed before one fails; `works` says which calls do. */
  function Working(works: nat -> bool, from: nat, limit: nat): (n: nat)
    ensures n <= limit && (n < limit ==> !works(from + n))
    decreases limit
  {
    if limit == 0 || !works(from) then 0 else 1 + Working(works, from + 1, limit - 1)
  }

  lemma {:induction false} WorkingConcat(works: nat -> bool, from: nat, x: nat, y: nat)
    ensures var n := Working(works, from, x);
      Working(works, from, x + y) == if n < x then n else x + Working(works, from + x, y)
    decreases x
  {
    if x > 0 && works(from) {
      WorkingConcat(works, from + 1, x - 1, y);
    }
  }

  /**
   The calls from `from` to `to` were made for `s`, up to the first that failed, and what was shown led from
   `was` to `now`; `ok` when none failed.
   */
  ghost predicate Ran(works: nat -> bool, s: Script, from: nat, to: nat, was: seq<Seen>, now: seq<Seen>, ok: bool) {
    exists n :: n == Working(works, from, Asks(s)) && RanBehind(s, n, from, to, was, now, ok)
  }

  ghost predicate RanBehind(s: Script, n: nat, from: nat, to: nat, was: seq<Seen>, now: seq<Seen>, ok: bool) {
    ok == (n == Asks(s)) && to == from + n + (if ok then 0 else 1) && now == was + ShownBehind(s, n)
  }

  lemma RanNothing(works: nat -> bool, from: nat, was: seq<Seen>)
    ensures Ran(works, Ask(0), from, from, was, was, true)
  {
    assert was + [] == was;
    assert RanBehind(Ask(0), 0, from, from, was, was, true);
  }

  lemma {:induction false} AllWork(works: nat -> bool, from: nat, limit: nat)
    ensures (forall k :: k >= from ==> works(k)) ==> Working(works, from, limit) == limit
    decreases limit
  {
    if limit > 0 {
      AllWork(works, from + 1, limit - 1);
    }
  }

  lemma WorkingMore(works: nat -> bool, from: nat, k: nat, whole: nat)
    requires k < whole && Working(works, from, k) == k
    ensures if works(from + k) then Working(works, from, k + 1) == k + 1 else Working(works, from, whole) == k
  {
    WorkingConcat(works, from, k, 1);
    WorkingConcat(works, from, k, whole - k);
    assert Working(works, from + k, 1) == if works(from + k) then 1 else 0;
  }

  /** What ran to its end is followed by what comes behind it; what failed is followed by nothing. */
  lemma RanThen(works: nat -> bool, a: Script, b: Script, from: nat, mid: nat, to: nat,
                was: seq<Seen>, between: seq<Seen>, now: seq<Seen>, ok: bool, all: bool)
    requires Ran(works, a, from, mid, was, between, ok)
    requires if ok then Ran(works, b, mid, to, between, now, all) else to == mid && now == between && !all
    ensures Ran(works, Then(a, b), from, to, was, now, all)
  {
    WorkingConcat(works, from, Asks(a), Asks(b));
    var n :| n == Working(works, from, Asks(a)) && RanBehind(a, n, from, mid, was, between, ok);
    if ok {
      var m :| m == Working(works, mid, Asks(b)) && RanBehind(b, m, mid, to, between, now, all);
      BehindBoth(a, b, m, from, mid, to, was, between, now, all);
    } else {
      BehindFirst(a, b, n, from, mid, was, between);
    }
  }

  lemma BehindBoth(a: Script, b: Script, m: nat, from: nat, mid: nat, to: nat,
                   was: seq<Seen>, between: seq<Seen>, now: seq<Seen>, all: bool)
    requires RanBehind(a, Asks(a), from, mid, was, between, true) && RanBehind(b, m, mid, to, between, now, all)
    ensures RanBehind(Then(a, b), Asks(a) + m, from, to, was, now, all)
  {
    var asks, x, y := Asks(a), ShownBehind(a, Asks(a)), ShownBehind(b, m);
    ThenShown(a, b, asks + m, asks, x, y);
    ConcatAssoc(was, x, y);
    var all := ShownBehind(Then(a, b), asks + m);
    assert all == x + y;
  }

  lemma BehindFirst(a: Script, b: Script, n: nat, from: nat, mid: nat, was: seq<Seen>, between: seq<Seen>)
    requires n < Asks(a) && RanBehind(a, n, from, mid, was, between, false)
    ensures RanBehind(Then(a, b), n, from, mid, was, between, false)
  {
  }

  // ------------------------------------------------------------------- what a callback does

  /** The element, the row id and the operation are asked for. */
  const ROW_ASKS := 3

  function RowScript(db: string, name: string, r: RowChange): Script {
    Then(Ask(ROW_ASKS), Show(RowEvent(db, name, r)))
  }

  function RowsScript(db: string, name: string, rows: seq<RowChange>): Script {
    if rows == [] then Ask(0) else
      Then(RowsScript(db, name, rows[..|rows| - 1]), RowScript(db, name, rows[|rows| - 1]))
  }

  /** The rows are asked for when the subscription wants them, and counted when there are any. */
  function RowsPart(w: Wanted, db: string, t: TableChange): Script {
    if !w.rows then Ask(0)
    else if t.rows.None? then Ask(1)
    else Then(Ask(2), RowsScript(db, Text(t.name), t.rows.value))
  }

  function TablePart(w: Wanted, db: string, t: TableChange): Script {
    if RowsOf(w, t) == [] then Show(Seen(EVENT_OBJCHANGE, Masked(t.op), db, Text(t.name), "")) else Ask(0)
  }

  /** The element, the name and the operation are asked for, then come the rows, or the table. */
  function TableScript(w: Wanted, db: string, t: TableChange): Script {
    Then(Ask(3), Then(RowsPart(w, db, t), TablePart(w, db, t)))
  }

  function TablesScript(w: Wanted, db: string, tables: seq<TableChange>): Script {
    if tables == [] then Ask(0) else
      Then(TablesScript(w, db, tables[..|tables| - 1]), TableScript(w, db, tables[|tables| - 1]))
  }

  /** What comes behind the database and the kind: for objects, the tables are asked for, and counted. */
  function Details(w: Wanted, c: Change): Script {
    var kind := KindFor(w, c.kind);
    if kind == EVENT_OBJCHANGE then
      if c.tables.Some? then Then(Ask(2), TablesScript(w, Text(c.dbname), c.tables.value)) else Ask(1)
    else if kind > 0 then Show(Seen(kind, 0, Text(c.dbname), "", ""))
    else Ask(0)
  }

  function ScriptOf(w: Wanted, c: Change): Script {
    Then(Ask(2), Details(w, c))
  }

  /** Calls of OCI, of which `n` succeeded. */
  lemma RanAsk(works: nat -> bool, k: nat, n: nat, from: nat, was: seq<Seen>)
    requires n == Working(works, from, k)
    ensures Ran(works, Ask(k), from, from + n + (if n == k then 0 else 1), was, was, n == k)
  {
    assert was + [] == was;
    assert RanBehind(Ask(k), n, from, from + n + (if n == k then 0 else 1), was, was, n == k);
  }

  lemma {:induction false} RowsFailed(works: nat -> bool, db: string, name: string, rows: seq<RowChange>, k: nat,
                                      from: nat, to: nat, was: seq<Seen>, now: seq<Seen>)
    requires k <= |rows| && Ran(works, RowsScript(db, name, rows[..k]), from, to, was, now, false)
    ensures Ran(works, RowsScript(db, name, rows), from, to, was, now, false)
  {
    var n := |rows| - 1;
    if k == |rows| {
      assert rows[..k] == rows;
    } else {
      assert rows[..n][..k] == rows[..k];
      RowsFailed(works, db, name, rows[..n], k, from, to, was, now);
      RanThen(works, RowsScript(db, name, rows[..n]), RowScript(db, name, rows[n]), from, to, to, was, now, now, false, false);
    }
  }

  lemma {:induction false} TablesFailed(works: nat -> bool, w: Wanted, db: string, tables: seq<TableChange>, k: nat,
                                        from: nat, to: nat, was: seq<Seen>, now: seq<Seen>)
    requires k <= |tables| && Ran(works, TablesScript(w, db, tables[..k]), from, to, was, now, false)
    ensures Ran(works, TablesScript(w, db, tables), from, to, was, now, false)
  {
    var n := |tables| - 1;
    if k == |tables| {
      assert tables[..k] == tables;
    } else {
      assert tables[..n][..k] == tables[..k];
      TablesFailed(works, w, db, tables[..n], k, from, to, was, now);
      RanThen(works, TablesScript(w, db, tables[..n]), TableScript(w, db, tables[n]), from, to, to, was, now, now, false, false);
    }
  }

  // ----------------------------------------------------------------- what the handler sees

  /** Three calls of OCI for every row. */
  lemma {:induction false} RowsShown(db: string, name: string, rows: seq<RowChange>, n: nat)
    ensures Asks(RowsScript(db, name, rows)) == ROW_ASKS * |rows|
    ensures ShownBehind(RowsScript(db, name, rows), n) == RowEvents(db, name, rows)[..Min(n / ROW_ASKS, |rows|)]
  {
    if rows != [] {
      var k := |rows| - 1;
      RowsShown(db, name, rows[..k], n);
      RowsShown(db, name, rows[..k], ROW_ASKS * k);
      assert RowEvents(db, name, rows[..k]) == RowEvents(db, name, rows)[..k];
      RowShown(RowsScript(db, name, rows[..k]), db, name, rows[k], n);
    }
  }

  lemma RowShown(front: Script, db: string, name: string, r: RowChange, n: nat)
    ensures var s := Then(front, RowScript(db, name, r));
      && Asks(s) == Asks(front) + ROW_ASKS
      && ShownBehind(s, n) == if n < Asks(front) then ShownBehind(front, n)
                              else ShownBehind(front, Asks(front)) + if n < Asks(front) + ROW_ASKS then [] else [RowEvent(db, name, r)]
  {
    var row, k := RowScript(db, name, r), if n < Asks(front) then 0 else n - Asks(front);
    var e := if k < ROW_ASKS then [] else [RowEvent(db, name, r)];
    ThenShown(Ask(ROW_ASKS), Show(RowEvent(db, name, r)), k, ROW_ASKS, [], [RowEvent(db, name, r)]);
    assert ShownBehind(row, k) == e && Asks(row) == ROW_ASKS;
    ThenShown(front, row, n, Asks(front), ShownBehind(front, Min(n, Asks(front))), e);
  }

  /** How many calls of OCI a table takes. */
  function TableAsks(w: Wanted, t: TableChange): nat {
    if !w.rows then 3 else if t.rows.None? then 4 else 5 + ROW_ASKS * |t.rows.value|
  }

  /** The rows of a table that are reported when `m` calls for it succeed: the first five are not about a row. */
  function RowsReached(w: Wanted, t: TableChange, m: nat): (k: nat)
    ensures k <= |RowsOf(w, t)|
  {
    if m < 5 then 0 else Min((m - 5) / ROW_ASKS, |RowsOf(w, t)|)
  }

  /**
   When `m` calls for a table succeed and the next one fails, exactly the rows whose three calls succeeded
   were reported; when none fails, all events of the table.
   */
  lemma TableShown(w: Wanted, db: string, t: TableChange, m: nat)
    ensures Asks(TableScript(w, db, t)) == TableAsks(w, t)
    ensures ShownBehind(TableScript(w, db, t), m) ==
      if m < TableAsks(w, t) then RowEvents(db, Text(t.name), RowsOf(w, t))[..RowsReached(w, t, m)] else TableEvents(w, db, t)
  {
    var rest, k := Then(RowsPart(w, db, t), TablePart(w, db, t)), if m < 3 then 0 else m - 3;
    RestShown(w, db, t, k);
    ThenShown(Ask(3), rest, m, 3, [], ShownBehind(rest, k));
  }

  lemma RestShown(w: Wanted, db: string, t: TableChange, k: nat)
    ensures var rest := Then(RowsPart(w, db, t), TablePart(w, db, t));
      && 3 + Asks(rest) == TableAsks(w, t)
      && ShownBehind(rest, k) == if k + 3 < TableAsks(w, t) then RowEvents(db, Text(t.name), RowsOf(w, t))[..RowsReached(w, t, k + 3)]
                                 else TableEvents(w, db, t)
  {
    var rows, last := RowsPart(w, db, t), TablePart(w, db, t);
    var y := if RowsOf(w, t) == [] then TableEvents(w, db, t) else [];
    PartShown(w, db, t, k);
    PartShown(w, db, t, Asks(rows));
    ThenShown(rows, last, k, Asks(rows), ShownBehind(rows, Min(k, Asks(rows))), y);
  }

  lemma PartShown(w: Wanted, db: string, t: TableChange, m: nat)
    ensures 3 + Asks(RowsPart(w, db, t)) == TableAsks(w, t)
    ensures ShownBehind(RowsPart(w, db, t), m) == RowEvents(db, Text(t.name), RowsOf(w, t))[..RowsReached(w, t, m + 3)]
  {
    if w.rows && t.rows.Some? {
      RowsShown(db, Text(t.name), t.rows.value, if m < 2 then 0 else m - 2);
    }
  }

  /** How many calls the tables take. */
  function TablesAsks(w: Wanted, tables: seq<TableChange>): nat {
    if tables == [] then 0 else TablesAsks(w, tables[..|tables| - 1]) + TableAsks(w, tables[|tables| - 1])
  }

  lemma {:induction false} TablesShown(w: Wanted, db: string, tables: seq<TableChange>)
    ensures Asks(TablesScript(w, db, tables)) == TablesAsks(w, tables)
    ensures ShownBehind(TablesScript(w, db, tables), TablesAsks(w, tables)) == Flattened(w, db, tables)
  {
    if tables != [] {
      var k := |tables| - 1;
      TablesShown(w, db, tables[..k]);
      TableShown(w, db, tables[k], TableAsks(w, tables[k]));
    }
  }

  /** All events of the tables in front of table `i`, and the rows of table `i` that `m` calls for it reach. */
  function SeenUpTo(w: Wanted, db: string, tables: seq<TableChange>, i: nat, m: nat): seq<Seen>
    requires i < |tables|
  {
    Flattened(w, db, tables[..i]) + RowEvents(db, Text(tables[i].name), RowsOf(w, tables[i]))[..RowsReached(w, tables[i], m)]
  }

  /** When the calls for the tables in front of table `i` succeed, and `m` of those for table `i`. */
  lemma FailureInTables(w: Wanted, db: string, tables: seq<TableChange>, i: nat, m: nat)
    requires i < |tables| && m < TableAsks(w, tables[i])
    ensures var n := TablesAsks(w, tables[..i]) + m;
      n < TablesAsks(w, tables) && ShownBehind(TablesScript(w, db, tables), n) == SeenUpTo(w, db, tables, i, m)
  {
    assert tables[..i + 1] == tables[..i] + [tables[i]];
    LastTable(w, db, tables[..i], tables[i], m);
    TablesStart(w, db, tables, i + 1, TablesAsks(w, tables[..i]) + m);
  }

  lemma {:induction false} TablesStart(w: Wanted, db: string, tables: seq<TableChange>, k: nat, n: nat)
    requires k <= |tables| && n < TablesAsks(w, tables[..k])
    ensures n < TablesAsks(w, tables) && ShownBehind(TablesScript(w, db, tables), n) == ShownBehind(TablesScript(w, db, tables[..k]), n)
  {
    if k == |tables| {
      assert tables[..k] == tables;
    } else {
      assert tables[..|tables| - 1][..k] == tables[..k];
      TablesStart(w, db, tables[..|tables| - 1], k, n);
      NotLastTable(w, db, tables, n);
    }
  }

  lemma NotLastTable(w: Wanted, db: string, tables: seq<TableChange>, n: nat)
    requires tables != [] && n < TablesAsks(w, tables[..|tables| - 1])
    ensures n < TablesAsks(w, tables)
    ensures ShownBehind(TablesScript(w, db, tables), n) == ShownBehind(TablesScript(w, db, tables[..|tables| - 1]), n)
  {
    var k := |tables| - 1;
    TablesShown(w, db, tables[..k]);
    var front, table := TablesScript(w, db, tables[..k]), TableScript(w, db, tables[k]);
    ThenShown(front, table, n, TablesAsks(w, tables[..k]), ShownBehind(front, n), []);
  }

  lemma LastTable(w: Wanted, db: string, front: seq<TableChange>, t: TableChange, m: nat)
    requires m < TableAsks(w, t)
    ensures TablesAsks(w, front + [t]) == TablesAsks(w, front) + TableAsks(w, t)
    ensures ShownBehind(TablesScript(w, db, front + [t]), TablesAsks(w, front) + m)
         == Flattened(w, db, front) + RowEvents(db, Text(t.name), RowsOf(w, t))[..RowsReached(w, t, m)]
  {
    TablesSnoc(w, db, front, t);
    LastScript(w, db, front, t, m);
  }

  lemma TablesSnoc(w: Wanted, db: string, front: seq<TableChange>, t: TableChange)
    ensures TablesScript(w, db, front + [t]) == Then(TablesScript(w, db, front), TableScript(w, db, t))
    ensures TablesAsks(w, front + [t]) == TablesAsks(w, front) + TableAsks(w, t)
  {
    assert (front + [t])[..|front|] == front;
  }

  lemma LastScript(w: Wanted, db: string, front: seq<TableChange>, t: TableChange, m: nat)
    requires m < TableAsks(w, t)
    ensures ShownBehind(Then(TablesScript(w, db, front), TableScript(w, db, t)), TablesAsks(w, front) + m)
         == Flattened(w, db, front) + RowEvents(db, Text(t.name), RowsOf(w, t))[..RowsReached(w, t, m)]
  {
    TablesShown(w, db, front);
    TableShown(w, db, t, m);
    LastReached(TablesScript(w, db, front), TableScript(w, db, t), TablesAsks(w, front), m, Flattened(w, db, front),
                RowEvents(db, Text(t.name), RowsOf(w, t))[..RowsReached(w, t, m)]);
  }

  lemma LastReached(start: Script, table: Script, asks: nat, m: nat, x: seq<Seen>, y: seq<Seen>)
    requires Asks(start) == asks && x == ShownBehind(start, asks) && y == ShownBehind(table, m)
    ensures ShownBehind(Then(start, table), asks + m) == x + y
  {
    TableReached(start, table, asks, m);
  }

  lemma TableReached(front: Script, table: Script, asks: nat, m: nat)
    requires Asks(front) == asks
    ensures ShownBehind(Then(front, table), asks + m) == ShownBehind(front, asks) + ShownBehind(table, m)
  {
  }

  /** The subscription is told about the tables of the change. */
  predicate TellsTables(w: Wanted, c: Change) {
    KindFor(w, c.kind) == EVENT_OBJCHANGE && c.tables.Some?
  }

  /** When no call fails, the handler sees what is expected. */
  lemma ScriptShows(w: Wanted, c: Change)
    ensures ShownBehind(ScriptOf(w, c), Asks(ScriptOf(w, c))) == Expected(w, c)
    ensures TellsTables(w, c) ==> Asks(ScriptOf(w, c)) == 4 + TablesAsks(w, c.tables.value)
  {
    if TellsTables(w, c) {
      FullScript(w, c);
    } else {
      ShortScript(w, c);
    }
  }

  lemma FullScript(w: Wanted, c: Change)
    requires TellsTables(w, c)
    ensures Asks(ScriptOf(w, c)) == 4 + TablesAsks(w, c.tables.value)
    ensures ShownBehind(ScriptOf(w, c), Asks(ScriptOf(w, c))) == Flattened(w, Text(c.dbname), c.tables.value)
  {
    TablesShown(w, Text(c.dbname), c.tables.value);
    FourCalls(w, c, TablesAsks(w, c.tables.value));
  }

  lemma ShortScript(w: Wanted, c: Change)
    requires !TellsTables(w, c)
    ensures ShownBehind(ScriptOf(w, c), Asks(ScriptOf(w, c))) == Expected(w, c)
  {
    ThenShown(Ask(2), Details(w, c), 2 + Asks(Details(w, c)), 2, [], Expected(w, c));
  }

  /** Whichever call fails, the handler sees a prefix of what is expected. */
  lemma PrefixSeen(w: Wanted, c: Change, n: nat)
    ensures ShownBehind(ScriptOf(w, c), n) <= Expected(w, c)
  {
    var script := ScriptOf(w, c);
    ScriptShows(w, c);
    ShownMore(script, Min(n, Asks(script)), Asks(script));
    ShownMore(script, n, n);
  }

  /**
   When the call that fails is one for table `i`, behind `m` that succeeded, the handler saw all events of the
   tables in front of it, and of table `i` exactly the rows whose three calls succeeded.
   */
  lemma FailureShows(w: Wanted, c: Change, i: nat, m: nat)
    requires TellsTables(w, c) && i < |c.tables.value| && m < TableAsks(w, c.tables.value[i])
    ensures var n := 4 + TablesAsks(w, c.tables.value[..i]) + m;
      n < Asks(ScriptOf(w, c)) && ShownBehind(ScriptOf(w, c), n) == SeenUpTo(w, Text(c.dbname), c.tables.value, i, m)
  {
    var tables, k := c.tables.value, TablesAsks(w, c.tables.value[..i]) + m;
    TablesShown(w, Text(c.dbname), tables);
    FailureInTables(w, Text(c.dbname), tables, i, m);
    FourCalls(w, c, k);
  }

  /** The first four calls show nothing. */
  lemma FourCalls(w: Wanted, c: Change, k: nat)
    requires TellsTables(w, c)
    ensures var script := TablesScript(w, Text(c.dbname), c.tables.value);
      && Asks(ScriptOf(w, c)) == 4 + Asks(script) && ShownBehind(ScriptOf(w, c), 4 + k) == ShownBehind(script, k)
    ensures forall n: nat :: n < 4 ==> ShownBehind(ScriptOf(w, c), n) == []
  {
    var script := TablesScript(w, Text(c.dbname), c.tables.value);
    var inner := Then(Ask(2), script);
    assert Details(w, c) == inner;
    ThenShown(Ask(2), script, 2 + k, 2, [], ShownBehind(script, k));
    ThenShown(Ask(2), inner, 4 + k, 2, [], ShownBehind(script, k));
    forall n: nat | n < 4
      ensures ShownBehind(ScriptOf(w, c), n) == []
    {
      if n >= 2 {
        ThenShown(Ask(2), script, n - 2, 2, [], []);
      }
      ThenShown(Ask(2), inner, n, 2, [], []);
    }
  }

  // -------------------------------------------------------------------------- the callback

  class Event {
    var kind: nat
    var op: ub4
    var dbname: Option<string>
    var objname: Option<string>
    var rowid: Option<string>

    constructor ()
      ensures kind == 0 && op == 0 && dbname == objname == rowid == None
    {
      kind, op, dbname, objname, rowid := 0, 0, None, None, None;
    }

    function Shown(): Seen
      reads this
    {
      Seen(kind, op, Text(dbname), Text(objname), Text(rowid))
    }

    /** OcilibEventReset: a buffer that was allocated is kept and emptied. */
    method Reset()
      modifies this
      ensures Shown() == Seen(0, 0, "", "", "")
    {
      op, kind := 0, 0;
      dbname, objname, rowid := Emptied(dbname), Emptied(objname), Emptied(rowid);
    }
  }

  function Emptied(t: Option<string>): (r: Option<string>)
    ensures Text(r) == ""
  {
    if t.Some? then Some("") else None
  }

  /** OcilibStringGetAttribute: an absent attribute leaves the buffer as it is. */
  function Attribute(value: Option<string>, buffer: Option<string>): Option<string> {
    if value.Some? then value else buffer
  }

  class Subscription {
    const wanted: Wanted
    const event: Event
    /** Which calls of OCI succeed, in the order they are made. */
    const works: nat -> bool
    var calls: nat
    ghost var trace: seq<Seen>

    constructor (wanted: Wanted, works: nat -> bool)
      ensures this.wanted == wanted && this.works == works && fresh(event) && trace == [] && calls == 0
    {
      this.wanted, this.works, trace, calls := wanted, works, [], 0;
      event := new Event();
    }

    /** The user's handler. */
    method Handler()
      modifies this`trace
      ensures trace == old(trace) + [event.Shown()]
      ensures Ran(works, Show(event.Shown()), calls, calls, old(trace), trace, true)
    {
      trace := trace + [event.Shown()];
      assert RanBehind(Show(event.Shown()), 0, calls, calls, old(trace), trace, true);
    }

    /** Call number `k` of `whole` calls of OCI, those before it having succeeded. */
    method AskOci(ghost k: nat, ghost whole: nat, ghost from: nat) returns (ok: bool)
      requires k < whole && Ran(works, Ask(k), from, calls, trace, trace, true)
      modifies this`calls
      ensures Ran(works, Ask(if ok then k + 1 else whole), from, calls, trace, trace, ok)
    {
      ok := works(calls);
      WorkingMore(works, from, k, whole);
      RanAsk(works, if ok then k + 1 else whole, if ok then k + 1 else k, from, trace);
      calls := calls + 1;
    }

    /**
     OcilibCallbackNotifyChanges. The first call of OCI that fails ends it: the handler has seen exactly what
     comes before that call in the script of the notification; everything expected when no call fails.
     */
    method NotifyChanges(c: Change) returns (ghost complete: bool)
      modifies this`trace, this`calls, event
      ensures Ran(works, ScriptOf(wanted, c), old(calls), calls, old(trace), trace, complete)
      ensures complete ==> trace == old(trace) + Expected(wanted, c)
      ensures complete ==> |old(trace)| <= |trace| && old(trace) <= trace && Delivered(wanted, c, trace[|old(trace)|..])
      ensures (forall k :: k >= old(calls) ==> works(k)) ==> complete
    {
      ScriptShows(wanted, c);
      ExpectedDelivers(wanted, c);
      AllWork(works, calls, Asks(ScriptOf(wanted, c)));
      event.Reset();
      RanNothing(works, calls, trace);
      ghost var from, was := calls, trace;
      var ok := AskOci(0, 2, from);
      if ok {
        event.dbname := Attribute(c.dbname, event.dbname);
        ok := AskOci(1, 2, from);
      }
      ghost var mid := calls;
      complete := ok;
      if ok {
        complete := NotifyDetails(c);
      }
      RanThen(works, Ask(2), Details(wanted, c), from, mid, calls, was, was, trace, ok, complete);
    }

    /** The kind is set when the subscription wants it; then the tables, or one event. */
    method NotifyDetails(c: Change) returns (complete: bool)
      requires event.Shown() == Seen(0, 0, Text(c.dbname), "", "")
      modifies this`trace, this`calls, event
      ensures Ran(works, Details(wanted, c), old(calls), calls, old(trace), trace, complete)
    {
      if c.kind == EVENT_STARTUP || c.kind == EVENT_SHUTDOWN || c.kind == EVENT_SHUTDOWN_ANY {
        if wanted.databases {
          event.kind := c.kind;
        }
      } else if c.kind == EVENT_DEREG {
        event.kind := c.kind;
      } else if c.kind == EVENT_OBJCHANGE {
        if wanted.objects {
          event.kind := c.kind;
        }
      }
      RanNothing(works, calls, trace);
      complete := true;
      if event.kind == EVENT_OBJCHANGE {
        complete := NotifyObjects(c);
      } else if event.kind > 0 {
        Handler();
      }
    }

    method NotifyObjects(c: Change) returns (complete: bool)
      requires event.kind == EVENT_OBJCHANGE == KindFor(wanted, c.kind) && Text(event.dbname) == Text(c.dbname)
      modifies this`trace, this`calls, event
      ensures Ran(works, Details(wanted, c), old(calls), calls, old(trace), trace, complete)
    {
      RanNothing(works, calls, trace);
      ghost var from, was := calls, trace;
      var ok := AskOci(0, if c.tables.Some? then 2 else 1, from);
      if c.tables.None? { return ok; }
      if ok {
        ok := AskOci(1, if c.tables.Some? then 2 else 1, from);
      }
      ghost var mid := calls;
      complete := ok;
      if ok {
        complete := NotifyTables(Text(c.dbname), c.tables.value);
      }
      RanThen(works, Ask(2), TablesScript(wanted, Text(c.dbname), c.tables.value), from, mid, calls, was, was, trace, ok, complete);
    }

    method NotifyTables(ghost db: string, tables: seq<TableChange>) returns (complete: bool)
      requires event.kind == EVENT_OBJCHANGE && Text(event.dbname) == db
      modifies this`trace, this`calls, event
      ensures Ran(works, TablesScript(wanted, db, tables), old(calls), calls, old(trace), trace, complete)
    {
      var i := 0;
      RanNothing(works, calls, trace);
      complete := true;
      while complete && i < |tables|
        invariant i <= |tables| && event.kind == EVENT_OBJCHANGE && Text(event.dbname) == db
        invariant Ran(works, TablesScript(wanted, db, tables[..i]), old(calls), calls, old(trace), trace, complete)
      {
        ghost var mid, between := calls, trace;
        complete := NotifyTable(db, tables[i]);
        assert tables[..i + 1][..i] == tables[..i];
        RanThen(works, TablesScript(wanted, db, tables[..i]), TableScript(wanted, db, tables[i]), old(calls), mid, calls,
                old(trace), between, trace, true, complete);
        i := i + 1;
      }
      if complete {
        assert tables[..i] == tables;
      } else {
        TablesFailed(works, wanted, db, tables, i, old(calls), calls, old(trace), trace);
      }
    }

    /** The event is emptied of what the table before left in it; then the table's rows, or the table. */
    method NotifyTable(ghost db: string, t: TableChange) returns (complete: bool)
      requires event.kind == EVENT_OBJCHANGE && Text(event.dbname) == db
      modifies this`trace, this`calls, event
      ensures event.kind == EVENT_OBJCHANGE && Text(event.dbname) == db
      ensures Ran(works, TableScript(wanted, db, t), old(calls), calls, old(trace), trace, complete)
    {
      event.objname, event.rowid := Emptied(event.objname), Emptied(event.rowid);
      RanNothing(works, calls, trace);
      var ok := AskOci(0, 3, old(calls));
      if ok {
        ok := AskOci(1, 3, old(calls));
      }
      if ok {
        event.objname := Attribute(t.name, event.objname);
        ok := AskOci(2, 3, old(calls));
      }
      ghost var mid := calls;
      complete := ok;
      if ok {
        event.op := Masked(t.op);
        complete := NotifyParts(db, t);
      }
      RanThen(works, Ask(3), Then(RowsPart(wanted, db, t), TablePart(wanted, db, t)), old(calls), mid, calls,
              old(trace), old(trace), trace, ok, complete);
    }

    /** The rows; the table when there are none. */
    method NotifyParts(ghost db: string, t: TableChange) returns (complete: bool)
      requires event.Shown() == Seen(EVENT_OBJCHANGE, Masked(t.op), db, Text(t.name), "")
      modifies this`trace, this`calls, event`rowid, event`op
      ensures Ran(works, Then(RowsPart(wanted, db, t), TablePart(wanted, db, t)), old(calls), calls, old(trace), trace, complete)
    {
      var nbRows: nat;
      var ok;
      ok, nbRows := NotifyRowsPart(db, t);
      ghost var mid, between := calls, trace;
      RanNothing(works, calls, trace);
      complete := ok;
      if ok && nbRows == 0 {
        Handler();
      }
      RanThen(works, RowsPart(wanted, db, t), TablePart(wanted, db, t), old(calls), mid, calls, old(trace), between, trace, ok, complete);
    }

    method NotifyRowsPart(ghost db: string, t: TableChange) returns (ok: bool, nbRows: nat)
      requires event.Shown() == Seen(EVENT_OBJCHANGE, Masked(t.op), db, Text(t.name), "")
      modifies this`trace, this`calls, event`rowid, event`op
      ensures Ran(works, RowsPart(wanted, db, t), old(calls), calls, old(trace), trace, ok)
      ensures ok ==> nbRows == |RowsOf(wanted, t)| && (nbRows == 0 ==> event.Shown() == old(event.Shown()))
    {
      RanNothing(works, calls, trace);
      nbRows := 0;
      ok := true;
      if !wanted.rows { return; }
      ok := AskOci(0, if t.rows.Some? then 2 else 1, old(calls));
      if t.rows.None? { return; }
      if ok {
        ok := AskOci(1, if t.rows.Some? then 2 else 1, old(calls));
      }
      ghost var mid, counted := calls, ok;
      if ok {
        nbRows := |t.rows.value|;
        ok := NotifyRows(db, Text(t.name), t.rows.value);
      }
      RanThen(works, Ask(2), RowsScript(db, Text(t.name), t.rows.value), old(calls), mid, calls,
              old(trace), old(trace), trace, counted, ok);
    }

    method NotifyRows(ghost db: string, ghost name: string, rows: seq<RowChange>) returns (complete: bool)
      requires event.kind == EVENT_OBJCHANGE && Text(event.dbname) == db && Text(event.objname) == name
      modifies this`trace, this`calls, event`rowid, event`op
      ensures Ran(works, RowsScript(db, name, rows), old(calls), calls, old(trace), trace, complete)
      ensures rows == [] ==> event.Shown() == old(event.Shown())
    {
      var j := 0;
      RanNothing(works, calls, trace);
      complete := true;
      while complete && j < |rows|
        invariant j <= |rows| && (j == 0 ==> event.Shown() == old(event.Shown()))
        invariant Ran(works, RowsScript(db, name, rows[..j]), old(calls), calls, old(trace), trace, complete)
      {
        ghost var mid, between := calls, trace;
        complete := NotifyRow(db, name, rows[j]);
        assert rows[..j + 1][..j] == rows[..j];
        RanThen(works, RowsScript(db, name, rows[..j]), RowScript(db, name, rows[j]), old(calls), mid, calls,
                old(trace), between, trace, true, complete);
        j := j + 1;
      }
      if complete {
        assert rows[..j] == rows;
      } else {
        RowsFailed(works, db, name, rows, j, old(calls), calls, old(trace), trace);
      }
    }

    method NotifyRow(ghost db: string, ghost name: string, r: RowChange) returns (ok: bool)
      requires event.kind == EVENT_OBJCHANGE && Text(event.dbname) == db && Text(event.objname) == name
      modifies this`trace, this`calls, event`rowid, event`op
      ensures Ran(works, RowScript(db, name, r), old(calls), calls, old(trace), trace, ok)
    {
      RanNothing(works, calls, trace);
      event.rowid := Emptied(event.rowid);
      ok := AskOci(0, ROW_ASKS, old(calls));
      if ok {
        ok := AskOci(1, ROW_ASKS, old(calls));
      }
      if ok {
        event.rowid := Attribute(r.rowid, event.rowid);
        ok := AskOci(2, ROW_ASKS, old(calls));
      }
      ghost var mid := calls;
      if ok {
        event.op := r.op;
        Handler();
      }
      RanThen(works, Ask(ROW_ASKS), Show(RowEvent(db, name, r)), old(calls), mid, calls, old(trace), old(trace), trace, ok, ok);
    }
  }
}
