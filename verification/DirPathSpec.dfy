/**
 The direct-path loader as a state machine over values.

 `Dp` is everything a caller of the loader, or the server behind it, can observe. Each public
 operation is a relation between two such states; the class in DirPath.dfy is proved to follow
 these relations, and the theorems about the loader are proved from them.
 */
module DirPathSpec {
  import opened Options
  import opened Words
  import opened Seqs

  /** OCI_DIRPATH_COL_COMPLETE, OCI_DIRPATH_COL_NULL and OCI_DIRPATH_COL_PARTIAL. */
  datatype Flag = ColComplete | ColNull | ColPartial

  datatype Entry = Entry(value: seq<byte>, flag: Flag)

  type Row = seq<Entry>

  /** What the conversion and the server think of a row: fixed, and unknown to the loader. */
  datatype Server = Server(convertible: Row -> bool, badColumn: Row -> nat, acceptable: Row -> bool)

  datatype Status = NotPrepared | Prepared | Converted | Terminated

  datatype Res = DprComplete | DprError | DprFull | DprPartial | DprEmpty

  /** The scalar members of OCI_DirPath. */
  datatype Counters = Counters(
    status: Status,
    force: bool,                // conversion mode is OCI_DCM_FORCE
    nbRows: nat,                // rows allocated, also the size of the error arrays
    nbCur: nat,                 // rows of the current batch
    nbConverted: ub4,
    nbProcessed: ub4,
    nbLoaded: ub4,
    idxRow: nat,                // next recorded error to report the row of
    idxCol: nat,                // next recorded error to report the column of
    loadOffset: nat,
    resConv: Res,
    resLoad: Res
  )

  /** The counters of a new loader: DEFAULT mode, all rows current. */
  function NewCounters(nbRows: nat): Counters {
    Counters(NotPrepared, false, nbRows % 0x1_0000, nbRows % 0x1_0000, 0, 0, 0, 0, 0, 0, DprEmpty, DprEmpty)
  }

  /** The OCI stream and the server behind it. */
  datatype Stream = Stream(
    rows: seq<Row>,             // converted rows held by the stream
    offset: nat,                // how many of them were already handed to the server
    table: seq<Row>,            // rows the server accepted
    ever: seq<Row>              // every row any conversion put into the stream
  )

  datatype Dp = Dp(
    c: Counters,
    errs: seq<(nat, nat)>,      // recorded errors: zero-based row and column
    rows: seq<Row>,             // the cells, row by row
    o: Stream
  )

  /** The converted rows the server has not been handed yet. */
  function Pending(s: Dp): seq<Row>
    requires s.o.offset <= |s.o.rows|
  {
    s.o.rows[s.o.offset..]
  }

  /** Shape of a state: sizes agree. Kept by every operation. */
  ghost predicate Shape(s: Dp) {
    && s.c.nbRows < 0x1_0000
    && (if s.c.status == NotPrepared then s.errs == [] else s.c.nbCur <= s.c.nbRows == |s.rows|)
    && |s.errs| <= s.c.nbRows
    && s.c.idxRow <= |s.errs| && s.c.idxCol <= |s.errs|
    && s.o.offset <= |s.o.rows|
  }

  // ---------------------------------------------------------------------------- conversion

  /** The row a Convert starts from. */
  function ResumeRow(s: Dp): nat {
    if (!s.c.force || s.c.resConv == DprFull) && s.errs != [] then Last(s.errs).0 else 0
  }

  /** The rows re-based into the column array when a pass starts at row `from`. */
  function RowsFrom(s: Dp, from: nat): (b: seq<Row>)
    requires s.c.nbCur <= |s.rows|
    ensures |b| == if from <= s.c.nbCur then s.c.nbCur - from else 0
  {
    if from <= s.c.nbCur then s.rows[from..s.c.nbCur] else []
  }

  /** The rows a Convert hands to OCI. */
  function Batch(s: Dp): seq<Row>
    requires s.c.nbCur <= |s.rows|
  {
    RowsFrom(s, ResumeRow(s))
  }

  /** A full stream is emptied before converting again. */
  function BaseStream(s: Dp): Stream {
    if s.c.resConv == DprFull then s.o.(rows := [], offset := 0) else s.o
  }

  /** The errors conversion records for `batch` when its first row is row `from`. */
  function Faults(v: Server, batch: seq<Row>, from: nat): (r: seq<(nat, nat)>)
    ensures |r| == |Misses(v.convertible, batch)|
  {
    var m := Misses(v.convertible, batch);
    seq(|m|, i requires 0 <= i < |m| => (from + m[i], v.badColumn(batch[m[i]])))
  }

  predicate HasPartial(r: Row) {
    exists c :: 0 <= c < |r| && r[c].flag == ColPartial
  }

  /** Why a Convert that consumed `m` rows of the batch stopped there with result `r`. */
  ghost predicate ConvertEnds(v: Server, s: Dp, stream: seq<Row>, r: Res, m: nat)
    requires s.c.nbCur <= |s.rows|
  {
    && m <= |Batch(s)|
    && (s.c.force || All(v.convertible, Batch(s)[..m]))
    && match r
       case DprComplete => m == |Batch(s)|
       case DprFull => m < |Batch(s)| && stream != []
       case DprError => m < |Batch(s)| && !v.convertible(Batch(s)[m])
       case DprPartial => m < |Batch(s)| && HasPartial(Batch(s)[m])
       case DprEmpty => false
  }

  /** The errors recorded by a Convert: the faults it passed over, then the one it stopped at. */
  function NewErrors(v: Server, s: Dp, r: Res, m: nat): seq<(nat, nat)>
    requires s.c.nbCur <= |s.rows| && m <= |Batch(s)|
    requires r == DprError ==> m < |Batch(s)|
  {
    Faults(v, Batch(s)[..m], ResumeRow(s)) + StopError(v, s, r, m)
  }

  function StopError(v: Server, s: Dp, r: Res, m: nat): seq<(nat, nat)>
    requires s.c.nbCur <= |s.rows|
    requires r == DprError ==> m < |Batch(s)|
  {
    if r == DprError then [(ResumeRow(s) + m, v.badColumn(Batch(s)[m]))] else []
  }

  /** The rows a Convert that consumed `m` rows of the batch put into the stream. */
  function Good(v: Server, s: Dp, m: nat): seq<Row>
    requires s.c.nbCur <= |s.rows| && m <= |Batch(s)|
  {
    Filter(v.convertible, Batch(s)[..m])
  }

  /** The state behind a Convert that added `good` to the stream, recorded `errors` and ended with `r`. */
  function Behind(s: Dp, r: Res, good: seq<Row>, errors: seq<(nat, nat)>): Dp {
    Dp(s.c.(status := if r == DprComplete || r == DprFull then Converted else Prepared,
            nbConverted := Add32(s.c.nbConverted, |good|),
            nbProcessed := Add32(s.c.nbConverted, |good|),
            resConv := r),
       s.errs + errors,
       s.rows,
       BaseStream(s).(rows := BaseStream(s).rows + good, ever := s.o.ever + good))
  }

  /**
   FORCE mode goes on behind an error only while no more errors are recorded than there are current
   rows: that was so behind every fault among the first `m` rows.
   */
  ghost predicate Guarded(v: Server, s: Dp, m: nat)
    requires s.c.nbCur <= |s.rows| && m <= |Batch(s)|
  {
    var passed := |Misses(v.convertible, Batch(s)[..m])|;
    passed > 0 ==> |s.errs| + passed <= s.c.nbCur
  }

  /**
   Convert consumed the first `m` rows of the batch and returned `r`. FORCE mode gives up on an
   error only when more errors are recorded than there are rows.
   */
  ghost predicate ConvertedTo(v: Server, s: Dp, t: Dp, r: Res, m: nat) {
    && Shape(s) && s.c.status == Prepared
    && ConvertEnds(v, s, t.o.rows, r, m) && Guarded(v, s, m)
    && (r == DprError && s.c.force ==> |t.errs| > s.c.nbCur)
    && t == Behind(s, r, Good(v, s, m), NewErrors(v, s, r, m))
  }

  ghost predicate ConvertStep(v: Server, s: Dp, t: Dp, r: Res) {
    if s.c.status != Prepared then t == s && r == DprError
    else exists m: nat :: ConvertedTo(v, s, t, r, m)
  }

  /** How many errors a Convert may record before its guard, or DEFAULT mode, stops it. */
  function ErrorLimit(s: Dp): nat {
    if s.c.force && |s.errs| < s.c.nbCur then s.c.nbCur + 1 - |s.errs| else 1
  }

  /**
   The error arrays have a place for every error the next Convert can record: one for every unconvertible
   row of the batch, up to the limit.
   */
  ghost predicate ConvertRoom(v: Server, s: Dp) {
    Shape(s) && s.c.status == Prepared ==>
      |s.errs| + Min(|Misses(v.convertible, Batch(s))|, ErrorLimit(s)) <= s.c.nbRows
  }

  // ------------------------------------------------------------------------------- loading

  datatype LoadRet = LoadSuccess | LoadFailed | LoadNoData | LoadNeedData

  /**
   One call that pushes the stream: `accepted` rows in a row were accepted, then, when `rejects`,
   one row was refused and skipped.
   */
  datatype LoadCall = LoadCall(ret: LoadRet, accepted: nat, rejects: bool)

  function Used(c: LoadCall): nat {
    c.accepted + if c.rejects then 1 else 0
  }

  /** The stream behind a call that handed over `Used(call)` of its rows. */
  function Handed(o: Stream, call: LoadCall): Stream
    requires o.offset + Used(call) <= |o.rows|
  {
    o.(offset := o.offset + Used(call), table := o.table + o.rows[o.offset..o.offset + call.accepted])
  }

  function After(o: nat, calls: seq<LoadCall>): (r: nat)
    ensures o <= r
  {
    if calls == [] then o else After(o, calls[..|calls| - 1]) + Used(Last(calls))
  }

  function LoadedCount(calls: seq<LoadCall>): nat {
    if calls == [] then 0 else LoadedCount(calls[..|calls| - 1]) + Last(calls).accepted
  }

  /** A call made at stream position `o` told the truth about the rows it went through. */
  ghost predicate CallOk(v: Server, stream: seq<Row>, o: nat, c: LoadCall) {
    && o + Used(c) <= |stream|
    && All(v.acceptable, stream[o..o + c.accepted])
    && (c.rejects ==> c.ret == LoadFailed && !v.acceptable(stream[o + c.accepted]))
    && (c.ret == LoadSuccess ==> o + c.accepted == |stream|)
    && (c.ret == LoadNoData ==> o == |stream|)
  }

  ghost predicate CallsOk(v: Server, stream: seq<Row>, o: nat, calls: seq<LoadCall>) {
    calls == [] || (
      && CallsOk(v, stream, o, calls[..|calls| - 1])
      && CallOk(v, stream, After(o, calls[..|calls| - 1]), Last(calls)))
  }

  /** The rows the server accepted during the calls, in order. */
  function AcceptedRows(stream: seq<Row>, o: nat, calls: seq<LoadCall>): seq<Row> {
    if calls == [] then [] else
      var before := AcceptedRows(stream, o, calls[..|calls| - 1]);
      var p := After(o, calls[..|calls| - 1]);
      if p + Last(calls).accepted <= |stream| then before + stream[p..p + Last(calls).accepted]
      else before
  }

  /** The error list Load builds: each failing call adds one entry computed from the previous one. */
  function LoadErrs(loaded: ub4, calls: seq<LoadCall>): (r: seq<(nat, nat)>)
    ensures |r| <= |calls|
  {
    if calls == [] then [] else
      var before := LoadErrs(loaded, calls[..|calls| - 1]);
      var c := Last(calls);
      if c.ret == LoadSuccess then before
      else if before != [] then before + [(Add32(Add32(Last(before).0, c.accepted), 1), 0)]
      else before + [(Add32(loaded, LoadedCount(calls)), 0)]
  }

  /** Every failure refuses a row, and a drained stream answers success. */
  predicate Steady(calls: seq<LoadCall>) {
    forall i :: 0 <= i < |calls| ==>
      calls[i].ret == LoadSuccess || (calls[i].ret == LoadFailed && calls[i].rejects)
  }

  function ResOf(ret: LoadRet): Res {
    match ret
    case LoadSuccess => DprComplete
    case LoadFailed => DprError
    case LoadNoData => DprEmpty
    case LoadNeedData => DprPartial
  }

  /**
   The calls a Load makes: it calls again exactly while the last call failed and, from the second
   call on, moved the stream offset.
   */
  ghost predicate RetriesWhileAdvancing(calls: seq<LoadCall>) {
    && calls != []
    && (forall i :: 0 <= i < |calls| - 1 ==> calls[i].ret == LoadFailed)
    && (forall i :: 0 < i < |calls| - 1 ==> Used(calls[i]) > 0)
    && (Last(calls).ret == LoadFailed ==> |calls| > 1 && Used(Last(calls)) == 0)
  }

  /** The state behind calls that loaded the rows `loaded`, recorded `errs`, and got to `offset`. */
  function LoadedWith(s: Dp, ret: LoadRet, loaded: seq<Row>, errs: seq<(nat, nat)>, offset: nat): Dp {
    Dp(s.c.(status := if ret == LoadSuccess then Prepared else Converted,
            nbProcessed := Add32(0, |loaded|),
            nbLoaded := Add32(s.c.nbLoaded, |loaded|),
            idxRow := 0,
            idxCol := 0,
            loadOffset := offset,
            resLoad := ResOf(ret)),
       errs,
       s.rows,
       s.o.(offset := offset, table := s.o.table + loaded))
  }

  /** The state behind the calls of a Load that started in `s`. */
  function LoadedState(s: Dp, calls: seq<LoadCall>): Dp
    requires calls != []
  {
    LoadedWith(s, Last(calls).ret, AcceptedRows(s.o.rows, s.o.offset, calls), LoadErrs(s.c.nbLoaded, calls),
               After(s.o.offset, calls))
  }

  ghost predicate LoadedBy(v: Server, s: Dp, t: Dp, r: Res, calls: seq<LoadCall>) {
    && Shape(s) && s.c.status == Converted
    && RetriesWhileAdvancing(calls)
    && CallsOk(v, s.o.rows, s.o.offset, calls)
    && t == LoadedState(s, calls) && r == t.c.resLoad
  }

  ghost predicate LoadStep(v: Server, s: Dp, t: Dp, r: Res) {
    if s.c.status != Converted then t == s && r == DprError
    else exists calls :: LoadedBy(v, s, t, r, calls)
  }

  /** A failure that refuses no row, or an answer other than success or failure. */
  predicate Idle(c: LoadCall) {
    c.ret != LoadSuccess && !c.rejects
  }

  function Idles(calls: seq<LoadCall>): (n: nat)
    ensures n <= |calls|
  {
    if calls == [] then 0 else Idles(calls[..|calls| - 1]) + if Idle(Last(calls)) then 1 else 0
  }

  /** A Load against a server without idle failures completes. */
  ghost predicate SteadyLoad(v: Server, s: Dp, t: Dp) {
    exists calls :: LoadedBy(v, s, t, DprComplete, calls) && Steady(calls)
  }

  /**
   The error arrays have a place for every error the next Load can record against a server that is idle
   at most `idle` times: one for every row it refuses, and one for every idle failure, of which there is
   at most one for every row it accepts, one before it moves and one after.
   */
  ghost predicate LoadRoom(v: Server, s: Dp, idle: nat) {
    Shape(s) && s.c.status == Converted ==>
      |Misses(v.acceptable, Pending(s))| + Min(idle, |Filter(v.acceptable, Pending(s))| + 2) <= s.c.nbRows
  }

  // ------------------------------------------------------------------- the other operations

  /** Zero-filled cells. */
  function BlankRows(n: nat, nbCols: nat): (rows: seq<Row>)
    ensures |rows| == n && forall r :: 0 <= r < n ==> |rows[r]| == nbCols
    ensures forall r, c :: 0 <= r < n && 0 <= c < nbCols ==> rows[r][c] == Entry([], ColComplete)
  {
    seq(n, _ => seq(nbCols, _ => Entry([], ColComplete)))
  }

  ghost predicate PrepareStep(s: Dp, t: Dp, n: nat, nbCols: nat, ok: bool) {
    && ok == (s.c.status == NotPrepared)
    && t == if !ok then s else s.(
         c := s.c.(status := Prepared, nbRows := n % 0x1_0000, nbCur := n % 0x1_0000),
         rows := BlankRows(n % 0x1_0000, nbCols))
  }

  ghost predicate SetModeStep(s: Dp, t: Dp, force: bool, ok: bool) {
    && ok == (s.c.status == NotPrepared)
    && t == if !ok then s else s.(c := s.c.(force := force))
  }

  function WithCell(rows: seq<Row>, r: nat, c: nat, e: Entry): seq<Row>
    requires r < |rows| && c < |rows[r]|
  {
    rows[r := rows[r][c := e]]
  }

  /** There is such a cell among the current rows; `row` and `col` count from 1. */
  predicate CellThere(s: Dp, row: nat, col: nat) {
    1 <= row <= s.c.nbCur && row <= |s.rows| && 1 <= col <= |s.rows[row - 1]|
  }

  /** One cell changes, and nothing else; nothing at all when the value is no entry (None). */
  ghost predicate SetEntryStep(s: Dp, t: Dp, row: nat, col: nat, e: Option<Entry>, ok: bool) {
    && ok == (s.c.status == Prepared && CellThere(s, row, col) && e.Some?)
    && t == if !ok then s else s.(rows := WithCell(s.rows, row - 1, col - 1, e.value))
  }

  ghost predicate SetCurrentRowsStep(s: Dp, t: Dp, n: nat, ok: bool) {
    && ok == (s.c.status == Prepared && 1 <= n <= s.c.nbRows)
    && t == if !ok then s else s.(c := s.c.(nbCur := n))
  }

  ghost predicate ResetStep(s: Dp, t: Dp, ok: bool) {
    && ok == (s.c.status != NotPrepared)
    && t == Dp(Cleared(s.c), [], s.rows, if ok then s.o.(rows := [], offset := 0) else s.o)
  }

  /** Reset clears the counters of the batch, but not the total of loaded rows. */
  function Cleared(c: Counters): Counters {
    c.(nbProcessed := 0, nbConverted := 0, idxRow := 0, idxCol := 0, loadOffset := 0)
  }

  /** Finish and Abort. */
  ghost predicate EndStep(s: Dp, t: Dp, ok: bool) {
    && ok == (s.c.status == Prepared)
    && t == if !ok then s else s.(c := s.c.(status := Terminated))
  }

  ghost predicate ErrorRowStep(s: Dp, t: Dp, r: nat) {
    if s.c.idxRow < |s.errs| then r == Add32(s.errs[s.c.idxRow].0, 1) && t == s.(c := s.c.(idxRow := s.c.idxRow + 1))
    else r == 0 && t == s
  }

  ghost predicate ErrorColumnStep(s: Dp, t: Dp, r: nat) {
    if s.c.idxCol < |s.errs| then r == Add32(s.errs[s.c.idxCol].1, 1) && t == s.(c := s.c.(idxCol := s.c.idxCol + 1))
    else r == 0 && t == s
  }
}
