/**
 The part of OCI the loader drives: a column array, a stream and the server behind it.

 The contracts of this class are the assumptions the project makes about OCI. Its bodies only show
 that the assumptions can be met: they choose freely wherever OCI may.
 */
module DirPathOci {
  import opened Seqs
  import opened DirPathSpec

  /** OCI_SUCCESS, OCI_ERROR, OCI_CONTINUE and OCI_NEED_DATA from a conversion. */
  datatype ConvRet = ConvSuccess | ConvFailed | ConvContinue | ConvNeedData

  type ColumnArray = map<(nat, nat), Entry>

  /** Every column of entry `e` of the column array has been set, to row `r`. */
  predicate EntryHolds(arr: ColumnArray, nbCols: nat, e: nat, r: Row) {
    |r| == nbCols && forall c :: 0 <= c < nbCols ==> (e, c) in arr && arr[(e, c)] == r[c]
  }

  /** The first entries of the column array are `batch`. */
  predicate ArrayHolds(arr: ColumnArray, nbCols: nat, batch: seq<Row>) {
    forall e :: 0 <= e < |batch| ==> EntryHolds(arr, nbCols, e, batch[e])
  }

  /** A stream with more rows at its end. */
  function Extended(o: Stream, more: seq<Row>): Stream {
    o.(rows := o.rows + more, ever := o.ever + more)
  }

  class Oci {
    const nbCols: nat
    const server: Server
    var arr: ColumnArray
    var o: Stream
    /** How often loading can still fail, or end without success, without refusing a row. */
    var idle: nat

    constructor (nbCols: nat, server: Server, idle: nat)
      ensures this.nbCols == nbCols && this.server == server && this.idle == idle
      ensures o == Stream([], 0, [], [])
    {
      this.nbCols, this.server, this.idle := nbCols, server, idle;
      arr, o := map[], Stream([], 0, [], []);
    }

    ghost predicate Valid()
      reads this
    {
      o.offset <= |o.rows|
    }

    method EntrySet(row: nat, col: nat, e: Entry)
      modifies this`arr
      ensures arr == old(arr)[(row, col) := e]
    {
      arr := arr[(row, col) := e];
    }

    method ColArrayReset()
      modifies this`arr
      ensures arr == map[]
    {
      arr := map[];
    }

    method StreamReset()
      modifies this`o
      ensures o == old(o).(rows := [], offset := 0)
    {
      o := o.(rows := [], offset := 0);
    }

    /**
     Converts the first `n` rows of the column array, which are `batch`, onto the end of the stream. Stops early at a
     row it cannot convert, at a row that does not fit (never the first row of an empty stream), or
     at a row with a partial column; the rows before it are in the stream.
     */
    method ColArrayToStream(n: nat, ghost batch: seq<Row>) returns (ret: ConvRet, row: nat, col: nat)
      requires Valid()
      requires |batch| == n && ArrayHolds(arr, nbCols, batch)
      modifies this`o
      ensures Valid()
      ensures if ret == ConvSuccess then row == n else row < n
      ensures All(server.convertible, batch[..row])
      ensures o == Extended(old(o), batch[..row])
      ensures ret == ConvFailed ==> !server.convertible(batch[row]) && col == server.badColumn(batch[row])
      ensures ret == ConvContinue ==> o.rows != []
      ensures ret == ConvNeedData ==> HasPartial(batch[row])
    {
      row, col := 0, 0;
      while row < n
        invariant row <= n && Valid() && arr == old(arr)
        invariant All(server.convertible, batch[..row])
        invariant o == Extended(old(o), batch[..row])
      {
        assert EntryHolds(arr, nbCols, row, batch[row]);
        var r: Row := seq(nbCols, c requires 0 <= c < nbCols && (row, c) in arr reads this => arr[(row, c)]);
        assert r == batch[row];
        if !server.convertible(r) {
          return ConvFailed, row, server.badColumn(r);
        }
        var full, partial: bool := *, *;
        if o.rows != [] && full {
          return ConvContinue, row, col;
        }
        if HasPartial(r) && partial {
          return ConvNeedData, row, col;
        }
        o := Extended(o, [r]);
        assert batch[..row + 1] == batch[..row] + [r];
        row := row + 1;
      }
      ret := ConvSuccess;
    }

    /**
     Pushes the stream from the current offset. `call` is what OCI reports: the return code, the
     rows this call loaded (OCI_ATTR_ROW_COUNT) and whether it refused a row; the offset moves
     past every row accepted or refused.
     */
    method LoadStream() returns (call: LoadCall)
      requires Valid()
      modifies this`o, this`idle
      ensures Valid()
      ensures CallOk(server, old(o.rows), old(o.offset), call)
      ensures o == Handed(old(o), call)
      ensures old(idle) == idle + if Idle(call) then 1 else 0
    {
      var lazy: bool := *;
      lazy := lazy && idle > 0;
      var n: nat := 0;
      while o.offset + n < |o.rows| && server.acceptable(o.rows[o.offset + n])
        invariant o.offset + n <= |o.rows|
        invariant All(server.acceptable, o.rows[o.offset..o.offset + n])
      {
        var stop: bool := *;
        if lazy && stop {
          break;
        }
        assert o.rows[o.offset..o.offset + n + 1] == o.rows[o.offset..o.offset + n] + [o.rows[o.offset + n]];
        n := n + 1;
      }
      if lazy {
        var failed: bool := *;
        call := LoadCall(if failed then LoadFailed else if o.offset == |o.rows| then LoadNoData else LoadNeedData, n, false);
        idle := idle - 1;
      } else if o.offset + n == |o.rows| {
        call := LoadCall(LoadSuccess, n, false);
      } else {
        call := LoadCall(LoadFailed, n, true);
      }
      o := Handed(o, call);
    }
  }
}
