/**
 Server output: lines are fetched from the server in batches and handed out one by one. Together, the
 lines in the buffer and those still on the server behave like a queue.
 */
module ServerOutput {
  import opened Offsets
  import opened Options
  import opened Words

  /** The longest lines a server produces, before and from Oracle 10.2 on. */
  const LINE_SIZE := 255
  const LINE_SIZE_10G := 32767

  /** The line size is clamped to what the server supports. */
  function LineSize(lnsize: ub4, is10g: bool): (n: ub4)
    ensures lnsize <= 255 || (is10g && lnsize <= 32767) ==> n == lnsize
    ensures lnsize > 255 && !is10g ==> n == 255
    ensures lnsize > 32767 && is10g ==> n == 32767
  {
    Min(lnsize, if is10g then LINE_SIZE_10G else LINE_SIZE)
  }

  // ------------------------------------------------------------------- lines in the buffer

  /** Bytes from one line of the buffer to the next; every line has room for its terminator. */
  function Stride(lnsize: ub4, charsize: nat): (n: nat)
    requires lnsize <= LINE_SIZE_10G
    ensures n == (lnsize + 1) * charsize
  {
    (lnsize + 1) * charsize
  }

  /** Where line `k` is looked for: a 32-bit product. */
  function LineOffset(stride: nat, k: ub4): nat {
    (stride * k) % U32
  }

  /** The line is looked for where it is if and only if its offset does not wrap; then all of it is in the buffer. */
  lemma LineInside(stride: nat, k: ub4, arrsize: ub4)
    requires k < arrsize
    ensures LineOffset(stride, k) == stride * k <==> stride * k < U32
    ensures stride * k < U32 ==> LineOffset(stride, k) + stride <= stride * arrsize
  {
    assert stride * (k + 1) == stride * k + stride;
    ProductGrows(stride, k + 1, arrsize);
  }

  /** With up to 32767 lines, no offset of any line of any size wraps. */
  lemma NoOffsetWraps(lnsize: ub4, charsize: nat, k: ub4)
    requires lnsize <= LINE_SIZE_10G && charsize <= 4 && k < 32767
    ensures Stride(lnsize, charsize) * k < U32
  {
    ProductGrows(lnsize + 1, charsize, 4);
    ProductGrows(k, Stride(lnsize, charsize), 32768 * 4);
    assert Stride(lnsize, charsize) * k == k * Stride(lnsize, charsize);
  }

  // ----------------------------------------------------------------------------- the reader

  class Output {
    const arrsize: ub4
    const lnsize: ub4
    /** Bytes from one line to the next. */
    const stride: nat
    /** No call to the server fails. */
    const healthy: bool

    const lines: array<string>        // the lines of the buffer
    var cursize: ub4
    var curpos: ub4
    var pending: seq<string>          // lines the server still has
    ghost var queue: seq<string>      // every line that was put and not handed out yet

    /** OcilibConnectionEnableServerOutput, on a connection that has it disabled. */
    constructor (arrsize: ub4, lnsize: ub4, charsize: nat, is10g: bool, healthy: bool)
      requires charsize > 0
      ensures Valid() && Sound() && queue == [] && fresh(lines) && stride == Stride(LineSize(lnsize, is10g), charsize)
      ensures this.arrsize == arrsize && this.lnsize == LineSize(lnsize, is10g) && this.healthy == healthy
    {
      this.arrsize, this.lnsize, this.healthy := arrsize, LineSize(lnsize, is10g), healthy;
      stride := Stride(LineSize(lnsize, is10g), charsize);
      StrideNotZero(LineSize(lnsize, is10g), charsize);
      lines := new string[arrsize](_ => "");
      cursize, curpos, pending, queue := arrsize, 0, [], [];
    }

    ghost predicate Valid()
      reads this, lines
    {
      curpos <= cursize <= arrsize == lines.Length && stride > 0
    }

    /** No offset of a line wraps. */
    predicate InReach() {
      LastFits(stride, arrsize)
    }

    /** The text at a byte offset of the buffer: at the start of a line it is the line. */
    method ReadAt(offset: nat) returns (text: string)
      requires Valid()
      ensures forall k :: 0 <= k < lines.Length && offset == stride * k ==> text == lines[k]
    {
      text := *;
      if offset % stride == 0 && offset / stride < lines.Length {
        text := lines[offset / stride];
      }
      forall k | 0 <= k < lines.Length && offset == stride * k
        ensures text == lines[k]
      {
        LineNumber(stride, k);
      }
    }

    /** The line the reader stands on, looked for at its 32-bit offset. */
    method ReadLine() returns (text: string)
      requires Valid() && curpos < arrsize
      ensures InReach() ==> text == lines[curpos]
    {
      text := ReadAt(LineOffset(stride, curpos));
      LineReached(stride, curpos, arrsize);
    }

    /** The fetched lines that were not handed out yet; none before the first one of a batch was. */
    ghost function Buffered(): seq<string>
      requires Valid()
      reads this, lines
    {
      if curpos == 0 then [] else lines[curpos..cursize]
    }

    /** The lines in the buffer and those on the server are the queue. */
    ghost predicate Sound()
      requires Valid()
      reads this, lines
    {
      queue == Buffered() + pending
    }

    /** A program on the server puts a line. */
    method Put(line: string)
      requires Valid()
      modifies this`pending, this`queue
      ensures Valid() && queue == old(queue) + [line]
      ensures Sound() <==> old(Sound())
    {
      pending, queue := pending + [line], queue + [line];
      assert Buffered() + pending == Buffered() + old(pending) + [line];
      assert (Buffered() + old(pending) + [line])[..|Buffered() + old(pending)|] == Buffered() + old(pending);
      assert queue[..|old(queue)|] == old(queue);
    }

    /** Executes GET_LINES(lines, cursize), which moves the first lines of the server into the buffer. */
    method Execute() returns (ok: bool)
      requires cursize <= lines.Length
      modifies this`pending, this`cursize, lines
      ensures healthy ==> ok
      ensures !ok ==> pending == old(pending) && cursize == old(cursize) && lines[..] == old(lines[..])
      ensures ok ==> cursize == Min(old(cursize), |old(pending)|) && lines[..cursize] + pending == old(pending)
    {
      ok := *;
      ok := ok || healthy;
      if ok {
        var n := Min(cursize, |pending|);
        var k := 0;
        while k < n
          invariant k <= n <= lines.Length && pending == old(pending) && lines[..k] == pending[..k] && n <= |pending|
        {
          lines[k] := pending[k];
          k := k + 1;
        }
        cursize, pending := n, pending[n..];
      }
    }

    /**
     OcilibConnectionGetServerOutput. Without a failure it takes the first line off the queue, and returns
     nothing if and only if the queue, or the buffer, has no place for a line; what it returns is that line
     when no line offset wraps. A failure returns nothing and loses no line; but the queue stays what the
     reader sees if and only if it had handed out no line of a batch smaller than the buffer: otherwise old
     lines of the buffer are handed out again.
     */
    method Get() returns (line: Option<string>, ghost failed: bool)
      requires Valid() && Sound()
      modifies this`pending, this`cursize, this`curpos, this`queue, lines
      ensures Valid() && (healthy ==> !failed)
      ensures !failed ==> Sound()
      ensures !failed ==> (line.None? <==> old(queue) == [] || arrsize == 0)
      ensures !failed && line.Some? ==> old(queue) != [] && queue == old(queue)[1..]
      ensures !failed && line.Some? && InReach() ==> line.value == old(queue)[0]
      ensures line.None? ==> queue == old(queue)
      ensures failed ==> line.None? && curpos == old(curpos) && pending == old(pending)
      ensures failed && !(0 < curpos < arrsize) ==> Sound()
      ensures failed && 0 < curpos < arrsize ==> !Sound() && Buffered() == old(lines[curpos..])
    {
      line := None;
      var ok := Refill();
      failed := !ok;
      if ok && cursize > 0 {
        NextIsFirst();
        var text := ReadLine();
        line := Some(text);
        curpos := curpos + 1;
        queue := queue[1..];
      }
    }

    /** Fetches the next batch, unless there are lines left of the last one. */
    method Refill() returns (ok: bool)
      requires Valid() && Sound()
      modifies this`pending, this`cursize, this`curpos, lines
      ensures Valid() && (healthy ==> ok)
      ensures ok ==> (cursize > 0 <==> queue != [] && arrsize > 0) && (cursize == 0 ==> Sound())
      ensures ok && cursize > 0 ==> curpos < cursize && lines[curpos..cursize] + pending == queue
      ensures !ok ==> curpos == old(curpos) && pending == old(pending)
      ensures !ok && !(0 < curpos < arrsize) ==> Sound()
      ensures !ok && 0 < curpos < arrsize ==> !Sound() && Buffered() == old(lines[curpos..])
    {
      ok := true;
      if curpos == 0 || curpos >= cursize {
        cursize := arrsize;
        ok := Execute();
        if ok {
          curpos := 0;
        }
      }
    }

    /** The line the reader stands on is the first of the queue. */
    lemma NextIsFirst()
      requires Valid() && curpos < cursize && lines[curpos..cursize] + pending == queue
      ensures queue != [] && queue[0] == lines[curpos] && queue[1..] == lines[curpos + 1..cursize] + pending
    {
      assert lines[curpos..cursize] == [lines[curpos]] + lines[curpos + 1..cursize];
    }

    /**
     Reading until there is nothing returns as many lines as were put, and, when no line offset wraps,
     exactly those, in the order they were put, whatever the batches.
     */
    method Drain() returns (got: seq<string>)
      requires Valid() && Sound() && healthy && arrsize > 0
      modifies this`pending, this`cursize, this`curpos, this`queue, lines
      ensures Valid() && Sound() && queue == []
      ensures |got| == |old(queue)| && (InReach() ==> got == old(queue))
    {
      got := [];
      var line;
      ghost var failed, all, exact := false, queue, InReach();
      line, failed := Get();
      TakeFirst(all, got, all, line, queue, exact);
      while line.Some?
        invariant Valid() && Sound() && (line.None? ==> queue == [])
        invariant Taken(all, got, Ahead(line, queue), exact)
        decreases |queue|, line.Some?
      {
        TakeIt(all, got, line.value, queue, exact);
        got := got + [line.value];
        ghost var rest := queue;
        line, failed := Get();
        TakeFirst(all, got, rest, line, queue, exact);
      }
    }
  }

  /** `got` was read off `all`, and `rest` is left; when lines are read exactly, they are the same lines. */
  ghost predicate Taken(all: seq<string>, got: seq<string>, rest: seq<string>, exact: bool) {
    |all| == |got| + |rest| && (exact ==> all == got + rest)
  }

  lemma TakeFirst(all: seq<string>, got: seq<string>, rest: seq<string>, line: Option<string>, queue: seq<string>, exact: bool)
    requires Taken(all, got, rest, exact)
    requires if line.None? then queue == rest else rest != [] && queue == rest[1..] && (exact ==> line.value == rest[0])
    ensures Taken(all, got, Ahead(line, queue), exact)
  {
    assert line.Some? && exact ==> [line.value] + queue == rest;
  }

  lemma TakeIt(all: seq<string>, got: seq<string>, line: string, queue: seq<string>, exact: bool)
    requires Taken(all, got, Ahead(Some(line), queue), exact)
    ensures Taken(all, got + [line], queue, exact)
  {
    assert got + ([line] + queue) == (got + [line]) + queue;
  }

  lemma StrideNotZero(lnsize: ub4, charsize: nat)
    requires lnsize <= LINE_SIZE_10G && charsize > 0
    ensures Stride(lnsize, charsize) > 0
  {
    ProductGrows(lnsize + 1, 1, charsize);
  }

  lemma LineNumber(stride: nat, k: nat)
    requires stride > 0
    ensures (stride * k) % stride == 0 && (stride * k) / stride == k
  {
    var q := (stride * k) / stride;
    assert stride * k == stride * q + (stride * k) % stride;
    assert stride * (q + 1) == stride * q + stride && stride * (k + 1) == stride * k + stride;
    GrowsIf(stride, q + 1, k);
    GrowsIf(stride, k + 1, q);
  }

  lemma GrowsIf(size: nat, a: nat, b: nat)
    ensures a <= b ==> size * a <= size * b
  {
    if a <= b {
      ProductGrows(size, a, b);
    }
  }

  /** When the offset of the last line does not wrap, none does. */
  lemma LineReached(stride: nat, k: ub4, arrsize: ub4)
    requires k < arrsize
    ensures LastFits(stride, arrsize) ==> LineOffset(stride, k) == stride * k
  {
    ProductGrows(stride, k, arrsize - 1);
  }

  /** The lines of the buffer are apart if and only if no offset wraps. */
  lemma LinesApart(stride: ub4, arrsize: ub4)
    requires stride > 0 && arrsize > 0
    ensures CellsApart(stride, arrsize) <==> LastFits(stride, arrsize)
  {
    CellsApartExactly(stride, arrsize);
  }

  /** A line in hand goes before the queue. */
  function Ahead(line: Option<string>, queue: seq<string>): seq<string> {
    if line.Some? then [line.value] + queue else queue
  }
}
