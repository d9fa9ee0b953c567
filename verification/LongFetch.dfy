/**
 Piecewise fetch of a LONG value: the buffer that grows while OCI delivers one piece after the other.
 */
module LongFetch {
  import opened Words

  datatype Piece = OnePiece | FirstPiece | NextPiece | LastPiece

  datatype LongType = CLong | BLong

  /** The sizes of the two character types of a build. */
  datatype Build = Build(otext: nat, dbtext: nat)

  predicate Supported(b: Build) {
    (b.dbtext == 1 || b.dbtext == 2) && (b.otext == 1 || b.otext == 2 || b.otext == 4)
  }

  /** How many bytes one database byte may take once it is converted. */
  function CharFact(t: LongType, b: Build): (f: nat)
    requires Supported(b)
    ensures 1 <= f <= 4
  {
    if t == CLong then Max(1, b.otext / b.dbtext) else 1
  }

  function Trailing(t: LongType, b: Build): (n: nat)
    requires Supported(b)
    ensures n <= 8
  {
    if t == CLong then b.dbtext * CharFact(t, b) else 0
  }

  /** The room offered to OCI for the next piece, an unsigned difference. */
  function Offer(bufsize: ub4, t: LongType, b: Build): ub4
    requires Supported(b)
  {
    (bufsize / CharFact(t, b) - Trailing(t, b)) % U32
  }

  /** The piece size of the statement leaves room for the terminator. */
  predicate RoomForTerminator(bufsize: ub4, t: LongType, b: Build)
    requires Supported(b)
  {
    bufsize / CharFact(t, b) >= Trailing(t, b)
  }

  /** The offered piece and its terminator stay within the piece size exactly when there is room for the terminator. */
  lemma OfferFits(bufsize: ub4, t: LongType, b: Build)
    requires Supported(b)
    ensures Offer(bufsize, t, b) + Trailing(t, b) <= bufsize <==> RoomForTerminator(bufsize, t, b)
  {
    var f := CharFact(t, b);
    assert bufsize / f <= bufsize;
  }

  /** The terminator of a text is one character, of the larger of the two character types; bytes have none. */
  lemma TerminatorIsCharacter(t: LongType, b: Build)
    requires (b.dbtext == 1 || b.dbtext == 2) && (b.otext == 1 || b.otext == 2 || b.otext == 4)
    ensures Supported(b)
    ensures Trailing(t, b) == if t == BLong then 0 else Max(b.otext, b.dbtext)
    ensures CharFact(t, b) == if t == CLong && b.otext > b.dbtext then (if b.otext == 4 && b.dbtext == 1 then 4 else 2) else 1
  {
  }

  /**
   With room for the terminator, no larger piece would fit: each of its bytes, and of the terminator's, may
   take as many bytes as a character grows by.
   */
  lemma OfferIsLargest(bufsize: ub4, t: LongType, b: Build)
    requires Supported(b)
    ensures RoomForTerminator(bufsize, t, b) <==> Trailing(t, b) * CharFact(t, b) <= bufsize
    ensures RoomForTerminator(bufsize, t, b) ==>
      var whole := Offer(bufsize, t, b) + Trailing(t, b);
      whole * CharFact(t, b) <= bufsize < (whole + 1) * CharFact(t, b)
  {
    var f := CharFact(t, b);
    Floor(bufsize, f, Trailing(t, b));
    assert bufsize / f <= bufsize;
  }

  lemma Floor(x: nat, f: nat, k: nat)
    requires f == 1 || f == 2 || f == 4
    ensures x / f * f <= x < (x / f + 1) * f && (x / f >= k <==> k * f <= x)
  {
  }

  /** In the ANSI build a text is offered the piece size without its terminator, and bytes the whole piece size. */
  lemma AnsiOffer(bufsize: ub4)
    requires bufsize >= 1
    ensures Offer(bufsize, CLong, Build(1, 1)) + 1 == bufsize && Offer(bufsize, BLong, Build(1, 1)) == bufsize
  {
  }

  /** A piece can hold something if and only if the piece size has room for a byte more than the terminator. */
  lemma OfferProgresses(bufsize: ub4, t: LongType, b: Build)
    requires Supported(b)
    ensures RoomForTerminator(bufsize, t, b) && Offer(bufsize, t, b) > 0 <==> (Trailing(t, b) + 1) * CharFact(t, b) <= bufsize
  {
    var f, k := CharFact(t, b), Trailing(t, b);
    var q := bufsize / f;
    Floor(bufsize, f, k + 1);
    assert q <= bufsize;
    assert q >= k ==> Offer(bufsize, t, b) == q - k;
  }

  /** In the ANSI build every piece size the statement accepts has room. */
  lemma AnsiHasRoom(bufsize: ub4, t: LongType)
    requires bufsize >= 1
    ensures RoomForTerminator(bufsize, t, Build(1, 1))
  {
  }

  // ------------------------------------------------------------------------------- growth

  /** The new maximum when `need` bytes do not fit below `m`, in 32-bit arithmetic. */
  function Grown(m: ub4, need: ub4): ub4
    requires m > 0
  {
    Mul32(m, Add32(need / m, 1))
  }

  /**
   The grown buffer holds more than `need` bytes if and only if the product does not wrap; then it is at
   least twice the old size and at most twice the need.
   */
  lemma GrownHolds(m: ub4, need: ub4)
    requires 0 < m <= need
    ensures Grown(m, need) > need <==> m * (need / m + 1) < U32
    ensures Grown(m, need) > need ==> 2 * m <= Grown(m, need) <= 2 * need
  {
    var q := need / m;
    Quotient(m, need);
    if q + 1 < U32 {
      WrapOnce(m * (q + 1), need, m);
    } else {
      Monotone(q + 1, 1, m);
    }
  }

  lemma Quotient(m: nat, need: nat)
    requires 0 < m <= need
    ensures need < m * (need / m + 1) <= need + m && need / m >= 1 && m * (need / m + 1) >= 2 * m
    ensures need / m <= need
  {
    var q := need / m;
    assert m * (q + 1) == m * q + m;
    assert need == m * q + need % m;
    Monotone(m, 2, q + 1);
  }

  lemma Monotone(m: nat, a: nat, b: nat)
    requires a <= b
    ensures m * a <= m * b
  {
  }

  lemma WrapOnce(x: nat, need: ub4, m: ub4)
    requires need < x <= need + m
    ensures x % U32 > need <==> x < U32
  {
    if x >= U32 {
      assert x < 2 * U32 && x % U32 == x - U32;
    }
  }

  /** Without wrap-around whenever twice the need is below 2^32. */
  lemma SmallNeedNeverWraps(m: ub4, need: ub4)
    requires 0 < m <= need && 2 * need < U32
    ensures Grown(m, need) > need
  {
    Quotient(m, need);
    GrownHolds(m, need);
  }

  /** The maximum behind one callback that needs `need` bytes. */
  function NextMax(m: ub4, need: nat): ub4 {
    if m > 0 && need % U32 >= m then Grown(m, need % U32) else m
  }

  function MaxAfter(m: ub4, needs: seq<nat>): ub4 {
    if needs == [] then m else NextMax(MaxAfter(m, needs[..|needs| - 1]), needs[|needs| - 1])
  }

  /** How many of the callbacks grew the buffer. */
  function Growths(m: ub4, needs: seq<nat>): nat {
    if needs == [] then 0 else
      var before := MaxAfter(m, needs[..|needs| - 1]);
      Growths(m, needs[..|needs| - 1]) + if before > 0 && needs[|needs| - 1] % U32 >= before then 1 else 0
  }

  /** `m` doubled `n` times. */
  function Doubled(m: nat, n: nat): (r: nat)
    ensures r >= m
  {
    if n == 0 then m else 2 * Doubled(m, n - 1)
  }

  /** Below 2^31 bytes, every change of the maximum is counted, and nothing else. */
  lemma GrowthCounted(m: ub4, needs: seq<nat>, need: nat)
    requires m > 0 && SmallNeeds(needs) && 2 * need < U32
    ensures Growths(m, needs + [need])
         == Growths(m, needs) + if MaxAfter(m, needs + [need]) != MaxAfter(m, needs) then 1 else 0
    ensures Growths(m, []) == 0
  {
    GrowthBound(m, needs, Peak(needs));
    var before, all := MaxAfter(m, needs), needs + [need];
    assert all[..|needs|] == needs && all[|needs|] == need && need % U32 == need;
    NextBound(before, need);
    assert MaxAfter(m, all) == NextMax(before, need);
  }

  /** The highest need. */
  function Peak(needs: seq<nat>): (peak: nat)
    ensures forall i :: 0 <= i < |needs| ==> needs[i] <= peak
  {
    if needs == [] then 0 else Max(Peak(needs[..|needs| - 1]), needs[|needs| - 1])
  }

  ghost predicate SmallNeeds(needs: seq<nat>) {
    forall i :: 0 <= i < |needs| ==> 2 * needs[i] < U32
  }

  /**
   Over any run of callbacks, with any piece sizes, that each need less than 2^31 bytes: the maximum is
   above the last need, never above twice the highest need, and has doubled with every growth; so a
   value of n bytes takes at most about log2(n) reallocations.
   */
  lemma {:induction false} GrowthBound(m: ub4, needs: seq<nat>, peak: nat)
    requires m > 0 && SmallNeeds(needs) && forall i :: 0 <= i < |needs| ==> needs[i] <= peak
    ensures Doubled(m, Growths(m, needs)) <= MaxAfter(m, needs) <= Max(m, 2 * peak)
    ensures needs != [] ==> MaxAfter(m, needs) > needs[|needs| - 1]
  {
    if needs != [] {
      var n := |needs| - 1;
      var front, need := needs[..n], needs[n];
      assert SmallNeeds(front) && 2 * need < U32 && need <= peak;
      GrowthBound(m, front, peak);
      StepBound(m, MaxAfter(m, front), Growths(m, front), need, peak);
    }
  }

  lemma StepBound(m: ub4, before: ub4, growths: nat, need: nat, peak: nat)
    requires m > 0 && Doubled(m, growths) <= before <= Max(m, 2 * peak) && need <= peak && 2 * need < U32
    ensures Doubled(m, growths + if need % U32 >= before then 1 else 0) <= NextMax(before, need) <= Max(m, 2 * peak)
    ensures need < NextMax(before, need) && before > 0
  {
    NextBound(before, need);
    StepArith(m, before, growths, need, NextMax(before, need));
  }

  lemma StepArith(m: nat, before: nat, growths: nat, need: nat, next: nat)
    requires m > 0 && Doubled(m, growths) <= before && 2 * need < U32
    requires if need >= before then 2 * before <= next else next == before
    ensures Doubled(m, growths + if need % U32 >= before then 1 else 0) <= next
  {
    assert need % U32 == need && Doubled(m, growths + 1) == 2 * Doubled(m, growths);
  }

  lemma NextBound(before: ub4, need: nat)
    requires before > 0 && 2 * need < U32
    ensures NextMax(before, need) > need
    ensures if need >= before then 2 * before <= NextMax(before, need) <= 2 * need else NextMax(before, need) == before
  {
    if need >= before {
      SmallNeedNeverWraps(before, need);
      GrownHolds(before, need);
    }
  }

  // --------------------------------------------------------------------------- the object

  /** OCI was offered room, it used the room, or the value is complete. */
  datatype Phase = Offered | Delivered | Finished

  class Long {
    const kind: LongType
    const build: Build

    var buffer: array?<byte>
    var maxsize: ub4
    var size: ub4
    var piecesize: ub4

    ghost var phase: Phase
    ghost var got: seq<byte>          // the pieces delivered and counted since the first one
    ghost var last: seq<byte>         // the piece delivered last, not counted yet
    ghost var first: ub4              // the size the buffer was allocated with
    ghost var needs: seq<nat>         // the size each later callback needed
    ghost var roomy: bool             // every piece size had room for the terminator

    constructor (kind: LongType, build: Build)
      requires Supported(build)
      ensures Valid() && Sized() && Exact() && buffer == null && this.kind == kind && this.build == build && phase == Finished
      ensures maxsize == 0 && size == 0 && piecesize == 0
    {
      this.kind, this.build := kind, build;
      buffer, maxsize, size, piecesize := null, 0, 0, 0;
      phase, got, last, first, needs, roomy := Finished, [], [], 0, [], true;
    }

    /** Every callback so far needed less than 2^31 bytes, and had room for the terminator. */
    ghost predicate Exact()
      reads this
    {
      SmallNeeds(needs) && roomy
    }

    ghost predicate Valid()
      reads this, buffer
    {
      && Supported(build)
      && (buffer == null ==> size == 0 && got == [] && needs == [] && phase == Finished)
      && (phase != Delivered ==> last == [])
      && (buffer != null ==> first > 0 && maxsize <= buffer.Length)
      && (buffer != null && Exact() ==> maxsize > 0 && Sound())
    }

    /** The maximum is what the callbacks so far make of the first one. */
    ghost predicate Sized()
      reads this`buffer, this`maxsize, this`first, this`needs
    {
      buffer != null ==> maxsize == MaxAfter(first, needs)
    }

    /** The buffer holds the pieces, with room behind them for the next piece and the terminator. */
    ghost predicate Sound()
      requires buffer != null && Supported(build)
      reads this, buffer
    {
      && |got| == size <= maxsize <= buffer.Length && buffer[..size] == got
      && (phase != Finished ==> size + piecesize + Trailing(kind, build) <= maxsize)
      && (phase == Delivered ==> piecesize == |last| && buffer[size..size + piecesize] == last)
    }

    /** OcilibMemoryRealloc: never shrinks a block, keeps its bytes and zeroes what is added. */
    method Realloc(newSize: nat)
      requires buffer != null
      modifies this`buffer
      ensures buffer != null && buffer.Length == Max(old(buffer.Length), newSize)
      ensures buffer == old(buffer) || fresh(buffer)
      ensures buffer[..old(buffer.Length)] == old(buffer[..])
      ensures forall k :: old(buffer.Length) <= k < buffer.Length ==> buffer[k] == 0
    {
      if buffer.Length < newSize {
        var b := new byte[newSize];
        var k := 0;
        while k < newSize
          invariant k <= newSize && buffer == old(buffer) && buffer[..] == old(buffer[..])
          invariant forall j :: 0 <= j < k ==> b[j] == if j < buffer.Length then buffer[j] else 0
        {
          b[k] := if k < buffer.Length then buffer[k] else 0;
          k := k + 1;
        }
        buffer := b;
      }
    }

    /** What a callback does before it looks at the buffer: start over, or count the last piece. */
    method CountPiece(piece: Piece)
      requires Valid() && (piece != FirstPiece ==> phase == Delivered)
      modifies this`size, this`piecesize, this`phase, this`got, this`last
      ensures Valid() && phase == Finished
      ensures got == if piece == FirstPiece then [] else if piece == OnePiece then old(got) else old(got) + old(last)
      ensures size == if piece == FirstPiece then 0 else if piece == OnePiece then old(size) else Add32(old(size), old(piecesize))
      ensures Exact() ==> size == |got|
    {
      if piece == FirstPiece {
        size, piecesize := 0, 0;
        got := [];
      } else if piece != OnePiece {
        size := Add32(size, piecesize);
        got := got + last;
      }
      last, phase := [], Finished;
    }

    /** The first buffer has the piece size; a later one grows when the piece does not fit below it. */
    method MakeRoom(bufsize: ub4)
      requires Valid() && Sized() && phase == Finished && bufsize > 0 && (buffer != null ==> maxsize > 0)
      modifies this`buffer, this`maxsize, this`first, this`needs
      ensures Valid() && Sized() && buffer != null && (buffer == old(buffer) || fresh(buffer))
      ensures needs == if old(buffer) == null then [] else old(needs) + [size + bufsize]
      ensures maxsize == if old(buffer) == null then bufsize else NextMax(old(maxsize), size + bufsize)
      ensures old(buffer) == null ==> buffer.Length == bufsize && forall k :: 0 <= k < bufsize ==> buffer[k] == 0
      ensures SmallNeeds(needs) ==> size + bufsize <= maxsize
    {
      if buffer == null {
        maxsize := bufsize;
        buffer := new byte[bufsize](_ => 0);
        first, needs := bufsize, [];
      } else {
        NextMaxAfter(first, needs, size + bufsize);
        Grow(bufsize);
      }
    }

    method Grow(bufsize: ub4)
      requires Valid() && phase == Finished && buffer != null && maxsize > 0
      modifies this`buffer, this`maxsize, this`needs
      ensures Valid() && buffer != null && (buffer == old(buffer) || fresh(buffer))
      ensures needs == old(needs) + [size + bufsize] && maxsize == NextMax(old(maxsize), size + bufsize)
      ensures SmallNeeds(needs) ==> size + bufsize <= maxsize
    {
      SmallNeedsMore(needs, size + bufsize);
      needs := needs + [size + bufsize];
      var need := Add32(size, bufsize);
      if need >= maxsize {
        maxsize := Grown(maxsize, need);
        Realloc(maxsize);
      }
      if 2 * (size + bufsize) < U32 {
        NextBound(old(maxsize), size + bufsize);
      }
    }

    /**
     OcilibCallbackDynamicDefine. The source divides by the maximum, so it must not have wrapped to 0.
     Without wrap-around, the room offered to OCI, with its terminator, is inside the buffer, whatever
     the piece size is changed to between callbacks, and the counted pieces are the start of the buffer.
     */
    method Callback(piece: Piece, bufsize: ub4)
      requires Valid() && Sized() && bufsize > 0 && (buffer != null ==> maxsize > 0)
      requires piece != FirstPiece ==> phase == Delivered
      modifies this
      ensures Valid() && Sized() && phase == Offered && buffer != null && (buffer == old(buffer) || fresh(buffer))
      ensures got == if piece == FirstPiece then [] else if piece == OnePiece then old(got) else old(got) + old(last)
      ensures piecesize == Offer(bufsize, kind, build) && roomy == (old(roomy) && RoomForTerminator(bufsize, kind, build))
      ensures needs == if old(buffer) == null then [] else old(needs) + [size + bufsize]
      ensures old(Exact()) ==> size == |got|
      ensures Exact() ==> size + piecesize + Trailing(kind, build) <= maxsize <= buffer.Length && buffer[..size] == got
    {
      CountPiece(piece);
      MakeRoom(bufsize);
      OfferRoom(bufsize);
    }

    /** The room behind what was counted, up to the piece size. */
    method OfferRoom(bufsize: ub4)
      requires Valid() && Sized() && phase == Finished && bufsize > 0 && buffer != null
      requires SmallNeeds(needs) ==> size + bufsize <= maxsize
      modifies this`piecesize, this`roomy, this`phase
      ensures Valid() && Sized() && phase == Offered
      ensures piecesize == Offer(bufsize, kind, build) && roomy == (old(roomy) && RoomForTerminator(bufsize, kind, build))
      ensures Exact() ==> size + piecesize + Trailing(kind, build) <= maxsize <= buffer.Length && buffer[..size] == got
    {
      piecesize := Offer(bufsize, kind, build);
      roomy := roomy && RoomForTerminator(bufsize, kind, build);
      OfferFits(bufsize, kind, build);
      phase := Offered;
    }

    /** OCI writes a piece into the room it was offered, and its length where it was told to. */
    method Deliver(bytes: seq<byte>)
      requires Valid() && phase == Offered && Exact() && |bytes| <= piecesize
      modifies this`piecesize, this`phase, this`last, buffer
      ensures Valid() && phase == Delivered && last == bytes
    {
      var k := 0;
      while k < |bytes|
        invariant k <= |bytes| && Valid() && phase == Offered
        invariant forall j :: 0 <= j < k ==> buffer[size + j] == bytes[j]
      {
        buffer[size + k] := bytes[k];
        k := k + 1;
      }
      piecesize, last, phase := |bytes|, bytes, Delivered;
    }

    /**
     OcilibLongFinalizeDynamicFetch: counts the last piece, and puts a terminator behind the last whole
     character of a text. The value is the concatenation of all pieces, up to that character.
     */
    method Finalize()
      requires Valid() && Exact() && (buffer != null ==> phase == Delivered)
      modifies this`size, this`phase, this`got, this`last, buffer
      ensures Valid() && phase == Finished && (buffer == null ==> size == 0)
      ensures buffer != null ==>
        var value := old(got) + old(last);
        && size == |value| <= buffer.Length
        && buffer[..Whole(size, Unit(kind, build))] == value[..Whole(size, Unit(kind, build))]
        && (kind == CLong ==> Terminated(buffer, Whole(size, build.dbtext), build.dbtext))
    {
      if buffer != null {
        ghost var value := got + last;
        assert buffer[..size + piecesize] == value;
        size := size + piecesize;
        if kind == CLong {
          buffer[Whole(size, build.dbtext)] := 0;
          if build.dbtext == 2 {
            buffer[Whole(size, build.dbtext) + 1] := 0;
          }
        }
        got, last := buffer[..size], [];
      }
      phase := Finished;
    }
  }

  function Unit(kind: LongType, build: Build): nat {
    if kind == CLong then build.dbtext else 1
  }

  /** There is a character 0 at `at`. */
  predicate Terminated(buffer: array<byte>, at: nat, unit: nat)
    reads buffer
  {
    at + unit <= buffer.Length && forall k :: at <= k < at + unit ==> buffer[k] == 0
  }

  /** The bytes of the whole characters among `n` bytes. */
  function Whole(n: nat, unit: nat): (w: nat)
    requires unit == 1 || unit == 2
    ensures n - unit < w <= n && w % unit == 0 && (n % unit == 0 ==> w == n)
  {
    n - n % unit
  }

  lemma NextMaxAfter(first: ub4, needs: seq<nat>, need: nat)
    ensures MaxAfter(first, needs + [need]) == NextMax(MaxAfter(first, needs), need)
  {
    assert (needs + [need])[..|needs|] == needs;
  }

  lemma SmallNeedsMore(needs: seq<nat>, need: nat)
    ensures SmallNeeds(needs + [need]) <==> SmallNeeds(needs) && 2 * need < U32
  {
    assert forall i :: 0 <= i < |needs| ==> (needs + [need])[i] == needs[i];
    assert (needs + [need])[|needs|] == need;
  }

  function Flatten(pieces: seq<seq<byte>>): seq<byte> {
    if pieces == [] then [] else Flatten(pieces[..|pieces| - 1]) + pieces[|pieces| - 1]
  }

  /** OCI may deliver these pieces when the statement has these piece sizes at the callbacks. */
  ghost predicate Deliverable(pieces: seq<seq<byte>>, sizes: seq<ub4>, kind: LongType, build: Build)
    requires Supported(build)
  {
    && |pieces| == |sizes| > 0
    && forall i :: 0 <= i < |pieces| ==>
         && sizes[i] > 0 && RoomForTerminator(sizes[i], kind, build)
         && |pieces[i]| <= Offer(sizes[i], kind, build)
         && 2 * (|Flatten(pieces[..i])| + sizes[i]) < U32
  }

  /** One callback, and the piece OCI delivers behind it. */
  method OnePieceMore(lg: Long, piece: Piece, bytes: seq<byte>, bufsize: ub4)
    requires lg.Valid() && lg.Sized() && lg.Exact() && (piece != FirstPiece ==> lg.phase == Delivered) && piece != OnePiece
    requires bufsize > 0 && RoomForTerminator(bufsize, lg.kind, lg.build) && |bytes| <= Offer(bufsize, lg.kind, lg.build)
    requires 2 * ((if piece == FirstPiece then 0 else |lg.got| + |lg.last|) + bufsize) < U32
    modifies lg, lg.buffer
    ensures lg.Valid() && lg.Sized() && lg.Exact() && (lg.buffer == old(lg.buffer) || fresh(lg.buffer)) && lg.phase == Delivered
    ensures lg.got == (if piece == FirstPiece then [] else old(lg.got) + old(lg.last)) && lg.last == bytes
  {
    lg.Callback(piece, bufsize);
    lg.Deliver(bytes);
  }

  /** The value is finished, and the statement about it made. */
  method FinishFetch(lg: Long, ghost value: seq<byte>)
    requires lg.Valid() && lg.Sized() && lg.Exact() && lg.phase == Delivered && lg.buffer != null && lg.got + lg.last == value
    modifies lg, lg.buffer
    ensures lg.Valid() && lg.Sized() && lg.Exact() && lg.phase == Finished && lg.buffer == old(lg.buffer) != null
    ensures lg.size == |value| <= lg.buffer.Length
    ensures var n := Whole(lg.size, Unit(lg.kind, lg.build));
      && lg.buffer[..n] == value[..n] && (lg.kind == BLong || lg.size % lg.build.dbtext == 0 ==> n == lg.size)
      && (lg.kind == CLong ==> Terminated(lg.buffer, n, lg.build.dbtext))
  {
    lg.Finalize();
  }

  /**
   A whole fetch, into a new or a used object: whatever pieces OCI cuts the value into, and however the
   piece size changes between them, the object ends with the value, up to its last whole character.
   */
  method Fetch(lg: Long, pieces: seq<seq<byte>>, sizes: seq<ub4>)
    requires lg.Valid() && lg.Sized() && lg.Exact() && lg.phase == Finished
    requires Deliverable(pieces, sizes, lg.kind, lg.build)
    modifies lg, lg.buffer
    ensures lg.Valid() && lg.Sized() && lg.Exact() && lg.phase == Finished && lg.buffer != null
    ensures lg.size == |Flatten(pieces)| <= lg.buffer.Length
    ensures var n := Whole(lg.size, Unit(lg.kind, lg.build));
      && lg.buffer[..n] == Flatten(pieces)[..n] && (lg.kind == BLong || lg.size % lg.build.dbtext == 0 ==> n == lg.size)
      && (lg.kind == CLong ==> Terminated(lg.buffer, n, lg.build.dbtext))
  {
    var i := 0;
    while i < |pieces|
      invariant i <= |pieces| && lg.Valid() && lg.Sized() && lg.Exact() && (lg.buffer == old(lg.buffer) || fresh(lg.buffer))
      invariant i > 0 ==> lg.phase == Delivered && lg.got + lg.last == Flatten(pieces[..i])
    {
      OnePieceMore(lg, if i == 0 then FirstPiece else NextPiece, pieces[i], sizes[i]);
      assert pieces[..i + 1][..i] == pieces[..i];
      i := i + 1;
    }
    assert pieces[..i] == pieces;
    FinishFetch(lg, Flatten(pieces));
  }

  /** The value in pieces as long as the offer, but for the first. */
  function Cuts(value: seq<byte>, offer: nat): (pieces: seq<seq<byte>>)
    requires offer > 0
    ensures |pieces| > 0 && forall i :: 0 <= i < |pieces| ==> |pieces[i]| <= offer
  {
    if |value| <= offer then [value]
    else Cuts(value[..|value| - offer], offer) + [value[|value| - offer..]]
  }

  lemma FlattenSnoc(pieces: seq<seq<byte>>, last: seq<byte>)
    ensures Flatten(pieces + [last]) == Flatten(pieces) + last
  {
    assert (pieces + [last])[..|pieces|] == pieces;
  }

  lemma {:induction false} CutsWhole(value: seq<byte>, offer: nat)
    requires offer > 0
    ensures Flatten(Cuts(value, offer)) == value
    ensures forall i :: 0 <= i < |Cuts(value, offer)| ==> |Flatten(Cuts(value, offer)[..i])| <= |value|
    decreases |value|
  {
    var pieces := Cuts(value, offer);
    if |value| <= offer {
      FlattenSnoc([], value);
      assert [] + [value] == pieces && pieces[..0] == [];
    } else {
      var n := |value| - offer;
      var front := Cuts(value[..n], offer);
      CutsWhole(value[..n], offer);
      FlattenSnoc(front, value[n..]);
      forall i | 0 <= i < |pieces|
        ensures |Flatten(pieces[..i])| <= |value|
      {
        assert pieces[..i] == front[..i] && front[..|front|] == front;
      }
    }
  }

  /** Every value can arrive in pieces of any size that has room for a byte more than the terminator. */
  lemma CutsDeliverable(value: seq<byte>, bufsize: ub4, kind: LongType, build: Build)
    requires Supported(build) && (Trailing(kind, build) + 1) * CharFact(kind, build) <= bufsize && 2 * (|value| + bufsize) < U32
    ensures var offer := Offer(bufsize, kind, build);
      && offer > 0 && Flatten(Cuts(value, offer)) == value
      && Deliverable(Cuts(value, offer), seq(|Cuts(value, offer)|, _ => bufsize), kind, build)
  {
    OfferProgresses(bufsize, kind, build);
    CutsWhole(value, Offer(bufsize, kind, build));
  }

  /** So every value, small enough not to wrap, arrives whole. */
  method FetchWhole(lg: Long, value: seq<byte>, bufsize: ub4)
    requires lg.Valid() && lg.Sized() && lg.Exact() && lg.phase == Finished
    requires (Trailing(lg.kind, lg.build) + 1) * CharFact(lg.kind, lg.build) <= bufsize && 2 * (|value| + bufsize) < U32
    modifies lg, lg.buffer
    ensures lg.Valid() && lg.Sized() && lg.Exact() && lg.phase == Finished && lg.buffer != null
    ensures lg.size == |value| <= lg.buffer.Length
    ensures var n := Whole(|value|, Unit(lg.kind, lg.build));
      && lg.buffer[..n] == value[..n] && (lg.kind == BLong || |value| % lg.build.dbtext == 0 ==> n == |value|)
      && (lg.kind == CLong ==> Terminated(lg.buffer, n, lg.build.dbtext))
  {
    CutsDeliverable(value, bufsize, lg.kind, lg.build);
    var pieces := Cuts(value, Offer(bufsize, lg.kind, lg.build));
    Fetch(lg, pieces, seq(|pieces|, _ => bufsize));
  }

  /** The buffer of an object is at most twice what was ever needed, and has doubled with every reallocation. */
  lemma FewReallocations(lg: Long, peak: nat)
    requires lg.Valid() && lg.Sized() && lg.Exact() && lg.buffer != null && forall i :: 0 <= i < |lg.needs| ==> lg.needs[i] <= peak
    ensures Doubled(lg.first, Growths(lg.first, lg.needs)) <= lg.maxsize <= Max(lg.first, 2 * peak)
  {
    GrowthBound(lg.first, lg.needs, peak);
  }

  /** A need of 2^31 bytes or more can wrap, and leave a buffer smaller than it was. */
  lemma GrowthCanWrap()
    ensures Grown(0x6000_0000, 0xC000_0000) < 0x6000_0000
  {
    assert 0x6000_0000 * (0xC000_0000 / 0x6000_0000 + 1) == 0x1_2000_0000;
  }
}
