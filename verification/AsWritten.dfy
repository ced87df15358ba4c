/**
 * The receive path with the size and the offset exactly as the source keeps them: a search that drops a
 * whole buffer does not lower the size, a reset does not clear the offset, and the loop runs on when a
 * round changes nothing. `Broken` stands for every access outside the source's own memory.
 */
module AsWritten {
  import opened Bytes
  import opened PatternSearch
  import opened SegmentedView
  import opened SegmentedSearch
  import opened SearchLanding
  import opened MsgHeaders
  import opened AssemblyMachine
  import opened Delivery
  import opened Resynchronisation

  /** The fields of the stream and the assembler; `size` is `m_size`, `offset` is `m_offset`. */
  datatype Raw = Raw(mode: Mode, bufs: seq<Buffer>, offset: nat, size: nat, delivered: seq<Message>)

  // ------------------------------------------------------- the stream

  /** The bytes left in the buffers, whatever the size says. */
  function Left(bufs: seq<Buffer>, offset: nat): seq<Byte> {
    if bufs == [] then [] else bufs[0].data[Min(offset, |bufs[0].data|)..] + Concat(bufs[1..])
  }

  /** There is a first buffer and the offset lies in it, so that `n` bytes can be copied from there on. */
  predicate CanCopy(bufs: seq<Buffer>, offset: nat, n: nat) {
    bufs != [] && offset <= |bufs[0].data| && n <= |Left(bufs, offset)|
  }

  /** `copyBytes`, when the buffers hold what is to be copied. */
  function Drop(bufs: seq<Buffer>, offset: nat, n: nat): View
    requires CanCopy(bufs, offset, n)
    decreases |bufs|
  {
    var left := |bufs[0].data| - offset;
    if left < n then
      LeftSplit(bufs, offset);
      Drop(bufs[1..], 0, n - left)
    else if left == n then View(bufs[1..], 0)
    else View(bufs, offset + n)
  }

  lemma LeftSplit(bufs: seq<Buffer>, offset: nat)
    requires bufs != [] && offset <= |bufs[0].data|
    ensures |Left(bufs, offset)| == |bufs[0].data| - offset + |Left(bufs[1..], 0)|
    ensures bufs[1..] != [] ==> CanCopy(bufs[1..], 0, |Left(bufs[1..], 0)|)
    ensures Left(bufs[1..], 0) == Concat(bufs[1..])
  {
    LeftOfPlain(bufs[1..]);
  }

  lemma LeftOfPlain(bufs: seq<Buffer>)
    ensures Left(bufs, 0) == Concat(bufs)
  {
  }

  function Crash(r: Raw): Raw {
    r.(mode := Broken)
  }

  /**
   * `skipBytes`: cut short by the size. With the offset behind the first buffer the length of the first
   * part underflows, nothing is copied, and the offset moves on.
   */
  function RawSkip(r: Raw, n: nat): Raw {
    var m := Min(r.size, n);
    if r.bufs == [] then Crash(r)
    else if r.offset > |r.bufs[0].data| then r.(offset := r.offset + m, size := r.size - m)
    else if m > |Left(r.bufs, r.offset)| then Crash(r)
    else
      var v := Drop(r.bufs, r.offset, m);
      r.(bufs := v.bufs, offset := v.offset, size := r.size - m)
  }

  /** `searchBytes`: a head that is dropped takes no bytes off the size. */
  function RawSearch(r: Raw, p: seq<Byte>): (bool, Raw)
    decreases |r.bufs|
  {
    if r.bufs == [] || |p| > |r.bufs[0].data| then (false, r)
    else
      var b := r.bufs[0].data;
      var hit := IndexOf(Cut(b), p);
      if hit == 0 then (true, r)
      else if hit > 0 then (true, RawSkip(r, hit))
      else if |r.bufs| == 1 then (false, RawSkip(r, KeepFrom(b, p, 0)))
      else
        match SearchBorder(b, r.bufs[1].data, p, 0)
        case Match(offset) => (true, RawSkip(r, offset))
        case TooShort(offset) => (false, RawSkip(r, offset))
        case NoMatch => RawSearch(r.(bufs := r.bufs[1..], offset := 0), p)
  }

  function RawArrive(r: Raw, b: Buffer): Raw {
    r.(bufs := r.bufs + [b], size := r.size + |b.data|)
  }

  // ------------------------------------------------------- the handlers and the loop

  function RawHeader(r: Raw, order: ByteOrder): Raw {
    if r.size < HEADER_SIZE then r
    else if !CanCopy(r.bufs, r.offset, HEADER_SIZE) then Crash(r)
    else
      var h := PeekHeader(Left(r.bufs, r.offset)[..HEADER_SIZE], order);
      if IsValid(h) then r.(mode := WaitBody(h))
      else
        var d := RawSkip(r, HEADER_SIZE);
        if d.mode.Broken? then d else d.(mode := Resync)
  }

  function RawBody(r: Raw, order: ByteOrder): Raw
    requires r.mode.WaitBody?
  {
    var h := r.mode.header;
    if r.size < h.length then r
    else if h.length < HEADER_SIZE || !CanCopy(r.bufs, r.offset, HEADER_SIZE) then Crash(r)
    else
      var body, n := Drop(r.bufs, r.offset, HEADER_SIZE), h.length - HEADER_SIZE;
      if !CanCopy(body.bufs, body.offset, n) then
        Raw(Broken, body.bufs, body.offset, r.size - HEADER_SIZE, r.delivered)
      else
        var v := Drop(body.bufs, body.offset, n);
        var m := Message(h, Left(body.bufs, body.offset)[..n]);
        Raw(WaitHeader, v.bufs, v.offset, r.size - h.length, r.delivered + [m])
  }

  function RawResync(r: Raw): Raw {
    if r.size < MAGIC_SIZE then r
    else
      var (found, d) := RawSearch(r, MAGIC);
      if found && !d.mode.Broken? then d.(mode := WaitHeader) else d
  }

  function RawStep(r: Raw, order: ByteOrder): Raw {
    match r.mode
    case WaitHeader => RawHeader(r, order)
    case WaitBody(_) => RawBody(r, order)
    case Resync => RawResync(r)
    case Broken => r
  }

  /** The loop is left when the size is 0 or when `onWaitBody` reports that the body is not complete. */
  predicate RawEnds(r: Raw) {
    !r.mode.Broken? && (r.size == 0 || (r.mode.WaitBody? && r.size < r.mode.header.length))
  }

  function RawLoop(r: Raw, n: nat, order: ByteOrder): Raw
    decreases n
  {
    if n == 0 || RawEnds(r) then r else RawLoop(RawStep(r, order), n - 1, order)
  }

  ghost predicate RawReturns(r: Raw, order: ByteOrder) {
    exists n: nat :: RawEnds(RawLoop(r, n, order))
  }

  /** The state in which a loop that returns leaves the stream. */
  ghost function RawResult(r: Raw, order: ByteOrder): (d: Raw)
    requires RawReturns(r, order)
    ensures exists n: nat :: RawEnds(RawLoop(r, n, order)) && d == RawLoop(r, n, order)
  {
    var n: nat :| RawEnds(RawLoop(r, n, order));
    RawLoop(r, n, order)
  }

  /** Every chunk is taken and its loop returns. */
  ghost predicate RawAllReturn(r: Raw, bufs: seq<Buffer>, order: ByteOrder)
    decreases |bufs|
  {
    bufs == [] ||
    (var d := RawArrive(r, bufs[0]);
     RawReturns(d, order) && RawAllReturn(RawResult(d, order), bufs[1..], order))
  }

  ghost function RawReceiveAll(r: Raw, bufs: seq<Buffer>, order: ByteOrder): Raw
    requires RawAllReturn(r, bufs, order)
    decreases |bufs|
  {
    if bufs == [] then r else RawReceiveAll(RawResult(RawArrive(r, bufs[0]), order), bufs[1..], order)
  }

  // ------------------------------------------------------- with an exact size, it is the machine

  /** The source's fields when the size is the number of bytes left. */
  function RawOf(c: Conn): Raw
    requires WellFormed(c.view)
  {
    Raw(c.mode, c.view.bufs, c.view.offset, |Flat(c.view)|, c.delivered)
  }

  lemma LeftIsFlat(v: View)
    requires WellFormed(v)
    ensures Left(v.bufs, v.offset) == Flat(v)
    ensures v.bufs != [] ==> v.offset <= |v.bufs[0].data|
  {
  }

  lemma {:induction false} DropIsConsume(v: View, n: nat)
    requires WellFormed(v) && v.bufs != [] && n <= |Flat(v)|
    ensures CanCopy(v.bufs, v.offset, n) && Drop(v.bufs, v.offset, n) == Consume(v, n)
    decreases |v.bufs|
  {
    hide Flat, Left, Consume;
    LeftIsFlat(v);
    ConsumeCases(v, n);
    if |v.bufs[0].data| - v.offset < n {
      DropIsConsume(View(v.bufs[1..], 0), n - (|v.bufs[0].data| - v.offset));
    }
  }

  lemma SkipAsWritten(c: Conn, n: nat)
    requires WellFormed(c.view) && c.view.bufs != []
    ensures RawSkip(RawOf(c), n) == RawOf(c.(view := Skip(c.view, n)))
  {
    hide Flat, Left, Consume, Drop;
    var m := Min(|Flat(c.view)|, n);
    LeftIsFlat(c.view);
    DropIsConsume(c.view, m);
    FlatConsume(c.view, m);
  }

  /** Skipping from the start of a buffer, with a size that is too large by what was dropped before. */
  lemma SkipOversized(r: Raw, n: nat)
    requires r.bufs != [] && r.offset == 0 && n <= |r.bufs[0].data| && |Concat(r.bufs)| <= r.size
    ensures n <= |Flat(View(r.bufs, 0))|
    ensures var v := Skip(View(r.bufs, 0), n);
            RawSkip(r, n) == r.(bufs := v.bufs, offset := v.offset, size := r.size - n)
  {
    hide Consume, Drop;
    var v := View(r.bufs, 0);
    FlatOfPlain(r.bufs);
    LeftOfPlain(r.bufs);
    DropIsConsume(v, n);
  }

  /** From the start of a buffer: a head that is dropped stays in the size, everything skipped goes. */
  lemma {:induction false} SearchOversized(r: Raw, p: seq<Byte>)
    requires r.offset == 0 && |Concat(r.bufs)| <= r.size && p != []
    ensures var f := Search(View(r.bufs, 0), p);
            && f.unaccounted <= f.consumed <= |Concat(r.bufs)|
            && RawSearch(r, p) == (f.found, r.(bufs := f.view.bufs, offset := f.view.offset,
                                               size := r.size - (f.consumed - f.unaccounted)))
    decreases |r.bufs|
  {
    hide RawSkip, Skip, SearchBorder, KeepFrom, IndexOf, Cut, Flat;
    FlatOfPlain(r.bufs);
    if r.bufs != [] && |p| <= |r.bufs[0].data| {
      var b := r.bufs[0].data;
      var hit := IndexOf(Cut(b), p);
      IndexOfInside(Cut(b), p);
      CutInside(b);
      if hit > 0 {
        SkipOversized(r, hit);
      } else if hit < 0 && |r.bufs| == 1 {
        KeepFromInside(b, p, 0);
        SkipOversized(r, KeepFrom(b, p, 0));
      } else if hit < 0 {
        BorderInside(b, r.bufs[1].data, p, 0);
        match SearchBorder(b, r.bufs[1].data, p, 0)
        case Match(o) => SkipOversized(r, o);
        case TooShort(o) => SkipOversized(r, o);
        case NoMatch => SearchOversized(r.(bufs := r.bufs[1..], offset := 0), p);
      }
    }
  }

  lemma {:induction false} BorderInside(b: seq<Byte>, next: seq<Byte>, p: seq<Byte>, i: nat)
    requires i <= |p| <= |b|
    ensures var r := SearchBorder(b, next, p, i); !r.NoMatch? ==> r.offset <= |b|
    decreases |p| - i
  {
    if i < |p| {
      BorderInside(b, next, p, i + 1);
    }
  }

  /**
   * From any stream whose size is exact, the search as written finds and leaves what the search of the
   * model does, and its size is too large by exactly the bytes of the buffers it dropped.
   */
  lemma SearchAsWritten(c: Conn, p: seq<Byte>)
    requires WellFormed(c.view) && p != []
    ensures var f := Search(c.view, p); var d := RawOf(c.(view := f.view));
            RawSearch(RawOf(c), p) == (f.found, d.(size := d.size + f.unaccounted))
  {
    hide Flat, Search, Skip, SearchBorder, KeepFrom, IndexOf, Cut, SearchContinues, RawSkip;
    var v := c.view;
    SearchCases(v, p);
    if v.bufs != [] && |p| <= |v.bufs[0].data| {
      var b := v.bufs[0].data;
      var hit := IndexOf(Cut(b), p);
      if hit > 0 {
        SkipAsWritten(c, hit);
      } else if hit < 0 && |v.bufs| == 1 {
        SkipAsWritten(c, KeepFrom(b, p, 0));
      } else if hit < 0 {
        match SearchBorder(b, v.bufs[1].data, p, 0)
        case Match(o) => SkipAsWritten(c, o);
        case TooShort(o) => SkipAsWritten(c, o);
        case NoMatch => DropAsWritten(c, p);
      }
    }
  }

  lemma DropAsWritten(c: Conn, p: seq<Byte>)
    requires WellFormed(c.view) && p != [] && DropsHead(c.view, p)
    ensures var f := Search(c.view, p); var d := RawOf(c.(view := f.view));
            RawSearch(RawOf(c), p) == (f.found, d.(size := d.size + f.unaccounted))
  {
    hide Flat, Search, SearchBorder, IndexOf, Cut, SearchContinues;
    var v, rest := c.view, View(c.view.bufs[1..], 0);
    SearchCases(v, p);
    SearchContinuesAt(v, p, rest, |v.bufs[0].data| - v.offset);
    FlatSplit(v);
    FlatOfPlain(rest.bufs);
    SearchConsumes(rest, p);
    SearchOversized(RawOf(c).(bufs := rest.bufs, offset := 0), p);
  }

  lemma HeaderAsWritten(c: Conn, order: ByteOrder)
    requires Inv(c, order) && c.mode.WaitHeader?
    ensures RawHeader(RawOf(c), order) == RawOf(StepHeader(c, order))
  {
    hide Flat, Left, PeekHeader, RawSkip, Skip;
    LeftIsFlat(c.view);
    if |Flat(c.view)| >= HEADER_SIZE {
      FlatNonEmpty(c.view);
      SkipAsWritten(c, HEADER_SIZE);
    }
  }

  lemma BodyAsWritten(c: Conn, order: ByteOrder)
    requires Inv(c, order) && c.mode.WaitBody?
    ensures RawBody(RawOf(c), order) == RawOf(StepBody(c, order))
  {
    hide Flat, Left, Drop, Consume, DecodeHeader;
    LeftIsFlat(c.view);
    FlatNonEmpty(c.view);
    var length := c.mode.header.length;
    if HEADER_SIZE <= length <= |Flat(c.view)| {
      DropIsConsume(c.view, HEADER_SIZE);
      FlatConsume(c.view, HEADER_SIZE);
      var body := Consume(c.view, HEADER_SIZE);
      LeftIsFlat(body);
      if body.bufs != [] {
        DropIsConsume(body, length - HEADER_SIZE);
        FlatConsume(body, length - HEADER_SIZE);
      }
    }
  }

  /** Where the size is exact and the search drops no buffer, a round as written is a step of the machine. */
  lemma StepAsWritten(c: Conn, order: ByteOrder)
    requires Inv(c, order) && (c.mode.Resync? ==> !DropsHead(c.view, MAGIC))
    ensures RawStep(RawOf(c), order) == RawOf(Step(c, order))
    ensures RawEnds(RawOf(c)) <==> SourceLoopEnds(c, order)
  {
    hide RawHeader, RawBody, RawSearch, StepHeader, Search, Flat, DropsHead;
    match c.mode
    case WaitHeader => HeaderAsWritten(c, order);
    case WaitBody(h) => BodyAsWritten(c, order);
    case Resync =>
      SearchAsWritten(c, MAGIC);
      SizeStaysExact(c.view, MAGIC);
    case Broken =>
  }

  // ------------------------------------------------------- from offset 0, no reachable search drops a buffer

  /** The bytes left in front of the last buffer. */
  function Front(v: View): nat
    requires WellFormed(v)
  {
    if |v.bufs| <= 1 then 0 else |Flat(View(v.bufs[..|v.bufs| - 1], v.offset))|
  }

  /** Only while a body is awaited do bytes wait in front of the last buffer, and fewer than the body needs. */
  predicate Solid(c: Conn)
    requires WellFormed(c.view)
  {
    match c.mode
    case WaitBody(h) => Front(c.view) == 0 || Front(c.view) < h.length
    case Broken => true
    case _ => Front(c.view) == 0
  }

  lemma FrontSplit(v: View)
    requires WellFormed(v) && |v.bufs| >= 2
    ensures Front(v) == |v.bufs[0].data| - v.offset + Front(View(v.bufs[1..], 0))
  {
    hide Concat;
    var f := v.bufs[..|v.bufs| - 1];
    FlatSplit(View(f, v.offset));
    FlatOfPlain(f[1..]);
    assert f[1..] == v.bufs[1..][..|v.bufs| - 2] && f[0] == v.bufs[0];
    if |v.bufs| == 2 {
      assert f[1..] == [] && Concat([]) == [] by { ConcatNone(); }
    }
  }

  lemma ConcatNone()
    ensures Concat([]) == []
  {
  }

  /** Consuming everything in front of the last buffer leaves nothing in front of it. */
  lemma {:induction false} FrontConsume(v: View, n: nat)
    requires WellFormed(v) && v.bufs != [] && Front(v) <= n <= |Flat(v)|
    ensures Front(Consume(v, n)) == 0
    decreases |v.bufs|
  {
    hide Flat, Consume;
    ConsumeCases(v, n);
    var left, rest := |v.bufs[0].data| - v.offset, View(v.bufs[1..], 0);
    if |v.bufs| >= 2 {
      hide Front;
      FrontSplit(v);
      if left < n {
        FrontConsume(rest, n - left);
      }
      assert left <= n;
    }
  }

  lemma FrontAppend(v: View, b: Buffer)
    requires WellFormed(v)
    ensures WellFormed(Append(v, b)) && Front(Append(v, b)) == |Flat(v)|
  {
    var w := Append(v, b);
    assert w.bufs[..|w.bufs| - 1] == v.bufs;
    if v.bufs == [] { assert Flat(v) == []; }
  }

  /** In a solid state in resync, no search drops a buffer, so the size stays exact. */
  lemma SolidSizes(c: Conn)
    requires WellFormed(c.view) && Solid(c) && c.mode.Resync?
    ensures !DropsHead(c.view, MAGIC) && Search(c.view, MAGIC).unaccounted == 0
  {
    hide Search, Flat;
    SizeStaysExact(c.view, MAGIC);
    if |c.view.bufs| >= 2 {
      FrontSplit(c.view);
      assert |c.view.bufs[0].data| == c.view.offset;
    }
  }

  lemma SkipFront(v: View, n: nat)
    requires WellFormed(v) && v.bufs != [] && Front(v) == 0
    ensures Front(Skip(v, n)) == 0
  {
    hide Flat, Front;
    FrontConsume(v, Min(|Flat(v)|, n));
  }

  lemma SearchFront(v: View, p: seq<Byte>)
    requires WellFormed(v) && p != [] && Front(v) == 0 && !DropsHead(v, p)
    ensures Front(Search(v, p).view) == 0
  {
    hide Flat, Search, Skip, SearchBorder, KeepFrom, IndexOf, Cut, SearchContinues, Front;
    SearchCases(v, p);
    if v.bufs != [] && |p| <= |v.bufs[0].data| {
      var b := v.bufs[0].data;
      var hit := IndexOf(Cut(b), p);
      if hit > 0 {
        SkipFront(v, hit);
      } else if hit < 0 && |v.bufs| == 1 {
        SkipFront(v, KeepFrom(b, p, 0));
      } else if hit < 0 {
        match SearchBorder(b, v.bufs[1].data, p, 0)
        case Match(o) => SkipFront(v, o);
        case TooShort(o) => SkipFront(v, o);
        case NoMatch =>
      }
    }
  }

  lemma BodySolid(c: Conn, order: ByteOrder)
    requires Inv(c, order) && c.mode.WaitBody? && Solid(c)
    ensures Inv(StepBody(c, order), order) && Solid(StepBody(c, order))
  {
    hide Flat, Consume, DecodeHeader, Front;
    BodyProgress(c, order);
    var length := c.mode.header.length;
    FlatNonEmpty(c.view);
    if HEADER_SIZE <= length <= |Flat(c.view)| {
      FrontConsume(c.view, length);
      FlatConsume(c.view, HEADER_SIZE);
      var body := Consume(c.view, HEADER_SIZE);
      if body.bufs != [] {
        if length > HEADER_SIZE {
          ConsumeTwice(c.view, HEADER_SIZE, length - HEADER_SIZE);
        } else {
          FrontConsume(body, 0);
        }
      }
    }
  }

  /** Every round keeps a state solid. */
  lemma SolidStep(c: Conn, order: ByteOrder)
    requires Inv(c, order) && Solid(c)
    ensures Inv(Step(c, order), order) && Solid(Step(c, order))
  {
    hide Flat, Search, Front, DecodeHeader, PeekHeader, StepBody;
    StepProgress(c, order);
    match c.mode
    case WaitHeader =>
      if |Flat(c.view)| >= HEADER_SIZE {
        FlatNonEmpty(c.view);
        SkipFront(c.view, HEADER_SIZE);
      }
    case WaitBody(_) => BodySolid(c, order);
    case Resync =>
      SolidSizes(c);
      SearchFront(c.view, MAGIC);
    case Broken =>
  }

  /** A buffer that arrives after the loop has returned keeps the state solid. */
  lemma SolidArrive(c: Conn, b: Buffer, order: ByteOrder)
    requires Inv(c, order) && Solid(c) && SourceLoopEnds(c, order)
    ensures Inv(c.(view := Append(c.view, b)), order) && Solid(c.(view := Append(c.view, b)))
  {
    hide Flat, Front, DecodeHeader, Consume;
    AppendKeepsInv(c, b, order);
    FrontAppend(c.view, b);
  }

  /**
   * From a solid state, the loop as written goes, round by round, through the states of the machine; all
   * of them are solid, so no search it runs drops a buffer and its size is exact throughout.
   */
  lemma {:induction false} LoopAsWritten(c: Conn, n: nat, order: ByteOrder)
    requires Inv(c, order) && Solid(c)
    ensures RawLoop(RawOf(c), n, order) == RawOf(SourceLoop(c, n, order)) && Solid(SourceLoop(c, n, order))
    ensures RawEnds(RawLoop(RawOf(c), n, order)) <==> SourceLoopEnds(SourceLoop(c, n, order), order)
    decreases n
  {
    hide Step, RawStep, Solid, DropsHead, RawEnds, SourceLoopEnds;
    if c.mode.Resync? { SolidSizes(c); }
    StepAsWritten(c, order);
    SolidStep(c, order);
    if n > 0 && !SourceLoopEnds(c, order) {
      LoopAsWritten(Step(c, order), n - 1, order);
    }
  }

  /** The loop as written returns exactly if the machine's does, and then in the machine's settled state. */
  lemma ReturnsAsWritten(c: Conn, order: ByteOrder)
    requires Inv(c, order) && Solid(c)
    ensures RawReturns(RawOf(c), order) <==> Returns(c, order)
    ensures RawReturns(RawOf(c), order) ==>
              RawResult(RawOf(c), order) == RawOf(Assemble(c, order)) && Solid(Assemble(c, order))
              && SourceLoopEnds(Assemble(c, order), order)
  {
    hide Solid, RawEnds, SourceLoopEnds, RawLoop, SourceLoop, Assemble, RawOf;
    if n: nat :| RawEnds(RawLoop(RawOf(c), n, order)) {
      LoopAsWritten(c, n, order);
    }
    if n: nat :| SourceLoopEnds(SourceLoop(c, n, order), order) {
      LoopAsWritten(c, n, order);
    }
    if RawReturns(RawOf(c), order) {
      var n: nat :| RawEnds(RawLoop(RawOf(c), n, order))
                    && RawResult(RawOf(c), order) == RawLoop(RawOf(c), n, order);
      LoopAsWritten(c, n, order);
      EndedIsSettled(c, n, order);
    }
  }

  lemma EndedIsSettled(c: Conn, n: nat, order: ByteOrder)
    requires Inv(c, order) && SourceLoopEnds(SourceLoop(c, n, order), order)
    ensures SourceLoop(c, n, order) == Assemble(c, order)
  {
    hide SourceLoop, Assemble, SourceLoopEnds;
    var k := SourceLoopSettles(c, order);
    StaysEnded(c, n, k, order);
  }

  /**
   * Whole runs: starting where a loop has returned, the loop as written returns from every chunk exactly
   * if the machine's does, and ends in the machine's state.
   */
  lemma {:induction false} RunAsWritten(c: Conn, bufs: seq<Buffer>, order: ByteOrder)
    requires Inv(c, order) && Solid(c) && SourceLoopEnds(c, order)
    ensures RawAllReturn(RawOf(c), bufs, order) <==> AllReturn(c, bufs, order)
    ensures RawAllReturn(RawOf(c), bufs, order) ==>
              RawReceiveAll(RawOf(c), bufs, order) == RawOf(ReceiveAll(c, bufs, order))
    decreases |bufs|
  {
    hide Solid, SourceLoopEnds, Assemble, RawReturns, Returns, RawResult, Flat;
    if bufs != [] {
      var d := c.(view := Append(c.view, bufs[0]));
      SolidArrive(c, bufs[0], order);
      FlatAppend(c.view, bufs[0]);
      assert RawArrive(RawOf(c), bufs[0]) == RawOf(d);
      ReturnsAsWritten(d, order);
      if RawReturns(RawOf(d), order) {
        RunAsWritten(Receive(c, bufs[0], order), bufs[1..], order);
      }
    }
  }

  // ------------------------------------------------------- a reused connection

  /** The bytes of whole messages, headers included. */
  function TotalBytes(ms: seq<Message>): nat {
    if ms == [] then 0 else TotalBytes(ms[..|ms| - 1]) + HEADER_SIZE + |ms[|ms| - 1].payload|
  }

  /** What was delivered and what is left, in bytes. */
  function Carried(r: Raw): nat {
    TotalBytes(r.delivered) + |Left(r.bufs, r.offset)|
  }

  lemma {:induction false} DropLength(bufs: seq<Buffer>, offset: nat, n: nat)
    requires CanCopy(bufs, offset, n)
    ensures var v := Drop(bufs, offset, n); |Left(v.bufs, v.offset)| == |Left(bufs, offset)| - n
    decreases |bufs|
  {
    hide Left;
    LeftSplit(bufs, offset);
    var left := |bufs[0].data| - offset;
    if left < n {
      DropLength(bufs[1..], 0, n - left);
    } else if left > n {
      LeftSplit(bufs, offset + n);
    }
  }

  lemma SkipCarries(r: Raw, n: nat)
    ensures Carried(RawSkip(r, n)) <= Carried(r) && RawSkip(r, n).delivered == r.delivered
  {
    hide Drop;
    var m := Min(r.size, n);
    if r.bufs != [] && r.offset <= |r.bufs[0].data| && m <= |Left(r.bufs, r.offset)| {
      hide Left;
      DropLength(r.bufs, r.offset, m);
    }
  }

  lemma {:induction false} SearchCarries(r: Raw, p: seq<Byte>)
    ensures var d := RawSearch(r, p).1; Carried(d) <= Carried(r) && d.delivered == r.delivered
    decreases |r.bufs|
  {
    hide RawSkip, KeepFrom, IndexOf, Cut, SearchBorder;
    if r.bufs != [] && |p| <= |r.bufs[0].data| {
      var b := r.bufs[0].data;
      var hit := IndexOf(Cut(b), p);
      if hit > 0 {
        SkipCarries(r, hit);
      } else if hit < 0 && |r.bufs| == 1 {
        SkipCarries(r, KeepFrom(b, p, 0));
      } else if hit < 0 {
        match SearchBorder(b, r.bufs[1].data, p, 0)
        case Match(o) => SkipCarries(r, o);
        case TooShort(o) => SkipCarries(r, o);
        case NoMatch =>
          SearchCarries(r.(bufs := r.bufs[1..], offset := 0), p);
          LeftOfPlain(r.bufs[1..]);
      }
    }
  }

  lemma BodyCarries(r: Raw, order: ByteOrder)
    requires r.mode.WaitBody?
    ensures Carried(RawBody(r, order)) <= Carried(r)
  {
    hide Drop, Left;
    var h := r.mode.header;
    if HEADER_SIZE <= h.length <= r.size && CanCopy(r.bufs, r.offset, HEADER_SIZE) {
      var body, n := Drop(r.bufs, r.offset, HEADER_SIZE), h.length - HEADER_SIZE;
      DropLength(r.bufs, r.offset, HEADER_SIZE);
      if CanCopy(body.bufs, body.offset, n) {
        DropLength(body.bufs, body.offset, n);
        var m := Message(h, Left(body.bufs, body.offset)[..n]);
        assert (r.delivered + [m])[..|r.delivered|] == r.delivered;
      }
    }
  }

  /** No round makes bytes: what is delivered and what is left never grows. */
  lemma StepCarries(r: Raw, order: ByteOrder)
    ensures Carried(RawStep(r, order)) <= Carried(r)
  {
    hide Carried, RawBody, RawSearch, RawSkip, PeekHeader;
    match r.mode
    case WaitHeader =>
      SkipCarries(r, HEADER_SIZE);
      SameCarried(r);
    case WaitBody(_) => BodyCarries(r, order);
    case Resync =>
      SearchCarries(r, MAGIC);
      SameCarried(RawSearch(r, MAGIC).1);
    case Broken =>
  }

  /** The mode does not count. */
  lemma SameCarried(r: Raw)
    ensures forall m :: Carried(r.(mode := m)) == Carried(r)
    ensures forall m :: Carried(RawSkip(r, HEADER_SIZE).(mode := m)) == Carried(RawSkip(r, HEADER_SIZE))
  {
  }

  lemma {:induction false} LoopCarries(r: Raw, n: nat, order: ByteOrder)
    ensures Carried(RawLoop(r, n, order)) <= Carried(r)
    decreases n
  {
    hide RawStep, Carried, RawEnds;
    if n > 0 && !RawEnds(r) {
      StepCarries(r, order);
      LoopCarries(RawStep(r, order), n - 1, order);
    }
  }

  lemma ArriveCarries(r: Raw, b: Buffer)
    ensures Carried(RawArrive(r, b)) <= Carried(r) + |b.data|
    ensures r.bufs == [] && r.offset > 0 && b.data != [] ==> Carried(RawArrive(r, b)) < Carried(r) + |b.data|
  {
    if r.bufs == [] {
      assert (r.bufs + [b])[1..] == [];
    } else {
      assert (r.bufs + [b])[1..] == r.bufs[1..] + [b];
      ConcatAppend(r.bufs[1..], [b]);
      ConcatOne(b);
    }
  }

  lemma {:induction false} RunCarries(r: Raw, bufs: seq<Buffer>, order: ByteOrder)
    requires RawAllReturn(r, bufs, order)
    ensures Carried(RawReceiveAll(r, bufs, order)) <= Carried(r) + |Concat(bufs)|
    decreases |bufs|
  {
    hide Carried, RawLoop, RawArrive;
    if bufs != [] {
      var d := RawArrive(r, bufs[0]);
      ArriveCarries(r, bufs[0]);
      ResultCarries(d, order);
      RunCarries(RawResult(d, order), bufs[1..], order);
    }
  }

  lemma ResultCarries(d: Raw, order: ByteOrder)
    requires RawReturns(d, order)
    ensures Carried(RawResult(d, order)) <= Carried(d)
  {
    hide Carried, RawLoop, RawEnds;
    var n: nat :| RawEnds(RawLoop(d, n, order)) && RawResult(d, order) == RawLoop(d, n, order);
    LoopCarries(d, n, order);
  }

  /** Exactly the complete frames are delivered and exactly the unfinished tail is left. */
  ghost predicate RawDelivers(r: Raw, ms: seq<Message>, a: seq<Byte>, order: ByteOrder)
    requires forall m :: m in ms ==> WellFramed(m)
  {
    r.delivered == ms[..Complete(ms, |a|)] && Unfinished(ms, a, Left(r.bufs, r.offset), order)
  }

  lemma {:induction false} WireLength(ms: seq<Message>, order: ByteOrder)
    requires forall m :: m in ms ==> WellFramed(m)
    ensures |Wire(ms, order)| == TotalBytes(ms)
  {
    hide FrameBytes;
    if ms != [] {
      var front, last := ms[..|ms| - 1], ms[|ms| - 1];
      assert last in ms;
      WireLength(front, order);
      WireSnoc(front, last, order);
      assert front + [last] == ms;
    }
  }

  lemma {:induction false} WireSnoc(ms: seq<Message>, m: Message, order: ByteOrder)
    requires WellFramed(m) && forall k :: k in ms ==> WellFramed(k)
    ensures (forall k :: k in ms + [m] ==> WellFramed(k))
    ensures |Wire(ms + [m], order)| == |Wire(ms, order)| + m.header.length
  {
    hide FrameBytes;
    if ms == [] {
      assert ms + [m] == [m] && [m][1..] == [];
    } else {
      assert (ms + [m])[1..] == ms[1..] + [m] && ms[0] in ms;
      WireSnoc(ms[1..], m, order);
    }
  }

  /** Delivering everything takes every byte that arrived. */
  lemma DeliversCarries(r: Raw, ms: seq<Message>, a: seq<Byte>, order: ByteOrder)
    requires (forall m :: m in ms ==> WellFramed(m)) && RawDelivers(r, ms, a, order)
    ensures Carried(r) == |a|
  {
    hide Left, Wire, TotalBytes;
    WireLength(ms[..Complete(ms, |a|)], order);
  }

  /** In resync with an empty first buffer, nothing happens; the loop as written returns only if the size is 0. */
  lemma EmptyHeadReturns(r: Raw, order: ByteOrder)
    requires r.mode.Resync? && r.bufs != [] && r.bufs[0].data == []
    ensures RawReturns(r, order) <==> r.size == 0
    ensures RawReturns(r, order) ==> RawResult(r, order) == r
  {
    forall n: nat ensures RawLoop(r, n, order) == r {
      EmptyHeadStays(r, n, order);
    }
    assert RawLoop(r, 0, order) == r;
  }

  lemma {:induction false} EmptyHeadStays(r: Raw, n: nat, order: ByteOrder)
    requires r.mode.Resync? && r.bufs != [] && r.bufs[0].data == []
    ensures RawLoop(r, n, order) == r
    decreases n
  {
    if n > 0 && !RawEnds(r) {
      assert RawSearch(r, MAGIC) == (false, r);
      EmptyHeadStays(r, n - 1, order);
    }
  }

  lemma {:induction false} EmptyHeadRun(r: Raw, bufs: seq<Buffer>, order: ByteOrder)
    requires r.mode.Resync? && r.bufs != [] && r.bufs[0].data == [] && r.size == 0 && Concat(r.bufs) == []
    ensures RawAllReturn(r, bufs, order) <==> Concat(bufs) == []
    ensures Concat(bufs) == [] ==>
              RawAllReturn(r, bufs, order) &&
              var d := RawReceiveAll(r, bufs, order); d.delivered == r.delivered && Left(d.bufs, d.offset) == []
    decreases |bufs|
  {
    hide RawReturns, RawResult;
    if bufs == [] {
      NothingLeft(r.bufs, r.offset);
    } else {
      var d := RawArrive(r, bufs[0]);
      EmptyHeadReturns(d, order);
      ConcatAppend(r.bufs, [bufs[0]]);
      ConcatOne(bufs[0]);
      if bufs[0].data == [] {
        EmptyHeadRun(d, bufs[1..], order);
      }
    }
  }

  lemma NothingLeft(bufs: seq<Buffer>, offset: nat)
    requires Concat(bufs) == []
    ensures Left(bufs, offset) == []
  {
  }

  /**
   * A connection slot that is used again starts in resync, with whatever offset the last reset left. On
   * a well-formed byte stream the loop as written gets through all chunks and delivers exactly the
   * complete frames if and only if every chunk ends with a whole tail and, unless no byte arrives at
   * all, the offset is 0 and the first buffer is not empty.
   */
  lemma ReusedConnectionExactly(ms: seq<Message>, offset: nat, first: Buffer, rest: seq<Buffer>, order: ByteOrder)
    requires (forall m :: m in ms ==> WellFramed(m)) && first.data + Concat(rest) <= Wire(ms, order)
    ensures var r, bufs, a := Raw(Resync, [], offset, 0, []), [first] + rest, first.data + Concat(rest);
            (RawAllReturn(r, bufs, order) && RawDelivers(RawReceiveAll(r, bufs, order), ms, a, order))
            <==> WholeTails(ms, 0, bufs) && (a == [] || (offset == 0 && first.data != []))
  {
    hide RawAllReturn, RawReceiveAll, RawDelivers, Wire, WholeTails, AllReturn, Delivers;
    if offset == 0 {
      FreshAsWritten(ms, first, rest, order);
    } else if first.data != [] {
      StaleOffsetLoses(ms, offset, first, rest, order);
    } else {
      StaleOffsetEmptyHead(ms, offset, first, rest, order);
    }
  }

  lemma FreshAsWritten(ms: seq<Message>, first: Buffer, rest: seq<Buffer>, order: ByteOrder)
    requires (forall m :: m in ms ==> WellFramed(m)) && first.data + Concat(rest) <= Wire(ms, order)
    ensures var r, bufs, a := Raw(Resync, [], 0, 0, []), [first] + rest, first.data + Concat(rest);
            (RawAllReturn(r, bufs, order) && RawDelivers(RawReceiveAll(r, bufs, order), ms, a, order))
            <==> WholeTails(ms, 0, bufs) && (a == [] || first.data != [])
  {
    hide RawAllReturn, RawReceiveAll, Wire, WholeTails, AllReturn, Unfinished, Left;
    var c, bufs := Conn(Resync, View([], 0), []), [first] + rest;
    assert RawOf(c) == Raw(Resync, [], 0, 0, []) && Solid(c) && SourceLoopEnds(c, order);
    RunAsWritten(c, bufs, order);
    FreshConnectionReturnsExactly(ms, first, rest, order);
    LeftIsFlat(ReceiveAll(c, bufs, order).view);
    var d := ReceiveAll(c, bufs, order).delivered;
    assert forall k: nat :: k <= |ms| ==> [] + ms[..k] == ms[..k];
  }

  lemma StaleOffsetLoses(ms: seq<Message>, offset: nat, first: Buffer, rest: seq<Buffer>, order: ByteOrder)
    requires (forall m :: m in ms ==> WellFramed(m)) && offset > 0 && first.data != []
    ensures var r, bufs, a := Raw(Resync, [], offset, 0, []), [first] + rest, first.data + Concat(rest);
            !(RawAllReturn(r, bufs, order) && RawDelivers(RawReceiveAll(r, bufs, order), ms, a, order))
  {
    hide Carried, RawArrive, RawResult, RawReturns, RawDelivers;
    var r, bufs, a := Raw(Resync, [], offset, 0, []), [first] + rest, first.data + Concat(rest);
    assert bufs[1..] == rest && bufs[0] == first;
    assert Carried(r) == 0 by { CarriesNothing(r); }
    if RawAllReturn(r, bufs, order) {
      var d := RawArrive(r, first);
      ArriveCarries(r, first);
      ResultCarries(d, order);
      RunCarries(RawResult(d, order), rest, order);
      if RawDelivers(RawReceiveAll(r, bufs, order), ms, a, order) {
        DeliversCarries(RawReceiveAll(r, bufs, order), ms, a, order);
        assert false;
      }
    }
  }

  lemma CarriesNothing(r: Raw)
    requires r.bufs == [] && r.delivered == []
    ensures Carried(r) == 0
  {
  }

  lemma StaleOffsetEmptyHead(ms: seq<Message>, offset: nat, first: Buffer, rest: seq<Buffer>, order: ByteOrder)
    requires (forall m :: m in ms ==> WellFramed(m)) && first.data == []
    ensures var r, bufs, a := Raw(Resync, [], offset, 0, []), [first] + rest, first.data + Concat(rest);
            (RawAllReturn(r, bufs, order) && RawDelivers(RawReceiveAll(r, bufs, order), ms, a, order))
            <==> WholeTails(ms, 0, bufs) && a == []
  {
    hide RawReturns, RawResult, Wire, Tail;
    var r, bufs := Raw(Resync, [], offset, 0, []), [first] + rest;
    var d := RawArrive(r, first);
    assert bufs[1..] == rest && d.bufs == [first];
    ConcatOne(first);
    EmptyHeadReturns(d, order);
    EmptyHeadRun(d, rest, order);
    if Concat(rest) == [] {
      ShortTail(ms, 0);
      NothingArrives(ms, rest);
      NoneComplete(ms, [], order);
      assert ms[..0] == [] && first.data + Concat(rest) == [];
    }
  }

  /** Any frame that arrives whole, in one buffer, is lost if the last reset left any other offset than 0. */
  lemma StaleOffsetLosesFrame(m: Message, offset: nat, order: ByteOrder)
    requires WellFramed(m) && offset > 0
    ensures var r, b := Raw(Resync, [], offset, 0, []), Buffer(1, FrameBytes(m, order));
            && WholeTails([m], 0, [b])
            && !(RawAllReturn(r, [b], order) && RawDelivers(RawReceiveAll(r, [b], order), [m], b.data, order))
  {
    hide RawAllReturn, RawReceiveAll, RawDelivers, FrameBytes;
    var b := Buffer(1, FrameBytes(m, order));
    assert [m][1..] == [] && Wire([m], order) == b.data + [];
    ConcatNone();
    assert b.data + Concat([]) == b.data && [b] + [] == [b];
    ReusedConnectionExactly([m], offset, b, [], order);
    assert [b][1..] == [] && Tail([m], m.header.length) == Tail([], 0) == 0;
  }

  /** A size that promises bytes that are not there makes the header or the body be read from elsewhere. */
  lemma WrongSizeLeavesMemory(r: Raw, order: ByteOrder)
    requires var n := if r.mode.WaitBody? then r.mode.header.length else HEADER_SIZE;
             (r.mode.WaitHeader? || r.mode.WaitBody?) && |Left(r.bufs, r.offset)| < n <= r.size
    ensures RawStep(r, order).mode.Broken? && RawStep(r, order).delivered == r.delivered
  {
    hide Left, Drop;
    if r.mode.WaitBody? && r.mode.header.length >= HEADER_SIZE && CanCopy(r.bufs, r.offset, HEADER_SIZE) {
      DropLength(r.bufs, r.offset, HEADER_SIZE);
    }
  }

  // ------------------------------------------------------- what a stale offset leads to

  lemma {:induction false} RawStays(r: Raw, n: nat, order: ByteOrder)
    requires RawStep(r, order) == r
    ensures RawLoop(r, n, order) == r
    decreases n
  {
    hide RawStep, RawEnds;
    if n > 0 && !RawEnds(r) {
      RawStays(r, n - 1, order);
    }
  }

  /** A round that leads to a state that no round changes decides whether the loop returns, and where. */
  lemma RawSettles(r: Raw, order: ByteOrder)
    requires !RawEnds(r) && (RawEnds(RawStep(r, order)) || RawStep(RawStep(r, order), order) == RawStep(r, order))
    ensures RawReturns(r, order) <==> RawEnds(RawStep(r, order))
    ensures RawReturns(r, order) ==> RawResult(r, order) == RawStep(r, order)
  {
    hide RawStep, RawEnds;
    var d := RawStep(r, order);
    forall n: nat | n > 0 ensures RawLoop(r, n, order) == d {
      if !RawEnds(d) { RawStays(d, n - 1, order); }
    }
    assert RawLoop(r, 1, order) == d;
  }

  /** A failed round over a buffer of zero-free garbage. */
  lemma RawMiss(b: Buffer, o: nat, start: seq<Message>, order: ByteOrder)
    requires ZeroFree(b.data) && !Occurs(b.data, MAGIC) && |b.data| >= MAGIC_SIZE
    ensures var k, r := KeepFrom(b.data, MAGIC, 0), Raw(Resync, [b], o, |b.data|, start);
            && |b.data| - MAGIC_SIZE < k <= |b.data| && RawStep(r, order) == RawSkip(r, k)
            && EndsWith(b.data, MAGIC[..|b.data| - k])
            && forall m :: |b.data| - k < m < MAGIC_SIZE ==> !EndsWith(b.data, MAGIC[..m])
  {
    hide RawSkip, KeepFrom, IndexOf, EndsWith, Occurs;
    CutZeroFree(b.data);
    IndexOfIsFirst(b.data, MAGIC);
    KeepsLongest(b.data, MAGIC, 0);
    WholeMagicAbsent(b.data);
  }

  /**
   * Garbage behind a stale offset, in resync. With the offset behind the buffer nothing is copied: the
   * loop returns exactly if no non-empty proper prefix of the magic word ends the garbage, and then it
   * leaves the whole buffer in the list, an offset still further on and a size of 0. With the offset
   * inside the buffer it never returns, and it leaves its own memory exactly if it keeps fewer bytes
   * than the offset counts.
   */
  lemma StaleOffsetInGarbage(b: Buffer, o: nat, start: seq<Message>, order: ByteOrder)
    requires ZeroFree(b.data) && !Occurs(b.data, MAGIC) && |b.data| >= MAGIC_SIZE && o > 0
    ensures var r := Raw(Resync, [b], o, |b.data|, start);
            if o > |b.data| then
              && (RawReturns(r, order) <==> forall m :: 0 < m < MAGIC_SIZE ==> !EndsWith(b.data, MAGIC[..m]))
              && (RawReturns(r, order) ==> RawResult(r, order) == Raw(Resync, [b], o + |b.data|, 0, start))
            else
              && !RawReturns(r, order)
              && (RawStep(r, order).mode.Broken? <==> forall m :: o <= m < MAGIC_SIZE ==> !EndsWith(b.data, MAGIC[..m]))
  {
    hide KeepFrom, Occurs, EndsWith, RawReturns, RawSearch;
    var r, k := Raw(Resync, [b], o, |b.data|, start), KeepFrom(b.data, MAGIC, 0);
    RawMiss(b, o, start, order);
    assert |Left([b], o)| == |b.data| - Min(o, |b.data|) by { ConcatNone(); }
    RawSettles(r, order);
  }

  /**
   * A frame behind an offset that leaves fewer than forty bytes of it: the magic word is found at the
   * start of the buffer, and the header is read from the offset on, outside the memory of the source.
   */
  lemma StaleOffsetLeavesMemory(m: Message, o: nat, order: ByteOrder)
    requires WellFramed(m) && o + HEADER_SIZE > m.header.length
    ensures var b := Buffer(1, FrameBytes(m, order));
            RawLoop(Raw(Resync, [b], o, |b.data|, []), 2, order).mode.Broken?
  {
    hide FrameBytes, IndexOf, Cut, RawSkip;
    var b := Buffer(1, FrameBytes(m, order));
    var r := Raw(Resync, [b], o, |b.data|, []);
    assert [m][1..] == [] && Wire([m], order) == b.data + [];
    WireStartsWithMagic([m], b.data, order);
    MagicFound(b, 0);
    assert |Left([b], o)| < HEADER_SIZE by { ConcatNone(); }
    assert RawStep(r, order) == r.(mode := WaitHeader);
    assert RawStep(RawStep(r, order), order).mode.Broken?;
    assert RawLoop(RawStep(r, order), 1, order).mode.Broken?;
  }
}
