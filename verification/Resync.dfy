/** Finding back to the frames: what the resync state recovers from, and when it does not. */
module Resynchronisation {
  import opened Bytes
  import opened PatternSearch
  import opened SegmentedView
  import opened SegmentedSearch
  import opened SearchLanding
  import opened MsgHeaders
  import opened AssemblyMachine
  import opened Delivery

  // ------------------------------------------------------- a resync, from any state

  /** The stream stands at a magic word: its header is awaited, or checked already. */
  predicate Synced(c: Conn)
    requires WellFormed(c.view)
  {
    c.mode.WaitBody? || (c.mode.WaitHeader? && MAGIC <= Flat(c.view))
  }

  /**
   * The magic word seen first, at index `h` of the buffers, is where the search lands: no byte of the
   * first buffer was consumed before, or it lies behind that buffer, or the magic word also occurs
   * `offset` bytes further on.
   */
  predicate Undisplaced(v: View, h: nat)
    requires v.bufs != []
  {
    var all, i := Concat(v.bufs), v.offset + h;
    v.offset == 0 || |v.bufs[0].data| <= h || (i + MAGIC_SIZE <= |all| && all[i..i + MAGIC_SIZE] == MAGIC)
  }

  /** The bytes a search passes over when the first magic word it sees is at index `h` of the buffers. */
  function Passed(v: View, h: nat): (n: int)
    requires v.bufs != []
  {
    if |v.bufs[0].data| <= h then h - v.offset else h
  }

  /** A round in resync succeeds exactly if the stream holds eight bytes and the search sees a magic word. */
  lemma ResyncSucceedsExactly(c: Conn, order: ByteOrder)
    requires Inv(c, order) && c.mode.Resync?
    ensures Step(c, order).mode.WaitHeader?
       <==> |Flat(c.view)| >= MAGIC_SIZE && exists h: nat :: FirstSeen(Reach(c.view.bufs, MAGIC_SIZE), MAGIC, h)
  {
    hide Search, Flat, FirstSeen;
    FailsExactly(c.view, MAGIC);
  }

  /** From any state, a successful resync stands at a magic word if and only if the search was not displaced. */
  lemma ResyncLandsExactly(c: Conn, order: ByteOrder, h: nat)
    requires Inv(c, order) && c.mode.Resync? && |Flat(c.view)| >= MAGIC_SIZE
    requires FirstSeen(Reach(c.view.bufs, MAGIC_SIZE), MAGIC, h)
    ensures var d := Step(c, order);
            && Inv(d, order) && d.mode.WaitHeader? && d.delivered == c.delivered && c.view.bufs != []
            && (Synced(d) <==> Undisplaced(c.view, h))
  {
    hide Search, Flat, FirstSeen, Seen;
    StepProgress(c, order);
    LandsOnPatternExactly(c.view, MAGIC, h);
  }

  /**
   * Once a header's worth of bytes is left behind a successful resync, the next round checks it: it
   * passes if and only if the search was not displaced, and otherwise the stream is back in resync
   * with nothing delivered.
   */
  lemma HeaderAfterResyncExactly(c: Conn, order: ByteOrder, h: nat)
    requires Inv(c, order) && c.mode.Resync? && |Flat(c.view)| >= MAGIC_SIZE
    requires FirstSeen(Reach(c.view.bufs, MAGIC_SIZE), MAGIC, h)
    requires c.view.bufs != [] && |Flat(c.view)| >= HEADER_SIZE + Passed(c.view, h)
    ensures Inv(Step(c, order), order)
    ensures var e := Step(Step(c, order), order);
            e.delivered == c.delivered && if Undisplaced(c.view, h) then e.mode.WaitBody? else e.mode.Resync?
  {
    hide Search, Flat, FirstSeen, Consume, DecodeHeader, PeekHeader;
    ResyncLandsExactly(c, order, h);
    BytesBehindResync(c, order, h);
    HeaderCheck(Step(c, order), order);
  }

  lemma BytesBehindResync(c: Conn, order: ByteOrder, h: nat)
    requires Inv(c, order) && c.mode.Resync? && |Flat(c.view)| >= MAGIC_SIZE && c.view.bufs != []
    requires FirstSeen(Reach(c.view.bufs, MAGIC_SIZE), MAGIC, h)
    ensures Inv(Step(c, order), order)
    ensures Passed(c.view, h) <= |Flat(c.view)| ==>
              |Flat(Step(c, order).view)| == |Flat(c.view)| - Passed(c.view, h)
  {
    hide Search, Flat, FirstSeen;
    StepProgress(c, order);
    Located(c.view, MAGIC, h);
    SearchConsumes(c.view, MAGIC);
  }

  /** The header check is the check for the magic word. */
  lemma HeaderCheck(c: Conn, order: ByteOrder)
    requires Inv(c, order) && c.mode.WaitHeader? && |Flat(c.view)| >= HEADER_SIZE
    ensures var d := Step(c, order);
            d.delivered == c.delivered && if MAGIC <= Flat(c.view) then d.mode.WaitBody? else d.mode.Resync?
  {
    hide Flat, Consume, PeekHeader;
    FlatNonEmpty(c.view);
    DecodesAlike(c, order);
    assert Flat(c.view)[..HEADER_SIZE][..8] == Flat(c.view)[..8];
  }

  // ------------------------------------------------------- a consumed magic word

  function Ones(n: nat): (b: seq<Byte>)
    ensures |b| == n && forall i :: 0 <= i < n ==> b[i] == 1
  {
    seq(n, _ => 1)
  }

  /** A header with a magic word one byte too late, and bytes behind it that hold none. */
  const LATE_MAGIC: seq<Byte> := [1] + MAGIC + Ones(80)

  lemma LateMagic()
    ensures |LATE_MAGIC| == 89 && ZeroFree(LATE_MAGIC) && Cut(LATE_MAGIC) == LATE_MAGIC
    ensures LATE_MAGIC[1..9] == MAGIC && !(MAGIC <= LATE_MAGIC[41..]) && !(MAGIC <= LATE_MAGIC)
    ensures FirstOccurrence(LATE_MAGIC, MAGIC, 1)
  {
    var b := LATE_MAGIC;
    CutZeroFree(b);
    assert b[1..9] == MAGIC && b[0] == 1 && b[41] == 1;
    assert OccursAt(b, MAGIC, 1);
    assert b[0..8][0] == 1;
  }

  /** Reading one buffer from the front. */
  lemma OneBuffer(b: Buffer, o: nat, n: nat)
    requires o + n < |b.data|
    ensures WellFormed(View([b], o)) && Flat(View([b], o)) == b.data[o..] && n <= |Flat(View([b], o))|
    ensures Consume(View([b], o), n) == View([b], o + n) == Skip(View([b], o), n)
  {
    assert [b][1..] == [];
    assert b.data[o..] + [] == b.data[o..];
  }

  lemma DisplacedRound(order: ByteOrder, b: Buffer)
    requires b.data == LATE_MAGIC
    ensures var c := Conn(Resync, View([b], 40), []);
            Inv(c, order) && Step(c, order) == Conn(WaitHeader, View([b], 41), [])
  {
    hide Consume, Cut, IndexOf;
    LateMagic();
    OneBuffer(b, 40, 1);
    IndexOfIsFirst(LATE_MAGIC, MAGIC);
    FirstIsUnique(LATE_MAGIC, MAGIC, 1);
    assert IndexOf(LATE_MAGIC, MAGIC) == 1;
  }

  /**
   * A run that resyncs twice without a delivery: the first header is bad and is skipped, the search then
   * hits the magic word inside it, and the stream is left one byte behind the skipped header.
   */
  lemma ConsumedMagicDisplacesResync(order: ByteOrder)
    ensures var b := Buffer(1, LATE_MAGIC);
            var start := Conn(WaitHeader, View([b], 0), []);
            && Inv(start, order)
            && TakeTurns(start, [Round, Round], order) == Conn(WaitHeader, View([b], 41), [])
            && TakeTurns(start, [Round, Round, Round], order).mode.Resync?
            && TakeTurns(start, [Round, Round, Round], order).delivered == []
  {
    hide Flat, Consume, DecodeHeader, PeekHeader, StepResync, Search;
    var b := Buffer(1, LATE_MAGIC);
    var start := Conn(WaitHeader, View([b], 0), []);
    LateMagic();
    OneBuffer(b, 0, 40);
    OneBuffer(b, 41, 0);
    assert LATE_MAGIC[0..] == LATE_MAGIC;
    HeaderCheck(start, order);
    assert Step(start, order) == Conn(Resync, View([b], 40), []);
    DisplacedRound(order, b);
    HeaderCheck(Conn(WaitHeader, View([b], 41), []), order);
    RoundsOf(start, order);
  }

  lemma RoundsOf(c: Conn, order: ByteOrder)
    requires Inv(c, order)
    ensures Inv(Step(c, order), order) && Inv(Step(Step(c, order), order), order)
    ensures TakeTurns(c, [Round, Round], order) == Step(Step(c, order), order)
    ensures TakeTurns(c, [Round, Round, Round], order) == Step(Step(Step(c, order), order), order)
  {
    hide Step;
    StepProgress(c, order);
    StepProgress(Step(c, order), order);
    assert [Round, Round, Round][1..] == [Round, Round] && [Round, Round][1..] == [Round] && [Round][1..] == [];
  }

  // ------------------------------------------------------- no resync without a delivery

  /** At a magic word the header check passes, so the only way on is to a delivery. */
  lemma SyncedStep(c: Conn, order: ByteOrder)
    requires Inv(c, order) && Synced(c)
    ensures var d := Step(c, order);
            Inv(d, order) && (Synced(d) || d.mode.Broken? || |d.delivered| > |c.delivered|)
  {
    hide Search, Flat, Consume, DecodeHeader, PeekHeader;
    StepProgress(c, order);
    if c.mode.WaitHeader? && |Flat(c.view)| >= HEADER_SIZE {
      HeaderCheck(c, order);
    }
  }

  lemma SyncedTurn(c: Conn, t: Turn, order: ByteOrder)
    requires Inv(c, order) && (Synced(c) || c.mode.Broken?)
    ensures var d := TakeTurn(c, t, order);
            c.delivered <= d.delivered && (Synced(d) || d.mode.Broken? || |d.delivered| > |c.delivered|)
  {
    hide Flat, Step;
    match t
    case Round =>
      StepProgress(c, order);
      if c.mode.Broken? {
        BrokenStays(c, order);
      } else {
        SyncedStep(c, order);
      }
    case Arrive(b) =>
      FlatAppend(c.view, b);
      assert MAGIC <= Flat(c.view) ==> (Flat(c.view) + b.data)[..8] == Flat(c.view)[..8];
  }

  lemma {:induction false} DeliveredGrows(c: Conn, ts: seq<Turn>, order: ByteOrder)
    requires Inv(c, order)
    ensures c.delivered <= TakeTurns(c, ts, order).delivered
    decreases |ts|
  {
    hide Step;
    if ts != [] {
      StepProgress(c, order);
      DeliveredGrows(TakeTurn(c, ts[0], order), ts[1..], order);
    }
  }

  /**
   * From a stream that stands at a magic word, over every sequence of rounds and arriving buffers: it
   * is never in resync, not even in between, before another message has been delivered.
   */
  lemma {:induction false} NoResyncWithoutDelivery(c: Conn, ts: seq<Turn>, order: ByteOrder)
    requires Inv(c, order) && (Synced(c) || c.mode.Broken?)
    ensures var r := TakeTurns(c, ts, order);
            && c.delivered <= r.delivered
            && (r.mode.Resync? ==> |r.delivered| > |c.delivered|)
    decreases |ts|
  {
    hide TakeTurn, Flat;
    if ts != [] {
      var d := TakeTurn(c, ts[0], order);
      SyncedTurn(c, ts[0], order);
      if Synced(d) || d.mode.Broken? {
        NoResyncWithoutDelivery(d, ts[1..], order);
      } else {
        DeliveredGrows(d, ts[1..], order);
      }
    }
  }

  // ------------------------------------------------------- recovery

  /** Searching a plain buffer for a magic word whose prefix is free of zero bytes. */
  lemma MagicFound(first: Buffer, g: nat)
    requires g + MAGIC_SIZE <= |first.data| && ZeroFree(first.data[..g])
    requires FirstOccurrence(first.data, MAGIC, g)
    ensures IndexOf(Cut(first.data), MAGIC) == g
  {
    hide OccursAt, Cut, IndexOf;
    var d := first.data;
    CutCovers(d, MAGIC, g);
    DocumentedExactly(d, MAGIC);
    FirstIsUnique(d, MAGIC, g);
    assert Occurs(d, MAGIC);
  }

  /** One round in resync leaves the stream at the magic word, waiting for its header. */
  lemma ResyncRound(first: Buffer, g: nat, start: seq<Message>, order: ByteOrder)
    requires g + MAGIC_SIZE <= |first.data| && IndexOf(Cut(first.data), MAGIC) == g
    ensures var c := Conn(Resync, View([first], 0), start);
            && Inv(c, order) && Step(c, order) == Conn(WaitHeader, View([first], g), start)
            && Flat(View([first], g)) == first.data[g..] && Flat(c.view) == first.data
  {
    hide Search, Flat, Consume, Skip, Cut, IndexOf;
    var v := View([first], 0);
    OneBuffer(first, 0, g);
    OneBuffer(first, g, 0);
    assert first.data[0..] == first.data;
    SearchCases(v, MAGIC);
  }

  lemma ResyncThenAssemble(first: Buffer, g: nat, start: seq<Message>, order: ByteOrder)
    requires g + MAGIC_SIZE <= |first.data| && IndexOf(Cut(first.data), MAGIC) == g
    ensures WellFormed(View([first], g)) && Flat(View([first], g)) == first.data[g..]
    ensures Inv(Conn(Resync, View([first], 0), start), order)
    ensures Receive(Conn(Resync, View([], 0), start), first, order)
         == Assemble(Conn(Resync, View([first], 0), start), order)
         == Assemble(Conn(WaitHeader, View([first], g), start), order)
  {
    hide Search, Flat, Cut, IndexOf, Step;
    ResyncRound(first, g, start, order);
    var c := Conn(Resync, View([first], 0), start);
    assert Append(View([], 0), first) == View([first], 0);
    StepProgress(c, order);
  }

  /** After the first buffer, a recovered stream is in step with the bytes from the magic word on. */
  lemma ResyncTracks(garbage: seq<Byte>, first: Buffer, start: seq<Message>, order: ByteOrder)
    requires ZeroFree(garbage) && garbage <= first.data && FirstOccurrence(first.data, MAGIC, |garbage|)
    requires Parse(first.data[|garbage|..], order).status.NeedMore?
    ensures Inv(Conn(Resync, View([first], 0), start), order)
    ensures Receive(Conn(Resync, View([], 0), start), first, order)
         == Assemble(Conn(Resync, View([first], 0), start), order)
    ensures Tracks(Receive(Conn(Resync, View([], 0), start), first, order), start, first.data[|garbage|..], order)
  {
    hide Flat, Parse, Tracks, Assemble, DecodeHeader, IndexOf, Cut;
    var g := |garbage|;
    assert first.data[..g] == garbage;
    MagicFound(first, g);
    ResyncThenAssemble(first, g, start, order);
    AssembleParses(Conn(WaitHeader, View([first], g), start), order);
  }

  /**
   * Resync recovers: if a zero-free garbage prefix arrives in the same buffer as the first magic word,
   * and the magic word does not occur before, every later frame is delivered, however the rest is cut.
   */
  lemma ResyncRecovers(garbage: seq<Byte>, first: Buffer, rest: seq<Buffer>, start: seq<Message>,
                       ms: seq<Message>, order: ByteOrder)
    requires (forall m :: m in ms ==> WellFramed(m)) && ZeroFree(garbage)
    requires garbage <= first.data && FirstOccurrence(first.data, MAGIC, |garbage|)
    requires first.data[|garbage|..] + Concat(rest) <= Wire(ms, order)
    ensures Delivers(ReceiveAll(Conn(Resync, View([], 0), start), [first] + rest, order),
                     start, ms, first.data[|garbage|..] + Concat(rest), order)
  {
    hide Parse, Wire, Tracks, Delivers, Receive, ZeroFree, FirstOccurrence;
    var a := first.data[|garbage|..];
    ParseWire(ms, a + Concat(rest), order);
    ParseResumes(a, Concat(rest), order);
    ResyncTracks(garbage, first, start, order);
    var c := Receive(Conn(Resync, View([], 0), start), first, order);
    ReceiveAllTracks(c, start, a, rest, order);
    assert ([first] + rest)[1..] == rest;
    TracksDelivers(ReceiveAll(c, rest, order), start, ms, a + Concat(rest), order);
  }

  // ------------------------------------------------------- the loop as written, in resync

  /** A stream in resync whose first buffer is shorter than the magic word, or with fewer than eight bytes, spins. */
  lemma ResyncSpins(c: Conn, order: ByteOrder)
    requires Inv(c, order) && c.mode.Resync?
    requires |Flat(c.view)| < MAGIC_SIZE || (c.view.bufs != [] && |c.view.bufs[0].data| < MAGIC_SIZE)
    ensures Step(c, order) == c && Assemble(c, order) == c && (Returns(c, order) <==> Flat(c.view) == [])
  {
    hide Flat, Returns;
    SearchCases(c.view, MAGIC);
    SearchMovesOrStays(c.view, MAGIC);
    if |Flat(c.view)| >= MAGIC_SIZE { ShortSearch(c.view); }
    assert Step(c, order) == c;
    SourceLoopEndsExactly(c, order);
  }

  lemma ShortSearch(v: View)
    requires WellFormed(v) && v.bufs != [] && |v.bufs[0].data| < MAGIC_SIZE
    ensures !Search(v, MAGIC).found && Search(v, MAGIC).view == v
  {
  }

  /**
   * A chunk that lets a resync succeed where it should, without a whole buffer dropped on the way: the
   * loop as written returns from it if and only if the unfinished tail of the bytes from the magic word
   * on is empty or holds a whole header.
   */
  lemma ResyncChunkReturnsExactly(c: Conn, order: ByteOrder, h: nat)
    requires Inv(c, order) && c.mode.Resync? && |Flat(c.view)| >= MAGIC_SIZE
    requires FirstSeen(Reach(c.view.bufs, MAGIC_SIZE), MAGIC, h)
    requires c.view.bufs != [] && (c.view.offset == 0 || |c.view.bufs[0].data| <= h)
    requires !DropsHead(c.view, MAGIC)
    requires c.view.offset <= h <= |Concat(c.view.bufs)| && Parse(Concat(c.view.bufs)[h..], order).status.NeedMore?
    ensures Returns(c, order) <==> Whole(|Parse(Concat(c.view.bufs)[h..], order).rest|)
  {
    hide Search, Flat, FirstSeen, Parse, Tracks, Assemble, Returns, SourceLoopEnds, Stuck;
    var d := Step(c, order);
    StepProgress(c, order);
    LandsBehind(c, order, h);
    AssembleMoves(c, order);
    AssembleParses(d, order);
    SourceLoopEndsExactly(c, order);
    TracksEndsExactly(Assemble(d, order), d.delivered, Flat(d.view), order);
  }

  lemma LandsBehind(c: Conn, order: ByteOrder, h: nat)
    requires Inv(c, order) && c.mode.Resync? && |Flat(c.view)| >= MAGIC_SIZE
    requires FirstSeen(Reach(c.view.bufs, MAGIC_SIZE), MAGIC, h)
    requires c.view.bufs != [] && (c.view.offset == 0 || |c.view.bufs[0].data| <= h)
    ensures var d := Step(c, order);
            && Inv(d, order) && d.mode.WaitHeader? && c.view.offset <= h <= |Concat(c.view.bufs)|
            && Flat(d.view) == Concat(c.view.bufs)[h..] && d != c
  {
    hide Search, Flat, FirstSeen, Reach, Seen;
    var v := c.view;
    StepProgress(c, order);
    FirstIsSeenAt(v, h);
    SearchConsumes(v, MAGIC);
    FlatIsTail(v);
    var n := h - v.offset;
    assert Flat(v)[n..] == Concat(v.bufs)[h..];
  }

  lemma FirstIsSeenAt(v: View, h: nat)
    requires WellFormed(v) && v.bufs != [] && FirstSeen(Reach(v.bufs, MAGIC_SIZE), MAGIC, h)
    requires v.offset == 0 || |v.bufs[0].data| <= h
    ensures Search(v, MAGIC).found && Search(v, MAGIC).consumed == h - v.offset
    ensures v.offset <= h && h + MAGIC_SIZE <= |Concat(v.bufs)|
  {
    hide Search, Flat, Reach, Seen;
    Located(v, MAGIC, h);
    SeenOccurs(v.bufs, MAGIC, h);
    FlatIsTail(v);
  }

  // ------------------------------------------------------- a chunk without a magic word

  /** What skipping `n` bytes leaves of one buffer that was read up to `o`. */
  function Skipped(b: Buffer, o: nat, n: nat): View
    requires o < |b.data|
  {
    if n < |b.data| - o then View([b], o + n) else View([], 0)
  }

  lemma SkipOneBuffer(b: Buffer, o: nat, n: nat)
    requires o < |b.data|
    ensures WellFormed(View([b], o)) && Flat(View([b], o)) == b.data[o..] && Skip(View([b], o), n) == Skipped(b, o, n)
  {
    assert [b][1..] == [];
    assert b.data[o..] + [] == b.data[o..];
  }

  /** A failed round in a buffer without a magic word before its first zero byte. */
  lemma MissRound(b: Buffer, o: nat, start: seq<Message>, order: ByteOrder)
    requires !Occurs(Cut(b.data), MAGIC) && o < |b.data| && |b.data| - o >= MAGIC_SIZE
    ensures var c, k := Conn(Resync, View([b], o), start), KeepFrom(b.data, MAGIC, 0);
            && Inv(c, order) && 0 < k <= |b.data| && Step(c, order) == Conn(Resync, Skipped(b, o, k), start)
            && WellFormed(Skipped(b, o, k))
            && (Returns(c, order) <==> Returns(Conn(Resync, Skipped(b, o, k), start), order))
  {
    hide Search, Flat, Skip, Cut, IndexOf, KeepFrom, Returns, Occurs;
    var c, k := Conn(Resync, View([b], o), start), KeepFrom(b.data, MAGIC, 0);
    SkipOneBuffer(b, o, k);
    IndexOfIsFirst(Cut(b.data), MAGIC);
    KeepsLongest(b.data, MAGIC, 0);
    SeesItself(MAGIC);
    assert b.data != MAGIC;
    SearchCases(c.view, MAGIC);
    ReturnsMoves(c, order);
  }

  /** A buffer that is the pattern and nothing else holds it before its first zero byte. */
  lemma SeesItself(p: seq<Byte>)
    requires ZeroFree(p)
    ensures Occurs(Cut(p), p)
  {
    hide Cut;
    CutZeroFree(p);
    assert p[0..|p|] == p && OccursAt(p, p, 0);
  }

  lemma ReturnsMoves(c: Conn, order: ByteOrder)
    requires Inv(c, order) && Flat(c.view) != [] && Step(c, order) != c
    ensures Inv(Step(c, order), order) && (Returns(c, order) <==> Returns(Step(c, order), order))
  {
    hide Step, Returns, SourceLoopEnds, Flat;
    AssembleMoves(c, order);
    SourceLoopEndsExactly(c, order);
    SourceLoopEndsExactly(Step(c, order), order);
  }

  /** With fewer than eight bytes of a buffer left, the loop as written returns exactly if none is. */
  lemma SkippedReturns(b: Buffer, o: nat, n: nat, start: seq<Message>, order: ByteOrder)
    requires o < |b.data| && |b.data| - o - n < MAGIC_SIZE
    ensures Inv(Conn(Resync, Skipped(b, o, n), start), order)
    ensures Returns(Conn(Resync, Skipped(b, o, n), start), order) <==> |b.data| - o <= n
  {
    hide Returns, Flat;
    if n < |b.data| - o {
      SkipOneBuffer(b, o + n, 0);
    } else {
      FlatOfPlain([]);
    }
    ResyncSpins(Conn(Resync, Skipped(b, o, n), start), order);
  }

  /**
   * A stream in resync with eight or more bytes of one buffer, in which no magic word is seen: the loop
   * as written returns if and only if no prefix of the magic word longer than the bytes consumed before
   * ends the buffer, or the buffer is untouched, ends with the magic word, hidden behind a zero byte,
   * and is long enough for the next round to throw that away.
   */
  lemma MissReturnsExactly(b: Buffer, o: nat, start: seq<Message>, order: ByteOrder)
    requires !Occurs(Cut(b.data), MAGIC) && o < |b.data| && |b.data| - o >= MAGIC_SIZE
    ensures Inv(Conn(Resync, View([b], o), start), order)
    ensures Returns(Conn(Resync, View([b], o), start), order)
       <==> (forall m :: o < m <= MAGIC_SIZE ==> !EndsWith(b.data, MAGIC[..m]))
            || (o == 0 && |b.data| >= 16 && EndsWith(b.data, MAGIC))
  {
    hide Returns, Cut, Occurs, KeepFrom, EndsWith;
    var k := KeepFrom(b.data, MAGIC, 0);
    MissRound(b, o, start, order);
    MissKeeps(b, o);
    if |b.data| - o - k < MAGIC_SIZE {
      SkippedReturns(b, o, k, start, order);
    } else {
      MissRound(b, k, start, order);
      SkippedReturns(b, k, k, start, order);
    }
  }

  /** How much of the buffer the failed search keeps, against the prefixes of the magic word that end it. */
  lemma MissKeeps(b: Buffer, o: nat)
    requires !Occurs(Cut(b.data), MAGIC) && o < |b.data| && |b.data| - o >= MAGIC_SIZE
    ensures var k := KeepFrom(b.data, MAGIC, 0);
            && |b.data| - MAGIC_SIZE <= k <= |b.data| && 0 < k
            && ((forall m :: o < m <= MAGIC_SIZE ==> !EndsWith(b.data, MAGIC[..m])) <==> |b.data| - o <= k)
            && (EndsWith(b.data, MAGIC) <==> k == |b.data| - MAGIC_SIZE)
            && (k == |b.data| - MAGIC_SIZE ==> k != 0)
  {
    hide Cut, Occurs, KeepFrom;
    var k := KeepFrom(b.data, MAGIC, 0);
    KeepsLongest(b.data, MAGIC, 0);
    SeesItself(MAGIC);
    assert MAGIC[..MAGIC_SIZE] == MAGIC;
  }

  /** Over zero-free bytes, from the start: exactly if no non-empty proper prefix of the magic word ends the chunk. */
  lemma GarbageReturnsExactly(b: Buffer, start: seq<Message>, order: ByteOrder)
    requires ZeroFree(b.data) && !Occurs(b.data, MAGIC) && |b.data| >= MAGIC_SIZE
    ensures Inv(Conn(Resync, View([b], 0), start), order)
    ensures Returns(Conn(Resync, View([b], 0), start), order)
       <==> forall m :: 0 < m < MAGIC_SIZE ==> !EndsWith(b.data, MAGIC[..m])
  {
    hide Returns, Cut, EndsWith;
    CutZeroFree(b.data);
    MissReturnsExactly(b, 0, start, order);
    WholeMagicAbsent(b.data);
  }

  lemma WholeMagicAbsent(d: seq<Byte>)
    requires !Occurs(d, MAGIC)
    ensures !EndsWith(d, MAGIC) && !EndsWith(d, MAGIC[..MAGIC_SIZE])
  {
    assert MAGIC[..MAGIC_SIZE] == MAGIC;
    if EndsWith(d, MAGIC) {
      assert OccursAt(d, MAGIC, |d| - MAGIC_SIZE);
    }
  }

  /** Eight nines and a C: the C could start a magic word, is kept, and the loop as written never returns. */
  lemma KeptByteNeverReturns(order: ByteOrder)
    ensures var c := Conn(Resync, View([Buffer(1, [9, 9, 9, 9, 9, 9, 9, 9, 67])], 0), []);
            Inv(c, order) && !Returns(c, order)
  {
    hide Returns, Occurs;
    var b := Buffer(1, [9, 9, 9, 9, 9, 9, 9, 9, 67]);
    assert !Occurs(b.data, MAGIC) by {
      forall k ensures !OccursAt(b.data, MAGIC, k) {
        assert 0 <= k <= 1 ==> b.data[k..k + MAGIC_SIZE][0] == 9;
      }
      NoOccurrence(b.data);
    }
    GarbageReturnsExactly(b, [], order);
    assert MAGIC[..1] == [67] && EndsWith(b.data, MAGIC[..1]);
  }

  lemma NoOccurrence(d: seq<Byte>)
    requires forall k :: !OccursAt(d, MAGIC, k)
    ensures !Occurs(d, MAGIC)
  {
  }

  /** A magic word behind a zero byte: it is kept by the first round and cut short by the second. */
  lemma HiddenMagicIsDrained(order: ByteOrder)
    ensures var b := Buffer(1, [0] + MAGIC);
            var c := Conn(Resync, View([b], 0), []);
            && Inv(c, order) && TakeTurns(c, [Round, Round], order) == Conn(Resync, View([b], 2), [])
            && !Returns(c, order)
  {
    hide Returns, Occurs, KeepFrom, EndsWith;
    var b := Buffer(1, [0] + MAGIC);
    var c := Conn(Resync, View([b], 0), []);
    assert Cut(b.data) == [] && !Occurs([], MAGIC) by { NoOccurrence([]); }
    MissKeeps(b, 0);
    assert EndsWith(b.data, MAGIC) by { EndsInMagic(); }
    MissRound(b, 0, [], order);
    MissRound(b, 1, [], order);
    MissReturnsExactly(b, 0, [], order);
    RoundsOf(c, order);
    assert EndsWith(b.data, MAGIC[..MAGIC_SIZE]) by { assert MAGIC[..MAGIC_SIZE] == MAGIC; }
  }

  lemma EndsInMagic()
    ensures EndsWith([0] + MAGIC, MAGIC)
  {
  }

  // ------------------------------------------------------- a displaced resync

  /** No magic word stands at `x`, nor at any multiple of `n` bytes behind it. */
  predicate NoMagicAt(d: seq<Byte>, x: nat, n: nat)
    requires n > 0
    decreases |d| - x
  {
    x + MAGIC_SIZE <= |d| ==> d[x..x + MAGIC_SIZE] != MAGIC && NoMagicAt(d, x + n, n)
  }

  /** A round in resync that hits the magic word at index `h`, with `o` bytes of its buffer consumed. */
  lemma HitRound(b: Buffer, o: nat, h: nat, start: seq<Message>, order: ByteOrder)
    requires FirstOccurrence(Cut(b.data), MAGIC, h) && o < |b.data| && |b.data| - o >= MAGIC_SIZE
    ensures var c, d := Conn(Resync, View([b], o), start), Conn(WaitHeader, Skipped(b, o, h), start);
            && Inv(c, order) && WellFormed(d.view) && Inv(d, order) && Step(c, order) == d
            && (Returns(c, order) <==> Returns(d, order))
  {
    hide Search, Flat, Skip, Cut, IndexOf, KeepFrom, Returns, OccursAt;
    var c := Conn(Resync, View([b], o), start);
    SkipOneBuffer(b, o, h);
    IndexOfIsFirst(Cut(b.data), MAGIC);
    FirstIsUnique(Cut(b.data), MAGIC, h);
    SearchCases(c.view, MAGIC);
    SkipNothing(b, o);
    HitInBuffer(b.data, h);
    assert MAGIC_SIZE <= |b.data|;
    ReturnsMoves(c, order);
  }

  lemma SkipNothing(b: Buffer, o: nat)
    requires o < |b.data|
    ensures Skipped(b, o, 0) == View([b], o)
  {
  }

  lemma HitInBuffer(d: seq<Byte>, h: nat)
    requires OccursAt(Cut(d), MAGIC, h)
    ensures h + MAGIC_SIZE <= |d|
  {
  }

  /** A header that does not fit, or that lacks the magic word. */
  lemma HeaderMissed(b: Buffer, x: nat, start: seq<Message>, order: ByteOrder)
    requires x < |b.data| && !(MAGIC <= b.data[x..])
    ensures var c := Conn(WaitHeader, View([b], x), start);
            && Inv(c, order)
            && if |b.data| - x < HEADER_SIZE then !Returns(c, order)
               else var d := Conn(Resync, Skipped(b, x, HEADER_SIZE), start);
                    WellFormed(d.view) && Inv(d, order) && (Returns(c, order) <==> Returns(d, order))
  {
    hide Flat, Skip, Returns, PeekHeader;
    var c := Conn(WaitHeader, View([b], x), start);
    SkipOneBuffer(b, x, HEADER_SIZE);
    if |b.data| - x < HEADER_SIZE {
      assert Step(c, order) == c;
      SourceLoopEndsExactly(c, order);
    } else {
      HeaderCheck(c, order);
      ReturnsMoves(c, order);
    }
  }

  lemma Remainder(n: nat, m: nat)
    requires m > 0
    ensures n % m == if n < m then n else (n - m) % m
  {
    if n < m {
      ModUnique(n, m, 0, n);
    } else {
      var q, r := (n - m) / m, (n - m) % m;
      Distribute(m, q, 0);
      ModUnique(n, m, q + 1, r);
    }
  }

  /**
   * A search that ignores the offset finds the same magic word, at index `h`, after every bad header, so
   * a displaced stream moves on by `h + 40` bytes at a time. Unless it comes upon a magic word by
   * coincidence, the loop as written returns if and only if that eats up its bytes: their number modulo
   * `h + 40` is 0, or at least eight and no more than `h`.
   */
  lemma {:induction false} DisplacedReturnsExactly(b: Buffer, o: nat, h: nat, start: seq<Message>, order: ByteOrder)
    requires FirstOccurrence(Cut(b.data), MAGIC, h) && o <= |b.data| && b.data != []
    requires NoMagicAt(b.data, o + h, h + HEADER_SIZE)
    ensures WellFormed(Skipped(b, 0, o)) && Inv(Conn(Resync, Skipped(b, 0, o), start), order)
    ensures var r := (|b.data| - o) % (h + HEADER_SIZE);
            Returns(Conn(Resync, Skipped(b, 0, o), start), order) <==> r == 0 || MAGIC_SIZE <= r <= h
    decreases |b.data| - o
  {
    hide Returns, FirstOccurrence, Cut, Flat, Step, Inv, NoMagicAt;
    var n, x, s := |b.data| - o, o + h, h + HEADER_SIZE;
    Remainder(n, s);
    if n < MAGIC_SIZE {
      SkippedReturns(b, 0, o, start, order);
    } else {
      HitRound(b, o, h, start, order);
      if n <= h {
        EmptyReturns(start, order);
      } else {
        NotAtMagic(b.data, x, s);
        HeaderMissed(b, x, start, order);
        if n >= s {
          DisplacedReturnsExactly(b, x + HEADER_SIZE, h, start, order);
        }
      }
    }
  }

  lemma NotAtMagic(d: seq<Byte>, x: nat, n: nat)
    requires x <= |d| && n > 0 && NoMagicAt(d, x, n)
    ensures !(MAGIC <= d[x..]) && NoMagicAt(d, x + n, n)
  {
    if x + MAGIC_SIZE <= |d| { assert d[x..][..MAGIC_SIZE] == d[x..x + MAGIC_SIZE]; }
  }

  /** With no bytes left, the loop as written returns at once. */
  lemma EmptyReturns(start: seq<Message>, order: ByteOrder)
    ensures Inv(Conn(WaitHeader, View([], 0), start), order) && Returns(Conn(WaitHeader, View([], 0), start), order)
  {
    var c := Conn(WaitHeader, View([], 0), start);
    assert SourceLoop(c, 0, order) == c;
  }

  // ------------------------------------------------------- whole runs of the loop as written

  /** How many of the first `n` bytes of the frames `ms` belong to an unfinished one. */
  function Tail(ms: seq<Message>, n: nat): nat {
    if ms == [] || n < ms[0].header.length then n else Tail(ms[1..], n - ms[0].header.length)
  }

  /** After `n` bytes, every further chunk ends with a whole tail. */
  predicate WholeTails(ms: seq<Message>, n: nat, bufs: seq<Buffer>)
    decreases |bufs|
  {
    bufs == [] || (Whole(Tail(ms, n + |bufs[0].data|)) && WholeTails(ms, n + |bufs[0].data|, bufs[1..]))
  }

  lemma {:induction false} UnfinishedLength(ms: seq<Message>, b: seq<Byte>, order: ByteOrder)
    requires (forall m :: m in ms ==> WellFramed(m)) && b <= Wire(ms, order)
    ensures Parse(b, order).status.NeedMore? && |Parse(b, order).rest| == Tail(ms, |b|)
    decreases |ms|
  {
    hide FrameBytes, DecodeHeader, Unfinished;
    ParseWire(ms, b, order);
    if ms != [] && |b| >= HEADER_SIZE {
      FrontFrame(ms[0], b, Wire(ms[1..], order), order);
      if |b| >= ms[0].header.length {
        UnfinishedLength(ms[1..], b[ms[0].header.length..], order);
      }
    }
  }

  /** In step with the frames, the loop as written returns from all chunks exactly if every tail is whole. */
  lemma {:induction false} AllReturnInStep(c: Conn, start: seq<Message>, a: seq<Byte>, bufs: seq<Buffer>,
                                           ms: seq<Message>, order: ByteOrder)
    requires Tracks(c, start, a, order)
    requires (forall m :: m in ms ==> WellFramed(m)) && a + Concat(bufs) <= Wire(ms, order)
    ensures Inv(c, order) && (AllReturn(c, bufs, order) <==> WholeTails(ms, |a|, bufs))
    decreases |bufs|
  {
    hide Tracks, Parse, Receive, Returns, Wire, Tail;
    TracksInv(c, start, a, order);
    if bufs != [] {
      var a', rest := a + bufs[0].data, Concat(bufs[1..]);
      assert a + Concat(bufs) == a' + rest;
      PrefixOfPrefix(a', rest, Wire(ms, order));
      UnfinishedLength(ms, a', order);
      ChunkReturnsExactly(c, start, a, bufs[0], order);
      ReceiveTracks(c, start, a, bufs[0], order);
      AllReturnInStep(Receive(c, bufs[0], order), start, a', bufs[1..], ms, order);
    }
  }

  lemma PrefixOfPrefix(a: seq<Byte>, b: seq<Byte>, w: seq<Byte>)
    requires a + b <= w
    ensures a <= w
  {
    assert w[..|a|] == (a + b)[..|a|];
  }

  /**
   * The loop as written, on a stream that recovers in its first buffer: it returns from every chunk if
   * and only if after each of them the tail of the bytes from the magic word on is whole.
   */
  lemma RecoveryReturnsExactly(garbage: seq<Byte>, first: Buffer, rest: seq<Buffer>, start: seq<Message>,
                               ms: seq<Message>, order: ByteOrder)
    requires (forall m :: m in ms ==> WellFramed(m)) && ZeroFree(garbage)
    requires garbage <= first.data && FirstOccurrence(first.data, MAGIC, |garbage|)
    requires first.data[|garbage|..] + Concat(rest) <= Wire(ms, order)
    ensures AllReturn(Conn(Resync, View([], 0), start), [first] + rest, order)
       <==> WholeTails(ms, 0, [Buffer(first.handle, first.data[|garbage|..])] + rest)
  {
    hide Parse, Wire, Tracks, Receive, Returns, ZeroFree, FirstOccurrence, Tail, Assemble, SourceLoopEnds, Stuck;
    var a, c := first.data[|garbage|..], Conn(Resync, View([], 0), start);
    PrefixOfPrefix(a, Concat(rest), Wire(ms, order));
    UnfinishedLength(ms, a, order);
    ResyncTracks(garbage, first, start, order);
    var d := Conn(Resync, View([first], 0), start);
    assert c.(view := Append(c.view, first)) == d by { assert [] + [first] == [first]; }
    SourceLoopEndsExactly(d, order);
    TracksEndsExactly(Receive(c, first, order), start, a, order);
    AllReturnInStep(Receive(c, first, order), start, a, rest, ms, order);
    assert ([first] + rest)[1..] == rest && ([Buffer(first.handle, a)] + rest)[1..] == rest;
  }

  // ------------------------------------------------------- a fresh connection

  /** With fewer than eight bytes in its first buffer, a stream in resync never gets anywhere. */
  lemma {:induction false} ShortHeadNeverSyncs(c: Conn, bufs: seq<Buffer>, order: ByteOrder)
    requires c.mode.Resync? && c.view.bufs != [] && c.view.offset == 0 && |c.view.bufs[0].data| < MAGIC_SIZE
    ensures Inv(c, order) && ReceiveAll(c, bufs, order).delivered == c.delivered
    ensures ReceiveAll(c, bufs, order).mode.Resync?
    ensures AllReturn(c, bufs, order) <==> bufs == [] || Concat(c.view.bufs + bufs) == []
    decreases |bufs|
  {
    hide Flat, Returns;
    if bufs != [] {
      var d := c.(view := Append(c.view, bufs[0]));
      assert d.view.bufs[0] == c.view.bufs[0];
      ResyncSpins(d, order);
      FlatOfPlain(d.view.bufs);
      ShortHeadNeverSyncs(d, bufs[1..], order);
      assert d.view.bufs + bufs[1..] == c.view.bufs + bufs;
      ConcatAppend(d.view.bufs, bufs[1..]);
      assert bufs[1..] == [] ==> d.view.bufs == c.view.bufs + bufs;
    }
  }

  lemma WireStartsWithMagic(ms: seq<Message>, b: seq<Byte>, order: ByteOrder)
    requires (forall m :: m in ms ==> WellFramed(m)) && b <= Wire(ms, order) && |b| >= MAGIC_SIZE
    ensures FirstOccurrence(b, MAGIC, 0)
  {
    assert ms != [] && ms[0] in ms;
    var w := Wire(ms, order);
    assert w[..MAGIC_SIZE] == HeaderBytes(ms[0].header, order)[..MAGIC_SIZE] == MAGIC;
    assert b[0..MAGIC_SIZE] == w[..MAGIC_SIZE];
  }

  lemma FreshStaysPut(first: Buffer, order: ByteOrder)
    requires |first.data| < MAGIC_SIZE
    ensures Receive(Conn(Resync, View([], 0), []), first, order) == Conn(Resync, View([first], 0), [])
    ensures AllReturn(Conn(Resync, View([], 0), []), [first], order) <==> first.data == []
  {
    hide Flat, Returns;
    var c := Conn(Resync, View([first], 0), []);
    assert Append(View([], 0), first) == View([first], 0);
    FlatOfPlain([first]);
    ConcatOne(first);
    ResyncSpins(c, order);
    assert [first][1..] == [];
  }

  /**
   * Accepting a connection puts its stream into resync. If that reset left offset 0, as it does unless
   * the connection before it ended in the middle of a buffer, then on a well-formed byte stream, cut into
   * any buffers of which at least one frame is complete, the loop of the model delivers the complete
   * frames if and only if the very first buffer holds the eight bytes of the magic word. For any offset
   * and the loop as written, see ReusedConnectionExactly in AsWritten.dfy.
   */
  lemma FreshConnectionDeliversExactly(ms: seq<Message>, first: Buffer, rest: seq<Buffer>, order: ByteOrder)
    requires (forall m :: m in ms ==> WellFramed(m)) && first.data + Concat(rest) <= Wire(ms, order)
    requires Complete(ms, |first.data + Concat(rest)|) > 0
    ensures Delivers(ReceiveAll(Conn(Resync, View([], 0), []), [first] + rest, order),
                     [], ms, first.data + Concat(rest), order)
       <==> |first.data| >= MAGIC_SIZE
  {
    hide Wire, Parse, Assemble, DecodeHeader, Search, Unfinished;
    if |first.data| >= MAGIC_SIZE {
      PrefixOfPrefix(first.data, Concat(rest), Wire(ms, order));
      WireStartsWithMagic(ms, first.data, order);
      assert first.data[0..] == first.data;
      ResyncRecovers([], first, rest, [], ms, order);
    } else {
      FreshStaysPut(first, order);
      var c := Conn(Resync, View([first], 0), []);
      assert ([first] + rest)[1..] == rest;
      ShortHeadNeverSyncs(c, rest, order);
    }
  }

  /**
   * The same for the loop as written, which may never return and so never take the next chunk: on a
   * newly accepted connection whose reset left offset 0, it returns from every chunk if and only if every
   * chunk ends with a whole tail and the first buffer is not empty, unless all are; and then it delivers
   * the complete frames.
   */
  lemma FreshConnectionReturnsExactly(ms: seq<Message>, first: Buffer, rest: seq<Buffer>, order: ByteOrder)
    requires (forall m :: m in ms ==> WellFramed(m)) && first.data + Concat(rest) <= Wire(ms, order)
    ensures var c, bufs := Conn(Resync, View([], 0), []), [first] + rest;
            && (AllReturn(c, bufs, order) <==> WholeTails(ms, 0, bufs) && (first.data != [] || Concat(rest) == []))
            && (AllReturn(c, bufs, order) ==>
                  Delivers(ReceiveAll(c, bufs, order), [], ms, first.data + Concat(rest), order))
  {
    hide Wire, Parse, Assemble, Returns, Delivers, Tail, FirstOccurrence;
    PrefixOfPrefix(first.data, Concat(rest), Wire(ms, order));
    if |first.data| >= MAGIC_SIZE {
      WireStartsWithMagic(ms, first.data, order);
      assert first.data[0..] == first.data;
      assert Buffer(first.handle, first.data[0..]) == first;
      RecoveryReturnsExactly([], first, rest, [], ms, order);
      ResyncRecovers([], first, rest, [], ms, order);
    } else {
      ShortFirstBuffer(ms, first, rest, order);
    }
  }

  lemma ShortFirstBuffer(ms: seq<Message>, first: Buffer, rest: seq<Buffer>, order: ByteOrder)
    requires (forall m :: m in ms ==> WellFramed(m)) && first.data + Concat(rest) <= Wire(ms, order)
    requires |first.data| < MAGIC_SIZE
    ensures var c, bufs := Conn(Resync, View([], 0), []), [first] + rest;
            && (AllReturn(c, bufs, order) <==> WholeTails(ms, 0, bufs) && (first.data != [] || Concat(rest) == []))
            && (AllReturn(c, bufs, order) ==>
                  Delivers(ReceiveAll(c, bufs, order), [], ms, first.data + Concat(rest), order))
  {
    hide Wire, Returns, Receive;
    var c, d := Conn(Resync, View([], 0), []), Conn(Resync, View([first], 0), []);
    FreshStaysPut(first, order);
    ShortHeadNeverSyncs(d, rest, order);
    assert ([first] + rest)[1..] == rest && ([first] + rest)[0] == first;
    assert [first][1..] == [];
    ShortTail(ms, |first.data|);
    ConcatHead([first] + rest, first, rest);
    if first.data == [] && Concat(rest) == [] {
      NothingArrives(ms, rest);
      NothingDelivered(d, rest, ms, order);
    }
  }

  lemma ShortTail(ms: seq<Message>, n: nat)
    requires (forall m :: m in ms ==> WellFramed(m)) && n < HEADER_SIZE
    ensures Tail(ms, n) == n
  {
    if ms != [] { assert ms[0] in ms; }
  }

  lemma {:induction false} NothingArrives(ms: seq<Message>, bufs: seq<Buffer>)
    requires (forall m :: m in ms ==> WellFramed(m)) && Concat(bufs) == []
    ensures WholeTails(ms, 0, bufs)
  {
    ShortTail(ms, 0);
    if bufs != [] {
      NothingArrives(ms, bufs[1..]);
    }
  }

  lemma {:induction false} NothingDelivered(c: Conn, bufs: seq<Buffer>, ms: seq<Message>, order: ByteOrder)
    requires c.mode.Resync? && c.view.offset == 0 && Concat(c.view.bufs) == [] && c.delivered == []
    requires Concat(bufs) == []
    requires forall m :: m in ms ==> WellFramed(m)
    ensures Inv(c, order) && Delivers(ReceiveAll(c, bufs, order), [], ms, [], order)
    decreases |bufs|
  {
    hide Returns;
    FlatOfPlain(c.view.bufs);
    if bufs == [] {
      NoneComplete(ms, [], order);
      assert ms[..0] == [];
    } else {
      var d := c.(view := Append(c.view, bufs[0]));
      ConcatAppend(c.view.bufs, [bufs[0]]);
      ConcatOne(bufs[0]);
      FlatOfPlain(d.view.bufs);
      ResyncSpins(d, order);
      NothingDelivered(d, bufs[1..], ms, order);
    }
  }

  /** A message with one byte of payload. */
  const SMALL: Message := Message(NewHeader(41, 0, 0, 0, 0), [1])

  function SmallFrame(order: ByteOrder): (b: seq<Byte>)
    ensures |b| == 41
  {
    FrameBytes(SMALL, order)
  }

  lemma SmallWire(order: ByteOrder)
    ensures WellFramed(SMALL) && Wire([SMALL], order) == SmallFrame(order)
  {
    hide FrameBytes;
    assert [SMALL][1..] == [];
    assert FrameBytes(SMALL, order) + [] == FrameBytes(SMALL, order);
  }

  /** A frame cut behind its fourth byte is lost, and the loop as written does not even take the rest. */
  lemma ShortFirstBufferLosesFrame(order: ByteOrder)
    ensures var bytes := SmallFrame(order);
            var c, bufs := Conn(Resync, View([], 0), []), [Buffer(1, bytes[..4]), Buffer(2, bytes[4..])];
            ReceiveAll(c, bufs, order).delivered == [] && !AllReturn(c, bufs, order)
  {
    hide SmallFrame, Receive, Returns, Wire;
    SmallWire(order);
    var bytes := SmallFrame(order);
    var first, second := Buffer(1, bytes[..4]), Buffer(2, bytes[4..]);
    assert [first] + [second] == [first, second] && [first, second][1..] == [second];
    ConcatOne(second);
    assert first.data + Concat([second]) == bytes;
    FreshStaysPut(first, order);
    ShortHeadNeverSyncs(Conn(Resync, View([first], 0), []), [second], order);
    FreshConnectionReturnsExactly([SMALL], first, [second], order);
    ShortTail([SMALL], 4);
  }

  /** Behind the magic word alone, the loop as written waits for the header without ever returning. */
  lemma MagicAloneNeverReturns(order: ByteOrder)
    ensures var c := Conn(Resync, View([Buffer(1, MAGIC)], 0), []);
            Inv(c, order) && !Returns(c, order)
  {
    hide Returns, Flat, Search, Cut, IndexOf, DecodeHeader, PeekHeader;
    var b := Buffer(1, MAGIC);
    CutZeroFree(MAGIC);
    assert OccursAt(MAGIC, MAGIC, 0);
    IndexOfIsFirst(MAGIC, MAGIC);
    ResyncThenAssemble(b, 0, [], order);
    assert Step(Conn(WaitHeader, View([b], 0), []), order) == Conn(WaitHeader, View([b], 0), []);
    SourceLoopEndsExactly(Conn(Resync, View([b], 0), []), order);
  }
}
