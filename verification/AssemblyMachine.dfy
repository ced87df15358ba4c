/**
 * The framing state machine of one connection (src/msg/msg_assembler.cpp), one function per handler.
 * The class in MsgAssembler.dfy is proved equal to it.
 */
module AssemblyMachine {
  import opened Bytes
  import opened PatternSearch
  import opened SegmentedView
  import opened MsgHeaders

  datatype Message = Message(header: MsgHeader, payload: seq<Byte>)

  /**
   * `Broken` stands for the two inputs on which the source leaves its own memory: a length below the
   * header size, and an empty payload with no buffer behind the header.
   */
  datatype Mode = WaitHeader | WaitBody(header: MsgHeader) | Resync | Broken

  datatype Conn = Conn(mode: Mode, view: View, delivered: seq<Message>)

  /** While the body is awaited, the stored header is the one at the front of the stream. */
  predicate Inv(c: Conn, order: ByteOrder) {
    && WellFormed(c.view)
    && (c.mode.WaitBody? ==>
        |Flat(c.view)| >= HEADER_SIZE && IsValid(c.mode.header)
        && c.mode.header == DecodeHeader(Flat(c.view)[..HEADER_SIZE], order))
  }

  function StepHeader(c: Conn, order: ByteOrder): Conn
    requires Inv(c, order) && c.mode.WaitHeader?
  {
    if |Flat(c.view)| < HEADER_SIZE then c
    else
      FlatNonEmpty(c.view);
      var h := PeekHeader(Flat(c.view)[..HEADER_SIZE], order);
      if IsValid(h) then c.(mode := WaitBody(h))
      else c.(mode := Resync, view := Skip(c.view, HEADER_SIZE))
  }

  function StepBody(c: Conn, order: ByteOrder): Conn
    requires Inv(c, order) && c.mode.WaitBody?
  {
    FlatNonEmpty(c.view);
    var length := c.mode.header.length;
    if |Flat(c.view)| < length then c
    else if length < HEADER_SIZE then c.(mode := Broken)
    else
      FlatConsume(c.view, HEADER_SIZE);
      var body := Consume(c.view, HEADER_SIZE);
      if body.bufs == [] then c.(mode := Broken, view := body)
      else
        var payload := Flat(body)[..length - HEADER_SIZE];
        Conn(WaitHeader, Consume(body, length - HEADER_SIZE), c.delivered + [Message(c.mode.header, payload)])
  }

  function StepResync(c: Conn, order: ByteOrder): Conn
    requires Inv(c, order) && c.mode.Resync?
  {
    if |Flat(c.view)| < MAGIC_SIZE then c
    else
      var r := Search(c.view, MAGIC);
      if r.found then c.(mode := WaitHeader, view := r.view) else c.(view := r.view)
  }

  /** One round of the assembly loop. */
  function Step(c: Conn, order: ByteOrder): Conn
    requires Inv(c, order)
  {
    match c.mode
    case WaitHeader => StepHeader(c, order)
    case WaitBody(_) => StepBody(c, order)
    case Resync => StepResync(c, order)
    case Broken => c
  }

  function Rank(m: Mode): nat {
    match m
    case Resync => 3
    case WaitHeader => 2
    case WaitBody(_) => 1
    case Broken => 0
  }

  /** Skipping nothing changes nothing, and skipping anything shortens the stream. */
  lemma SkipMoves(v: View, n: nat)
    requires WellFormed(v) && v.bufs != [] && v.bufs[0].data != []
    ensures |Flat(Skip(v, n))| <= |Flat(v)| && if n == 0 then Skip(v, n) == v else |Flat(Skip(v, n))| < |Flat(v)|
  {
    hide Flat, Consume;
    FlatSplit(v);
    ConsumeCases(v, Min(|Flat(v)|, n));
    FlatConsume(v, Min(|Flat(v)|, n));
  }

  /** A search that drops nothing leaves the stream as it was. */
  lemma SearchMovesOrStays(v: View, p: seq<Byte>)
    requires WellFormed(v) && p != []
    ensures var r := Search(v, p);
            |Flat(r.view)| <= |Flat(v)| && (|Flat(r.view)| == |Flat(v)| ==> r.view == v)
  {
    hide Search, Flat, Skip, SearchBorder, KeepFrom, IndexOf, Cut, SearchContinues;
    SearchCases(v, p);
    if v.bufs != [] && |p| <= |v.bufs[0].data| {
      var b := v.bufs[0].data;
      var hit := IndexOf(Cut(b), p);
      if hit >= 0 {
        SkipMoves(v, hit);
      } else if |v.bufs| == 1 {
        SkipMoves(v, KeepFrom(b, p, 0));
      } else {
        match SearchBorder(b, v.bufs[1].data, p, 0)
        case Match(o) => SkipMoves(v, o);
        case TooShort(o) => SkipMoves(v, o);
        case NoMatch =>
          var rest := View(v.bufs[1..], 0);
          SearchContinuesAt(v, p, rest, |b| - v.offset);
          SearchShortens(rest, p);
          FlatSplit(v);
      }
    }
  }

  lemma SearchShortens(v: View, p: seq<Byte>)
    requires WellFormed(v)
    ensures |Flat(Search(v, p).view)| <= |Flat(v)|
  {
    hide Search, Flat;
    SearchConsumes(v, p);
  }

  /** From `c` to `d` nothing delivered is lost, and any change moves down a well-founded order. */
  ghost predicate Progresses(c: Conn, d: Conn, order: ByteOrder)
    requires WellFormed(c.view)
  {
    && Inv(d, order) && c.delivered <= d.delivered
    && |Flat(d.view)| <= |Flat(c.view)|
    && (d != c ==> |Flat(d.view)| < |Flat(c.view)| || Rank(d.mode) < Rank(c.mode))
  }

  lemma HeaderProgress(c: Conn, order: ByteOrder)
    requires Inv(c, order) && c.mode.WaitHeader?
    ensures Progresses(c, StepHeader(c, order), order)
  {
    hide Consume, Flat, DecodeHeader, PeekHeader;
    if |Flat(c.view)| >= HEADER_SIZE {
      FlatNonEmpty(c.view);
      DecodersAgree(Flat(c.view)[..HEADER_SIZE], order);
      FlatConsume(c.view, HEADER_SIZE);
    }
  }

  lemma BodyProgress(c: Conn, order: ByteOrder)
    requires Inv(c, order) && c.mode.WaitBody?
    ensures Progresses(c, StepBody(c, order), order)
  {
    hide Consume, Flat, DecodeHeader;
    FlatNonEmpty(c.view);
    var length := c.mode.header.length;
    if HEADER_SIZE <= length <= |Flat(c.view)| {
      FlatConsume(c.view, HEADER_SIZE);
      var body := Consume(c.view, HEADER_SIZE);
      if body.bufs != [] {
        FlatConsume(body, length - HEADER_SIZE);
      }
    }
  }

  /** Every round keeps the invariant, and a round that changes anything moves down a well-founded order. */
  lemma StepProgress(c: Conn, order: ByteOrder)
    requires Inv(c, order)
    ensures Progresses(c, Step(c, order), order)
    ensures var d := Step(c, order);
            && Inv(d, order) && c.delivered <= d.delivered
            && |Flat(d.view)| <= |Flat(c.view)|
            && (d != c ==> |Flat(d.view)| < |Flat(c.view)| || Rank(d.mode) < Rank(c.mode))
  {
    hide Search, Flat, StepHeader, StepBody;
    match c.mode
    case WaitHeader => HeaderProgress(c, order);
    case WaitBody(_) => BodyProgress(c, order);
    case Resync => SearchMovesOrStays(c.view, MAGIC);
    case Broken =>
  }

  /** Nothing left to do: the stream is empty or a further round would change nothing. */
  predicate Stuck(c: Conn, order: ByteOrder)
    requires Inv(c, order)
  {
    Flat(c.view) == [] || Step(c, order) == c
  }

  lemma BrokenStays(c: Conn, order: ByteOrder)
    requires Inv(c, order) && c.mode.Broken?
    ensures Step(c, order) == c && Stuck(c, order)
  {
  }

  /** The assembly loop: rounds until stuck. */
  function Assemble(c: Conn, order: ByteOrder): (r: Conn)
    requires Inv(c, order)
    ensures Inv(r, order) && Stuck(r, order) && c.delivered <= r.delivered
    decreases |Flat(c.view)|, Rank(c.mode)
  {
    StepProgress(c, order);
    if Stuck(c, order) then c else Assemble(Step(c, order), order)
  }

  lemma AppendKeepsInv(c: Conn, b: Buffer, order: ByteOrder)
    requires Inv(c, order)
    ensures Inv(c.(view := Append(c.view, b)), order)
  {
    FlatAppend(c.view, b);
    assert c.mode.WaitBody? ==> (Flat(c.view) + b.data)[..HEADER_SIZE] == Flat(c.view)[..HEADER_SIZE];
  }

  /** `onBytesReceived`. */
  function Receive(c: Conn, b: Buffer, order: ByteOrder): (r: Conn)
    requires Inv(c, order)
    ensures Inv(r, order) && Stuck(r, order)
  {
    AppendKeepsInv(c, b, order);
    Assemble(c.(view := Append(c.view, b)), order)
  }

  function ReceiveAll(c: Conn, bufs: seq<Buffer>, order: ByteOrder): (r: Conn)
    requires Inv(c, order)
    ensures Inv(r, order)
    decreases |bufs|
  {
    if bufs == [] then c else ReceiveAll(Receive(c, bufs[0], order), bufs[1..], order)
  }

  // ------------------------------------------------------- the source's own loop

  /**
   * The source leaves its loop only when the stream is empty or when `onWaitBody` reports that the
   * body is not complete; the other handlers never clear `continueAssembly`. The size the source keeps
   * is taken to be exact here; AsWritten.dfy models it as it is and shows where that is so.
   */
  predicate SourceLoopEnds(c: Conn, order: ByteOrder)
    requires Inv(c, order)
  {
    !c.mode.Broken? && (Flat(c.view) == [] || (c.mode.WaitBody? && Step(c, order) == c))
  }

  /** The state after `n` rounds of the loop as written. */
  ghost function SourceLoop(c: Conn, n: nat, order: ByteOrder): (r: Conn)
    requires Inv(c, order)
    ensures Inv(r, order)
    decreases n
  {
    if n == 0 || SourceLoopEnds(c, order) then c
    else
      StepProgress(c, order);
      SourceLoop(Step(c, order), n - 1, order)
  }

  /** The loop as written comes to an end from this state. */
  ghost predicate Returns(c: Conn, order: ByteOrder)
    requires Inv(c, order)
  {
    exists n: nat :: SourceLoopEnds(SourceLoop(c, n, order), order)
  }

  /** A state with nothing left to do never changes again, whether the loop as written notices or not. */
  lemma {:induction false} SpinsForever(c: Conn, n: nat, order: ByteOrder)
    requires Inv(c, order) && Stuck(c, order)
    ensures SourceLoop(c, n, order) == c
    decreases n
  {
    if n > 0 && !SourceLoopEnds(c, order) {
      SpinsForever(c, n - 1, order);
    }
  }

  /**
   * Whether it ends or not, the source's loop, as long as its size is exact, settles in the state the
   * assembly loop of the model returns: after some round it is in that state for ever.
   */
  lemma {:induction false} SourceLoopSettles(c: Conn, order: ByteOrder) returns (n: nat)
    requires Inv(c, order)
    ensures forall m: nat :: n <= m ==> SourceLoop(c, m, order) == Assemble(c, order)
    decreases |Flat(c.view)|, Rank(c.mode)
  {
    hide Flat, Step;
    if Stuck(c, order) {
      n := 0;
      forall m: nat ensures SourceLoop(c, m, order) == c {
        SpinsForever(c, m, order);
      }
    } else {
      StepProgress(c, order);
      var d := Step(c, order);
      n := SourceLoopSettles(d, order);
      n := n + 1;
      forall m: nat | n <= m ensures SourceLoop(c, m, order) == Assemble(c, order) {
        assert SourceLoop(c, m, order) == SourceLoop(d, m - 1, order);
      }
    }
  }

  /**
   * The loop as written ends if and only if the state it settles in is empty or waits for a body.
   * Settling in a partial header or a failed search, it spins without changing anything.
   */
  lemma SourceLoopEndsExactly(c: Conn, order: ByteOrder)
    requires Inv(c, order)
    ensures Returns(c, order) <==> SourceLoopEnds(Assemble(c, order), order)
  {
    hide Step, Assemble;
    var n := SourceLoopSettles(c, order);
    if m: nat :| SourceLoopEnds(SourceLoop(c, m, order), order) {
      StaysEnded(c, m, n, order);
    }
    assert SourceLoop(c, n, order) == Assemble(c, order);
  }

  /** Once the loop has ended, further rounds are not run. */
  lemma {:induction false} StaysEnded(c: Conn, m: nat, k: nat, order: ByteOrder)
    requires Inv(c, order) && SourceLoopEnds(SourceLoop(c, m, order), order)
    ensures SourceLoop(c, m + k, order) == SourceLoop(c, m, order)
    decreases m
  {
    hide Step;
    if m > 0 && !SourceLoopEnds(c, order) {
      StepProgress(c, order);
      StaysEnded(Step(c, order), m - 1, k, order);
    }
  }

  /** Every chunk of a run is taken and its loop returns; each one settles in the state of the model's loop. */
  ghost predicate AllReturn(c: Conn, bufs: seq<Buffer>, order: ByteOrder)
    requires Inv(c, order)
    decreases |bufs|
  {
    bufs == [] ||
    (AppendKeepsInv(c, bufs[0], order);
     Returns(c.(view := Append(c.view, bufs[0])), order) && AllReturn(Receive(c, bufs[0], order), bufs[1..], order))
  }

  // ------------------------------------------------------- single rounds

  /** What happens to a stream: a buffer arrives, or a round of the loop is run. */
  datatype Turn = Arrive(buffer: Buffer) | Round

  function TakeTurn(c: Conn, t: Turn, order: ByteOrder): (d: Conn)
    requires Inv(c, order)
    ensures Inv(d, order)
  {
    match t
    case Arrive(b) => AppendKeepsInv(c, b, order); c.(view := Append(c.view, b))
    case Round => StepProgress(c, order); Step(c, order)
  }

  function TakeTurns(c: Conn, ts: seq<Turn>, order: ByteOrder): (d: Conn)
    requires Inv(c, order)
    ensures Inv(d, order)
    decreases |ts|
  {
    if ts == [] then c else TakeTurns(TakeTurn(c, ts[0], order), ts[1..], order)
  }

  /** The loop as written is at any time so many rounds. */
  lemma {:induction false} LoopIsRounds(c: Conn, n: nat, order: ByteOrder) returns (ts: seq<Turn>)
    requires Inv(c, order)
    ensures (forall t :: t in ts ==> t.Round?) && TakeTurns(c, ts, order) == SourceLoop(c, n, order)
    decreases n
  {
    hide Step;
    ts := [];
    if n > 0 && !SourceLoopEnds(c, order) {
      StepProgress(c, order);
      ts := LoopIsRounds(Step(c, order), n - 1, order);
      assert ([Round] + ts)[1..] == ts;
      ts := [Round] + ts;
    }
  }
}
