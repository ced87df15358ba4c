/** What the assembler delivers, over every way of cutting the incoming bytes into buffers. */
module Delivery {
  import opened Bytes
  import opened SegmentedView
  import opened MsgHeaders
  import opened AssemblyMachine

  // ------------------------------------------------------- reference: parsing the flat bytes

  datatype Status = NeedMore | BadMagic | BadLength

  datatype Parsed = Parsed(messages: seq<Message>, rest: seq<Byte>, status: Status)

  /** The messages in a flat byte string, up to an unfinished one or one outside the protocol. */
  function Parse(b: seq<Byte>, order: ByteOrder): (p: Parsed)
    decreases |b|
  {
    if |b| < HEADER_SIZE then Parsed([], b, NeedMore)
    else
      var h := DecodeHeader(b[..HEADER_SIZE], order);
      if !IsValid(h) then Parsed([], b, BadMagic)
      else if |b| < h.length then Parsed([], b, NeedMore)
      else if h.length <= HEADER_SIZE then Parsed([], b, BadLength)
      else
        var p := Parse(b[h.length..], order);
        p.(messages := [Message(h, b[HEADER_SIZE..h.length])] + p.messages)
  }

  lemma FrontOfBoth(a: seq<Byte>, b: seq<Byte>, n: nat)
    requires n <= |a|
    ensures (a + b)[..n] == a[..n] && (a + b)[n..] == a[n..] + b
    ensures HEADER_SIZE <= n ==> (a + b)[HEADER_SIZE..n] == a[HEADER_SIZE..n]
  {
  }

  /** A complete message at the front of a byte string. */
  predicate Starts(b: seq<Byte>, h: MsgHeader, order: ByteOrder) {
    |b| >= HEADER_SIZE && DecodeHeader(b[..HEADER_SIZE], order) == h && IsValid(h) && HEADER_SIZE < h.length <= |b|
  }

  lemma ParseOne(b: seq<Byte>, h: MsgHeader, order: ByteOrder)
    requires Starts(b, h, order)
    ensures var p := Parse(b[h.length..], order);
            Parse(b, order) == p.(messages := [Message(h, b[HEADER_SIZE..h.length])] + p.messages)
  {
    hide DecodeHeader, IsValid;
  }

  lemma StillStarts(a: seq<Byte>, b: seq<Byte>, h: MsgHeader, order: ByteOrder)
    ensures Starts(a, h, order) ==> Starts(a + b, h, order)
  {
    hide DecodeHeader, IsValid;
    if |a| >= HEADER_SIZE { FrontOfBoth(a, b, HEADER_SIZE); }
  }

  /** A front of bytes that parse is no further from a message than the bytes themselves. */
  lemma FrontNeedsMore(a: seq<Byte>, b: seq<Byte>, order: ByteOrder)
    requires Parse(a + b, order).status.NeedMore? && forall h :: !Starts(a, h, order)
    ensures Parse(a, order) == Parsed([], a, NeedMore)
  {
    hide DecodeHeader, IsValid;
    if |a| >= HEADER_SIZE {
      FrontOfBoth(a, b, HEADER_SIZE);
      assert !Starts(a, DecodeHeader(a[..HEADER_SIZE], order), order);
    }
  }

  /** Parsing can be resumed: the messages of `a + b` are those of `a`, then those of its rest with `b`. */
  lemma {:induction false} ParseResumes(a: seq<Byte>, b: seq<Byte>, order: ByteOrder)
    requires Parse(a + b, order).status.NeedMore?
    ensures var p := Parse(a, order);
            && p.status.NeedMore?
            && Parse(a + b, order).messages == p.messages + Parse(p.rest + b, order).messages
            && Parse(a + b, order).rest == Parse(p.rest + b, order).rest
            && Parse(p.rest + b, order).status.NeedMore?
    decreases |a|
  {
    hide Parse, DecodeHeader, IsValid;
    if h :| Starts(a, h, order) {
      StillStarts(a, b, h, order);
      ParseOne(a, h, order);
      ParseOne(a + b, h, order);
      FrontOfBoth(a, b, h.length);
      ParseResumes(a[h.length..], b, order);
      var p, q := Parse(a[h.length..], order), Parse(Parse(a, order).rest + b, order);
      var m := [Message(h, a[HEADER_SIZE..h.length])];
      assert (m + p.messages) + q.messages == m + (p.messages + q.messages);
    } else {
      FrontNeedsMore(a, b, order);
    }
  }

  /** The connection has handled the bytes `a`: it delivered their messages and holds their rest. */
  ghost predicate Tracks(c: Conn, start: seq<Message>, a: seq<Byte>, order: ByteOrder) {
    var p := Parse(a, order);
    && Inv(c, order) && p.status.NeedMore?
    && c.delivered == start + p.messages && Flat(c.view) == p.rest
    && if |p.rest| < HEADER_SIZE then c.mode.WaitHeader? else c.mode.WaitBody?
  }

  // ------------------------------------------------------- the loop against the parser

  lemma WaitingForMore(c: Conn, order: ByteOrder)
    requires Inv(c, order) && (c.mode.WaitHeader? || c.mode.WaitBody?)
    requires Parse(Flat(c.view), order).messages == [] && Parse(Flat(c.view), order).status.NeedMore?
    ensures var r := Assemble(c, order);
            r.delivered == c.delivered && r.view == c.view
            && if |Flat(c.view)| < HEADER_SIZE then r.mode.WaitHeader? else r.mode.WaitBody?
  {
    hide Flat, DecodeHeader, PeekHeader, Search, Consume;
    if |Flat(c.view)| >= HEADER_SIZE {
      DecodesAlike(c, order);
    }
    if c.mode.WaitHeader? && |Flat(c.view)| >= HEADER_SIZE {
      StepProgress(c, order);
      var d := Step(c, order);
      assert d.mode.WaitBody? && d.view == c.view && Step(d, order) == d;
    }
  }

  lemma DecodesAlike(c: Conn, order: ByteOrder)
    requires Inv(c, order) && |Flat(c.view)| >= HEADER_SIZE
    ensures PeekHeader(Flat(c.view)[..HEADER_SIZE], order) == DecodeHeader(Flat(c.view)[..HEADER_SIZE], order)
  {
    DecodersAgree(Flat(c.view)[..HEADER_SIZE], order);
  }

  /** A complete frame at the front of the stream is delivered by at most two rounds. */
  lemma DeliversOne(c: Conn, order: ByteOrder) returns (d: Conn)
    requires Inv(c, order) && (c.mode.WaitHeader? || c.mode.WaitBody?)
    requires |Flat(c.view)| >= HEADER_SIZE
    requires var h := DecodeHeader(Flat(c.view)[..HEADER_SIZE], order);
             IsValid(h) && HEADER_SIZE < h.length <= |Flat(c.view)|
    ensures var h, b := DecodeHeader(Flat(c.view)[..HEADER_SIZE], order), Flat(c.view);
            && Inv(d, order) && d.mode.WaitHeader?
            && d.delivered == c.delivered + [Message(h, b[HEADER_SIZE..h.length])]
            && Flat(d.view) == b[h.length..]
            && Assemble(c, order) == Assemble(d, order)
  {
    hide Flat, DecodeHeader, PeekHeader, Search, Consume;
    DecodesAlike(c, order);
    StepProgress(c, order);
    var w := if c.mode.WaitHeader? then Step(c, order) else c;
    assert w.mode.WaitBody? && w.view == c.view && w.delivered == c.delivered && Inv(w, order);
    DeliversBody(w, order);
    d := Step(w, order);
    StepProgress(w, order);
  }

  lemma DeliversBody(c: Conn, order: ByteOrder)
    requires Inv(c, order) && c.mode.WaitBody? && HEADER_SIZE < c.mode.header.length <= |Flat(c.view)|
    ensures var h, b, d := c.mode.header, Flat(c.view), Step(c, order);
            && d.mode.WaitHeader? && d != c && WellFormed(d.view)
            && d.delivered == c.delivered + [Message(h, b[HEADER_SIZE..h.length])]
            && Flat(d.view) == b[h.length..]
  {
    hide Flat, DecodeHeader, Search, Consume;
    var h, b := c.mode.header, Flat(c.view);
    FlatNonEmpty(c.view);
    FlatConsume(c.view, HEADER_SIZE);
    var body := Consume(c.view, HEADER_SIZE);
    FlatNonEmpty(body);
    FlatConsume(body, h.length - HEADER_SIZE);
    assert Flat(body)[..h.length - HEADER_SIZE] == b[HEADER_SIZE..h.length];
    assert Flat(body)[h.length - HEADER_SIZE..] == b[h.length..];
  }

  /** The loop delivers what the parser finds in the flat bytes of the stream. */
  lemma {:induction false} AssembleParses(c: Conn, order: ByteOrder)
    requires Inv(c, order) && (c.mode.WaitHeader? || c.mode.WaitBody?)
    requires Parse(Flat(c.view), order).status.NeedMore?
    ensures Tracks(Assemble(c, order), c.delivered, Flat(c.view), order)
    decreases |Flat(c.view)|
  {
    hide Flat, DecodeHeader, Assemble, Step;
    var b := Flat(c.view);
    var p := Parse(b, order);
    if p.messages == [] {
      WaitingForMore(c, order);
      assert c.delivered + [] == c.delivered;
    } else {
      var h := DecodeHeader(b[..HEADER_SIZE], order);
      var d := DeliversOne(c, order);
      AssembleParses(d, order);
      var m := [Message(h, b[HEADER_SIZE..h.length])];
      var q := Parse(b[h.length..], order);
      assert (c.delivered + m) + q.messages == c.delivered + (m + q.messages);
    }
  }

  /**
   * Where the flat bytes run into a header without the magic word, the loop has delivered everything in
   * front of it and goes on in resync behind its forty bytes.
   */
  lemma {:induction false} AssembleMeetsBadMagic(c: Conn, order: ByteOrder) returns (d: Conn)
    requires Inv(c, order) && (c.mode.WaitHeader? || c.mode.WaitBody?)
    requires Parse(Flat(c.view), order).status.BadMagic?
    ensures var p := Parse(Flat(c.view), order);
            && Inv(d, order) && d.mode.Resync? && d.delivered == c.delivered + p.messages
            && |p.rest| >= HEADER_SIZE && Flat(d.view) == p.rest[HEADER_SIZE..]
            && Assemble(c, order) == Assemble(d, order)
    decreases |Flat(c.view)|
  {
    hide Flat, DecodeHeader, PeekHeader, Assemble, Consume;
    var b := Flat(c.view);
    var p, h := Parse(b, order), DecodeHeader(b[..HEADER_SIZE], order);
    if !IsValid(h) {
      DecodesAlike(c, order);
      FlatNonEmpty(c.view);
      FlatConsume(c.view, HEADER_SIZE);
      StepProgress(c, order);
      d := Step(c, order);
      AssembleMoves(c, order);
      assert c.delivered + [] == c.delivered;
    } else {
      var e := DeliversOne(c, order);
      d := AssembleMeetsBadMagic(e, order);
      var m := [Message(h, b[HEADER_SIZE..h.length])];
      var q := Parse(b[h.length..], order);
      assert (c.delivered + m) + q.messages == c.delivered + (m + q.messages);
    }
  }

  lemma AssembleMoves(c: Conn, order: ByteOrder)
    requires Inv(c, order) && Flat(c.view) != [] && Step(c, order) != c
    ensures Inv(Step(c, order), order) && Assemble(c, order) == Assemble(Step(c, order), order)
  {
    hide Step;
    StepProgress(c, order);
  }

  /**
   * Where they run into a header that announces less than its own forty bytes, everything in front of
   * it is delivered and the stream breaks: the source would go on behind its own memory.
   */
  lemma {:induction false} AssembleMeetsShortLength(c: Conn, order: ByteOrder)
    requires Inv(c, order) && (c.mode.WaitHeader? || c.mode.WaitBody?)
    requires var p := Parse(Flat(c.view), order);
             p.status.BadLength? && |p.rest| >= HEADER_SIZE
             && DecodeHeader(p.rest[..HEADER_SIZE], order).length < HEADER_SIZE
    ensures Assemble(c, order).mode.Broken?
    ensures Assemble(c, order).delivered == c.delivered + Parse(Flat(c.view), order).messages
    decreases |Flat(c.view)|
  {
    hide Flat, DecodeHeader, PeekHeader, Assemble, Consume;
    var b := Flat(c.view);
    var h := DecodeHeader(b[..HEADER_SIZE], order);
    if h.length <= HEADER_SIZE {
      ShortLengthBreaks(c, order);
      assert c.delivered + [] == c.delivered;
    } else {
      var e := DeliversOne(c, order);
      AssembleMeetsShortLength(e, order);
      var m := [Message(h, b[HEADER_SIZE..h.length])];
      var q := Parse(b[h.length..], order);
      assert (c.delivered + m) + q.messages == c.delivered + (m + q.messages);
    }
  }

  lemma ShortLengthBreaks(c: Conn, order: ByteOrder)
    requires Inv(c, order) && (c.mode.WaitHeader? || c.mode.WaitBody?) && |Flat(c.view)| >= HEADER_SIZE
    requires var h := DecodeHeader(Flat(c.view)[..HEADER_SIZE], order); IsValid(h) && h.length < HEADER_SIZE
    ensures Assemble(c, order).mode.Broken? && Assemble(c, order).delivered == c.delivered
  {
    hide Flat, DecodeHeader, PeekHeader, Consume, Assemble;
    DecodesAlike(c, order);
    FlatNonEmpty(c.view);
    var w := if c.mode.WaitHeader? then Step(c, order) else c;
    if c.mode.WaitHeader? { AssembleMoves(c, order); }
    assert Inv(w, order) && w.mode.WaitBody? && w.view == c.view && w.delivered == c.delivered;
    AssembleMoves(w, order);
    BrokenStays(Step(w, order), order);
    BrokenIsSettled(Step(w, order), order);
  }

  lemma BrokenIsSettled(c: Conn, order: ByteOrder)
    requires Inv(c, order) && c.mode.Broken?
    ensures Assemble(c, order) == c
  {
    BrokenStays(c, order);
  }

  lemma ReceiveTracks(c: Conn, start: seq<Message>, a: seq<Byte>, b: Buffer, order: ByteOrder)
    requires Tracks(c, start, a, order) && Parse(a + b.data, order).status.NeedMore?
    ensures Tracks(Receive(c, b, order), start, a + b.data, order)
  {
    hide Flat, DecodeHeader, Assemble, Parse;
    ParseResumes(a, b.data, order);
    FlatAppend(c.view, b);
    AppendKeepsInv(c, b, order);
    var d := c.(view := Append(c.view, b));
    AssembleParses(d, order);
    var p, q := Parse(a, order), Parse(Parse(a, order).rest + b.data, order);
    assert (start + p.messages) + q.messages == start + (p.messages + q.messages);
  }

  /** Whatever the cut, a connection in step with the bytes `a` stays in step with all that follow. */
  lemma {:induction false} ReceiveAllTracks(c: Conn, start: seq<Message>, a: seq<Byte>, bufs: seq<Buffer>,
                                            order: ByteOrder)
    requires Tracks(c, start, a, order) && Parse(a + Concat(bufs), order).status.NeedMore?
    ensures Tracks(ReceiveAll(c, bufs, order), start, a + Concat(bufs), order)
    decreases |bufs|
  {
    hide Tracks, Parse, Receive;
    if bufs == [] {
      assert a + Concat(bufs) == a;
    } else {
      var rest := Concat(bufs[1..]);
      assert a + Concat(bufs) == (a + bufs[0].data) + rest;
      ParseResumes(a + bufs[0].data, rest, order);
      TracksInv(c, start, a, order);
      ReceiveTracks(c, start, a, bufs[0], order);
      TracksInv(Receive(c, bufs[0], order), start, a + bufs[0].data, order);
      ReceiveAllTracks(Receive(c, bufs[0], order), start, a + bufs[0].data, bufs[1..], order);
    }
  }

  lemma TracksInv(c: Conn, start: seq<Message>, a: seq<Byte>, order: ByteOrder)
    requires Tracks(c, start, a, order)
    ensures Inv(c, order)
  {
  }

  /**
   * Chunking does not matter: starting empty and waiting for a header, any cut of bytes the protocol
   * allows so far delivers exactly the messages of the flat bytes and keeps exactly their rest.
   */
  lemma ChunkingDoesNotMatter(bufs: seq<Buffer>, order: ByteOrder)
    requires Parse(Concat(bufs), order).status.NeedMore?
    ensures Tracks(ReceiveAll(Conn(WaitHeader, View([], 0), []), bufs, order), [], Concat(bufs), order)
  {
    var c := Conn(WaitHeader, View([], 0), []);
    assert Tracks(c, [], [], order);
    assert [] + Concat(bufs) == Concat(bufs);
    ReceiveAllTracks(c, [], [], bufs, order);
  }

  predicate NoEmptyBuffer(v: View) {
    forall i :: 0 <= i < |v.bufs| ==> v.bufs[i].data != []
  }

  /** Without empty buffers, consuming leaves a buffer behind exactly when it leaves a byte behind. */
  lemma {:induction false} BufferLeftExactly(v: View, n: nat)
    requires WellFormed(v) && v.bufs != [] && NoEmptyBuffer(v) && n <= |Flat(v)|
    ensures Consume(v, n).bufs == [] <==> n == |Flat(v)|
    decreases |v.bufs|
  {
    hide Flat;
    FlatSplit(v);
    var left, rest := |v.bufs[0].data| - v.offset, View(v.bufs[1..], 0);
    if left < n {
      FlatNonEmpty(rest);
      assert NoEmptyBuffer(rest) by {
        forall i | 0 <= i < |rest.bufs| ensures rest.bufs[i].data != [] {
          assert rest.bufs[i] == v.bufs[i + 1];
        }
      }
      BufferLeftExactly(rest, n - left);
    } else if left == n && rest.bufs != [] {
      FlatSplit(rest);
      assert rest.bufs[0] == v.bufs[1];
    } else if left == n {
      assert Flat(rest) == [] by { NothingFlat(rest); }
    }
  }

  lemma NothingFlat(v: View)
    requires v.bufs == [] && v.offset == 0
    ensures Flat(v) == []
  {
  }

  /**
   * A message without payload, in a stream of non-empty buffers: it is delivered if and only if at
   * least one byte behind it has arrived by the time its header is handled.
   */
  lemma EmptyPayloadExactly(c: Conn, order: ByteOrder)
    requires Inv(c, order) && c.mode.WaitBody? && NoEmptyBuffer(c.view) && c.mode.header.length == HEADER_SIZE
    ensures var d := Step(c, order);
            && (d.mode.WaitHeader? && d.delivered == c.delivered + [Message(c.mode.header, [])]
                <==> |Flat(c.view)| > HEADER_SIZE)
            && (d.mode.Broken? <==> |Flat(c.view)| == HEADER_SIZE)
  {
    hide Flat, Consume;
    FlatNonEmpty(c.view);
    BufferLeftExactly(c.view, HEADER_SIZE);
    FlatConsume(c.view, HEADER_SIZE);
  }

  function EmptyFrame(order: ByteOrder): (b: seq<Byte>)
    ensures |b| == HEADER_SIZE && DecodeHeader(b, order) == NewHeader(HEADER_SIZE, 0, 0, 0, 0)
  {
    HeaderRoundTrip(NewHeader(HEADER_SIZE, 0, 0, 0, 0), order);
    HeaderBytes(NewHeader(HEADER_SIZE, 0, 0, 0, 0), order)
  }

  /** A header that announces no payload, arriving on its own, ends the connection. */
  lemma HeaderAloneBreaks(order: ByteOrder)
    ensures Receive(Conn(WaitHeader, View([], 0), []), Buffer(1, EmptyFrame(order)), order).mode.Broken?
  {
    hide EmptyFrame, DecodeHeader, PeekHeader, Consume;
    var h, b := NewHeader(HEADER_SIZE, 0, 0, 0, 0), Buffer(1, EmptyFrame(order));
    var c := Conn(WaitHeader, View([b], 0), []);
    assert Append(View([], 0), b) == View([b], 0);
    FlatOfPlain([b]);
    ConcatOne(b);
    assert b.data[..HEADER_SIZE] == b.data;
    DecodersAgree(b.data, order);
    StepProgress(c, order);
    var d := Conn(WaitBody(h), c.view, []);
    assert Step(c, order) == d;
    EmptyPayloadExactly(d, order);
    StepProgress(d, order);
    BrokenStays(Step(d, order), order);
    assert Assemble(c, order) == Assemble(d, order) == Assemble(Step(d, order), order) == Step(d, order);
  }

  // ------------------------------------------------------- frames

  /** A frame of the protocol: the magic word, a length that counts header and payload, and a payload. */
  predicate WellFramed(m: Message) {
    IsValid(m.header) && m.header.length == HEADER_SIZE + |m.payload| && m.payload != []
  }

  function FrameBytes(m: Message, order: ByteOrder): (b: seq<Byte>)
    requires WellFramed(m)
    ensures |b| == m.header.length
  {
    HeaderBytes(m.header, order) + m.payload
  }

  function Wire(ms: seq<Message>, order: ByteOrder): seq<Byte>
    requires forall m :: m in ms ==> WellFramed(m)
  {
    if ms == [] then [] else FrameBytes(ms[0], order) + Wire(ms[1..], order)
  }

  /** How many of the frames `ms` lie wholly within the first `n` bytes of their wire form. */
  function Complete(ms: seq<Message>, n: nat): (k: nat)
    ensures k <= |ms|
  {
    if ms == [] || n < ms[0].header.length then 0 else 1 + Complete(ms[1..], n - ms[0].header.length)
  }

  /** `b` ends inside, or right behind, the frames `ms`; `rest` is what belongs to the first unfinished one. */
  ghost predicate Unfinished(ms: seq<Message>, b: seq<Byte>, rest: seq<Byte>, order: ByteOrder)
    requires forall m :: m in ms ==> WellFramed(m)
  {
    var k := Complete(ms, |b|);
    && b == Wire(ms[..k], order) + rest
    && (if k < |ms| then |rest| < ms[k].header.length else rest == [])
  }

  lemma FrontFrame(m: Message, b: seq<Byte>, tail: seq<Byte>, order: ByteOrder)
    requires WellFramed(m) && b <= FrameBytes(m, order) + tail && |b| >= HEADER_SIZE
    ensures DecodeHeader(b[..HEADER_SIZE], order) == m.header
    ensures |b| >= m.header.length ==>
            && b == FrameBytes(m, order) + b[m.header.length..] && b[HEADER_SIZE..m.header.length] == m.payload
            && b[m.header.length..] <= tail
  {
    hide DecodeHeader;
    HeaderRoundTrip(m.header, order);
    var f := FrameBytes(m, order);
    assert b[..HEADER_SIZE] == (f + tail)[..HEADER_SIZE] == HeaderBytes(m.header, order);
    var n: nat := m.header.length;
    assert |f| == n;
    if |b| >= n {
      assert b[..n] == (f + tail)[..n] == f;
      assert b == b[..n] + b[n..];
      assert b[HEADER_SIZE..n] == f[HEADER_SIZE..] == m.payload;
      assert b[n..] == (f + tail)[n..|b|] == tail[..|b| - n];
    }
  }

  lemma NoneComplete(ms: seq<Message>, b: seq<Byte>, order: ByteOrder)
    requires (forall m :: m in ms ==> WellFramed(m)) && b <= Wire(ms, order)
    requires ms == [] || |b| < HEADER_SIZE || |b| < ms[0].header.length
    ensures Complete(ms, |b|) == 0 && Unfinished(ms, b, b, order)
  {
    assert ms != [] ==> ms[0] in ms;
    assert ms[..0] == [];
  }

  lemma WireCons(m: Message, ms: seq<Message>, order: ByteOrder)
    requires WellFramed(m) && forall k :: k in ms ==> WellFramed(k)
    ensures forall k :: k in [m] + ms ==> WellFramed(k)
    ensures Wire([m] + ms, order) == FrameBytes(m, order) + Wire(ms, order)
  {
    assert ([m] + ms)[1..] == ms;
  }

  lemma CompleteCons(ms: seq<Message>, n: nat)
    requires ms != [] && ms[0].header.length <= n
    ensures var k := Complete(ms[1..], n - ms[0].header.length);
            && Complete(ms, n) == k + 1 && ms[..k + 1] == [ms[0]] + ms[1..][..k]
            && (k + 1 < |ms| ==> ms[k + 1] == ms[1..][k])
  {
  }

  lemma UnfinishedCons(ms: seq<Message>, b: seq<Byte>, rest: seq<Byte>, order: ByteOrder)
    requires (forall m :: m in ms ==> WellFramed(m)) && ms != []
    requires var n := ms[0].header.length;
             n <= |b| && b == FrameBytes(ms[0], order) + b[n..] && Unfinished(ms[1..], b[n..], rest, order)
    ensures Unfinished(ms, b, rest, order)
  {
    hide FrameBytes, Wire, WellFramed, Complete;
    CompleteCons(ms, |b|);
    var done := ms[1..][..Complete(ms[1..], |b| - ms[0].header.length)];
    var f, t := FrameBytes(ms[0], order), Wire(done, order);
    WireCons(ms[0], done, order);
    assert f + (t + rest) == (f + t) + rest;
  }

  lemma {:induction false} ParseWire(ms: seq<Message>, b: seq<Byte>, order: ByteOrder)
    requires (forall m :: m in ms ==> WellFramed(m)) && b <= Wire(ms, order)
    ensures var p := Parse(b, order);
            p.status.NeedMore? && p.messages == ms[..Complete(ms, |b|)] && Unfinished(ms, b, p.rest, order)
    decreases |ms|
  {
    hide FrameBytes, HeaderBytes, DecodeHeader, Unfinished;
    if ms == [] || |b| < HEADER_SIZE || |b| < ms[0].header.length {
      NoneComplete(ms, b, order);
    }
    if ms != [] && |b| >= HEADER_SIZE {
      var m, tail := ms[0], Wire(ms[1..], order);
      FrontFrame(m, b, tail, order);
      var n: nat := m.header.length;
      if |b| >= n {
        ParseWire(ms[1..], b[n..], order);
        CompleteCons(ms, |b|);
        UnfinishedCons(ms, b, Parse(b[n..], order).rest, order);
      }
    }
  }

  /** The connection has delivered exactly the frames complete so far and holds exactly the unfinished tail. */
  ghost predicate Delivers(c: Conn, start: seq<Message>, ms: seq<Message>, b: seq<Byte>, order: ByteOrder)
    requires forall m :: m in ms ==> WellFramed(m)
  {
    WellFormed(c.view) && c.delivered == start + ms[..Complete(ms, |b|)] && Unfinished(ms, b, Flat(c.view), order)
  }

  lemma TracksDelivers(c: Conn, start: seq<Message>, ms: seq<Message>, b: seq<Byte>, order: ByteOrder)
    requires (forall m :: m in ms ==> WellFramed(m)) && b <= Wire(ms, order) && Tracks(c, start, b, order)
    ensures Delivers(c, start, ms, b, order)
  {
    ParseWire(ms, b, order);
  }

  /**
   * Framing: for every list of frames and every cut of a prefix of their wire form into buffers, a
   * stream that starts empty and waiting for a header delivers exactly the complete frames, in order
   * and unchanged, and holds exactly the unfinished tail.
   */
  lemma FramesAreDelivered(ms: seq<Message>, bufs: seq<Buffer>, order: ByteOrder)
    requires (forall m :: m in ms ==> WellFramed(m)) && Concat(bufs) <= Wire(ms, order)
    ensures Delivers(ReceiveAll(Conn(WaitHeader, View([], 0), []), bufs, order), [], ms, Concat(bufs), order)
  {
    hide Tracks, Delivers, Wire, Parse;
    ParseWire(ms, Concat(bufs), order);
    ChunkingDoesNotMatter(bufs, order);
    TracksDelivers(ReceiveAll(Conn(WaitHeader, View([], 0), []), bufs, order), [], ms, Concat(bufs), order);
  }

  /** The unfinished tail is empty or holds a whole header. */
  predicate Whole(tail: nat) {
    tail == 0 || tail >= HEADER_SIZE
  }

  /** In step with the bytes, the loop as written has come to an end exactly if the tail is whole. */
  lemma TracksEndsExactly(c: Conn, start: seq<Message>, a: seq<Byte>, order: ByteOrder)
    requires Tracks(c, start, a, order) && Stuck(c, order)
    ensures SourceLoopEnds(c, order) <==> Whole(|Parse(a, order).rest|)
  {
    hide Flat, Parse, DecodeHeader, Step;
  }

  /**
   * The loop as written returns from a chunk if and only if the unfinished tail is empty or holds a
   * whole header; a chunk that ends inside a header makes it spin.
   */
  lemma ChunkReturnsExactly(c: Conn, start: seq<Message>, a: seq<Byte>, b: Buffer, order: ByteOrder)
    requires Tracks(c, start, a, order) && Parse(a + b.data, order).status.NeedMore?
    ensures var d := c.(view := Append(c.view, b));
            Inv(d, order) && (Returns(d, order) <==> Whole(|Parse(a + b.data, order).rest|))
  {
    hide Flat, DecodeHeader, Assemble, Parse, Returns, Tracks, SourceLoopEnds, Stuck;
    TracksInv(c, start, a, order);
    ReceiveTracks(c, start, a, b, order);
    AppendKeepsInv(c, b, order);
    SourceLoopEndsExactly(c.(view := Append(c.view, b)), order);
    TracksEndsExactly(Receive(c, b, order), start, a + b.data, order);
  }

  /** A single byte is enough: waiting for the header it belongs to, the loop as written never returns. */
  lemma OneByteNeverReturns(order: ByteOrder)
    ensures var d := Conn(WaitHeader, View([Buffer(1, [67])], 0), []);
            Inv(d, order) && !Returns(d, order)
  {
    var c, b := Conn(WaitHeader, View([], 0), []), Buffer(1, [67]);
    assert Tracks(c, [], [], order);
    assert [] + b.data == [67] && Append(c.view, b) == View([b], 0);
    assert Parse([67], order) == Parsed([], [67], NeedMore);
    ChunkReturnsExactly(c, [], [], b, order);
  }
}
