/**
 * From a batch handed to the client (src/msg/msg_sender.cpp, src/msg/msg_client.cpp) to the calls at the
 * listener of the server (src/msg/msg_server.cpp): framing, cutting, assembling and unpacking together.
 */
module EndToEnd {
  import opened Bytes
  import opened SegmentedView
  import opened FixedStreams
  import opened MsgHeaders
  import opened Msgs
  import opened AssemblyMachine
  import opened Delivery
  import opened Resynchronisation
  import opened AsWritten
  import opened MsgAssemblers
  import opened Batches
  import opened Frames

  /** A batch of buffers, as it is handed to the client, and the request slot it gets there. */
  datatype Sent = Sent(bufs: seq<seq<Byte>>, msgId: Uint16, flags: Uint16, compress: bool,
                       requestId: Uint64, requestIndex: Uint32)

  /** `flags |= COMMUTIL_MSG_FLAG_BATCH`. */
  function WithBatch(flags: Uint16): (r: Uint16)
    ensures HasFlag(r, BATCH) && (HasFlag(r, COMPRESSED) <==> HasFlag(flags, COMPRESSED))
    ensures r / 2 / 2 == flags / 2 / 2 && r / 2 % 2 == 1 && r % 2 == flags % 2
  {
    if HasFlag(flags, BATCH) then flags else flags + 2
  }

  function PayloadOf(s: Sent, order: ByteOrder, gz: Gzip): seq<Byte> {
    var bytes := BatchBytes(s.bufs, order);
    if s.compress then gz.compress(bytes) else bytes
  }

  /** The frame has a payload and fits its 32-bit length, and no caller sets the compressed flag by hand. */
  predicate Sendable(s: Sent, order: ByteOrder, gz: Gzip) {
    && HEADER_SIZE + 4 + RecordsSize(s.bufs) < UINT32
    && 0 < |PayloadOf(s, order, gz)| < UINT32 - HEADER_SIZE
    && (s.compress || !HasFlag(s.flags, COMPRESSED))
  }

  lemma BatchLengths(bufs: seq<seq<Byte>>, order: ByteOrder)
    requires Fits(bufs)
    ensures |bufs| < UINT32 && |BatchBytes(bufs, order)| == 4 + RecordsSize(bufs)
  {
    SizeIsBytesWritten(bufs, order);
    if bufs != [] { BuffersFit(bufs, 0); }
  }

  /** The message on the wire: the frame of the batch, with the request id and index of its slot. */
  function MessageOf(s: Sent, order: ByteOrder, gz: Gzip): (m: Message)
    requires Sendable(s, order, gz)
    ensures WellFramed(m)
  {
    var bytes, payload := BatchBytes(s.bufs, order), PayloadOf(s, order, gz);
    BatchLengths(s.bufs, order);
    var h := FrameHeader(s.msgId, WithBatch(s.flags), s.compress, |payload|, |bytes|, |s.bufs|);
    Message(h.(requestId := s.requestId, requestIndex := s.requestIndex), payload)
  }

  lemma NotCompressedByHand(s: Sent, order: ByteOrder, gz: Gzip)
    requires Sendable(s, order, gz)
    ensures s.compress || s.flags % 2 == 0
  {
  }

  lemma HeaderInFront(h: MsgHeader, bytes: seq<Byte>, payload: seq<Byte>, order: ByteOrder)
    requires Shaped(h) && bytes == HeaderBytes(h, order) + payload
    ensures DecodeHeader(bytes[..HEADER_SIZE], order) == h && bytes[HEADER_SIZE..] == payload
  {
    hide HeaderBytes, DecodeHeader;
    HeaderRoundTrip(h, order);
    assert bytes[..HEADER_SIZE] == HeaderBytes(h, order);
  }

  /** `sendMsgBatch`: the bytes that go to the transport. */
  method SendBatch(s: Sent, order: ByteOrder, gz: Gzip) returns (rc: ErrorCode, bytes: seq<Byte>)
    requires Sendable(s, order, gz)
    ensures rc.Ok? && bytes == FrameBytes(MessageOf(s, order, gz), order)
    ensures |bytes| > HEADER_SIZE
    ensures var batch := BatchBytes(s.bufs, order);
            bytes[HEADER_SIZE..] == if s.compress then gz.compress(batch) else batch
    ensures var h := DecodeHeader(bytes[..HEADER_SIZE], order);
            && h.magic == MAGIC && h.length == |bytes| && h.msgId == s.msgId
            && h.flags / 2 / 2 == s.flags / 2 / 2 && h.flags / 2 % 2 == 1
            && h.flags % 2 == (if s.compress then 1 else 0)
            && h.requestId == s.requestId && h.requestIndex == s.requestIndex
            && h.uncompressedLength == (if s.compress then 4 + RecordsSize(s.bufs) else 0)
            && h.batchSize == |s.bufs| && h.reserved == 0
  {
    hide RecordsSize, BatchBytes, HeaderBytes, HasFlag, DecodeHeader, WithBatch, WithCompressed;
    BatchLengths(s.bufs, order);
    var msg;
    rc, msg := PrepareMsgBatchFrame(s.msgId, s.bufs, order, s.compress, WithBatch(s.flags), gz);
    msg.header := msg.header.(requestId := s.requestId, requestIndex := s.requestIndex);
    var buffer := new Byte[msg.header.length];
    var os := new FixedOutputStream(buffer, order);
    rc := msg.Serialize(os);
    bytes := buffer[..os.offset];
    assert os.Written() == [] + HeaderBytes(msg.header, order) + msg.payload[..];
    HeaderInFront(msg.header, bytes, msg.payload[..], order);
    NotCompressedByHand(s, order, gz);
  }

  // ------------------------------------------------------- the receiving side

  /** `onMsg` for each delivered message: the frame is unpacked, and its result only logged. */
  function ReadAll(ms: seq<Message>, order: ByteOrder, gz: Gzip, respond: seq<Dispatch> -> ErrorCode,
                   calls: seq<Dispatch>, errors: seq<ErrorCode>): (seq<Dispatch>, seq<ErrorCode>)
  {
    if ms == [] then (calls, errors)
    else
      var o := ReadFrame(ms[0].header, ms[0].payload, order, gz, respond, calls, errors);
      ReadAll(ms[1..], order, gz, respond, o.calls, o.errors)
  }

  lemma {:induction false} ReceiveKeepsDelivered(c: Conn, bufs: seq<Buffer>, order: ByteOrder)
    requires Inv(c, order)
    ensures c.delivered <= ReceiveAll(c, bufs, order).delivered
    decreases |bufs|
  {
    hide Assemble, Inv;
    if bufs != [] {
      AppendKeepsInv(c, bufs[0], order);
      ReceiveKeepsDelivered(Receive(c, bufs[0], order), bufs[1..], order);
    }
  }

  /** A server stream takes buffers, and its listener is handed what the frames in them hold. */
  method Serve(stream: MsgStream, chunks: seq<Buffer>, gz: Gzip, listener: FrameListener)
    requires stream.Valid()
    modifies stream, stream.input, stream.input.nodes, listener
    ensures stream.Valid() && stream.Abs() == ReceiveAll(old(stream.Abs()), chunks, stream.input.order)
    ensures old(stream.delivered) <= stream.delivered
    ensures (listener.calls, listener.errors)
         == ReadAll(stream.delivered[|old(stream.delivered)|..], stream.input.order, gz, listener.respond,
                    old(listener.calls), old(listener.errors))
  {
    hide Inv, ReceiveAll, ReadFrame, stream.input.Valid, stream.input.Contents;
    ReceiveKeepsDelivered(stream.Abs(), chunks, stream.input.order);
    var order, done := stream.input.order, |stream.delivered|;
    ReceiveBuffers(stream, chunks);
    var ms := stream.delivered[done..];
    for i := 0 to |ms|
      invariant stream.Valid() && stream.Abs() == ReceiveAll(old(stream.Abs()), chunks, order)
      invariant ms == stream.delivered[done..]
      invariant ReadAll(ms[i..], order, gz, listener.respond, listener.calls, listener.errors)
             == ReadAll(ms, order, gz, listener.respond, old(listener.calls), old(listener.errors))
    {
      assert ms[i..][0] == ms[i] && ms[i..][1..] == ms[i + 1..];
      var _ := ReadMsgFrame(ms[i].header, ms[i].payload, order, gz, listener);
    }
  }

  // ------------------------------------------------------- end to end

  ghost predicate AllSendable(sent: seq<Sent>, order: ByteOrder, gz: Gzip) {
    Lossless(gz) && forall s :: s in sent ==> Sendable(s, order, gz) && LastNotEmpty(s.bufs)
  }

  ghost function Messages(sent: seq<Sent>, order: ByteOrder, gz: Gzip): (ms: seq<Message>)
    requires AllSendable(sent, order, gz)
    ensures |ms| == |sent| && forall m :: m in ms ==> WellFramed(m)
  {
    if sent == [] then [] else [MessageOf(sent[0], order, gz)] + Messages(sent[1..], order, gz)
  }

  /** The calls the batches should come to. */
  function AllExpected(sent: seq<Sent>): seq<Dispatch> {
    if sent == [] then [] else Expected(sent[0].bufs) + AllExpected(sent[1..])
  }

  lemma FrameReadsBack(s: Sent, order: ByteOrder, gz: Gzip, respond: seq<Dispatch> -> ErrorCode,
                       calls: seq<Dispatch>, errors: seq<ErrorCode>)
    requires AllSendable([s], order, gz) && forall ds :: respond(ds).Ok?
    ensures Sendable(s, order, gz)
    ensures var m := MessageOf(s, order, gz);
            ReadFrame(m.header, m.payload, order, gz, respond, calls, errors)
            == Outcome(calls + Expected(s.bufs), errors, Ok)
  {
    hide BatchBytes, RecordsSize, ReadRecords, HasFlag, Expected, LastNotEmpty, DecodeInt;
    assert s in [s];
    BatchLengths(s.bufs, order);
    ReadsBackExactly(s.bufs, order, s.compress, s.msgId, WithBatch(s.flags), gz,
                     |PayloadOf(s, order, gz)|, respond, calls, errors);
  }

  lemma FirstMessage(sent: seq<Sent>, k: nat, order: ByteOrder, gz: Gzip)
    requires AllSendable(sent, order, gz) && 0 < k <= |sent|
    ensures AllSendable([sent[0]], order, gz) && AllSendable(sent[1..], order, gz) && Sendable(sent[0], order, gz)
    ensures Messages(sent, order, gz)[..k]
         == [MessageOf(sent[0], order, gz)] + Messages(sent[1..], order, gz)[..k - 1]
    ensures AllExpected(sent[..k]) == Expected(sent[0].bufs) + AllExpected(sent[1..][..k - 1])
  {
    hide Expected, Sendable, LastNotEmpty, Lossless, MessageOf;
    assert sent[0] in sent;
    assert sent[..k][0] == sent[0] && sent[..k][1..] == sent[1..][..k - 1];
  }

  lemma ReadFirst(m: Message, ms: seq<Message>, order: ByteOrder, gz: Gzip, respond: seq<Dispatch> -> ErrorCode,
                  calls: seq<Dispatch>, errors: seq<ErrorCode>)
    ensures var o := ReadFrame(m.header, m.payload, order, gz, respond, calls, errors);
            ReadAll([m] + ms, order, gz, respond, calls, errors) == ReadAll(ms, order, gz, respond, o.calls, o.errors)
  {
    hide ReadFrame;
    assert ([m] + ms)[1..] == ms;
  }

  lemma ReadNone(sent: seq<Sent>, order: ByteOrder, gz: Gzip, respond: seq<Dispatch> -> ErrorCode,
                 calls: seq<Dispatch>, errors: seq<ErrorCode>)
    requires AllSendable(sent, order, gz)
    ensures ReadAll(Messages(sent, order, gz)[..0], order, gz, respond, calls, errors)
         == (calls + AllExpected(sent[..0]), errors)
  {
    hide ReadFrame, AllSendable, Messages;
    assert calls + [] == calls;
  }

  /** Messages that carry sent batches are read as those batches, in order. */
  lemma {:induction false} MessagesReadBack(sent: seq<Sent>, k: nat, order: ByteOrder, gz: Gzip,
      respond: seq<Dispatch> -> ErrorCode, calls: seq<Dispatch>, errors: seq<ErrorCode>)
    requires AllSendable(sent, order, gz) && k <= |sent| && forall ds :: respond(ds).Ok?
    ensures ReadAll(Messages(sent, order, gz)[..k], order, gz, respond, calls, errors)
         == (calls + AllExpected(sent[..k]), errors)
    decreases k
  {
    hide *;
    if k == 0 {
      ReadNone(sent, order, gz, respond, calls, errors);
    } else {
      var s, rest := sent[0], sent[1..];
      FirstMessage(sent, k, order, gz);
      var m, ms := MessageOf(s, order, gz), Messages(rest, order, gz)[..k - 1];
      ReadFirst(m, ms, order, gz, respond, calls, errors);
      FrameReadsBack(s, order, gz, respond, calls, errors);
      MessagesReadBack(rest, k - 1, order, gz, respond, calls + Expected(s.bufs), errors);
      var ds, more := Expected(s.bufs), AllExpected(rest[..k - 1]);
      assert (calls + ds) + more == calls + (ds + more);
    }
  }

  /** Of the whole bytes, every frame is complete. */
  lemma {:induction false} WholeWireComplete(ms: seq<Message>, order: ByteOrder)
    requires forall m :: m in ms ==> WellFramed(m)
    ensures Complete(ms, |Wire(ms, order)|) == |ms|
  {
    hide FrameBytes;
    if ms != [] {
      assert ms[0] in ms;
      WholeWireComplete(ms[1..], order);
    }
  }

  /**
   * End to end: batches are framed, compressed or not, and written one behind the other; any prefix of
   * those bytes arrives, cut into any buffers. Then a listener that accepts everything is called for
   * exactly the buffers of the batches that arrived completely, in order, each batch with its last
   * buffer marked, without any error. If all bytes arrived, these are all batches.
   */
  lemma BatchesReachListener(sent: seq<Sent>, chunks: seq<Buffer>, order: ByteOrder, gz: Gzip,
      respond: seq<Dispatch> -> ErrorCode, calls: seq<Dispatch>, errors: seq<ErrorCode>)
    requires AllSendable(sent, order, gz) && (forall ds :: respond(ds).Ok?)
    requires Concat(chunks) <= Wire(Messages(sent, order, gz), order)
    ensures var k := Complete(Messages(sent, order, gz), |Concat(chunks)|);
            && (ReadAll(ReceiveAll(Conn(WaitHeader, View([], 0), []), chunks, order).delivered,
                        order, gz, respond, calls, errors)
                == (calls + AllExpected(sent[..k]), errors))
            && (Concat(chunks) == Wire(Messages(sent, order, gz), order) ==> k == |sent|)
  {
    hide ReadAll, Messages, AllExpected, ReceiveAll, Wire, Complete, Unfinished, AllSendable;
    var ms := Messages(sent, order, gz);
    FramesAreDelivered(ms, chunks, order);
    var k := Complete(ms, |Concat(chunks)|);
    assert [] + ms[..k] == ms[..k];
    WholeWireComplete(ms, order);
    MessagesReadBack(sent, k, order, gz, respond, calls, errors);
  }

  /**
   * The same with the source's own loop, on a connection slot that is used again: if its last reset left
   * offset 0, the first buffer is not empty and every buffer ends with a whole tail, the loop returns
   * from each of them and the listener has been called for exactly the complete batches.
   */
  lemma BatchesReachListenerAsWritten(sent: seq<Sent>, first: Buffer, rest: seq<Buffer>, order: ByteOrder, gz: Gzip,
      respond: seq<Dispatch> -> ErrorCode, calls: seq<Dispatch>, errors: seq<ErrorCode>)
    requires AllSendable(sent, order, gz) && (forall ds :: respond(ds).Ok?)
    requires first.data != [] && first.data + Concat(rest) <= Wire(Messages(sent, order, gz), order)
    requires WholeTails(Messages(sent, order, gz), 0, [first] + rest)
    ensures var r, k := Raw(Resync, [], 0, 0, []), Complete(Messages(sent, order, gz), |first.data + Concat(rest)|);
            && RawAllReturn(r, [first] + rest, order)
            && ReadAll(RawReceiveAll(r, [first] + rest, order).delivered, order, gz, respond, calls, errors)
               == (calls + AllExpected(sent[..k]), errors)
  {
    hide ReadAll, Messages, AllExpected, AllSendable, RawReceiveAll, RawAllReturn;
    hide Wire, Complete, Unfinished, WholeTails;
    var ms, a := Messages(sent, order, gz), first.data + Concat(rest);
    ReusedConnectionExactly(ms, 0, first, rest, order);
    assert RawDelivers(RawReceiveAll(Raw(Resync, [], 0, 0, []), [first] + rest, order), ms, a, order);
    MessagesReadBack(sent, Complete(ms, |a|), order, gz, respond, calls, errors);
  }
}
