/** Writing and reading message frames (src/msg/msg_frame_writer.cpp, src/msg/msg_frame_reader.cpp). */
module Frames {
  import opened Bytes
  import opened FixedStreams
  import opened MsgHeaders
  import opened Msgs
  import opened Batches

  const COMPRESSED: nat := 1
  const BATCH: nat := 2

  predicate HasFlag(flags: Uint16, flag: nat)
    requires flag > 0
  {
    (flags / flag) % 2 == 1
  }

  /** `flags |= COMMUTIL_MSG_FLAG_COMPRESSED`. */
  function WithCompressed(flags: Uint16): (r: Uint16)
    ensures HasFlag(r, COMPRESSED) && (HasFlag(r, BATCH) <==> HasFlag(flags, BATCH))
    ensures r % 2 == 1 && r / 2 == flags / 2
  {
    if HasFlag(flags, COMPRESSED) then flags else flags + 1
  }

  /** The compression library, of which only losslessness is used. */
  datatype Gzip = Gzip(compress: seq<Byte> -> seq<Byte>, decompress: seq<Byte> -> seq<Byte>)

  ghost predicate Lossless(gz: Gzip) {
    forall x :: gz.decompress(gz.compress(x)) == x
  }

  // ------------------------------------------------------- writing

  /** The header of a frame whose payload was written from `uncompressed` bytes. */
  function FrameHeader(msgId: Uint16, flags: Uint16, compress: bool, size: nat, uncompressed: nat,
                       batchSize: nat): MsgHeader
    requires HEADER_SIZE + size < UINT32 && uncompressed < UINT32 && batchSize < UINT32
  {
    var h := NewHeader(HEADER_SIZE + size, msgId, if compress then WithCompressed(flags) else flags, 0, 0);
    h.(uncompressedLength := if compress then uncompressed else 0, batchSize := batchSize)
  }

  /** `prepareMsgFrame` for a single body. */
  method PrepareMsgFrame(msgId: Uint16, body: seq<Byte>, compress: bool, flags: Uint16, gz: Gzip)
    returns (msg: Msg)
    requires |body| < UINT32 && HEADER_SIZE + |if compress then gz.compress(body) else body| < UINT32
    ensures fresh(msg) && fresh(msg.payload)
    ensures msg.payload[..] == if compress then gz.compress(body) else body
    ensures msg.header == FrameHeader(msgId, flags, compress, msg.payload.Length, |body|, 1)
    ensures var h := msg.header;
            && h.magic == MAGIC && h.length == HEADER_SIZE + |msg.payload[..]| && h.msgId == msgId
            && h.flags / 2 == flags / 2 && h.flags % 2 == (if compress then 1 else flags % 2)
            && h.requestId == 0 && h.requestIndex == 0
            && h.uncompressedLength == (if compress then |body| else 0) && h.batchSize == 1 && h.reserved == 0
  {
    var data, f := body, flags;
    if compress {
      data := gz.compress(body);
      f := WithCompressed(f);
    }
    msg := new Msg.Alloc(msgId, f, 0, 0, |data|);
    msg.SetPayload(data);
    assert msg.payload[..] == data;
    if compress {
      msg.header := msg.header.(uncompressedLength := |body|);
    }
  }

  /** `prepareMsgBatchFrame`: the overload for a message writer, with the buffer array as its writer. */
  method PrepareMsgBatchFrame(msgId: Uint16, bufs: seq<seq<Byte>>, order: ByteOrder, compress: bool, flags: Uint16,
                              gz: Gzip)
    returns (rc: ErrorCode, msg: Msg?)
    requires HEADER_SIZE + 4 + RecordsSize(bufs) < UINT32 && |bufs| < UINT32
    requires compress ==> HEADER_SIZE + |gz.compress(BatchBytes(bufs, order))| < UINT32
    ensures rc.Ok? && msg != null && fresh(msg) && fresh(msg.payload)
    ensures var bytes := BatchBytes(bufs, order);
            && |bytes| == 4 + RecordsSize(bufs)
            && msg.payload[..] == (if compress then gz.compress(bytes) else bytes)
            && msg.payload.Length == |msg.payload[..]|
            && msg.header == FrameHeader(msgId, flags, compress, msg.payload.Length, |bytes|, |bufs|)
    ensures var h := msg.header;
            && h.magic == MAGIC && h.length == HEADER_SIZE + |msg.payload[..]| && h.msgId == msgId
            && h.flags / 2 == flags / 2 && h.flags % 2 == (if compress then 1 else flags % 2)
            && h.requestId == 0 && h.requestIndex == 0
            && h.uncompressedLength == (if compress then 4 + RecordsSize(bufs) else 0)
            && h.batchSize == |bufs| && h.reserved == 0
  {
    hide BatchBytes, RecordsSize;
    var size := ComputePayloadSize(bufs);
    SizeIsBytesWritten(bufs, order);
    if compress {
      var buf := new Byte[size];
      var os := new FixedOutputStream(buf, order);
      rc := WriteBatch(os, bufs);
      if !rc.Ok? { return rc, null; }
      assert buf[..] == BatchBytes(bufs, order);
      var data := gz.compress(buf[..]);
      msg := new Msg.Alloc(msgId, WithCompressed(flags), 0, 0, |data|);
      msg.SetPayload(data);
      assert msg.payload[..] == data;
      msg.header := msg.header.(uncompressedLength := size);
    } else {
      msg := new Msg.Alloc(msgId, flags, 0, 0, size);
      var os := new FixedOutputStream(msg.payload, order);
      rc := WriteBatch(os, bufs);
      if !rc.Ok? { return rc, null; }
      assert msg.payload[..] == BatchBytes(bufs, order);
    }
    msg.header := msg.header.(batchSize := |bufs|);
  }

  // ------------------------------------------------------- reading

  /** One call to `handleMsg`. */
  datatype Dispatch = Dispatch(data: seq<Byte>, length: nat, last: bool, batchSize: nat)

  /** What a listener has seen: the messages and the errors, and the result of the frame. */
  datatype Outcome = Outcome(calls: seq<Dispatch>, errors: seq<ErrorCode>, rc: ErrorCode)

  /** A listener whose answer may depend on everything it was called with so far. */
  class FrameListener {
    const respond: seq<Dispatch> -> ErrorCode
    var calls: seq<Dispatch>
    var errors: seq<ErrorCode>

    constructor (respond: seq<Dispatch> -> ErrorCode)
      ensures calls == [] && errors == [] && this.respond == respond
    {
      this.respond, calls, errors := respond, [], [];
    }

    method HandleMsg(d: Dispatch) returns (rc: ErrorCode)
      modifies this
      ensures calls == old(calls) + [d] && errors == old(errors) && rc == respond(calls)
    {
      calls := calls + [d];
      rc := respond(calls);
    }

    method HandleMsgError(rc: ErrorCode)
      modifies this
      ensures calls == old(calls) && errors == old(errors) + [rc]
    {
      errors := errors + [rc];
    }
  }

  /** The dispatch loop, with `i` of `n` messages dispatched and `left` still to be read. */
  function ReadRecords(left: seq<Byte>, i: nat, n: nat, order: ByteOrder, respond: seq<Dispatch> -> ErrorCode,
                       calls: seq<Dispatch>, errors: seq<ErrorCode>): Outcome
    requires i <= n
    decreases n - i
  {
    if i == n then Outcome(calls, errors, Ok)
    else
      var r := ReadRecord(left, order);
      if !r.rc.Ok? then Outcome(calls, errors + [r.rc], r.rc)
      else
        var calls' := calls + [Dispatch(r.data, r.length, i + 1 == n, n)];
        var rc := respond(calls');
        if !rc.Ok? then Outcome(calls', errors, rc)
        else ReadRecords(r.rest, i + 1, n, order, respond, calls', errors)
  }

  function ReadFrame(h: MsgHeader, payload: seq<Byte>, order: ByteOrder, gz: Gzip, respond: seq<Dispatch> -> ErrorCode,
                     calls: seq<Dispatch>, errors: seq<ErrorCode>): Outcome
  {
    var data := if HasFlag(h.flags, COMPRESSED) then gz.decompress(payload) else payload;
    if HasFlag(h.flags, COMPRESSED) && |data| != h.uncompressedLength then
      Outcome(calls, errors + [DataCorrupt], DataCorrupt)
    else if !HasFlag(h.flags, BATCH) then
      var calls' := calls + [Dispatch(data, |data|, true, 1)];
      Outcome(calls', errors, respond(calls'))
    else if |data| < 4 then Outcome(calls, errors + [EndOfStream], EndOfStream)
    else
      var n := DecodeInt(data[..4], order);
      if n != h.batchSize then Outcome(calls, errors + [DataCorrupt], DataCorrupt)
      else ReadRecords(data[4..], 0, n, order, respond, calls, errors)
  }

  /**
   * What the dispatch loop adds to the calls: as many as it got to, the final one of the batch marked
   * last, all but the newest accepted; and at most one error, for a record that is not there.
   */
  ghost predicate Dispatches(o: Outcome, n: nat, respond: seq<Dispatch> -> ErrorCode,
                             calls: seq<Dispatch>, errors: seq<ErrorCode>)
  {
    && calls <= o.calls && |o.calls| <= |calls| + n
    && (forall i :: |calls| <= i < |o.calls| ==>
          o.calls[i].batchSize == n && (o.calls[i].last <==> i + 1 == |calls| + n))
    && (forall i :: |calls| < i < |o.calls| ==> respond(o.calls[..i]).Ok?)
    && (o.errors == errors || o.errors == errors + [EndOfStream])
    && (if o.errors != errors then
          o.rc.EndOfStream? && |o.calls| < |calls| + n && (|o.calls| > |calls| ==> respond(o.calls).Ok?)
        else
          && (|o.calls| > |calls| ==> o.rc == respond(o.calls))
          && (o.rc.Ok? ==> |o.calls| == |calls| + n) && (!o.rc.Ok? ==> |o.calls| > |calls|))
  }

  lemma {:induction false} RecordsAreDispatched(left: seq<Byte>, i: nat, n: nat, order: ByteOrder,
      respond: seq<Dispatch> -> ErrorCode, before: seq<Dispatch>, calls: seq<Dispatch>, errors: seq<ErrorCode>)
    requires i <= n && before <= calls && |calls| == |before| + i
    requires forall k :: |before| <= k < |calls| ==>
               calls[k].batchSize == n && (calls[k].last <==> k + 1 == |before| + n)
    requires forall k :: |before| < k <= |calls| ==> respond(calls[..k]).Ok?
    ensures Dispatches(ReadRecords(left, i, n, order, respond, calls, errors), n, respond, before, errors)
    decreases n - i
  {
    hide ReadRecord;
    assert calls[..|calls|] == calls;
    if i < n {
      var r := ReadRecord(left, order);
      RecordRead(left, order);
      if r.rc.Ok? {
        var calls' := calls + [Dispatch(r.data, r.length, i + 1 == n, n)];
        assert calls'[..|calls'|] == calls';
        assert forall k :: |before| < k <= |calls| ==> calls'[..k] == calls[..k];
        if respond(calls').Ok? {
          RecordsAreDispatched(r.rest, i + 1, n, order, respond, before, calls', errors);
        }
      }
    }
  }

  /**
   * The calls hand over the records of a batch payload one behind the other, each with the length its
   * length field claims and the bytes behind that, of which there may be fewer only at the very end.
   */
  ghost predicate Unpacks(left: seq<Byte>, ds: seq<Dispatch>, order: ByteOrder)
    decreases |ds|
  {
    ds == [] ||
    (&& |left| > 4 && ds[0].length == DecodeInt(left[..4], order) && ds[0].data <= left[4..]
     && (|ds[0].data| == ds[0].length || (|ds[0].data| < ds[0].length && 4 + |ds[0].data| == |left|))
     && Unpacks(left[4 + |ds[0].data|..], ds[1..], order))
  }

  lemma {:induction false} RecordsAreUnpacked(left: seq<Byte>, i: nat, n: nat, order: ByteOrder,
      respond: seq<Dispatch> -> ErrorCode, calls: seq<Dispatch>, errors: seq<ErrorCode>)
    requires i <= n
    ensures var o := ReadRecords(left, i, n, order, respond, calls, errors);
            calls <= o.calls && Unpacks(left, o.calls[|calls|..], order)
    decreases n - i
  {
    hide ReadRecord, DecodeInt;
    RecordRead(left, order);
    var r, o := ReadRecord(left, order), ReadRecords(left, i, n, order, respond, calls, errors);
    if i < n && r.rc.Ok? {
      var d := Dispatch(r.data, r.length, i + 1 == n, n);
      var calls' := calls + [d];
      if respond(calls').Ok? {
        RecordsAreUnpacked(r.rest, i + 1, n, order, respond, calls', errors);
        assert o.calls[..|calls'|] == calls';
      }
      assert o.calls[|calls|] == calls'[|calls|] == d;
      assert o.calls[|calls|..][1..] == o.calls[|calls'|..];
    }
  }

  /**
   * `readMsgFrame`. A compressed payload that does not have the announced length, a batch without a
   * count, and a count other than the header's are each reported once, and nothing is dispatched; any
   * other frame is handed over, a single message as it is and a batch record by record.
   */
  method ReadMsgFrame(h: MsgHeader, payload: seq<Byte>, order: ByteOrder, gz: Gzip, listener: FrameListener)
    returns (rc: ErrorCode)
    modifies listener
    ensures Outcome(listener.calls, listener.errors, rc)
         == ReadFrame(h, payload, order, gz, listener.respond, old(listener.calls), old(listener.errors))
    ensures var compressed, batch := h.flags % 2 == 1, h.flags / 2 % 2 == 1;
            var data := if compressed then gz.decompress(payload) else payload;
            var calls, errors := old(listener.calls), old(listener.errors);
            if compressed && |data| != h.uncompressedLength then
              rc.DataCorrupt? && listener.calls == calls && listener.errors == errors + [DataCorrupt]
            else if !batch then
              && listener.calls == calls + [Dispatch(data, |data|, true, 1)] && listener.errors == errors
              && rc == listener.respond(listener.calls)
            else if |data| < 4 then
              rc.EndOfStream? && listener.calls == calls && listener.errors == errors + [EndOfStream]
            else if DecodeInt(data[..4], order) != h.batchSize then
              rc.DataCorrupt? && listener.calls == calls && listener.errors == errors + [DataCorrupt]
            else
              && Dispatches(Outcome(listener.calls, listener.errors, rc), h.batchSize, listener.respond, calls, errors)
              && Unpacks(data[4..], listener.calls[|calls|..], order)
  {
    hide DecodeInt, ReadRecord, Dispatches, Unpacks;
    var data := payload;
    if HasFlag(h.flags, COMPRESSED) {
      data := gz.decompress(payload);
      if |data| != h.uncompressedLength {
        listener.HandleMsgError(DataCorrupt);
        return DataCorrupt;
      }
    }
    if !HasFlag(h.flags, BATCH) {
      rc := listener.HandleMsg(Dispatch(data, |data|, true, 1));
      return;
    }
    var reader := new MsgBatchReader(data, order);
    var size;
    rc, size := reader.ReadBatchSize();
    if !rc.Ok? {
      listener.HandleMsgError(rc);
      return;
    }
    if size != h.batchSize {
      listener.HandleMsgError(DataCorrupt);
      return DataCorrupt;
    }
    ghost var calls, errors := listener.calls, listener.errors;
    RecordsAreDispatched(data[4..], 0, size, order, listener.respond, calls, calls, errors);
    RecordsAreUnpacked(data[4..], 0, size, order, listener.respond, calls, errors);
    for i := 0 to size
      invariant reader.input.Valid() && rc.Ok?
      invariant ReadRecords(data[4..], 0, size, order, listener.respond, calls, errors)
             == ReadRecords(reader.Left(), i, size, order, listener.respond, listener.calls, listener.errors)
    {
      var msg, length;
      rc, msg, length := reader.ReadMsg();
      if !rc.Ok? {
        listener.HandleMsgError(rc);
        return;
      }
      rc := listener.HandleMsg(Dispatch(msg, length, i + 1 == size, size));
      if !rc.Ok? {
        return;
      }
    }
  }

  // ------------------------------------------------------- the round trip

  /** The dispatches a batch of buffers should come to: all in order, the final one marked last. */
  function Expected(bufs: seq<seq<Byte>>): (ds: seq<Dispatch>)
    ensures |ds| == |bufs|
    ensures forall i :: 0 <= i < |bufs| ==> ds[i] == Dispatch(bufs[i], |bufs[i]|, i + 1 == |bufs|, |bufs|)
  {
    seq(|bufs|, i requires 0 <= i < |bufs| => Dispatch(bufs[i], |bufs[i]|, i + 1 == |bufs|, |bufs|))
  }

  /** The outcome when exactly the first `k` of `ds` are dispatched: all of them, or up to the first refusal. */
  ghost predicate DispatchedPrefix(o: Outcome, ds: seq<Dispatch>, respond: seq<Dispatch> -> ErrorCode,
                                   calls: seq<Dispatch>, errors: seq<ErrorCode>)
  {
    && o.errors == errors
    && exists k :: 0 <= k <= |ds| && o.calls == calls + ds[..k]
         && (forall j :: 0 < j < k ==> respond(calls + ds[..j]).Ok?)
         && (if o.rc.Ok? then k == |ds| && (k > 0 ==> respond(calls + ds[..k]).Ok?)
             else k > 0 && o.rc == respond(calls + ds[..k]))
  }

  predicate LastNotEmpty(bufs: seq<seq<Byte>>) {
    bufs == [] || bufs[|bufs| - 1] != []
  }

  lemma {:induction false} DispatchesRest(bufs: seq<seq<Byte>>, i: nat, order: ByteOrder,
      respond: seq<Dispatch> -> ErrorCode, calls: seq<Dispatch>, errors: seq<ErrorCode>)
    requires i <= |bufs| && LastNotEmpty(bufs) && forall k :: 0 <= k < |bufs| ==> |bufs[k]| < UINT32
    requires forall j :: 0 < j <= i ==> respond(calls + Expected(bufs)[..j]).Ok?
    ensures DispatchedPrefix(
              ReadRecords(Records(bufs[i..], order), i, |bufs|, order, respond, calls + Expected(bufs)[..i], errors),
              Expected(bufs), respond, calls, errors)
    decreases |bufs| - i
  {
    hide RecordBytes, ReadRecord;
    var ds, n := Expected(bufs), |bufs|;
    if i < n {
      var t := Records(bufs[i + 1..], order);
      assert bufs[i..][0] == bufs[i] && bufs[i..][1..] == bufs[i + 1..];
      MoreToRead(bufs, i, order);
      RecordRoundTrip(bufs[i], t, order);
      assert ds[..i + 1] == ds[..i] + [ds[i]];
      assert (calls + ds[..i]) + [ds[i]] == calls + ds[..i + 1];
      if respond(calls + ds[..i + 1]).Ok? {
        DispatchesRest(bufs, i + 1, order, respond, calls, errors);
      }
    }
  }

  lemma MoreToRead(bufs: seq<seq<Byte>>, i: nat, order: ByteOrder)
    requires i < |bufs| && LastNotEmpty(bufs)
    ensures bufs[i] != [] || Records(bufs[i + 1..], order) != []
  {
  }

  lemma {:induction false} BuffersFit(bufs: seq<seq<Byte>>, k: nat)
    requires k < |bufs|
    ensures |bufs[k]| < 4 + |bufs[k]| <= RecordsSize(bufs) && |bufs| <= RecordsSize(bufs)
    decreases |bufs|
  {
    if k > 0 {
      BuffersFit(bufs[1..], k - 1);
    } else if |bufs| > 1 {
      BuffersFit(bufs[1..], 0);
    }
  }

  /**
   * Frame round trip: a batch frame prepared with the batch flag, from buffers that fit and do not end
   * with an empty one, dispatches exactly those buffers in order with the final one marked last, or
   * exactly the prefix up to the first one the listener refuses, with its result.
   */
  lemma FrameRoundTrip(bufs: seq<seq<Byte>>, order: ByteOrder, compress: bool, msgId: Uint16, flags: Uint16, gz: Gzip,
                       size: nat, respond: seq<Dispatch> -> ErrorCode, calls: seq<Dispatch>, errors: seq<ErrorCode>)
    requires Fits(bufs) && LastNotEmpty(bufs) && Lossless(gz) && HEADER_SIZE + size < UINT32
    requires HasFlag(flags, BATCH) && (compress || !HasFlag(flags, COMPRESSED))
    ensures var bytes := BatchBytes(bufs, order);
            && |bytes| < UINT32 && |bufs| < UINT32
            && DispatchedPrefix(
                 ReadFrame(FrameHeader(msgId, flags, compress, size, |bytes|, |bufs|),
                           if compress then gz.compress(bytes) else bytes, order, gz, respond, calls, errors),
                 Expected(bufs), respond, calls, errors)
  {
    hide EncodeInt, DecodeInt, RecordBytes, ReadRecord, ReadRecords, DispatchedPrefix, RecordsSize, Wrap;
    SizeIsBytesWritten(bufs, order);
    forall k | 0 <= k < |bufs| ensures |bufs[k]| < UINT32 && |bufs| < UINT32 { BuffersFit(bufs, k); }
    WidthBounds();
    IntRoundTrip(|bufs|, 4, order);
    var bytes := BatchBytes(bufs, order);
    assert bytes[..4] == EncodeInt(|bufs|, 4, order) && bytes[4..] == Records(bufs, order);
    assert bufs[0..] == bufs && calls + Expected(bufs)[..0] == calls;
    DispatchesRest(bufs, 0, order, respond, calls, errors);
  }

  /** With an accepting listener, an empty buffer at the end costs exactly that buffer, with an error. */
  lemma {:induction false} LosesEmptyLast(bufs: seq<seq<Byte>>, i: nat, order: ByteOrder,
      respond: seq<Dispatch> -> ErrorCode, calls: seq<Dispatch>, errors: seq<ErrorCode>)
    requires i < |bufs| && bufs[|bufs| - 1] == [] && (forall ds :: respond(ds).Ok?)
    requires forall k :: 0 <= k < |bufs| ==> |bufs[k]| < UINT32
    ensures ReadRecords(Records(bufs[i..], order), i, |bufs|, order, respond, calls + Expected(bufs)[..i], errors)
         == Outcome(calls + Expected(bufs)[..|bufs| - 1], errors + [EndOfStream], EndOfStream)
    decreases |bufs| - i
  {
    hide RecordBytes, ReadRecord;
    var ds, t := Expected(bufs), Records(bufs[i + 1..], order);
    assert bufs[i..][0] == bufs[i] && bufs[i..][1..] == bufs[i + 1..];
    if i + 1 == |bufs| {
      assert t == [] && RecordBytes([], order) + t == RecordBytes([], order);
      EmptyLastRecord(order);
    } else {
      assert t != [] by { RecordSplit(bufs[i + 1], order); }
      RecordRoundTrip(bufs[i], t, order);
      assert ds[..i + 1] == ds[..i] + [ds[i]];
      assert (calls + ds[..i]) + [ds[i]] == calls + ds[..i + 1];
      LosesEmptyLast(bufs, i + 1, order, respond, calls, errors);
    }
  }

  lemma {:induction false} DeliversAllRecords(bufs: seq<seq<Byte>>, i: nat, order: ByteOrder,
      respond: seq<Dispatch> -> ErrorCode, calls: seq<Dispatch>, errors: seq<ErrorCode>)
    requires i <= |bufs| && LastNotEmpty(bufs) && (forall ds :: respond(ds).Ok?)
    requires forall k :: 0 <= k < |bufs| ==> |bufs[k]| < UINT32
    ensures ReadRecords(Records(bufs[i..], order), i, |bufs|, order, respond, calls + Expected(bufs)[..i], errors)
         == Outcome(calls + Expected(bufs), errors, Ok)
  {
    hide ReadRecords, Records;
    var o := ReadRecords(Records(bufs[i..], order), i, |bufs|, order, respond, calls + Expected(bufs)[..i], errors);
    DispatchesRest(bufs, i, order, respond, calls, errors);
    assert Expected(bufs)[..|bufs|] == Expected(bufs);
    assert o.rc.Ok?;
    var k :| 0 <= k <= |bufs| && o.calls == calls + Expected(bufs)[..k] && k == |bufs|;
  }

  /**
   * With a listener that accepts everything, a prepared batch frame reads back completely if and only
   * if the batch flag is set and the last buffer is not empty.
   */
  lemma ReadsBackExactly(bufs: seq<seq<Byte>>, order: ByteOrder, compress: bool, msgId: Uint16, flags: Uint16, gz: Gzip,
                         size: nat, respond: seq<Dispatch> -> ErrorCode, calls: seq<Dispatch>, errors: seq<ErrorCode>)
    requires Fits(bufs) && Lossless(gz) && HEADER_SIZE + size < UINT32 && (compress || !HasFlag(flags, COMPRESSED))
    requires forall ds :: respond(ds).Ok?
    ensures var bytes := BatchBytes(bufs, order);
            && |bytes| < UINT32 && |bufs| < UINT32
            && (ReadFrame(FrameHeader(msgId, flags, compress, size, |bytes|, |bufs|),
                          if compress then gz.compress(bytes) else bytes, order, gz, respond, calls, errors)
                == Outcome(calls + Expected(bufs), errors, Ok)
                <==> HasFlag(flags, BATCH) && LastNotEmpty(bufs))
  {
    hide EncodeInt, DecodeInt, RecordBytes, ReadRecord, ReadRecords, RecordsSize, Wrap;
    SizeIsBytesWritten(bufs, order);
    forall k | 0 <= k < |bufs| ensures |bufs[k]| < UINT32 && |bufs| < UINT32 { BuffersFit(bufs, k); }
    WidthBounds();
    IntRoundTrip(|bufs|, 4, order);
    var bytes, ds := BatchBytes(bufs, order), Expected(bufs);
    assert bytes[..4] == EncodeInt(|bufs|, 4, order) && bytes[4..] == Records(bufs, order);
    assert bufs[0..] == bufs && calls + ds[..0] == calls;
    if !HasFlag(flags, BATCH) {
      NotOneMessage(bufs, bytes, order, calls);
    } else if LastNotEmpty(bufs) {
      DeliversAllRecords(bufs, 0, order, respond, calls, errors);
    } else {
      LosesEmptyLast(bufs, 0, order, respond, calls, errors);
    }
  }

  /** The payload of a batch is never one of its own buffers. */
  lemma NotOneMessage(bufs: seq<seq<Byte>>, bytes: seq<Byte>, order: ByteOrder, calls: seq<Dispatch>)
    requires Fits(bufs) && |bytes| == 4 + RecordsSize(bufs)
    ensures calls + [Dispatch(bytes, |bytes|, true, 1)] != calls + Expected(bufs)
  {
    var d := Dispatch(bytes, |bytes|, true, 1);
    if |bufs| == 1 {
      BuffersFit(bufs, 0);
      assert (calls + [d])[|calls|] == d && (calls + Expected(bufs))[|calls|] == Expected(bufs)[0];
    } else {
      assert |calls + [d]| != |calls + Expected(bufs)|;
    }
  }

  /**
   * A frame prepared for a single body reads back as that one message, whatever the listener answers,
   * if and only if the batch flag is not set on it: read as a batch, it never yields its own body.
   */
  lemma SingleReadsBackExactly(body: seq<Byte>, order: ByteOrder, compress: bool, msgId: Uint16, flags: Uint16,
                               gz: Gzip, size: nat, respond: seq<Dispatch> -> ErrorCode, calls: seq<Dispatch>,
                               errors: seq<ErrorCode>)
    requires |body| < UINT32 && Lossless(gz) && HEADER_SIZE + size < UINT32 && (compress || !HasFlag(flags, COMPRESSED))
    ensures var d := Dispatch(body, |body|, true, 1);
            (ReadFrame(FrameHeader(msgId, flags, compress, size, |body|, 1),
                       if compress then gz.compress(body) else body, order, gz, respond, calls, errors)
             == Outcome(calls + [d], errors, respond(calls + [d]))
             <==> !HasFlag(flags, BATCH))
  {
    hide DecodeInt, ReadRecords, ReadRecord;
    if HasFlag(flags, BATCH) && |body| >= 4 && DecodeInt(body[..4], order) == 1 {
      NeverItsOwnBody(body, order, respond, calls, errors);
    }
  }

  lemma NeverItsOwnBody(body: seq<Byte>, order: ByteOrder, respond: seq<Dispatch> -> ErrorCode,
                        calls: seq<Dispatch>, errors: seq<ErrorCode>)
    requires |body| >= 4
    ensures var d, o := Dispatch(body, |body|, true, 1), ReadRecords(body[4..], 0, 1, order, respond, calls, errors);
            o.calls != calls + [d] || o.errors != errors
  {
    var r := ReadRecord(body[4..], order);
    if r.rc.Ok? {
      var got := Dispatch(r.data, r.length, true, 1);
      assert |r.data| < |body|;
      assert (calls + [got])[|calls|] == got;
      assert ReadRecords(body[4..], 0, 1, order, respond, calls, errors).calls == calls + [got];
    } else {
      assert |errors + [r.rc]| > |errors|;
    }
  }
}
