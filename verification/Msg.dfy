/** Messages in memory: a header in front of a payload (src/msg/msg.cpp, src/msg/msg_header.cpp). */
module Msgs {
  import opened Bytes
  import opened SegmentedView
  import opened SegmentedInputStreams
  import opened FixedStreams
  import opened MsgHeaders

  /** A message: a header in front of a payload buffer of the size it was allocated with. */
  class Msg {
    var header: MsgHeader
    const payload: array<Byte>

    /** `allocMsg`: the length field counts header and payload. */
    constructor Alloc(msgId: Uint16, flags: Uint16, requestId: Uint64, requestIndex: Uint32, payloadSize: nat)
      requires HEADER_SIZE + payloadSize < 0x1_0000_0000
      ensures fresh(payload) && payload.Length == payloadSize
      ensures header == NewHeader(HEADER_SIZE + payloadSize, msgId, flags, requestId, requestIndex)
      ensures header.magic == MAGIC && header.length == HEADER_SIZE + payloadSize
      ensures header.msgId == msgId && header.flags == flags
      ensures header.requestId == requestId && header.requestIndex == requestIndex
      ensures header.uncompressedLength == 0 && header.batchSize == 1 && header.reserved == 0
    {
      header := NewHeader(HEADER_SIZE + payloadSize, msgId, flags, requestId, requestIndex);
      payload := new Byte[payloadSize];
    }

    /** `allocMsg(const MsgHeader&)`: room for the length the header announces. */
    constructor For(h: MsgHeader)
      requires HEADER_SIZE <= h.length
      ensures fresh(payload) && payload.Length == h.length - HEADER_SIZE
      ensures header.magic == MAGIC && header.length == h.length && header.msgId == h.msgId && header.flags == h.flags
      ensures header.requestId == h.requestId && header.requestIndex == h.requestIndex
      ensures header.uncompressedLength == 0 && header.batchSize == 1 && header.reserved == 0
    {
      header := NewHeader(h.length, h.msgId, h.flags, h.requestId, h.requestIndex);
      payload := new Byte[h.length - HEADER_SIZE];
    }

    method SetPayload(bytes: seq<Byte>)
      requires |bytes| <= payload.Length
      modifies payload
      ensures payload[..|bytes|] == bytes && payload[|bytes|..] == old(payload[|bytes|..])
    {
      forall i | 0 <= i < |bytes| {
        payload[i] := bytes[i];
      }
    }

    /** `Msg::serialize`: the header, then as many payload bytes as its length announces. */
    method Serialize(os: FixedOutputStream) returns (rc: ErrorCode)
      requires os.Valid() && os.buffer != payload && Shaped(header) && header.length == HEADER_SIZE + payload.Length
      modifies os, os.buffer
      ensures os.Valid()
      ensures rc == if HEADER_SIZE + payload.Length > os.buffer.Length - old(os.offset) then NoMem else Ok
      ensures rc.Ok? ==> os.Written() == old(os.Written()) + HeaderBytes(header, os.order) + payload[..]
    {
      hide HeaderBytes;
      rc := SerializeHeader(header, os);
      if rc.Ok? {
        rc := os.WriteBytes(payload[..]);
      }
    }

    /**
     * `Msg::deserialize`. The payload is read even if it is empty, so there must be a buffer left
     * behind the header; `complete` tells whether there is.
     */
    method Deserialize(input: SegmentedInputStream) returns (complete: bool)
      requires input.Valid() && HEADER_SIZE <= input.size
      requires var length := DecodeHeader(Flat(input.Contents())[..HEADER_SIZE], input.order).length;
               length <= input.size && length == HEADER_SIZE + payload.Length
      modifies this, payload, input
      ensures input.Valid() && input.OnlyDrops()
      ensures old(input.Contents()).bufs != []
      ensures var v := old(input.Contents()); var body := Consume(v, HEADER_SIZE);
              complete == (body.bufs != []) &&
              if complete then
                && payload.Length <= |Flat(body)|
                && header == DecodeHeader(Flat(v)[..HEADER_SIZE], input.order)
                && payload[..] == Flat(body)[..payload.Length] && input.Contents() == Consume(body, payload.Length)
              else input.Contents() == body
    {
      hide Flat, Consume, DecodeHeader, input.Linked, input.Accounted, Suffix;
      ghost var v, nodes := input.Contents(), input.nodes;
      header := DeserializeHeader(input);
      ghost var mid := input.nodes;
      FlatConsume(v, HEADER_SIZE);
      input.HeadIsFirst();
      if input.head == null {
        return false;
      }
      var bytes := input.ReadBytes(header.length - HEADER_SIZE);
      SuffixTrans(input.nodes, mid, nodes);
      SetPayload(bytes);
      assert payload[..] == bytes;
      return true;
    }
  }

  lemma FieldsAt(b: seq<Byte>, order: ByteOrder)
    requires |b| == HEADER_SIZE
    ensures var h := DecodeHeader(b, order);
            && h.magic == b[..8] && h.length == DecodeInt(b[8..12], order) && h.msgId == DecodeInt(b[12..14], order)
            && h.flags == DecodeInt(b[14..16], order) && h.requestId == DecodeInt(b[16..24], order)
            && h.requestIndex == DecodeInt(b[24..28], order)
            && h.uncompressedLength == DecodeInt(b[28..32], order)
            && h.batchSize == DecodeInt(b[32..36], order) && h.reserved == DecodeInt(b[36..40], order)
  {
  }

  /** After reading `a` bytes from `v`, the next `n` bytes are found behind them. */
  lemma NextField(v: View, a: nat, n: nat)
    requires WellFormed(v) && v.bufs != [] && 0 < n && a + n <= HEADER_SIZE <= |Flat(v)|
    ensures var w := Consume(v, a);
            && w.bufs != [] && |Flat(w)| == |Flat(v)| - a && n <= |Flat(w)|
            && Flat(w)[..n] == Flat(v)[..HEADER_SIZE][a..a + n] && Consume(w, n) == Consume(v, a + n)
  {
    hide Flat, Consume;
    FlatConsume(v, a);
    ConsumeTwice(v, a, n);
    assert Flat(v)[a..][..n] == Flat(v)[..HEADER_SIZE][a..a + n];
  }

  /** `MsgHeader::deserialize`: nine reads, field by field. */
  method DeserializeHeader(input: SegmentedInputStream) returns (h: MsgHeader)
    requires input.Valid() && input.size >= HEADER_SIZE
    modifies input
    ensures input.Valid() && input.OnlyDrops()
    ensures var v := old(input.Contents());
            && v.bufs != [] && h == DecodeHeader(Flat(v)[..HEADER_SIZE], input.order)
            && input.Contents() == Consume(v, HEADER_SIZE)
  {
    hide Flat, Consume, DecodeInt, DecodeHeader, input.Linked, input.Accounted, Suffix;
    ghost var v, order, nodes := input.Contents(), input.order, input.nodes;
    FlatNonEmpty(v);
    input.HeadIsFirst();
    ghost var b := Flat(v)[..HEADER_SIZE];
    var magic := input.ReadBytes(8);
    assert magic == b[..8] && input.Contents() == Consume(v, 8);
    var rc: ErrorCode;
    var length, msgId, flags, requestId, requestIndex, uncompressedLength, batchSize, reserved;
    NextField(v, 8, 4);
    rc, length := ReadField(input, v, 8, 4, nodes);
    rc, msgId := ReadField(input, v, 12, 2, nodes);
    rc, flags := ReadField(input, v, 14, 2, nodes);
    rc, requestId := ReadField(input, v, 16, 8, nodes);
    rc, requestIndex := ReadField(input, v, 24, 4, nodes);
    rc, uncompressedLength := ReadField(input, v, 28, 4, nodes);
    rc, batchSize := ReadField(input, v, 32, 4, nodes);
    rc, reserved := ReadField(input, v, 36, 4, nodes);
    FieldsAt(b, order);
    h := MsgHeader(magic, length, msgId, flags, requestId, requestIndex, uncompressedLength, batchSize, reserved);
  }

  /** One `COMM_DESERIALIZE_UINT*`, with the position it starts from. */
  method ReadField(input: SegmentedInputStream, ghost v: View, ghost a: nat, n: nat, ghost nodes: seq<BufferNode>)
    returns (rc: ErrorCode, value: nat)
    requires input.Valid() && Suffix(input.nodes, nodes)
    requires WellFormed(v) && v.bufs != [] && 0 < n && a + n <= HEADER_SIZE <= |Flat(v)|
    requires input.Contents() == Consume(v, a)
    modifies input
    ensures input.Valid() && Suffix(input.nodes, nodes) && input.appended == old(input.appended)
    ensures rc.Ok? && value == DecodeInt(Flat(v)[..HEADER_SIZE][a..a + n], input.order)
    ensures input.Contents() == Consume(v, a + n)
  {
    hide Flat, Consume, DecodeInt, input.Linked, input.Accounted;
    NextField(v, a, n);
    rc, value := input.ReadInt(n);
  }
}
