/** The 40-byte frame header and its two decoders (src/msg/msg_header.cpp). */
module MsgHeaders {
  import opened Bytes
  import opened FixedStreams

  const MAGIC: seq<Byte> := [67, 79, 77, 85, 77, 69, 83, 71]
  const MAGIC_SIZE: nat := 8
  const HEADER_SIZE: nat := 40

  datatype MsgHeader = MsgHeader(
    magic: seq<Byte>,
    length: Uint32,
    msgId: Uint16,
    flags: Uint16,
    requestId: Uint64,
    requestIndex: Uint32,
    uncompressedLength: Uint32,
    batchSize: Uint32,
    reserved: Uint32)

  /** `magic` is a `char[8]`. */
  predicate Shaped(h: MsgHeader) {
    |h.magic| == MAGIC_SIZE
  }

  predicate IsValid(h: MsgHeader) {
    h.magic == MAGIC
  }

  /** The header constructor used for outgoing messages. */
  function NewHeader(length: Uint32, msgId: Uint16, flags: Uint16, requestId: Uint64, requestIndex: Uint32): MsgHeader {
    MsgHeader(MAGIC, length, msgId, flags, requestId, requestIndex, 0, 1, 0)
  }

  function Decode16(b: seq<Byte>, order: ByteOrder): Uint16
    requires |b| == 2
  {
    IntInverse(b, order); WidthBounds();
    DecodeInt(b, order)
  }

  function Decode32(b: seq<Byte>, order: ByteOrder): Uint32
    requires |b| == 4
  {
    IntInverse(b, order); WidthBounds();
    DecodeInt(b, order)
  }

  function Decode64(b: seq<Byte>, order: ByteOrder): Uint64
    requires |b| == 8
  {
    IntInverse(b, order); WidthBounds();
    DecodeInt(b, order)
  }

  /** The bytes of a header on the wire: its fields one behind the other. */
  function HeaderBytes(h: MsgHeader, order: ByteOrder): (b: seq<Byte>)
    requires Shaped(h)
    ensures |b| == HEADER_SIZE
  {
    h.magic + EncodeInt(h.length, 4, order) + EncodeInt(h.msgId, 2, order) + EncodeInt(h.flags, 2, order)
    + EncodeInt(h.requestId, 8, order) + EncodeInt(h.requestIndex, 4, order)
    + EncodeInt(h.uncompressedLength, 4, order) + EncodeInt(h.batchSize, 4, order) + EncodeInt(h.reserved, 4, order)
  }

  /** The header whose fields are decoded, each from its own place, in the given byte order. */
  function DecodeHeader(b: seq<Byte>, order: ByteOrder): (h: MsgHeader)
    requires |b| == HEADER_SIZE
    ensures Shaped(h)
  {
    MsgHeader(b[..8], Decode32(b[8..12], order), Decode16(b[12..14], order), Decode16(b[14..16], order),
      Decode64(b[16..24], order), Decode32(b[24..28], order), Decode32(b[28..32], order),
      Decode32(b[32..36], order), Decode32(b[36..40], order))
  }

  lemma SwapBounds(v: nat, n: nat)
    ensures Swap(v, n) < Pow256(n)
  {
    LeInverse(Reverse(LeBytes(v, n)));
  }

  /** `fromNetOrder`: swap every integer field where it stands. */
  function FromNetOrder(h: MsgHeader): MsgHeader {
    WidthBounds();
    SwapBounds(h.length, 4); SwapBounds(h.msgId, 2); SwapBounds(h.flags, 2); SwapBounds(h.requestId, 8);
    SwapBounds(h.requestIndex, 4); SwapBounds(h.uncompressedLength, 4); SwapBounds(h.batchSize, 4);
    SwapBounds(h.reserved, 4);
    h.(length := Swap(h.length, 4), msgId := Swap(h.msgId, 2), flags := Swap(h.flags, 2),
       requestId := Swap(h.requestId, 8), requestIndex := Swap(h.requestIndex, 4),
       uncompressedLength := Swap(h.uncompressedLength, 4), batchSize := Swap(h.batchSize, 4),
       reserved := Swap(h.reserved, 4))
  }

  // ------------------------------------------------------- the struct in memory

  /** A member of a C++ struct: its size and its natural alignment. */
  datatype Member = Member(size: nat, align: nat)

  /** The declared members: `char[8]`, then the integers, each aligned to its own size. */
  const MEMBERS: seq<Member> :=
    [Member(8, 1), Member(4, 4), Member(2, 2), Member(2, 2), Member(8, 8), Member(4, 4), Member(4, 4), Member(4, 4),
     Member(4, 4)]

  predicate Aligned(ms: seq<Member>) {
    forall i :: 0 <= i < |ms| ==> ms[i].align > 0
  }

  predicate IsMultiple(at: nat, align: nat)
    requires align > 0
  {
    at % align == 0
  }

  /** The first multiple of `align` that is not before `at`. */
  function AlignUp(at: nat, align: nat): (r: nat)
    requires align > 0
    ensures at <= r < at + align && (r == at <==> IsMultiple(at, align))
  {
    if at % align == 0 then at else at + align - at % align
  }

  /** Where a compiler puts member `i`: behind the one before, at the next aligned offset. */
  function Offset(ms: seq<Member>, i: nat): nat
    requires Aligned(ms) && i < |ms|
  {
    AlignUp(if i == 0 then 0 else Offset(ms, i - 1) + ms[i - 1].size, ms[i].align)
  }

  /** Where a stream puts the same field: directly behind the one before. */
  function Packed(ms: seq<Member>, i: nat): nat
    requires i < |ms|
  {
    if i == 0 then 0 else Packed(ms, i - 1) + ms[i - 1].size
  }

  /** The largest alignment among the first `n` members. */
  function MaxAlign(ms: seq<Member>, n: nat): (a: nat)
    requires n <= |ms|
    ensures a > 0
  {
    if n == 0 then 1
    else
      var rest := MaxAlign(ms, n - 1);
      if ms[n - 1].align > rest then ms[n - 1].align else rest
  }

  /** The end of the last member, padded to the alignment of the struct. */
  function SizeOf(ms: seq<Member>): nat
    requires Aligned(ms) && ms != []
  {
    AlignUp(Offset(ms, |ms| - 1) + ms[|ms| - 1].size, MaxAlign(ms, |ms|))
  }

  ghost predicate NoPadding(ms: seq<Member>)
    requires Aligned(ms)
  {
    forall i :: 0 <= i < |ms| ==> Offset(ms, i) == Packed(ms, i)
  }

  /** Every field of the stream lies at a multiple of its alignment. */
  ghost predicate NaturallyPlaced(ms: seq<Member>)
    requires Aligned(ms)
  {
    forall i :: 0 <= i < |ms| ==> IsMultiple(Packed(ms, i), ms[i].align)
  }

  /**
   * A struct can be overlaid on the bytes of a stream, member for member, if and only if every field of
   * the stream happens to lie at a multiple of its alignment.
   */
  lemma NoPaddingExactly(ms: seq<Member>)
    requires Aligned(ms)
    ensures NoPadding(ms) <==> NaturallyPlaced(ms)
  {
    hide IsMultiple, AlignUp, Offset, Packed;
    if NaturallyPlaced(ms) {
      forall i | 0 <= i < |ms| ensures Offset(ms, i) == Packed(ms, i) {
        NoPaddingBefore(ms, i);
      }
    }
    if NoPadding(ms) {
      forall i | 0 <= i < |ms| ensures IsMultiple(Packed(ms, i), ms[i].align) {
        NextMember(ms, i);
      }
    }
  }

  /** A member without padding before it, behind a member without padding, is one at a multiple. */
  lemma NextMember(ms: seq<Member>, i: nat)
    requires Aligned(ms) && i < |ms| && (i > 0 ==> Offset(ms, i - 1) == Packed(ms, i - 1))
    ensures Offset(ms, i) == Packed(ms, i) <==> IsMultiple(Packed(ms, i), ms[i].align)
  {
    hide IsMultiple, AlignUp;
  }

  lemma {:induction false} NoPaddingBefore(ms: seq<Member>, i: nat)
    requires Aligned(ms) && i < |ms| && NaturallyPlaced(ms)
    ensures Offset(ms, i) == Packed(ms, i)
  {
    hide IsMultiple, AlignUp, Offset, Packed;
    if i > 0 {
      NoPaddingBefore(ms, i - 1);
    }
    NextMember(ms, i);
  }

  /** The wire fields of the header lie where `HeaderBytes` writes them, all of them aligned. */
  lemma WireOffsets()
    ensures Packed(MEMBERS, 0) == 0 && Packed(MEMBERS, 1) == 8 && Packed(MEMBERS, 2) == 12 && Packed(MEMBERS, 3) == 14
    ensures Packed(MEMBERS, 4) == 16 && Packed(MEMBERS, 5) == 24 && Packed(MEMBERS, 6) == 28
    ensures Packed(MEMBERS, 7) == 32 && Packed(MEMBERS, 8) == 36
  {
    assert Packed(MEMBERS, 1) == 8;
    assert Packed(MEMBERS, 2) == 12;
    assert Packed(MEMBERS, 3) == 14;
    assert Packed(MEMBERS, 4) == 16;
    assert Packed(MEMBERS, 5) == 24;
    assert Packed(MEMBERS, 6) == 28;
    assert Packed(MEMBERS, 7) == 32;
  }

  lemma HeaderAlign()
    ensures MaxAlign(MEMBERS, 9) == 8
  {
    assert MaxAlign(MEMBERS, 2) == 4;
    assert MaxAlign(MEMBERS, 4) == 4;
    assert MaxAlign(MEMBERS, 5) == 8;
    assert MaxAlign(MEMBERS, 7) == 8;
  }

  /** The struct has no padding: its members lie where the wire fields lie, and it is 40 bytes long. */
  lemma HeaderLayout()
    ensures Aligned(MEMBERS) && SizeOf(MEMBERS) == HEADER_SIZE
    ensures Offset(MEMBERS, 0) == 0 && Offset(MEMBERS, 1) == 8 && Offset(MEMBERS, 2) == 12 && Offset(MEMBERS, 3) == 14
    ensures Offset(MEMBERS, 4) == 16 && Offset(MEMBERS, 5) == 24 && Offset(MEMBERS, 6) == 28
    ensures Offset(MEMBERS, 7) == 32 && Offset(MEMBERS, 8) == 36
  {
    hide Offset, Packed, MaxAlign;
    WireOffsets();
    HeaderAlign();
    NoPaddingExactly(MEMBERS);
    forall i | 0 <= i < 9 ensures IsMultiple(Packed(MEMBERS, i), MEMBERS[i].align) {
      assert i == 0 || i == 1 || i == 2 || i == 3 || i == 4 || i == 5 || i == 6 || i == 7 || i == 8;
    }
  }

  lemma MembersFit(i: nat)
    requires i < |MEMBERS|
    ensures Aligned(MEMBERS) && Offset(MEMBERS, i) + MEMBERS[i].size <= HEADER_SIZE
  {
    hide Offset, SizeOf;
    HeaderLayout();
    assert i == 0 || i == 1 || i == 2 || i == 3 || i == 4 || i == 5 || i == 6 || i == 7 || i == 8;
  }

  /** The bytes of the `i`-th member, in a struct laid out by the compiler over the bytes `b`. */
  function MemberBytes(b: seq<Byte>, i: nat): (f: seq<Byte>)
    requires |b| == HEADER_SIZE && i < |MEMBERS|
    ensures |f| == MEMBERS[i].size
  {
    MembersFit(i);
    b[Offset(MEMBERS, i)..Offset(MEMBERS, i) + MEMBERS[i].size]
  }

  /** The struct a little-endian host sees when the raw bytes are copied over it. */
  function Overlay(b: seq<Byte>): (h: MsgHeader)
    requires |b| == HEADER_SIZE
    ensures Shaped(h)
  {
    MsgHeader(MemberBytes(b, 0), Decode32(MemberBytes(b, 1), HostOrder), Decode16(MemberBytes(b, 2), HostOrder),
      Decode16(MemberBytes(b, 3), HostOrder), Decode64(MemberBytes(b, 4), HostOrder),
      Decode32(MemberBytes(b, 5), HostOrder), Decode32(MemberBytes(b, 6), HostOrder),
      Decode32(MemberBytes(b, 7), HostOrder), Decode32(MemberBytes(b, 8), HostOrder))
  }

  /** `peek` overlays the raw bytes on the struct, then fixes the byte order. */
  function PeekHeader(b: seq<Byte>, order: ByteOrder): MsgHeader
    requires |b| == HEADER_SIZE
  {
    if order.NetworkOrder? then FromNetOrder(Overlay(b)) else Overlay(b)
  }

  /** The overlay reads each field from its own place, as the reader of a host-order stream does. */
  lemma OverlayReadsFields(b: seq<Byte>)
    requires |b| == HEADER_SIZE
    ensures Overlay(b) == DecodeHeader(b, HostOrder)
  {
    hide Decode16, Decode32, Decode64, Offset, SizeOf;
    HeaderLayout();
  }

  /** Swapping a field read in host order is reading it in network order. */
  lemma SwapsFields(b: seq<Byte>)
    requires |b| == HEADER_SIZE
    ensures FromNetOrder(DecodeHeader(b, HostOrder)) == DecodeHeader(b, NetworkOrder)
  {
    hide Swap;
  }

  /** The header seen while waiting for it is the header deserialised with the body. */
  lemma DecodersAgree(b: seq<Byte>, order: ByteOrder)
    requires |b| == HEADER_SIZE
    ensures PeekHeader(b, order) == DecodeHeader(b, order)
  {
    hide Overlay, FromNetOrder, DecodeHeader;
    OverlayReadsFields(b);
    SwapsFields(b);
  }

  lemma HeaderRoundTrip(h: MsgHeader, order: ByteOrder)
    requires Shaped(h)
    ensures DecodeHeader(HeaderBytes(h, order), order) == h
  {
    hide EncodeInt, DecodeInt;
    WidthBounds();
    var b := HeaderBytes(h, order);
    assert b[8..12] == EncodeInt(h.length, 4, order);
    assert b[12..14] == EncodeInt(h.msgId, 2, order);
    assert b[14..16] == EncodeInt(h.flags, 2, order);
    assert b[16..24] == EncodeInt(h.requestId, 8, order);
    assert b[24..28] == EncodeInt(h.requestIndex, 4, order);
    assert b[28..32] == EncodeInt(h.uncompressedLength, 4, order);
    assert b[32..36] == EncodeInt(h.batchSize, 4, order);
    assert b[36..40] == EncodeInt(h.reserved, 4, order);
    IntRoundTrip(h.length, 4, order);
    IntRoundTrip(h.msgId, 2, order);
    IntRoundTrip(h.flags, 2, order);
    IntRoundTrip(h.requestId, 8, order);
    IntRoundTrip(h.requestIndex, 4, order);
    IntRoundTrip(h.uncompressedLength, 4, order);
    IntRoundTrip(h.batchSize, 4, order);
    IntRoundTrip(h.reserved, 4, order);
  }

  lemma HeaderInverse(b: seq<Byte>, order: ByteOrder)
    requires |b| == HEADER_SIZE
    ensures HeaderBytes(DecodeHeader(b, order), order) == b
  {
    hide EncodeInt, DecodeInt;
    IntInverse(b[8..12], order);
    IntInverse(b[12..14], order);
    IntInverse(b[14..16], order);
    IntInverse(b[16..24], order);
    IntInverse(b[24..28], order);
    IntInverse(b[28..32], order);
    IntInverse(b[32..36], order);
    IntInverse(b[36..40], order);
  }

  /** `MsgHeader::serialize`: nine writes, stopping at the first that finds no room. */
  method SerializeHeader(h: MsgHeader, os: FixedOutputStream) returns (rc: ErrorCode)
    requires Shaped(h) && os.Valid()
    modifies os, os.buffer
    ensures os.Valid()
    ensures rc == if HEADER_SIZE > os.buffer.Length - old(os.offset) then NoMem else Ok
    ensures rc.Ok? ==> os.Written() == old(os.Written()) + HeaderBytes(h, os.order)
    ensures rc.Ok? ==> os.offset == old(os.offset) + HEADER_SIZE
  {
    hide EncodeInt, os.Written;
    ghost var start := os.Written();
    rc := os.WriteBytes(h.magic);
    if !rc.Ok? { return; }
    rc := os.WriteInt(h.length, 4);
    if !rc.Ok? { return; }
    rc := os.WriteInt(h.msgId, 2);
    if !rc.Ok? { return; }
    rc := os.WriteInt(h.flags, 2);
    if !rc.Ok? { return; }
    rc := os.WriteInt(h.requestId, 8);
    if !rc.Ok? { return; }
    rc := os.WriteInt(h.requestIndex, 4);
    if !rc.Ok? { return; }
    rc := os.WriteInt(h.uncompressedLength, 4);
    if !rc.Ok? { return; }
    rc := os.WriteInt(h.batchSize, 4);
    if !rc.Ok? { return; }
    rc := os.WriteInt(h.reserved, 4);
    if !rc.Ok? { return; }
    FieldsInOrder(start, h.magic, EncodeInt(h.length, 4, os.order), EncodeInt(h.msgId, 2, os.order),
      EncodeInt(h.flags, 2, os.order), EncodeInt(h.requestId, 8, os.order), EncodeInt(h.requestIndex, 4, os.order),
      EncodeInt(h.uncompressedLength, 4, os.order), EncodeInt(h.batchSize, 4, os.order),
      EncodeInt(h.reserved, 4, os.order));
  }

  lemma FieldsInOrder(s: seq<Byte>, a: seq<Byte>, b: seq<Byte>, c: seq<Byte>, d: seq<Byte>, e: seq<Byte>,
                      f: seq<Byte>, g: seq<Byte>, i: seq<Byte>, j: seq<Byte>)
    ensures s + a + b + c + d + e + f + g + i + j == s + (a + b + c + d + e + f + g + i + j)
  {
  }
}
