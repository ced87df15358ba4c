/** Message batches (src/msg/msg_batch_writer.cpp, inc/msg/msg_batch_reader.h). */
module Batches {
  import opened Bytes
  import opened FixedStreams

  const UINT32: nat := 0x1_0000_0000

  /** A cast to `uint32_t`. */
  function Wrap(n: nat): (r: nat)
    ensures r < UINT32 && (n < UINT32 ==> r == n)
  {
    n % 0x1_0000_0000
  }

  lemma WrapIs(a: nat, q: nat, r: nat)
    requires a == 0x1_0000_0000 * q + r && r < UINT32
    ensures Wrap(a) == r
  {
  }

  /** Casting a summand first does not change the cast of the sum. */
  lemma WrapFirst(a: nat, b: nat)
    ensures Wrap(Wrap(a) + b) == Wrap(a + b)
  {
    var sum := Wrap(a) + b;
    var qa, q := a / 0x1_0000_0000, sum / 0x1_0000_0000;
    WrapIs(sum, q, sum - 0x1_0000_0000 * q);
    WrapIs(a + b, qa + q, sum - 0x1_0000_0000 * q);
  }

  lemma WrapSum(a: nat, b: nat)
    ensures Wrap(Wrap(a) + b) == Wrap(a + b) && Wrap(a + Wrap(b)) == Wrap(a + b)
  {
    hide Wrap;
    WrapFirst(a, b);
    WrapFirst(b, a);
    assert a + Wrap(b) == Wrap(b) + a && a + b == b + a;
  }

  /** The length field of a record is a 32-bit cast of the buffer size, and so is what is written behind it. */
  function RecordBytes(b: seq<Byte>, order: ByteOrder): seq<Byte> {
    EncodeInt(Wrap(|b|), 4, order) + b[..Wrap(|b|)]
  }

  function Records(bufs: seq<seq<Byte>>, order: ByteOrder): seq<Byte> {
    if bufs == [] then [] else RecordBytes(bufs[0], order) + Records(bufs[1..], order)
  }

  function BatchBytes(bufs: seq<seq<Byte>>, order: ByteOrder): seq<Byte> {
    EncodeInt(Wrap(|bufs|), 4, order) + Records(bufs, order)
  }

  function RecordsSize(bufs: seq<seq<Byte>>): nat {
    if bufs == [] then 0 else 4 + |bufs[0]| + RecordsSize(bufs[1..])
  }

  /** The batch, with its length fields, fits the 32-bit sizes of the protocol. */
  predicate Fits(bufs: seq<seq<Byte>>) {
    4 + RecordsSize(bufs) < UINT32
  }

  lemma {:induction false} RecordsSizeSplit(a: seq<seq<Byte>>, b: seq<seq<Byte>>)
    ensures RecordsSize(a + b) == RecordsSize(a) + RecordsSize(b)
  {
    if a == [] {
      assert a + b == b;
    } else {
      assert (a + b)[1..] == a[1..] + b;
      RecordsSizeSplit(a[1..], b);
    }
  }

  lemma {:induction false} RecordsSplit(a: seq<seq<Byte>>, b: seq<seq<Byte>>, order: ByteOrder)
    ensures Records(a + b, order) == Records(a, order) + Records(b, order)
  {
    hide RecordBytes;
    if a == [] {
      assert a + b == b;
    } else {
      assert (a + b)[1..] == a[1..] + b;
      RecordsSplit(a[1..], b, order);
    }
  }

  /** The computed size, with the wrap-around of its 32-bit sum. */
  method ComputePayloadSize(bufs: seq<seq<Byte>>) returns (size: nat)
    ensures size == Wrap(4 + RecordsSize(bufs))
  {
    hide Wrap;
    size := 4;
    for i := 0 to |bufs|
      invariant size == Wrap(4 + RecordsSize(bufs[..i]))
    {
      assert bufs[..i + 1] == bufs[..i] + [bufs[i]];
      RecordsSizeSplit(bufs[..i], [bufs[i]]);
      assert RecordsSize([bufs[i]]) == 4 + |bufs[i]|;
      WrapSum(4 + RecordsSize(bufs[..i]), 4);
      WrapSum(8 + RecordsSize(bufs[..i]), |bufs[i]|);
      size := Wrap(size + 4);
      WrapSum(size, |bufs[i]|);
      size := Wrap(size + Wrap(|bufs[i]|));
    }
    assert bufs[..|bufs|] == bufs;
  }

  /** `writeBatch`: it succeeds exactly when the whole batch fits the room left. */
  method WriteBatch(os: FixedOutputStream, bufs: seq<seq<Byte>>) returns (rc: ErrorCode)
    requires os.Valid()
    modifies os, os.buffer
    ensures os.Valid()
    ensures rc == if |BatchBytes(bufs, os.order)| > os.buffer.Length - old(os.offset) then NoMem else Ok
    ensures rc.Ok? ==> os.Written() == old(os.Written()) + BatchBytes(bufs, os.order)
    ensures rc.Ok? ==> os.offset == old(os.offset) + |BatchBytes(bufs, os.order)|
  {
    hide EncodeInt, RecordBytes, os.Written;
    ghost var order, start, from := os.order, os.Written(), os.offset;
    ghost var count := EncodeInt(Wrap(|bufs|), 4, order);
    rc := os.WriteInt(Wrap(|bufs|), 4);
    if !rc.Ok? { return; }
    for i := 0 to |bufs|
      invariant os.Valid() && rc.Ok?
      invariant os.Written() == start + count + Records(bufs[..i], order)
      invariant os.offset == from + 4 + |Records(bufs[..i], order)|
    {
      OneMore(bufs, i, order);
      var length := Wrap(|bufs[i]|);
      RecordSplit(bufs[i], order);
      rc := os.WriteInt(length, 4);
      if !rc.Ok? { return; }
      rc := os.WriteBytes(bufs[i][..length]);
      if !rc.Ok? { return; }
      WrittenSoFar(start, count, Records(bufs[..i], order), EncodeInt(length, 4, order), bufs[i][..length]);
    }
    assert bufs[..|bufs|] == bufs;
    assert start + count + Records(bufs, order) == start + (count + Records(bufs, order));
  }

  lemma RecordSplit(b: seq<Byte>, order: ByteOrder)
    ensures RecordBytes(b, order) == EncodeInt(Wrap(|b|), 4, order) + b[..Wrap(|b|)]
    ensures |RecordBytes(b, order)| == 4 + Wrap(|b|)
  {
  }

  lemma WrittenSoFar(start: seq<Byte>, count: seq<Byte>, done: seq<Byte>, length: seq<Byte>, data: seq<Byte>)
    ensures start + count + done + length + data == start + count + (done + (length + data))
  {
  }

  /** The first `i + 1` records are the first `i` and one more, and no longer than all of them. */
  lemma OneMore(bufs: seq<seq<Byte>>, i: nat, order: ByteOrder)
    requires i < |bufs|
    ensures Records(bufs[..i + 1], order) == Records(bufs[..i], order) + RecordBytes(bufs[i], order)
    ensures |Records(bufs, order)| >= |Records(bufs[..i], order)| + |RecordBytes(bufs[i], order)|
  {
    hide RecordBytes;
    assert bufs[..i + 1] == bufs[..i] + [bufs[i]];
    RecordsSplit(bufs[..i], [bufs[i]], order);
    assert Records([bufs[i]], order) == RecordBytes(bufs[i], order);
    assert bufs == bufs[..i + 1] + bufs[i + 1..];
    RecordsSplit(bufs[..i + 1], bufs[i + 1..], order);
  }

  lemma {:induction false} RecordsLength(bufs: seq<seq<Byte>>, order: ByteOrder)
    ensures Wrap(|Records(bufs, order)|) == Wrap(RecordsSize(bufs))
    ensures RecordsSize(bufs) < UINT32 ==> |Records(bufs, order)| == RecordsSize(bufs)
  {
    hide Wrap, RecordBytes;
    if bufs != [] {
      RecordsLength(bufs[1..], order);
      RecordSplit(bufs[0], order);
      var r, s, l := |Records(bufs[1..], order)|, RecordsSize(bufs[1..]), |bufs[0]|;
      WrapSum(4 + Wrap(l), r);
      WrapSum(4 + Wrap(l), s);
      WrapSum(4 + s, l);
    }
  }

  /** The computed size is the number of bytes written, as far as 32 bits can tell. */
  lemma SizeIsBytesWritten(bufs: seq<seq<Byte>>, order: ByteOrder)
    ensures Wrap(4 + RecordsSize(bufs)) == Wrap(|BatchBytes(bufs, order)|)
    ensures Fits(bufs) ==> 4 + RecordsSize(bufs) == |BatchBytes(bufs, order)|
  {
    hide EncodeInt, Wrap;
    RecordsLength(bufs, order);
    WrapSum(4, |Records(bufs, order)|);
    WrapSum(4, RecordsSize(bufs));
  }

  /** Into a payload of the computed size, a batch is written completely if and only if it is below 4 GiB. */
  lemma WritingSucceedsExactly(bufs: seq<seq<Byte>>, order: ByteOrder)
    ensures |BatchBytes(bufs, order)| <= Wrap(4 + RecordsSize(bufs)) <==> |BatchBytes(bufs, order)| < UINT32
  {
    hide Wrap;
    SizeIsBytesWritten(bufs, order);
  }

  // ------------------------------------------------------- reading

  /**
   * One record read from the bytes left: the length field may claim more than is left, in which case
   * the skip behind it is cut short and still succeeds. With nothing left behind the length field the
   * skip fails, even for a length of 0.
   */
  datatype Record = Record(rc: ErrorCode, data: seq<Byte>, length: nat, rest: seq<Byte>)

  function ReadRecord(left: seq<Byte>, order: ByteOrder): Record {
    if |left| < 4 then Record(EndOfStream, [], 0, left)
    else
      var length, t := DecodeInt(left[..4], order), left[4..];
      if t == [] then Record(EndOfStream, [], length, t)
      else Record(Ok, t[..Min(length, |t|)], length, t[Min(length, |t|)..])
  }

  /** A record that is read is a prefix of what follows its length field, cut short only by the end. */
  lemma RecordRead(left: seq<Byte>, order: ByteOrder)
    ensures var r := ReadRecord(left, order);
            && r.rc == (if |left| > 4 then Ok else EndOfStream)
            && (r.rc.Ok? ==>
                  && r.length == DecodeInt(left[..4], order) && r.data <= left[4..] && r.rest == left[4 + |r.data|..]
                  && (|r.data| == r.length || (|r.data| < r.length && r.rest == [])))
  {
    hide DecodeInt;
  }

  class MsgBatchReader {
    const input: FixedInputStream

    constructor (buffer: seq<Byte>, order: ByteOrder)
      ensures fresh(input) && input.Valid() && input.order == order && Left() == buffer
    {
      input := new FixedInputStream(buffer, order);
    }

    ghost function Left(): seq<Byte>
      requires input.Valid()
      reads input
    {
      input.buffer[input.offset..]
    }

    method ReadBatchSize() returns (rc: ErrorCode, size: nat)
      requires input.Valid()
      modifies input
      ensures input.Valid()
      ensures if |old(Left())| < 4 then rc == EndOfStream && Left() == old(Left())
              else rc == Ok && size == DecodeInt(old(Left())[..4], input.order) && Left() == old(Left())[4..]
    {
      rc, size := input.ReadInt(4);
      if rc.Ok? {
        SliceOfSlice(input.buffer, old(input.offset), 0, 4);
      }
    }

    /** The message is a view into the buffer, from the offset on; `length` is what the record claims. */
    method ReadMsg() returns (rc: ErrorCode, msg: seq<Byte>, length: nat)
      requires input.Valid()
      modifies input
      ensures input.Valid()
      ensures Record(rc, msg, length, Left()) == ReadRecord(old(Left()), input.order)
      ensures rc == if |old(Left())| > 4 then Ok else EndOfStream
      ensures rc.Ok? ==>
                && length == DecodeInt(old(Left())[..4], input.order)
                && msg <= old(Left())[4..] && Left() == old(Left())[4 + |msg|..]
                && (|msg| == length || (|msg| < length && Left() == []))
    {
      hide DecodeInt;
      RecordRead(Left(), input.order);
      msg := [];
      rc, length := input.ReadInt(4);
      if !rc.Ok? { return; }
      SliceOfSlice(input.buffer, old(input.offset), 0, 4);
      var at := input.offset;
      rc := input.SkipBytes(length);
      if rc.Ok? {
        msg := input.buffer[at..input.offset];
      }
    }
  }

  lemma SliceOfSlice(s: seq<Byte>, at: nat, lo: nat, hi: nat)
    requires lo <= hi && at + hi <= |s|
    ensures s[at..][lo..hi] == s[at + lo..at + hi] && s[at..][hi..] == s[at + hi..]
  {
  }

  /** A record that is not both empty and last reads back. */
  lemma RecordRoundTrip(b: seq<Byte>, t: seq<Byte>, order: ByteOrder)
    requires |b| < UINT32 && (b != [] || t != [])
    ensures ReadRecord(RecordBytes(b, order) + t, order) == Record(Ok, b, |b|, t)
  {
    hide EncodeInt, DecodeInt;
    WidthBounds();
    IntRoundTrip(|b|, 4, order);
    var left := RecordBytes(b, order) + t;
    assert left[..4] == EncodeInt(|b|, 4, order);
    assert left[4..] == b + t;
  }

  /** An empty buffer at the very end of a batch is written but cannot be read. */
  lemma EmptyLastRecord(order: ByteOrder)
    ensures ReadRecord(RecordBytes([], order), order).rc == EndOfStream
  {
    hide EncodeInt, DecodeInt;
  }
}
