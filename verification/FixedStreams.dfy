/** Streams over one fixed buffer (inc/io/fixed_output_stream.h, src/io/fixed_input_stream.cpp). */
module FixedStreams {
  import opened Bytes

  class FixedOutputStream {
    const order: ByteOrder
    const buffer: array<Byte>
    var offset: nat

    constructor (buffer: array<Byte>, order: ByteOrder)
      ensures Valid() && this.buffer == buffer && this.order == order && offset == 0
    {
      this.buffer, this.order, offset := buffer, order, 0;
    }

    ghost predicate Valid()
      reads this
    {
      offset <= buffer.Length
    }

    ghost function Written(): seq<Byte>
      requires Valid()
      reads this, buffer
    {
      buffer[..offset]
    }

    method WriteBytes(bytes: seq<Byte>) returns (rc: ErrorCode)
      requires Valid()
      modifies this, buffer
      ensures Valid()
      ensures rc == if |bytes| > buffer.Length - old(offset) then NoMem else Ok
      ensures offset == old(offset) + (if rc.Ok? then |bytes| else 0)
      ensures Written() == old(Written()) + (if rc.Ok? then bytes else [])
    {
      if |bytes| > buffer.Length - offset {
        return NoMem;
      }
      forall i | 0 <= i < |bytes| {
        buffer[offset + i] := bytes[i];
      }
      offset := offset + |bytes|;
      return Ok;
    }

    method WriteInt(v: nat, n: nat) returns (rc: ErrorCode)
      requires Valid()
      modifies this, buffer
      ensures Valid()
      ensures rc == if n > buffer.Length - old(offset) then NoMem else Ok
      ensures offset == old(offset) + (if rc.Ok? then n else 0)
      ensures Written() == old(Written()) + (if rc.Ok? then EncodeInt(v, n, order) else [])
    {
      rc := WriteBytes(EncodeInt(v, n, order));
    }
  }

  class FixedInputStream {
    const order: ByteOrder
    const buffer: seq<Byte>
    var offset: nat

    constructor (buffer: seq<Byte>, order: ByteOrder)
      ensures Valid() && this.buffer == buffer && this.order == order && offset == 0
    {
      this.buffer, this.order, offset := buffer, order, 0;
    }

    ghost predicate Valid()
      reads this
    {
      offset <= |buffer|
    }

    function Size(): nat
      requires Valid()
      reads this
    {
      |buffer| - offset
    }

    /** An exhausted stream reports its end even to a skip of no bytes; otherwise the skip is cut short. */
    method SkipBytes(length: nat) returns (rc: ErrorCode)
      requires Valid()
      modifies this
      ensures Valid()
      ensures rc == if old(Size()) == 0 then EndOfStream else Ok
      ensures offset == Min(old(offset) + length, |buffer|)
    {
      if Size() == 0 {
        return EndOfStream;
      }
      offset := offset + Min(length, Size());
      return Ok;
    }

    /** `read` of an `n`-byte integer with the byte order of the stream. */
    method ReadInt(n: nat) returns (rc: ErrorCode, v: nat)
      requires Valid() && n > 0
      modifies this
      ensures Valid()
      ensures if old(Size()) < n then rc == EndOfStream && v == 0 && offset == old(offset)
              else rc == Ok && offset == old(offset) + n
                   && v == DecodeInt(buffer[old(offset)..old(offset) + n], order)
    {
      if Size() < n {
        return EndOfStream, 0;
      }
      v := DecodeInt(buffer[offset..offset + n], order);
      offset := offset + n;
      return Ok, v;
    }
  }
}
