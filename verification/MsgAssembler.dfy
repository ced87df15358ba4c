/** The message assembler of one connection (src/msg/msg_assembler.cpp), proved equal to the machine. */
module MsgAssemblers {
  import opened Bytes
  import opened SegmentedView
  import opened SegmentedInputStreams
  import opened MsgHeaders
  import opened Msgs
  import opened AssemblyMachine
  import AsWritten

  datatype MsgState = WaitingHeader | WaitingBody | Resyncing

  /**
   * `MsgStream` with the messages handed to the listener. `broken` records that the source would have
   * left its own memory; the model stops there.
   */
  class MsgStream {
    const input: SegmentedInputStream
    var header: MsgHeader
    var state: MsgState
    var broken: bool
    var delivered: seq<Message>

    constructor (order: ByteOrder)
      ensures Valid() && fresh(input) && input.order == order && input.nodes == []
      ensures Abs() == Conn(WaitHeader, View([], 0), [])
    {
      input := new SegmentedInputStream(order);
      header := NewHeader(HEADER_SIZE, 0, 0, 0, 0);
      state, broken, delivered := WaitingHeader, false, [];
    }

    ghost function AbsMode(): Mode
      reads this
    {
      if broken then Broken
      else match state
           case WaitingHeader => WaitHeader
           case WaitingBody => WaitBody(header)
           case Resyncing => Resync
    }

    ghost function Abs(): Conn
      reads this, input
    {
      Conn(AbsMode(), input.Contents(), delivered)
    }

    /** The fields as they are, whether the size and the offset fit the buffers or not. */
    ghost function RawAbs(): AsWritten.Raw
      reads this, input
    {
      AsWritten.Raw(AbsMode(), input.Contents().bufs, input.offset, input.size, delivered)
    }

    ghost predicate Valid()
      reads this, input, input.nodes`next
    {
      input.Valid() && Inv(Abs(), input.order)
    }

    /**
     * `MsgStream::reset`, run on connect and disconnect: drop the bytes and look for the magic word. The
     * offset stays, so a slot used again starts in the state of which ReusedConnectionExactly speaks,
     * which counts the messages of the new connection only.
     */
    method Reset()
      requires Valid()
      modifies this, input
      ensures input.nodes == [] && input.size == 0 && state == Resyncing && delivered == old(delivered)
      ensures input.deallocated == input.appended && input.appended == old(input.appended)
      ensures Valid() <==> old(input.offset) == 0
      ensures Valid() && !broken ==> Abs() == Conn(Resync, View([], 0), delivered)
      ensures broken == old(broken)
      ensures !broken ==> RawAbs() == AsWritten.Raw(Resync, [], old(input.offset), 0, delivered)
    {
      input.Reset();
      state := Resyncing;
    }

    method OnWaitHeader() returns (progress: bool)
      requires Valid() && Abs().mode.WaitHeader?
      modifies this, input
      ensures Valid() && input.OnlyDrops()
      ensures Abs() == StepHeader(old(Abs()), input.order) && (progress <==> Abs() != old(Abs()))
    {
      hide Flat, Consume, DecodeHeader, Overlay, input.Linked, input.Accounted;
      StepProgress(Abs(), input.order);
      SuffixRefl(input.nodes);
      if input.size < HEADER_SIZE {
        return false;
      }
      FlatNonEmpty(input.Contents());
      input.HeadIsFirst();
      var bytes := input.PeekBytes(HEADER_SIZE);
      var h := Overlay(bytes);
      header := if input.order.NetworkOrder? then FromNetOrder(h) else h;
      if IsValid(header) {
        state := WaitingBody;
        return true;
      }
      var _ := input.SkipBytes(HEADER_SIZE);
      state := Resyncing;
      return true;
    }

    method OnWaitBody() returns (progress: bool)
      requires Valid() && Abs().mode.WaitBody?
      modifies this, input
      ensures Valid() && input.OnlyDrops()
      ensures Abs() == StepBody(old(Abs()), input.order) && (progress <==> Abs() != old(Abs()))
    {
      hide Flat, Consume, DecodeHeader, Overlay, input.Linked, input.Accounted;
      StepProgress(Abs(), input.order);
      SuffixRefl(input.nodes);
      if input.size < header.length {
        return false;
      }
      if header.length < HEADER_SIZE {
        broken := true;
        return true;
      }
      var msg := new Msg.For(header);
      var complete := msg.Deserialize(input);
      if !complete {
        broken := true;
        return true;
      }
      delivered := delivered + [Message(msg.header, msg.payload[..])];
      state := WaitingHeader;
      return true;
    }

    method OnResync() returns (progress: bool)
      requires Valid() && Abs().mode.Resync?
      modifies this, input
      ensures Valid() && input.OnlyDrops()
      ensures Abs() == StepResync(old(Abs()), input.order) && (progress <==> Abs() != old(Abs()))
    {
      hide Flat, Search, DecodeHeader, input.Linked, input.Accounted;
      StepProgress(Abs(), input.order);
      SuffixRefl(input.nodes);
      if input.size < MAGIC_SIZE {
        return false;
      }
      SearchMovesOrStays(input.Contents(), MAGIC);
      var before := input.size;
      var found, _ := input.SearchBytes(MAGIC);
      if !found {
        return input.size < before;
      }
      state := WaitingHeader;
      return true;
    }

    /** One round of the loop: the `switch` over the state. */
    method Round() returns (progress: bool)
      requires Valid() && !broken
      modifies this, input
      ensures Valid() && input.OnlyDrops()
      ensures Abs() == Step(old(Abs()), input.order) && (progress <==> Abs() != old(Abs()))
    {
      match state
      case WaitingHeader => progress := OnWaitHeader();
      case WaitingBody => progress := OnWaitBody();
      case Resyncing => progress := OnResync();
    }

    /** The loop of `onBytesReceived`: rounds until one of them changes nothing. */
    method AssembleMessages()
      requires Valid()
      modifies this, input
      ensures Valid() && input.OnlyDrops() && Abs() == Assemble(old(Abs()), input.order)
    {
      hide Flat, Step, input.Linked, input.Accounted, Suffix;
      ghost var order, start, nodes := input.order, Abs(), input.nodes;
      SuffixRefl(nodes);
      var progress := true;
      while progress && input.size != 0 && !broken
        invariant Valid() && Suffix(input.nodes, nodes) && input.appended == old(input.appended)
        invariant Assemble(Abs(), order) == Assemble(start, order)
        invariant !progress ==> Step(Abs(), order) == Abs()
        decreases |Flat(Abs().view)|, Rank(Abs().mode), progress
      {
        StepProgress(Abs(), order);
        ghost var mid := input.nodes;
        progress := Round();
        SuffixTrans(input.nodes, mid, nodes);
      }
      if broken {
        BrokenStays(Abs(), order);
      }
    }

    /** `onBytesReceived`: append the buffer and assemble until stuck. */
    method OnBytesReceived(buffer: Buffer)
      requires Valid()
      modifies this, input, input.nodes
      ensures Valid() && Abs() == Receive(old(Abs()), buffer, input.order)
      ensures input.appended == old(input.appended) + [buffer]
      ensures forall n :: n in input.nodes ==> n in old(input.nodes) || fresh(n)
    {
      hide Flat, Assemble, DecodeHeader, input.Linked, input.Accounted, Suffix;
      AppendKeepsInv(Abs(), buffer, input.order);
      input.AppendBuffer(buffer);
      ghost var nodes := input.nodes;
      AssembleMessages();
      SuffixElements(input.nodes, nodes);
    }
  }

  /** A run of `onBytesReceived`, buffer by buffer. */
  method ReceiveBuffers(stream: MsgStream, bufs: seq<Buffer>)
    requires stream.Valid()
    modifies stream, stream.input, stream.input.nodes
    ensures stream.Valid() && stream.Abs() == ReceiveAll(old(stream.Abs()), bufs, stream.input.order)
    ensures stream.input.appended == old(stream.input.appended) + bufs
  {
    hide Flat, Receive, ReceiveAll, Inv, stream.Abs, stream.input.Valid, stream.input.Contents;
    ghost var order := stream.input.order;
    assert bufs[0..] == bufs;
    for i := 0 to |bufs|
      invariant stream.Valid()
      invariant ReceiveAll(stream.Abs(), bufs[i..], order) == ReceiveAll(old(stream.Abs()), bufs, order)
      invariant stream.input.appended == old(stream.input.appended) + bufs[..i]
      invariant forall n :: n in stream.input.nodes ==> n in old(stream.input.nodes) || fresh(n)
    {
      ghost var c, nodes := stream.Abs(), stream.input.nodes;
      assert forall k :: 0 <= k < |nodes| ==> nodes[k] in nodes;
      stream.OnBytesReceived(bufs[i]);
      ReceiveFirst(c, bufs[i..], order);
      assert bufs[i..][0] == bufs[i] && bufs[i..][1..] == bufs[i + 1..];
      assert bufs[..i + 1] == bufs[..i] + [bufs[i]];
    }
    assert bufs[|bufs|..] == [] && bufs[..|bufs|] == bufs;
    ReceiveNone(stream.Abs(), order);
  }

  lemma ReceiveFirst(c: Conn, bufs: seq<Buffer>, order: ByteOrder)
    requires Inv(c, order) && bufs != []
    ensures ReceiveAll(c, bufs, order) == ReceiveAll(Receive(c, bufs[0], order), bufs[1..], order)
  {
  }

  lemma ReceiveNone(c: Conn, order: ByteOrder)
    requires Inv(c, order)
    ensures ReceiveAll(c, [], order) == c
  {
  }

  lemma SuffixElements<T>(r: seq<T>, s: seq<T>)
    requires Suffix(r, s)
    ensures forall x :: x in r ==> x in s
  {
  }
}
