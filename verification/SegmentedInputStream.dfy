/** The linked list of buffers behind the segmented stream (src/io/segmented_input_stream.cpp). */
module SegmentedInputStreams {
  import opened Bytes
  import opened PatternSearch
  import opened SegmentedView

  class BufferNode {
    const buffer: Buffer
    var next: BufferNode?

    constructor (buffer: Buffer, next: BufferNode?)
      ensures this.buffer == buffer && this.next == next
    {
      this.buffer := buffer;
      this.next := next;
    }
  }

  ghost function BuffersOf(nodes: seq<BufferNode>): (bufs: seq<Buffer>)
    ensures |bufs| == |nodes|
    ensures forall i :: 0 <= i < |nodes| ==> bufs[i] == nodes[i].buffer
  {
    seq(|nodes|, i requires 0 <= i < |nodes| => nodes[i].buffer)
  }

  lemma DropAccounted(gone: seq<Buffer>, nodes: seq<BufferNode>)
    requires nodes != []
    ensures gone + BuffersOf(nodes) == (gone + [nodes[0].buffer]) + BuffersOf(nodes[1..])
  {
    assert BuffersOf(nodes) == [nodes[0].buffer] + BuffersOf(nodes[1..]);
  }

  lemma AddAccounted(gone: seq<Buffer>, nodes: seq<BufferNode>, node: BufferNode, offset: nat)
    ensures gone + BuffersOf(nodes + [node]) == (gone + BuffersOf(nodes)) + [node.buffer]
    ensures View(BuffersOf(nodes + [node]), offset) == Append(View(BuffersOf(nodes), offset), node.buffer)
  {
    assert BuffersOf(nodes + [node]) == BuffersOf(nodes) + [node.buffer];
  }

  class SegmentedInputStream {
    const order: ByteOrder
    var head: BufferNode?
    var tail: BufferNode?
    var offset: nat
    var size: nat
    /** The calls made to the buffer deallocator, in order. */
    var deallocated: seq<Buffer>
    ghost var nodes: seq<BufferNode>
    /** Every buffer ever appended, in order. */
    ghost var appended: seq<Buffer>

    constructor (order: ByteOrder)
      ensures Valid() && Contents() == View([], 0) && this.order == order && nodes == [] && offset == 0
    {
      this.order := order;
      head, tail, offset, size, deallocated := null, null, 0, 0, [];
      nodes, appended := [], [];
    }

    ghost function NodeAt(i: nat): BufferNode?
      reads `nodes
    {
      if i < |nodes| then nodes[i] else null
    }

    /** `nodes` are the distinct nodes from `head` along `next` to `tail`. */
    ghost predicate Linked()
      reads `head, `tail, `nodes, nodes`next
    {
      && head == NodeAt(0)
      && tail == (if nodes == [] then null else nodes[|nodes| - 1])
      && (forall i :: 0 <= i < |nodes| ==> nodes[i].next == NodeAt(i + 1))
      && (forall i, j :: 0 <= i < j < |nodes| ==> nodes[i] != nodes[j])
    }

    /** Every appended buffer is either still linked or was deallocated, once, in order. */
    ghost predicate Accounted()
      reads `appended, `deallocated, `nodes
    {
      appended == deallocated + BuffersOf(nodes)
    }

    ghost function Contents(): View
      reads `nodes, `offset
    {
      View(BuffersOf(nodes), offset)
    }

    /** The list is linked, the offset lies in the head, and the size is the number of bytes left. */
    ghost predicate Valid()
      reads this, nodes`next
    {
      Linked() && Accounted() && WellFormed(Contents()) && size == |Flat(Contents())|
    }

    /** The nodes now are the last of the nodes before. */
    twostate predicate OnlyDrops()
      reads `nodes, `appended
    {
      Suffix(nodes, old(nodes)) && appended == old(appended)
    }

    lemma HeadIsFirst()
      requires Linked()
      ensures head == null <==> nodes == []
      ensures head == null <==> Contents().bufs == []
      ensures head != null ==> head == nodes[0] && head.buffer == Contents().bufs[0]
      ensures head != null ==> (head.next == null <==> |nodes| == 1)
      ensures head != null && head.next != null ==> head.next.buffer == Contents().bufs[1]
    {
    }

    /** The stream's fields against its meaning. */
    lemma Inside()
      requires Valid()
      ensures WellFormed(Contents()) && size == |Flat(Contents())|
      ensures |nodes| == |Contents().bufs| && (head == null <==> nodes == [])
      ensures head != null ==> head.buffer == Contents().bufs[0] && offset == Contents().offset <= |head.buffer.data|
    {
      HeadIsFirst();
    }

    lemma NextInside()
      requires Valid() && head != null
      ensures nodes != [] && (head.next == null <==> |Contents().bufs| == 1)
      ensures head.next != null ==> |Contents().bufs| > 1 && head.next.buffer == Contents().bufs[1]
    {
      HeadIsFirst();
    }

    lemma NextInList(itr: BufferNode, k: nat)
      requires Linked() && k < |nodes| && itr == nodes[k]
      ensures itr.next == NodeAt(k + 1) && itr.buffer == BuffersOf(nodes)[k]
    {
    }

    /** The node becomes the tail. */
    method Link(node: BufferNode)
      requires Linked() && node.next == null && node !in nodes
      modifies `head, `tail, `nodes, nodes`next
      ensures Linked() && nodes == old(nodes) + [node] && tail == node
    {
      if head == null {
        head := node;
        tail := head;
      } else {
        tail.next := node;
        tail := tail.next;
      }
      nodes := nodes + [node];
    }

    method AppendBuffer(buffer: Buffer)
      requires Valid()
      modifies this, nodes
      ensures Valid() && Contents() == Append(old(Contents()), buffer)
      ensures tail != null && fresh(tail) && nodes == old(nodes) + [tail]
      ensures appended == old(appended) + [buffer] && deallocated == old(deallocated)
    {
      hide Flat, BuffersOf, Append, WellFormed, Linked;
      FlatAppend(Contents(), buffer);
      var node := new BufferNode(buffer, null);
      AddAccounted(deallocated, nodes, node, offset);
      Link(node);
      size := size + |buffer.data|;
      appended := appended + [buffer];
    }

    /**
     * Drops every buffer but leaves the offset alone, as the source does: the empty stream is well
     * formed again exactly when the offset was 0.
     */
    method Reset()
      requires Valid()
      modifies this
      ensures Linked() && nodes == [] && size == 0 && offset == old(offset)
      ensures Accounted() && appended == old(appended) && deallocated == appended
      ensures Valid() <==> old(offset) == 0
    {
      while head != null
        invariant Linked() && Accounted() && appended == old(appended) && offset == old(offset)
        invariant tail == null ==> nodes == []
        decreases |nodes|
      {
        DropFirst();
      }
      assert BuffersOf(nodes) == [];
      tail := null;
      size := 0;
    }

    /** Unlink the head and hand its buffer to the deallocator. */
    method DropFirst()
      requires Linked() && Accounted() && head != null
      modifies `head, `tail, `deallocated, `nodes
      ensures Linked() && Accounted() && nodes == old(nodes)[1..]
    {
      var node := head;
      DropAccounted(deallocated, nodes);
      deallocated := deallocated + [node.buffer];
      head := node.next;
      if head == null {
        tail := null;
      }
      nodes := nodes[1..];
    }

    method RemoveHead()
      requires Linked() && Accounted()
      modifies `head, `tail, `deallocated, `nodes, `offset
      ensures Linked() && Accounted()
      ensures if old(nodes) == [] then nodes == [] && offset == old(offset)
              else nodes == old(nodes)[1..] && Contents() == View(BuffersOf(old(nodes))[1..], 0)
    {
      if head != null {
        DropFirst();
        offset := 0;
        assert BuffersOf(nodes) == BuffersOf(old(nodes))[1..];
      }
    }

    /** Copies without consuming; the first buffer must exist because the source dereferences it. */
    method PeekBytes(length: nat) returns (bytes: seq<Byte>)
      requires Valid() && head != null
      ensures bytes == Flat(Contents())[..Min(size, length)]
    {
      hide Consume, Flat, Concat, CopyState, Linked, Accounted, Suffix, BuffersOf;
      var len := Min(size, length);
      bytes := [];
      HeadIsFirst();
      CopyStart(Contents(), len);
      SuffixRefl(BuffersOf(nodes));
      var itr, off: nat := head, offset;
      var toCopy := |itr.buffer.data| - off;
      ghost var rest := Contents();
      while |bytes| + toCopy < len
        invariant CopyState(Contents(), len, bytes, rest)
        invariant rest.bufs != [] && WellFormed(rest) && |bytes| <= len && Suffix(rest.bufs, BuffersOf(nodes))
        invariant |rest.bufs| <= |nodes| && itr == nodes[|nodes| - |rest.bufs|] && off == rest.offset
        invariant itr.buffer == rest.bufs[0]
        invariant toCopy == |itr.buffer.data| - off
        decreases |rest.bufs|
      {
        CopyWholeHead(Contents(), len, bytes, rest);
        TailOfSuffix(rest.bufs, BuffersOf(nodes));
        NextInList(itr, |nodes| - |rest.bufs|);
        bytes := bytes + itr.buffer.data[off..];
        rest := View(rest.bufs[1..], 0);
        SuffixHead(rest.bufs, BuffersOf(nodes));
        itr := itr.next;
        off := 0;
        toCopy := |itr.buffer.data|;
      }
      CopyLastPart(Contents(), len, bytes, rest);
      bytes := bytes + itr.buffer.data[off..off + (len - |bytes|)];
    }

    /** All that is left of the head is copied, and the head is removed. */
    method CopyHead() returns (bytes: seq<Byte>)
      requires Valid() && head != null
      modifies this
      ensures Valid() && nodes == old(nodes)[1..] && appended == old(appended)
      ensures old(Contents()).bufs != [] && Contents() == View(old(Contents()).bufs[1..], 0)
      ensures bytes == old(Contents()).bufs[0].data[old(offset)..]
    {
      hide Flat, Linked, Accounted;
      HeadIsFirst();
      FlatSplit(Contents());
      var toCopy := |head.buffer.data| - offset;
      bytes := head.buffer.data[offset..];
      size := size - toCopy;
      offset := offset + toCopy;
      RemoveHead();
    }

    /** The head is removed, with what is left of it; unlike at line 158 of the source, the size is lowered. */
    method DropWholeHead()
      requires Valid() && head != null
      modifies this
      ensures Valid() && nodes == old(nodes)[1..] && appended == old(appended)
      ensures old(Contents()).bufs != [] && Contents() == View(old(Contents()).bufs[1..], 0)
    {
      hide Flat, Linked, Accounted;
      HeadIsFirst();
      FlatSplit(Contents());
      size := size - (|head.buffer.data| - offset);
      RemoveHead();
    }

    /** Part of the head is copied; the head is removed if nothing of it is left. */
    method CopyWithinHead(toCopy: nat) returns (bytes: seq<Byte>)
      requires Valid() && head != null && offset + toCopy <= |head.buffer.data|
      modifies this
      ensures Valid() && OnlyDrops()
      ensures old(Contents()).bufs != [] && toCopy <= old(size) && Contents() == Consume(old(Contents()), toCopy)
      ensures bytes == old(Contents()).bufs[0].data[old(offset)..old(offset) + toCopy]
    {
      hide Flat, Consume, Linked, Accounted, Suffix;
      HeadIsFirst();
      SuffixRefl(nodes);
      TailOfSuffix(nodes, nodes);
      FlatSplit(Contents());
      ConsumeCases(Contents(), toCopy);
      FlatConsume(Contents(), toCopy);
      bytes := head.buffer.data[offset..offset + toCopy];
      size := size - toCopy;
      assert Linked() && Accounted();
      offset := offset + toCopy;
      assert Linked() && Accounted();
      if offset == |head.buffer.data| {
        RemoveHead();
      }
    }

    /** Consumes `length` bytes; `readBytes` and `skipBytes` differ only in what they do with them. */
    method CopyBytes(length: nat) returns (bytes: seq<Byte>)
      requires Valid() && head != null && length <= size
      modifies this
      ensures Valid() && OnlyDrops()
      ensures bytes == Flat(old(Contents()))[..length] && Contents() == Consume(old(Contents()), length)
    {
      hide Consume, Flat, CopyState, Valid, Contents, Suffix;
      bytes := [];
      ghost var v, start := Contents(), nodes;
      Inside();
      CopyStart(v, length);
      SuffixRefl(nodes);
      var toCopy := |head.buffer.data| - offset;
      while |bytes| + toCopy < length
        invariant Valid() && Suffix(nodes, start) && appended == old(appended)
        invariant CopyState(v, length, bytes, Contents()) && |bytes| <= length
        invariant head != null && offset <= |head.buffer.data| && toCopy == |head.buffer.data| - offset
        decreases |nodes|
      {
        Inside();
        CopyWholeHead(v, length, bytes, Contents());
        TailOfSuffix(nodes, start);
        var copied := CopyHead();
        bytes := bytes + copied;
        Inside();
        toCopy := |head.buffer.data|;
      }
      Inside();
      CopyLastPart(v, length, bytes, Contents());
      ghost var mid := nodes;
      var copied := CopyWithinHead(length - |bytes|);
      SuffixTrans(nodes, mid, start);
      bytes := bytes + copied;
    }

    method ReadBytes(length: nat) returns (bytes: seq<Byte>)
      requires Valid() && head != null
      modifies this
      ensures Valid() && OnlyDrops()
      ensures bytes == Flat(old(Contents()))[..Min(old(size), length)]
      ensures Contents() == Skip(old(Contents()), length)
    {
      bytes := CopyBytes(Min(size, length));
    }

    /** `read` of an `n`-byte integer with the byte order of the stream. */
    method ReadInt(n: nat) returns (rc: ErrorCode, v: nat)
      requires Valid() && n > 0
      modifies this
      ensures Valid() && OnlyDrops()
      ensures if old(size) < n then rc == EndOfStream && v == 0 && Contents() == old(Contents())
              else rc == Ok && old(Contents()).bufs != [] && Contents() == Consume(old(Contents()), n)
                   && v == DecodeInt(Flat(old(Contents()))[..n], order)
    {
      hide Flat, Consume, DecodeInt, Linked, Accounted;
      SuffixRefl(nodes);
      if size < n {
        return EndOfStream, 0;
      }
      FlatNonEmpty(Contents());
      HeadIsFirst();
      var bytes := ReadBytes(n);
      return Ok, DecodeInt(bytes, order);
    }

    method SkipBytes(length: nat) returns (skipped: nat)
      requires Valid() && head != null
      modifies this
      ensures Valid() && OnlyDrops()
      ensures skipped == Min(old(size), length) && Contents() == Skip(old(Contents()), length)
    {
      skipped := Min(size, length);
      var _ := CopyBytes(skipped);
    }

    /**
     * Search as the source writes it, from the start of the head buffer. The source forgets to
     * subtract the heads it drops whole; here they are subtracted, and `unaccounted` is the number of
     * bytes by which its `m_size` would now exceed the bytes left.
     */
    method SearchBytes(p: seq<Byte>) returns (found: bool, ghost unaccounted: nat)
      requires Valid()
      modifies this
      ensures Valid() && OnlyDrops()
      ensures var r := Search(old(Contents()), p);
              found == r.found && Contents() == r.view && unaccounted == r.unaccounted
    {
      hide Flat, Linked, Accounted, Search, SearchContinues, Suffix, BuffersOf;
      unaccounted := 0;
      ghost var v := Contents();
      HeadIsFirst();
      SearchContinuesHere(v, p);
      SuffixRefl(nodes);
      while head != null
        invariant Valid() && OnlyDrops() && (head == null <==> nodes == [])
        invariant SearchContinues(v, p, Contents(), unaccounted)
        decreases |nodes|
      {
        ghost var now, mid := Contents(), nodes;
        var done;
        ghost var left;
        done, found, left := SearchHead(p);
        SuffixTrans(nodes, mid, old(nodes));
        SearchContinuesAt(v, p, now, unaccounted);
        if done {
          return found, unaccounted;
        }
        SearchContinuesTwice(v, p, now, unaccounted, Contents(), left);
        unaccounted := unaccounted + left;
        HeadIsFirst();
      }
      SearchCases(Contents(), p);
      SearchContinuesAt(v, p, Contents(), unaccounted);
      return false, unaccounted;
    }

    /** One round of the search: it is done, or the head is dropped and the search goes on behind it. */
    method SearchHead(p: seq<Byte>) returns (done: bool, found: bool, ghost left: nat)
      requires Valid() && head != null
      modifies this
      ensures Valid() && OnlyDrops()
      ensures done ==> var r := Search(old(Contents()), p);
                       found == r.found && Contents() == r.view && r.unaccounted == 0
      ensures !done ==> |nodes| < |old(nodes)| && SearchContinues(old(Contents()), p, Contents(), left)
    {
      hide Flat, Search, Skip, SearchContinues, Suffix, IndexOf, Cut, Valid, Contents;
      Inside();
      NextInside();
      SuffixRefl(nodes);
      SearchCases(Contents(), p);
      left := 0;
      var b := head.buffer.data;
      if |p| > |b| {
        return true, false, 0;
      }
      var hit := Strnstr(b, p);
      if hit >= 0 {
        if hit > 0 {
          var _ := SkipBytes(hit);
        }
        return true, true, 0;
      }
      if head.next == null {
        var keep := FindKept(b, p);
        var _ := SkipBytes(keep);
        return true, false, 0;
      }
      var border := ScanBorder(b, head.next.buffer.data, p);
      if !border.NoMatch? {
        var _ := SkipBytes(border.offset);
        return true, border.Match?, 0;
      }
      TailOfSuffix(nodes, nodes);
      left := |b| - offset;
      DropWholeHead();
      return false, false, left;
    }

    /** The suffix loop of the last buffer. */
    static method FindKept(b: seq<Byte>, p: seq<Byte>) returns (offset: nat)
      requires |p| <= |b|
      ensures offset == KeepFrom(b, p, 0)
    {
      offset := |b| - |p|;
      for i := 0 to |p|
        invariant offset == |b| - |p| + i && KeepFrom(b, p, 0) == KeepFrom(b, p, i)
      {
        if StrNCmpEq(b[offset..], p, |p| - i) {
          break;
        }
        offset := offset + 1;
      }
    }

    /** The borderline loop between two buffers. */
    static method ScanBorder(b: seq<Byte>, next: seq<Byte>, p: seq<Byte>) returns (r: Borderline)
      requires |p| <= |b|
      ensures r == SearchBorder(b, next, p, 0)
    {
      var offset := |b| - |p|;
      for i := 0 to |p|
        invariant offset == |b| - |p| + i && SearchBorder(b, next, p, 0) == SearchBorder(b, next, p, i)
      {
        if |next| < i {
          return TooShort(offset);
        }
        if StrNCmpEq(b[offset..], p, |p| - i) && StrNCmpEq(next, p[|p| - i..], i) {
          return Match(offset);
        }
        offset := offset + 1;
      }
      return NoMatch;
    }
  }

  /** One of two bytes is read and the stream is reset: it is empty, yet its offset is 1. */
  method ResetInMidBuffer(order: ByteOrder) returns (s: SegmentedInputStream)
    ensures fresh(s) && s.nodes == [] && s.offset == 1 && !s.Valid()
  {
    var b := Buffer(1, [9, 9]);
    s := new SegmentedInputStream(order);
    s.AppendBuffer(b);
    assert s.Contents() == View([b], 0);
    assert Skip(View([b], 0), 1) == View([b], 1) by { ConcatOne(b); FlatOfPlain([b]); }
    s.HeadIsFirst();
    var _ := s.SkipBytes(1);
    s.Reset();
  }
}
