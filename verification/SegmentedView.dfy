/**
 * What the segmented stream means: a list of buffers and an offset into the first one, read as one
 * flat byte string. `Consume` and `Search` follow src/io/segmented_input_stream.cpp branch by branch;
 * the class in SegmentedInputStream.dfy is proved equal to them.
 */
module SegmentedView {
  import opened Bytes
  import opened PatternSearch

  /** A buffer handed over by the transport: its allocator handle and the bytes in it. */
  datatype Buffer = Buffer(handle: nat, data: seq<Byte>)

  datatype View = View(bufs: seq<Buffer>, offset: nat)

  function Concat(bufs: seq<Buffer>): seq<Byte> {
    if bufs == [] then [] else bufs[0].data + Concat(bufs[1..])
  }

  predicate WellFormed(v: View) {
    v.offset == 0 || (v.bufs != [] && v.offset < |v.bufs[0].data|)
  }

  function Flat(v: View): seq<Byte>
    requires WellFormed(v)
  {
    if v.bufs == [] then [] else v.bufs[0].data[v.offset..] + Concat(v.bufs[1..])
  }

  function Append(v: View, b: Buffer): View {
    View(v.bufs + [b], v.offset)
  }

  /** `copyBytes`: drop every buffer used up on the way, and the last one if it ends exactly there. */
  function Consume(v: View, n: nat): (r: View)
    requires WellFormed(v) && v.bufs != [] && n <= |Flat(v)|
    ensures WellFormed(r)
    decreases |v.bufs|
  {
    var left := |v.bufs[0].data| - v.offset;
    if left < n then Consume(View(v.bufs[1..], 0), n - left)
    else if left == n then View(v.bufs[1..], 0)
    else View(v.bufs, v.offset + n)
  }

  function Skip(v: View, n: nat): (r: View)
    requires WellFormed(v) && v.bufs != []
    ensures WellFormed(r)
  {
    Consume(v, Min(|Flat(v)|, n))
  }

  lemma {:induction false} ConcatAppend(a: seq<Buffer>, b: seq<Buffer>)
    ensures Concat(a + b) == Concat(a) + Concat(b)
  {
    if a == [] {
      assert a + b == b;
    } else {
      ConcatAppend(a[1..], b);
      ConcatHead(a + b, a[0], a[1..] + b);
      assert a[0].data + (Concat(a[1..]) + Concat(b)) == (a[0].data + Concat(a[1..])) + Concat(b);
    }
  }

  lemma ConcatHead(bufs: seq<Buffer>, first: Buffer, rest: seq<Buffer>)
    requires bufs == [first] + rest
    ensures bufs != [] && Concat(bufs) == first.data + Concat(rest)
  {
    assert bufs[1..] == rest;
  }

  lemma FlatAppend(v: View, b: Buffer)
    requires WellFormed(v)
    ensures WellFormed(Append(v, b)) && Flat(Append(v, b)) == Flat(v) + b.data
  {
    hide Concat;
    ConcatOne(b);
    if v.bufs == [] {
      assert v.bufs + [b] == [b];
      NoneLeft(b, v.offset);
    } else {
      ConcatAppend(v.bufs[1..], [b]);
      assert (v.bufs + [b])[1..] == v.bufs[1..] + [b] && (v.bufs + [b])[0] == v.bufs[0];
      var d, t := v.bufs[0].data[v.offset..], Concat(v.bufs[1..]);
      assert d + (t + b.data) == (d + t) + b.data;
    }
  }

  lemma ConcatOne(b: Buffer)
    ensures Concat([b]) == b.data
  {
    assert [b][1..] == [];
    assert b.data + [] == b.data;
  }

  lemma NoneLeft(b: Buffer, offset: nat)
    requires offset == 0
    ensures Flat(View([b], offset)) == [] + b.data
  {
    assert [b][1..] == [] && b.data[0..] + [] == b.data;
  }

  lemma FlatOfPlain(bufs: seq<Buffer>)
    ensures Flat(View(bufs, 0)) == Concat(bufs)
  {
  }

  lemma FlatNonEmpty(v: View)
    requires WellFormed(v) && Flat(v) != []
    ensures v.bufs != []
  {
  }

  lemma FlatSplit(v: View)
    requires WellFormed(v) && v.bufs != []
    ensures Flat(v) == v.bufs[0].data[v.offset..] + Flat(View(v.bufs[1..], 0))
  {
    FlatOfPlain(v.bufs[1..]);
  }

  ghost predicate Suffix<T>(r: seq<T>, s: seq<T>) {
    |r| <= |s| && r == s[|s| - |r|..]
  }

  lemma SuffixRefl<T>(s: seq<T>)
    ensures Suffix(s, s)
  {
  }

  lemma SuffixTrans<T>(r: seq<T>, m: seq<T>, s: seq<T>)
    requires Suffix(r, m) && Suffix(m, s)
    ensures Suffix(r, s)
  {
  }

  lemma SuffixHead<T>(r: seq<T>, s: seq<T>)
    requires Suffix(r, s) && r != []
    ensures |r| <= |s| && r[0] == s[|s| - |r|]
  {
  }

  lemma SuffixOfTail<T>(r: seq<T>, s: seq<T>)
    requires s != [] && Suffix(r, s[1..])
    ensures Suffix(r, s)
  {
  }

  lemma TailOfSuffix<T>(r: seq<T>, s: seq<T>)
    requires r != [] && Suffix(r, s)
    ensures Suffix(r[1..], s)
  {
  }

  /** Dropping `n` elements off the front of two strings. */
  lemma DropTwo(a: seq<Byte>, t: seq<Byte>, n: nat)
    requires n <= |a| + |t|
    ensures (a + t)[n..] == if n <= |a| then a[n..] + t else t[n - |a|..]
  {
  }

  /** The three ways of consuming: past the first buffer, to its end, or within it. */
  lemma ConsumeCases(v: View, n: nat)
    requires WellFormed(v) && v.bufs != [] && n <= |Flat(v)|
    ensures var left, rest := |v.bufs[0].data| - v.offset, View(v.bufs[1..], 0);
            && left >= 0
            && if left < n then rest.bufs != [] && n - left <= |Flat(rest)| && Consume(v, n) == Consume(rest, n - left)
               else if left == n then Consume(v, n) == rest
               else WellFormed(View(v.bufs, v.offset + n)) && Consume(v, n) == View(v.bufs, v.offset + n)
  {
    hide Flat;
    FlatSplit(v);
    if |v.bufs[0].data| - v.offset < n { FlatNonEmpty(View(v.bufs[1..], 0)); }
  }

  /** Consuming from the buffers consumes from the flat string, and only ever drops buffers off the front. */
  lemma {:induction false} FlatConsume(v: View, n: nat)
    requires WellFormed(v) && v.bufs != [] && n <= |Flat(v)|
    ensures Flat(Consume(v, n)) == Flat(v)[n..]
    ensures Suffix(Consume(v, n).bufs, v.bufs)
    decreases |v.bufs|
  {
    hide Flat, Consume, Suffix;
    var left, rest := |v.bufs[0].data| - v.offset, View(v.bufs[1..], 0);
    ConsumeCases(v, n);
    FlatSplit(v);
    DropTwo(v.bufs[0].data[v.offset..], Flat(rest), n);
    SuffixRefl(v.bufs);
    if left < n {
      FlatConsume(rest, n - left);
      SuffixOfTail(Consume(v, n).bufs, v.bufs);
    } else if left == n {
      TailOfSuffix(v.bufs, v.bufs);
      assert v.bufs[0].data[v.offset..][n..] == [];
    } else {
      FlatSplit(View(v.bufs, v.offset + n));
      assert v.bufs[0].data[v.offset..][n..] == v.bufs[0].data[v.offset + n..];
    }
  }

  /** Two reads in a row are one read of both lengths. */
  lemma {:induction false} ConsumeTwice(v: View, a: nat, b: nat)
    requires WellFormed(v) && v.bufs != [] && a + b <= |Flat(v)| && b > 0
    ensures Consume(v, a).bufs != [] && b <= |Flat(Consume(v, a))|
    ensures Consume(Consume(v, a), b) == Consume(v, a + b)
    decreases |v.bufs|
  {
    hide Flat, Consume;
    var left, rest := |v.bufs[0].data| - v.offset, View(v.bufs[1..], 0);
    ConsumeCases(v, a);
    ConsumeCases(v, a + b);
    FlatConsume(v, a);
    if left < a {
      ConsumeTwice(rest, a - left, b);
    } else if left == a {
      FlatNonEmpty(rest);
    } else {
      ConsumeCases(View(v.bufs, v.offset + a), b);
    }
  }

  /** Part of a copy of `length` bytes from `v` is done: `bytes` are copied and `rest` is still to be read. */
  ghost predicate CopyState(v: View, length: nat, bytes: seq<Byte>, rest: View) {
    && WellFormed(v) && WellFormed(rest) && v.bufs != [] && rest.bufs != []
    && Flat(v) == bytes + Flat(rest) && |bytes| <= length <= |Flat(v)|
    && Consume(v, length) == Consume(rest, length - |bytes|)
  }

  lemma CopyStart(v: View, length: nat)
    requires WellFormed(v) && v.bufs != [] && length <= |Flat(v)|
    ensures CopyState(v, length, [], v)
  {
  }

  lemma CopyWholeHead(v: View, length: nat, bytes: seq<Byte>, rest: View)
    requires CopyState(v, length, bytes, rest)
    requires |rest.bufs[0].data| - rest.offset < length - |bytes|
    ensures CopyState(v, length, bytes + rest.bufs[0].data[rest.offset..], View(rest.bufs[1..], 0))
    ensures Flat(rest) == rest.bufs[0].data[rest.offset..] + Flat(View(rest.bufs[1..], 0)) && |rest.bufs| >= 2
  {
    FlatSplit(rest);
    var d, t := rest.bufs[0].data[rest.offset..], Flat(View(rest.bufs[1..], 0));
    assert bytes + (d + t) == (bytes + d) + t;
  }

  lemma CopyLastPart(v: View, length: nat, bytes: seq<Byte>, rest: View)
    requires CopyState(v, length, bytes, rest)
    requires length - |bytes| <= |rest.bufs[0].data| - rest.offset
    ensures Flat(v)[..length]
         == bytes + rest.bufs[0].data[rest.offset..rest.offset + (length - |bytes|)]
    ensures var n := length - |bytes|;
            && n <= |Flat(rest)| && |Flat(Consume(rest, n))| == |Flat(rest)| - n
            && Consume(rest, n) == Consume(v, length)
            && Consume(rest, n) == if n == |rest.bufs[0].data| - rest.offset then View(rest.bufs[1..], 0)
                                   else View(rest.bufs, rest.offset + n)
  {
    FlatSplit(rest);
    var d := rest.bufs[0].data[rest.offset..];
    assert (bytes + Flat(rest))[..length] == bytes + Flat(rest)[..length - |bytes|];
    assert Flat(rest)[..length - |bytes|] == d[..length - |bytes|];
    FlatConsume(rest, length - |bytes|);
  }

  // ---------------------------------------------------------------- search

  /** `strncmp(a, b, n) == 0`. */
  function StrNCmpEq(a: seq<Byte>, b: seq<Byte>, n: nat): bool
    requires n <= |a| && n <= |b|
  {
    n == 0 || (a[0] == b[0] && (a[0] == 0 || StrNCmpEq(a[1..], b[1..], n - 1)))
  }

  /** Where the kept suffix of the last buffer starts: its longest partial match of `p`. */
  function KeepFrom(b: seq<Byte>, p: seq<Byte>, i: nat): nat
    requires i <= |p| <= |b|
    decreases |p| - i
  {
    var offset := |b| - |p| + i;
    if i == |p| || StrNCmpEq(b[offset..], p, |p| - i) then offset else KeepFrom(b, p, i + 1)
  }

  datatype Borderline = Match(offset: nat) | TooShort(offset: nat) | NoMatch

  /** The search at the border of two buffers, with `i` bytes expected from the second one. */
  function SearchBorder(b: seq<Byte>, next: seq<Byte>, p: seq<Byte>, i: nat): (r: Borderline)
    requires i <= |p| <= |b|
    decreases |p| - i
  {
    var offset := |b| - |p| + i;
    if i == |p| then NoMatch
    else if |next| < i then TooShort(offset)
    else if StrNCmpEq(b[offset..], p, |p| - i) && StrNCmpEq(next, p[|p| - i..], i) then Match(offset)
    else SearchBorder(b, next, p, i + 1)
  }

  /**
   * The outcome of a search: the remaining stream, how many flat bytes went, and how many of those
   * sat in buffers that line 158 drops without subtracting them from `m_size`.
   */
  datatype SearchResult = SearchResult(found: bool, view: View, consumed: nat, unaccounted: nat)

  function Search(v: View, p: seq<Byte>): (r: SearchResult)
    requires WellFormed(v)
    ensures WellFormed(r.view)
    decreases |v.bufs|
  {
    if v.bufs == [] then SearchResult(false, v, 0, 0)
    else
      var b := v.bufs[0].data;
      if |p| > |b| then SearchResult(false, v, 0, 0)
      else
        var hit := IndexOf(Cut(b), p);
        if hit == 0 then SearchResult(true, v, 0, 0)
        else if hit > 0 then SkipTo(true, v, hit)
        else if |v.bufs| == 1 then SkipTo(false, v, KeepFrom(b, p, 0))
        else
          match SearchBorder(b, v.bufs[1].data, p, 0)
          case Match(offset) => SkipTo(true, v, offset)
          case TooShort(offset) => SkipTo(false, v, offset)
          case NoMatch =>
            var left := |b| - v.offset;
            var r := Search(View(v.bufs[1..], 0), p);
            r.(consumed := left + r.consumed, unaccounted := left + r.unaccounted)
  }

  function SkipTo(found: bool, v: View, n: nat): (r: SearchResult)
    requires WellFormed(v) && v.bufs != []
    ensures WellFormed(r.view)
  {
    SearchResult(found, Skip(v, n), Min(|Flat(v)|, n), 0)
  }

  /** The search from `v` has dropped `unaccounted` bytes of whole buffers and goes on from `now`. */
  ghost predicate SearchContinues(v: View, p: seq<Byte>, now: View, unaccounted: nat) {
    && WellFormed(v) && WellFormed(now)
    && Search(v, p).found == Search(now, p).found && Search(v, p).view == Search(now, p).view
    && Search(v, p).unaccounted == unaccounted + Search(now, p).unaccounted
  }

  lemma SearchContinuesHere(v: View, p: seq<Byte>)
    requires WellFormed(v)
    ensures SearchContinues(v, p, v, 0)
  {
  }

  lemma SearchContinuesTwice(v: View, p: seq<Byte>, mid: View, n: nat, now: View, m: nat)
    requires SearchContinues(v, p, mid, n) && SearchContinues(mid, p, now, m)
    ensures SearchContinues(v, p, now, n + m)
  {
  }

  lemma SearchContinuesAt(v: View, p: seq<Byte>, now: View, n: nat)
    requires SearchContinues(v, p, now, n)
    ensures WellFormed(v) && WellFormed(now)
    ensures Search(v, p).found == Search(now, p).found && Search(v, p).view == Search(now, p).view
    ensures Search(v, p).unaccounted == n + Search(now, p).unaccounted
  {
  }

  /** The branches of one round of the search. */
  lemma SearchCases(v: View, p: seq<Byte>)
    requires WellFormed(v)
    ensures var r := Search(v, p);
      if v.bufs == [] || |p| > |v.bufs[0].data| then !r.found && r.view == v && r.unaccounted == 0
      else
        var b := v.bufs[0].data;
        var hit := IndexOf(Cut(b), p);
        if hit >= 0 then
          r.found && r.view == (if hit == 0 then v else Skip(v, hit)) && r.unaccounted == 0
        else if |v.bufs| == 1 then !r.found && r.view == Skip(v, KeepFrom(b, p, 0)) && r.unaccounted == 0
        else
          var border := SearchBorder(b, v.bufs[1].data, p, 0);
          if !border.NoMatch? then
            r.found == border.Match? && r.view == Skip(v, border.offset) && r.unaccounted == 0
          else SearchContinues(v, p, View(v.bufs[1..], 0), |b| - v.offset)
  {
  }

  /** The remaining stream is the old one without `consumed` bytes, and its buffers are the last ones. */
  ghost predicate Advances(v: View, r: SearchResult)
    requires WellFormed(v) && WellFormed(r.view)
  {
    && r.consumed <= |Flat(v)| && Flat(r.view) == Flat(v)[r.consumed..]
    && Suffix(r.view.bufs, v.bufs)
  }

  lemma SkipToAdvances(found: bool, v: View, n: nat)
    requires WellFormed(v) && v.bufs != []
    ensures Advances(v, SkipTo(found, v, n))
  {
    FlatConsume(v, Min(|Flat(v)|, n));
  }

  lemma AdvancesPastHead(v: View, r: SearchResult)
    requires WellFormed(v) && WellFormed(r.view) && v.bufs != [] && Advances(View(v.bufs[1..], 0), r)
    ensures Advances(v, r.(consumed := |v.bufs[0].data| - v.offset + r.consumed))
  {
    hide Flat;
    FlatSplit(v);
    SuffixOfTail(r.view.bufs, v.bufs);
    var left, rest := |v.bufs[0].data| - v.offset, View(v.bufs[1..], 0);
    DropTwo(v.bufs[0].data[v.offset..], Flat(rest), left + r.consumed);
  }

  lemma {:induction false} SearchConsumes(v: View, p: seq<Byte>)
    requires WellFormed(v)
    ensures Advances(v, Search(v, p))
    decreases |v.bufs|
  {
    if v.bufs != [] && |p| <= |v.bufs[0].data| {
      var b := v.bufs[0].data;
      var hit := IndexOf(Cut(b), p);
      if hit > 0 {
        SkipToAdvances(true, v, hit);
      } else if hit < 0 && |v.bufs| == 1 {
        SkipToAdvances(false, v, KeepFrom(b, p, 0));
      } else if hit < 0 {
        match SearchBorder(b, v.bufs[1].data, p, 0)
        case Match(offset) => SkipToAdvances(true, v, offset);
        case TooShort(offset) => SkipToAdvances(false, v, offset);
        case NoMatch =>
          SearchConsumes(View(v.bufs[1..], 0), p);
          AdvancesPastHead(v, Search(View(v.bufs[1..], 0), p));
      }
    }
  }
}
