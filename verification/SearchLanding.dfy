/**
 * Where a successful search leaves the stream, for every stream: any offset into the first buffer and
 * any bytes, zeros included. The pattern is zero-free, as the magic word is.
 */
module SearchLanding {
  import opened Bytes
  import opened PatternSearch
  import opened SegmentedView
  import opened SegmentedSearch

  /**
   * The search can see an occurrence at index `k` of the buffers: it ends before the first zero byte of
   * its buffer, or it ends in the next buffer, or with its own buffer if that is not the last one.
   */
  ghost predicate Seen(bufs: seq<Buffer>, p: seq<Byte>, k: int) {
    bufs != [] &&
    var b := bufs[0].data;
    if k < |b| then
      |p| <= |b| && (OccursAt(Cut(b), p, k) || (|bufs| > 1 && |b| - |p| <= k && OccursAt(b + bufs[1].data, p, k)))
    else Seen(bufs[1..], p, k - |b|)
  }

  ghost predicate FirstSeen(bufs: seq<Buffer>, p: seq<Byte>, k: int) {
    Seen(bufs, p, k) && forall j :: j < k ==> !Seen(bufs, p, j)
  }

  // ------------------------------------------------------- the border, against any bytes

  /** Against a zero-free string, `strncmp` compares all `n` bytes. */
  lemma {:induction false} StrNCmpWhole(a: seq<Byte>, p: seq<Byte>, n: nat)
    requires n <= |a| && n <= |p| && ZeroFree(p)
    ensures StrNCmpEq(a, p, n) <==> a[..n] == p[..n]
  {
    if n > 0 {
      StrNCmpWhole(a[1..], p[1..], n - 1);
      assert a[..n] == [a[0]] + a[1..][..n - 1];
      assert p[..n] == [p[0]] + p[1..][..n - 1];
    }
  }

  lemma SuffixZeroFree(p: seq<Byte>, k: nat)
    requires ZeroFree(p) && k <= |p|
    ensures ZeroFree(p[k..])
  {
  }

  lemma TwoParts(b: seq<Byte>, next: seq<Byte>, offset: nat, i: nat)
    requires offset <= |b| && i <= |next|
    ensures (b + next)[offset..|b| + i] == b[offset..] + next[..i]
  {
  }

  lemma Straddles(b: seq<Byte>, next: seq<Byte>, p: seq<Byte>, i: nat)
    requires i < |p| <= |b| && i <= |next| && ZeroFree(p)
    ensures StrNCmpEq(b[|b| - |p| + i..], p, |p| - i) && StrNCmpEq(next, p[|p| - i..], i)
       <==> OccursAt(b + next, p, |b| - |p| + i)
  {
    hide StrNCmpEq, ZeroFree;
    var offset, k := |b| - |p| + i, |p| - i;
    assert ZeroFree(p[k..]) by { SuffixZeroFree(p, k); }
    StrNCmpWhole(b[offset..], p, k);
    StrNCmpWhole(next, p[k..], i);
    StraddlesTwo(b[offset..], next, p, i);
    TwoParts(b, next, offset, i);
  }

  lemma OccursInside(a: seq<Byte>, p: seq<Byte>, k: int)
    ensures OccursAt(a, p, k) ==> 0 <= k && k + |p| <= |a|
  {
  }

  /** The border scan from `i` on finds the first occurrence that needs at least `i` bytes of the next buffer. */
  lemma {:induction false} BorderSees(b: seq<Byte>, next: seq<Byte>, p: seq<Byte>, i: nat)
    requires i <= |p| <= |b| && ZeroFree(p)
    ensures match SearchBorder(b, next, p, i)
            case Match(o) => |b| - |p| + i <= o < |b| && OccursAt(b + next, p, o)
                             && forall k :: |b| - |p| + i <= k < o ==> !OccursAt(b + next, p, k)
            case TooShort(o) => |next| < |p| && forall k :: |b| - |p| + i <= k < |b| ==> !OccursAt(b + next, p, k)
            case NoMatch => forall k :: |b| - |p| + i <= k < |b| ==> !OccursAt(b + next, p, k)
    decreases |p| - i
  {
    hide OccursAt, StrNCmpEq, ZeroFree;
    if i < |p| && i <= |next| {
      Straddles(b, next, p, i);
      if !OccursAt(b + next, p, |b| - |p| + i) {
        BorderSees(b, next, p, i + 1);
      }
    } else if i < |p| {
      forall k | |b| - |p| + i <= k ensures !OccursAt(b + next, p, k) {
        OccursInside(b + next, p, k);
      }
    }
  }

  // ------------------------------------------------------- what a failed search keeps

  predicate EndsWith(d: seq<Byte>, q: seq<Byte>) {
    |q| <= |d| && d[|d| - |q|..] == q
  }

  /** The suffix a failed search keeps of its last buffer is the longest one that is a prefix of the pattern. */
  lemma {:induction false} KeepsLongest(b: seq<Byte>, p: seq<Byte>, i: nat)
    requires i <= |p| <= |b| && ZeroFree(p)
    ensures var k := KeepFrom(b, p, i);
            && |b| - |p| + i <= k <= |b| && EndsWith(b, p[..|b| - k])
            && forall m :: |b| - k < m <= |p| - i ==> !EndsWith(b, p[..m])
    decreases |p| - i
  {
    var offset := |b| - |p| + i;
    if i < |p| {
      StrNCmpWhole(b[offset..], p, |p| - i);
      assert b[offset..][..|p| - i] == b[offset..];
      if b[offset..] != p[..|p| - i] {
        KeepsLongest(b, p, i + 1);
      }
    }
  }

  // ------------------------------------------------------- what the search finds from offset 0

  /** A search that reports the first occurrence it can see, and fails only if it sees none. */
  ghost predicate FindsFirstSeen(bufs: seq<Buffer>, p: seq<Byte>, r: SearchResult) {
    if r.found then FirstSeen(Reach(bufs, |p|), p, r.consumed)
    else forall k :: !Seen(Reach(bufs, |p|), p, k)
  }

  /** Nothing in a buffer without a hit before its zero byte, and nothing at its border. */
  lemma UnseenInHead(bufs: seq<Buffer>, p: seq<Byte>, k: int)
    requires bufs != [] && p != [] && IndexOf(Cut(bufs[0].data), p) == -1 && k < |bufs[0].data|
    requires |bufs| > 1 && |p| <= |bufs[0].data| && |bufs[0].data| - |p| <= k ==>
               !OccursAt(bufs[0].data + bufs[1].data, p, k)
    ensures !Seen(bufs, p, k)
  {
    IndexOfIsFirst(Cut(bufs[0].data), p);
  }

  lemma SeesHit(bufs: seq<Buffer>, p: seq<Byte>)
    requires bufs != [] && 0 < |p| <= |bufs[0].data| && IndexOf(Cut(bufs[0].data), p) != -1
    ensures FindsFirstSeen(bufs, p, Search(View(bufs, 0), p))
  {
    var b := bufs[0].data;
    var hit, rs := IndexOf(Cut(b), p), Reach(bufs, |p|);
    HeadDecides(bufs, p, hit);
    ReachHead(bufs, |p|);
    IndexOfIsFirst(Cut(b), p);
    assert hit + |p| <= |Cut(b)| <= |b|;
    assert Seen(rs, p, hit);
    forall j | j < hit ensures !Seen(rs, p, j) {
      assert !OccursAt(Cut(b), p, j);
    }
  }

  lemma SeesNoneInShortHead(bufs: seq<Buffer>, p: seq<Byte>)
    requires p != [] && (bufs == [] || |bufs[0].data| < |p|)
    ensures FindsFirstSeen(bufs, p, Search(View(bufs, 0), p))
  {
    forall k ensures !Seen(Reach(bufs, |p|), p, k) {
    }
  }

  lemma SeesNoneInLast(bufs: seq<Buffer>, p: seq<Byte>)
    requires |bufs| == 1 && 0 < |p| <= |bufs[0].data| && IndexOf(Cut(bufs[0].data), p) == -1
    ensures FindsFirstSeen(bufs, p, Search(View(bufs, 0), p))
  {
    LastBufferKeeps(bufs, p);
    forall k ensures !Seen(Reach(bufs, |p|), p, k) {
      if k < |bufs[0].data| { UnseenInHead(Reach(bufs, |p|), p, k); }
    }
  }

  lemma SeesAtBorder(bufs: seq<Buffer>, p: seq<Byte>)
    requires |bufs| >= 2 && 0 < |p| <= |bufs[0].data| && IndexOf(Cut(bufs[0].data), p) == -1 && ZeroFree(p)
    requires !SearchBorder(bufs[0].data, bufs[1].data, p, 0).NoMatch?
    ensures FindsFirstSeen(bufs, p, Search(View(bufs, 0), p))
  {
    var b, next, rs := bufs[0].data, bufs[1].data, Reach(bufs, |p|);
    hide SearchBorder;
    StopsAtBorder(bufs, p);
    BorderSees(b, next, p, 0);
    ReachTwo(bufs, |p|);
    ReachHead(bufs[1..], |p|);
    assert rs[0] == bufs[0] && rs[1] == bufs[1];
    match SearchBorder(b, next, p, 0)
    case Match(o) =>
      assert Seen(rs, p, o);
      forall j | j < o ensures !Seen(rs, p, j) {
        UnseenInHead(rs, p, j);
      }
    case TooShort(o) =>
      assert Reach(bufs[1..], |p|) == [bufs[1]] && rs[1..] == [bufs[1]];
      forall k ensures !Seen(rs, p, k) {
        if k < |b| { UnseenInHead(rs, p, k); } else { assert !Seen([bufs[1]], p, k - |b|); }
      }
  }

  lemma StopsAtBorder(bufs: seq<Buffer>, p: seq<Byte>)
    requires |bufs| >= 2 && 0 < |p| <= |bufs[0].data| && IndexOf(Cut(bufs[0].data), p) == -1
    requires !SearchBorder(bufs[0].data, bufs[1].data, p, 0).NoMatch?
    ensures var r, border := Search(View(bufs, 0), p), SearchBorder(bufs[0].data, bufs[1].data, p, 0);
            r.found == border.Match? && (border.Match? ==> r.consumed == Min(|Concat(bufs)|, border.offset))
    ensures |bufs[0].data| <= |Concat(bufs)|
  {
    FlatOfPlain(bufs);
  }

  lemma SeesBehindHead(bufs: seq<Buffer>, p: seq<Byte>)
    requires |bufs| >= 2 && 0 < |p| <= |bufs[0].data| && IndexOf(Cut(bufs[0].data), p) == -1 && ZeroFree(p)
    requires SearchBorder(bufs[0].data, bufs[1].data, p, 0).NoMatch?
    requires FindsFirstSeen(bufs[1..], p, Search(View(bufs[1..], 0), p))
    ensures FindsFirstSeen(bufs, p, Search(View(bufs, 0), p))
  {
    hide SearchBorder, Search, Seen, Reach, IndexOf, Cut, ZeroFree;
    BorderPassed(bufs, p);
    SeenShifts(bufs, p);
    FirstSeenBehind(Reach(bufs, |p|), Reach(bufs[1..], |p|), p, |bufs[0].data|, Search(View(bufs[1..], 0), p).consumed);
  }

  lemma SeenShifts(bufs: seq<Buffer>, p: seq<Byte>)
    requires |bufs| >= 2 && 0 < |p| <= |bufs[0].data| && IndexOf(Cut(bufs[0].data), p) == -1 && ZeroFree(p)
    requires SearchBorder(bufs[0].data, bufs[1].data, p, 0).NoMatch?
    ensures forall k :: Seen(Reach(bufs, |p|), p, k)
                        <==> k >= |bufs[0].data| && Seen(Reach(bufs[1..], |p|), p, k - |bufs[0].data|)
  {
    forall k ensures Seen(Reach(bufs, |p|), p, k)
                     <==> k >= |bufs[0].data| && Seen(Reach(bufs[1..], |p|), p, k - |bufs[0].data|)
    {
      hide *;
      SeenBehindHead(bufs, p, k);
    }
  }

  lemma SeenBehindHead(bufs: seq<Buffer>, p: seq<Byte>, k: int)
    requires |bufs| >= 2 && 0 < |p| <= |bufs[0].data| && IndexOf(Cut(bufs[0].data), p) == -1 && ZeroFree(p)
    requires SearchBorder(bufs[0].data, bufs[1].data, p, 0).NoMatch?
    ensures Seen(Reach(bufs, |p|), p, k) <==> k >= |bufs[0].data| && Seen(Reach(bufs[1..], |p|), p, k - |bufs[0].data|)
  {
    hide SearchBorder, OccursAt;
    ReachTwo(bufs, |p|);
    ReachHead(bufs[1..], |p|);
    var rs := Reach(bufs, |p|);
    assert rs[1..] == Reach(bufs[1..], |p|) && rs[0] == bufs[0] && rs[1] == bufs[1];
    if k < |bufs[0].data| {
      BorderSees(bufs[0].data, bufs[1].data, p, 0);
      UnseenInHead(rs, p, k);
    }
  }

  lemma FirstSeenBehind(rs: seq<Buffer>, tail: seq<Buffer>, p: seq<Byte>, n: nat, h: nat)
    requires forall k :: Seen(rs, p, k) <==> k >= n && Seen(tail, p, k - n)
    ensures FirstSeen(tail, p, h) ==> FirstSeen(rs, p, n + h)
    ensures (forall k :: !Seen(tail, p, k)) ==> forall k :: !Seen(rs, p, k)
  {
    hide Seen;
  }

  /** From offset 0, over any bytes: the search finds the first occurrence it can see, or there is none. */
  lemma {:induction false} SearchSees(bufs: seq<Buffer>, p: seq<Byte>)
    requires p != [] && ZeroFree(p)
    ensures FindsFirstSeen(bufs, p, Search(View(bufs, 0), p))
  {
    hide Search, SearchBorder, FindsFirstSeen;
    if bufs == [] || |bufs[0].data| < |p| {
      SeesNoneInShortHead(bufs, p);
    } else if IndexOf(Cut(bufs[0].data), p) != -1 {
      SeesHit(bufs, p);
    } else if |bufs| == 1 {
      SeesNoneInLast(bufs, p);
    } else if SearchBorder(bufs[0].data, bufs[1].data, p, 0).NoMatch? {
      SearchSees(bufs[1..], p);
      SeesBehindHead(bufs, p);
    } else {
      SeesAtBorder(bufs, p);
    }
  }

  // ------------------------------------------------------- occurrences

  /** What is seen is there. */
  lemma {:induction false} SeenOccurs(bufs: seq<Buffer>, p: seq<Byte>, k: int)
    requires Seen(Reach(bufs, |p|), p, k) && p != []
    ensures OccursAt(Concat(bufs), p, k)
  {
    var b, rs, t := bufs[0].data, Reach(bufs, |p|), Concat(bufs[1..]);
    ReachHead(bufs, |p|);
    if k >= |b| {
      ReachTwo(bufs, |p|);
      assert rs[1..] == Reach(bufs[1..], |p|);
      SeenOccurs(bufs[1..], p, k - |b|);
      OccursInSuffix(b, t, p, k);
    } else if OccursAt(Cut(b), p, k) {
      OccursInCut(b, p, k);
      OccursInPrefix(b, t, p, k);
    } else {
      ReachTwo(bufs, |p|);
      ReachHead(bufs[1..], |p|);
      ConcatTwo(bufs);
      OccursInPrefix(b + bufs[1].data, Concat(bufs[2..]), p, k);
    }
  }

  /** Over zero-free bytes, everything within the reach of the search is seen. */
  lemma {:induction false} SeesEverything(bufs: seq<Buffer>, p: seq<Byte>, k: int)
    requires p != [] && ZeroFree(Concat(Reach(bufs, |p|))) && OccursAt(Concat(Reach(bufs, |p|)), p, k)
    ensures Seen(Reach(bufs, |p|), p, k)
  {
    var rs := Reach(bufs, |p|);
    var b, t := bufs[0].data, Concat(rs[1..]);
    ReachHead(bufs, |p|);
    PrefixesZeroFree(b, t);
    CutZeroFree(b);
    if |rs| == 1 {
      assert Concat(rs) == b;
    } else if k >= |b| {
      ReachTwo(bufs, |p|);
      assert rs[1..] == Reach(bufs[1..], |p|);
      OccursInSuffix(b, t, p, k);
      SeesEverything(bufs[1..], p, k - |b|);
    } else if k + |p| <= |b| {
      OccursInPrefix(b, t, p, k);
    } else {
      SeesStraddling(bufs, p, k);
    }
  }

  /** An occurrence that starts in the first buffer and leaves it ends in the second. */
  lemma SeesStraddling(bufs: seq<Buffer>, p: seq<Byte>, k: int)
    requires p != [] && |Reach(bufs, |p|)| > 1 && OccursAt(Concat(Reach(bufs, |p|)), p, k)
    requires |bufs[0].data| - |p| < k < |bufs[0].data|
    ensures Seen(Reach(bufs, |p|), p, k)
  {
    var rs := Reach(bufs, |p|);
    var b, next := bufs[0].data, bufs[1].data;
    ReachTwo(bufs, |p|);
    ReachHead(bufs[1..], |p|);
    assert rs[0] == bufs[0] && rs[1] == bufs[1] && |b| >= |p|;
    var rest := Concat(Reach(bufs[1..], |p|)[1..]);
    if |next| < |p| {
      assert Reach(bufs[1..], |p|) == [bufs[1]] && rest == [] && (b + next) + rest == b + next;
    } else {
      OccursInPrefix(b + next, rest, p, k);
    }
  }

  // ------------------------------------------------------- any offset

  /** The search ignores the offset, but its skips start there. */
  lemma SearchAtOffset(v: View, p: seq<Byte>)
    requires WellFormed(v) && v.bufs != [] && p != []
    ensures var r, plain, b := Search(v, p), Search(View(v.bufs, 0), p), v.bufs[0].data;
            && r.found == plain.found
            && (r.found ==> r.consumed == if |b| <= plain.consumed then plain.consumed - v.offset
                                          else Min(|Flat(v)|, plain.consumed))
  {
    hide Flat, Skip, SearchBorder, KeepFrom, IndexOf, Cut;
    var b := v.bufs[0].data;
    FlatSplit(View(v.bufs, 0));
    IndexOfInside(Cut(b), p);
    CutInside(b);
    if |p| <= |b| && IndexOf(Cut(b), p) == -1 && |v.bufs| > 1 {
      if SearchBorder(b, v.bufs[1].data, p, 0).Match? {
        BorderOffset(b, v.bufs[1].data, p, 0);
      }
    }
  }

  lemma IndexOfInside(a: seq<Byte>, p: seq<Byte>)
    requires p != []
    ensures IndexOf(a, p) < |a| || IndexOf(a, p) == -1
  {
    IndexOfIsFirst(a, p);
  }

  lemma CutInside(b: seq<Byte>)
    ensures |Cut(b)| <= |b|
  {
  }

  lemma {:induction false} BorderOffset(b: seq<Byte>, next: seq<Byte>, p: seq<Byte>, i: nat)
    requires i <= |p| <= |b| && SearchBorder(b, next, p, i).Match?
    ensures |b| - |p| + i <= SearchBorder(b, next, p, i).offset < |b|
    decreases |p| - i
  {
    if SearchBorder(b, next, p, i) != Match(|b| - |p| + i) {
      BorderOffset(b, next, p, i + 1);
    }
  }

  lemma FlatIsTail(v: View)
    requires WellFormed(v) && v.bufs != []
    ensures v.offset <= |Concat(v.bufs)| && Flat(v) == Concat(v.bufs)[v.offset..]
  {
  }

  lemma OccursBehind(a: seq<Byte>, o: nat, p: seq<Byte>, k: int)
    requires o <= |a|
    ensures OccursAt(a[o..], p, k) <==> k >= 0 && OccursAt(a, p, o + k)
  {
    if k >= 0 && o + k + |p| <= |a| { assert a[o..][k..k + |p|] == a[o + k..o + k + |p|]; }
  }

  /** The remaining bytes start with the pattern exactly if it occurs where the search stopped. */
  lemma StandsAt(v: View, p: seq<Byte>)
    requires WellFormed(v)
    ensures var r := Search(v, p); p <= Flat(r.view) <==> OccursAt(Flat(v), p, r.consumed)
  {
    hide Search, Flat;
    SearchConsumes(v, p);
    var r := Search(v, p);
    if r.consumed + |p| <= |Flat(v)| {
      assert Flat(v)[r.consumed..][..|p|] == Flat(v)[r.consumed..r.consumed + |p|];
    }
  }

  /**
   * A successful search leaves the stream at the pattern if and only if no byte of the first buffer was
   * consumed before, or the first occurrence it can see lies behind the first buffer, or the pattern
   * happens to occur `offset` bytes behind that occurrence too.
   */
  lemma LandsOnPatternExactly(v: View, p: seq<Byte>, h: nat)
    requires WellFormed(v) && p != [] && ZeroFree(p) && FirstSeen(Reach(v.bufs, |p|), p, h)
    ensures Search(v, p).found && v.bufs != []
    ensures p <= Flat(Search(v, p).view)
       <==> v.offset == 0 || |v.bufs[0].data| <= h || OccursAt(Concat(v.bufs), p, v.offset + h)
  {
    hide Search, Flat, Seen, OccursAt, Reach, Concat;
    var all, n := Concat(v.bufs), Search(v, p).consumed;
    Located(v, p, h);
    StandsAt(v, p);
    FlatIsTail(v);
    SeenOccurs(v.bufs, p, h);
    OccursBehind(all, v.offset, p, n);
    OccursInside(all, p, v.offset + n);
    OccursInside(all, p, v.offset + h);
  }

  lemma Located(v: View, p: seq<Byte>, h: nat)
    requires WellFormed(v) && p != [] && ZeroFree(p) && FirstSeen(Reach(v.bufs, |p|), p, h)
    ensures v.bufs != [] && Search(v, p).found
    ensures Search(v, p).consumed == if |v.bufs[0].data| <= h then h - v.offset else Min(|Flat(v)|, h)
  {
    hide Search, Flat;
    SearchSees(v.bufs, p);
    assert v.bufs != [];
    SearchAtOffset(v, p);
    var k := Search(View(v.bufs, 0), p).consumed;
    assert !(k < h) && !(h < k);
  }

  /** A search fails exactly if it sees no occurrence, whatever the offset. */
  lemma FailsExactly(v: View, p: seq<Byte>)
    requires WellFormed(v) && p != [] && ZeroFree(p)
    ensures Search(v, p).found <==> exists h: nat :: FirstSeen(Reach(v.bufs, |p|), p, h)
  {
    if Search(v, p).found {
      SearchSees(v.bufs, p);
      SearchAtOffset(v, p);
    }
    if h: nat :| FirstSeen(Reach(v.bufs, |p|), p, h) {
      Located(v, p, h);
    }
  }

  /**
   * The documented result, for every stream: a successful search stands at the first occurrence in the
   * bytes left if and only if
   * - with nothing of the first buffer consumed, or the first occurrence it sees behind that buffer: the
   *   first occurrence in the bytes left is one it can see;
   * - otherwise: the first occurrence in the bytes left lies, by coincidence, as far behind the offset
   *   as the first one it sees lies behind the start of the buffer.
   */
  lemma LandsOnFirstExactly(v: View, p: seq<Byte>, h: nat)
    requires WellFormed(v) && p != [] && ZeroFree(p) && FirstSeen(Reach(v.bufs, |p|), p, h)
    ensures v.bufs != []
    ensures FirstOccurrence(Flat(v), p, Search(v, p).consumed)
       <==> if v.offset == 0 || |v.bufs[0].data| <= h then Seen(Reach(v.bufs, |p|), p, v.offset + IndexOf(Flat(v), p))
            else FirstOccurrence(Flat(v), p, h)
  {
    hide Search, Flat, Seen, IndexOf;
    Located(v, p, h);
    FlatIsTail(v);
    SeenOccurs(v.bufs, p, h);
    IndexOfIsFirst(Flat(v), p);
    if v.offset == 0 || |v.bufs[0].data| <= h {
      FirstAtSight(v, p, h);
    }
  }

  lemma FirstAtSight(v: View, p: seq<Byte>, h: nat)
    requires WellFormed(v) && p != [] && v.bufs != [] && FirstSeen(Reach(v.bufs, |p|), p, h)
    requires v.offset == 0 || |v.bufs[0].data| <= h
    ensures v.offset <= h
    ensures FirstOccurrence(Flat(v), p, h - v.offset) <==> Seen(Reach(v.bufs, |p|), p, v.offset + IndexOf(Flat(v), p))
  {
    hide Flat, Seen, IndexOf, Reach, OccursAt;
    if v.offset == 0 { assert v.offset <= h; }
    var k := FirstBefore(v, p, h);
    assert Seen(Reach(v.bufs, |p|), p, v.offset + k) ==> !(v.offset + k < h);
    FirstIsUnique(Flat(v), p, k);
  }

  /** The same over zero-free bytes, where every occurrence is seen: only the offset can mislead the search. */
  lemma LandsOnFirstWithoutZeros(v: View, p: seq<Byte>, h: nat)
    requires WellFormed(v) && p != [] && ZeroFree(p) && ZeroFree(Concat(Reach(v.bufs, |p|)))
    requires FirstSeen(Reach(v.bufs, |p|), p, h)
    ensures v.bufs != []
    ensures FirstOccurrence(Flat(v), p, Search(v, p).consumed)
       <==> v.offset == 0 || |v.bufs[0].data| <= h || FirstOccurrence(Flat(v), p, h)
  {
    hide Search, Flat, Seen, IndexOf, FirstOccurrence, Reach;
    LandsOnFirstExactly(v, p, h);
    if v.offset == 0 || |v.bufs[0].data| <= h {
      FirstIsSeen(v, p, h);
    }
  }

  /** Over zero-free bytes, the first occurrence in the bytes left is one the search can see. */
  lemma FirstIsSeen(v: View, p: seq<Byte>, h: nat)
    requires WellFormed(v) && v.bufs != [] && p != [] && ZeroFree(Concat(Reach(v.bufs, |p|)))
    requires Seen(Reach(v.bufs, |p|), p, h) && v.offset <= h
    ensures Seen(Reach(v.bufs, |p|), p, v.offset + IndexOf(Flat(v), p))
  {
    hide Flat, Seen, IndexOf, Reach, OccursAt, ZeroFree, Concat, FirstOccurrence;
    var k := FirstBefore(v, p, h);
    ReachedOccurs(v.bufs, p, h, v.offset + k);
    SeesEverything(v.bufs, p, v.offset + k);
  }

  /** The first occurrence in the bytes left lies no later than what is seen behind the offset. */
  lemma FirstBefore(v: View, p: seq<Byte>, h: nat) returns (k: int)
    requires WellFormed(v) && v.bufs != [] && p != []
    requires Seen(Reach(v.bufs, |p|), p, h) && v.offset <= h
    ensures k == IndexOf(Flat(v), p) && k <= h - v.offset && FirstOccurrence(Flat(v), p, k)
    ensures OccursAt(Concat(v.bufs), p, v.offset + k) && OccursAt(Flat(v), p, h - v.offset)
  {
    hide Flat, Seen, IndexOf, Reach, OccursAt, Concat;
    k := IndexOf(Flat(v), p);
    FlatIsTail(v);
    SeenOccurs(v.bufs, p, h);
    OccursBehind(Concat(v.bufs), v.offset, p, h - v.offset);
    IndexOfIsFirst(Flat(v), p);
    assert Occurs(Flat(v), p);
    OccursBehind(Concat(v.bufs), v.offset, p, k);
  }

  /** What occurs no later than something seen occurs within the reach of the search. */
  lemma ReachedOccurs(bufs: seq<Buffer>, p: seq<Byte>, h: nat, k: int)
    requires Seen(Reach(bufs, |p|), p, h) && p != [] && OccursAt(Concat(bufs), p, k) && k <= h
    ensures OccursAt(Concat(Reach(bufs, |p|)), p, k)
  {
    ReachIsPrefix(bufs, |p|);
    ReachReaches(bufs, p, h);
    var r := Concat(Reach(bufs, |p|));
    OccursInPrefix(r, Concat(bufs)[|r|..], p, k);
  }

  lemma {:induction false} ReachIsPrefix(bufs: seq<Buffer>, m: nat)
    ensures Concat(Reach(bufs, m)) <= Concat(bufs) == Concat(Reach(bufs, m)) + Concat(bufs)[|Concat(Reach(bufs, m))|..]
  {
    if |bufs| > 1 && m <= |bufs[0].data| {
      ReachIsPrefix(bufs[1..], m);
      ReachTwo(bufs, m);
      ConcatHead(Reach(bufs, m), bufs[0], Reach(bufs[1..], m));
    }
  }

  lemma {:induction false} ReachReaches(bufs: seq<Buffer>, p: seq<Byte>, h: nat)
    requires Seen(Reach(bufs, |p|), p, h)
    ensures h + |p| <= |Concat(Reach(bufs, |p|))|
  {
    var rs := Reach(bufs, |p|);
    ReachHead(bufs, |p|);
    if h >= |bufs[0].data| {
      ReachTwo(bufs, |p|);
      assert rs[1..] == Reach(bufs[1..], |p|);
      ReachReaches(bufs[1..], p, h - |bufs[0].data|);
    } else if !OccursAt(Cut(bufs[0].data), p, h) {
      ReachTwo(bufs, |p|);
      ReachHead(bufs[1..], |p|);
    }
  }

  /** From offset 0, a reported match is a match, whatever the bytes. */
  lemma FoundIsPattern(v: View, p: seq<Byte>)
    requires v.offset == 0 && p != [] && ZeroFree(p) && Search(v, p).found
    ensures p <= Flat(Search(v, p).view)
  {
    hide Search, Flat, Seen;
    FailsExactly(v, p);
    var h: nat :| FirstSeen(Reach(v.bufs, |p|), p, h);
    LandsOnPatternExactly(v, p, h);
  }

  // ------------------------------------------------------- what a failed search loses

  /** A match can start at `i`, now or with bytes yet to come. */
  predicate CanStart(a: seq<Byte>, p: seq<Byte>, i: nat)
    requires i <= |a|
  {
    if i + |p| <= |a| then a[i..i + |p|] == p else a[i..] == p[..|a| - i]
  }

  lemma CanStartExactly(a: seq<Byte>, p: seq<Byte>, i: nat)
    requires i <= |a|
    ensures CanStart(a, p, i) <==> exists ext: seq<Byte> :: OccursAt(a + ext, p, i)
  {
    if i + |p| <= |a| {
      forall ext: seq<Byte> ensures OccursAt(a + ext, p, i) <==> OccursAt(a, p, i) {
        OccursInPrefix(a, ext, p, i);
      }
      assert OccursAt(a + [], p, i) <==> OccursAt(a, p, i);
    } else {
      forall ext: seq<Byte> | OccursAt(a + ext, p, i) ensures a[i..] == p[..|a| - i] {
        PartialMatch(a, ext, p, i);
      }
      var ext := p[|a| - i..];
      assert a[i..] == p[..|a| - i] ==> (a + ext)[i..i + |p|] == a[i..] + ext == p;
    }
  }

  /**
   * Where the bytes begin that a failed search keeps, if nothing of the first buffer was consumed and
   * that buffer is not dropped: at the longest suffix of a last buffer that is a prefix of the pattern,
   * and in front of a short next buffer at the first index whose match would end behind that one.
   */
  function KeptFrom(bufs: seq<Buffer>, p: seq<Byte>): nat {
    if bufs == [] || |bufs[0].data| < |p| then 0
    else if |bufs| == 1 then KeepFrom(bufs[0].data, p, 0)
    else if |bufs[1].data| < |p| then |bufs[0].data| + |bufs[1].data| - |p| + 1
    else 0
  }

  lemma {:induction false} ShortBorder(b: seq<Byte>, next: seq<Byte>, p: seq<Byte>, i: nat)
    requires i <= |p| <= |b| && i <= |next| + 1
    ensures var r := SearchBorder(b, next, p, i);
            r.TooShort? ==> |next| < |p| && r.offset == |b| + |next| - |p| + 1
    decreases |p| - i
  {
    if i < |p| && i <= |next| {
      ShortBorder(b, next, p, i + 1);
    }
  }

  lemma FailedConsumes(v: View, p: seq<Byte>)
    requires WellFormed(v) && p != [] && !Search(v, p).found && !DropsHead(v, p)
    ensures Search(v, p).consumed == Min(|Flat(v)|, KeptFrom(v.bufs, p))
  {
    hide Flat, Skip, SearchBorder, KeepFrom, IndexOf, Cut;
    if v.bufs != [] && |p| <= |v.bufs[0].data| && |v.bufs| > 1 {
      ShortBorder(v.bufs[0].data, v.bufs[1].data, p, 0);
    }
  }

  /** A search that drops the first buffer goes on as if nothing of it had been consumed. */
  lemma DroppedConsumes(v: View, p: seq<Byte>)
    requires WellFormed(v) && DropsHead(v, p)
    ensures v.offset + Search(v, p).consumed == Search(View(v.bufs, 0), p).consumed
  {
  }

  lemma NoBuffers(v: View, p: seq<Byte>)
    requires WellFormed(v) && v.bufs == []
    ensures v.offset == |Concat(v.bufs)| == Search(v, p).consumed == 0 && NoneBefore(Flat(v), p, 0)
  {
  }

  lemma PlainFails(bufs: seq<Buffer>, p: seq<Byte>)
    requires bufs != [] && p != [] && ZeroFree(Concat(Reach(bufs, |p|)))
    requires !Search(View(bufs, 0), p).found && !DropsHead(View(bufs, 0), p)
    ensures KeptFrom(bufs, p) <= |Concat(bufs)| && NoneBefore(Concat(bufs), p, KeptFrom(bufs, p))
  {
    hide Search, NoneBefore, DropsHead, Reach, SearchBorder, IndexOf, Cut;
    SearchIsFaithful(bufs, p);
    FailedConsumes(View(bufs, 0), p);
    FlatOfPlain(bufs);
    if |p| <= |bufs[0].data| && |bufs| == 1 {
      KeepFromInside(bufs[0].data, p, 0);
    }
  }

  lemma {:induction false} KeepFromInside(b: seq<Byte>, p: seq<Byte>, i: nat)
    requires i <= |p| <= |b|
    ensures KeepFrom(b, p, i) <= |b|
    decreases |p| - i
  {
    if i < |p| {
      KeepFromInside(b, p, i + 1);
    }
  }

  lemma NoneBehind(a: seq<Byte>, o: nat, p: seq<Byte>, n: nat)
    requires o <= |a| && NoneBefore(a, p, o + n)
    ensures NoneBefore(a[o..], p, n)
  {
    forall i, ext: seq<Byte> | i < n ensures !OccursAt(a[o..] + ext, p, i) {
      assert a[o..] + ext == (a + ext)[o..];
      OccursBehind(a + ext, o, p, i);
    }
  }

  /** Among the bytes behind `o`, none of the first `n` can start a match exactly if those not ruled out cannot. */
  lemma NoneBehindExactly(a: seq<Byte>, o: nat, p: seq<Byte>, k: nat, n: nat)
    requires o + n <= |a| && NoneBefore(a, p, k)
    ensures NoneBefore(a[o..], p, n) <==> forall i :: o <= i < o + n && k <= i ==> !CanStart(a, p, i)
  {
    hide CanStart, OccursAt;
    forall i, ext: seq<Byte> | o <= i < o + n ensures OccursAt(a[o..] + ext, p, i - o) <==> OccursAt(a + ext, p, i) {
      assert a[o..] + ext == (a + ext)[o..];
      OccursBehind(a + ext, o, p, i - o);
    }
    if NoneBefore(a[o..], p, n) {
      forall i | o <= i < o + n && k <= i ensures !CanStart(a, p, i) {
        CanStartExactly(a, p, i);
        assert forall ext: seq<Byte> :: !OccursAt(a[o..] + ext, p, i - o);
      }
    }
    if forall i :: o <= i < o + n && k <= i ==> !CanStart(a, p, i) {
      forall j, ext: seq<Byte> | j < n ensures !OccursAt(a[o..] + ext, p, j) {
        if j >= 0 {
          CanStartExactly(a, p, o + j);
          assert OccursAt(a[o..] + ext, p, o + j - o) <==> OccursAt(a + ext, p, o + j);
        } else {
          OccursInside(a[o..] + ext, p, j);
        }
      }
    }
  }

  /**
   * Continuing a search, over zero-free bytes and from any offset: a failed search leaves every byte at
   * which a match could start, with the bytes there or with bytes yet to come, if and only if it drops
   * the first buffer, or no match could start among the `offset` bytes it skips beyond those it would
   * skip from the start of that buffer. With nothing consumed before, there are no such bytes.
   */
  lemma FailsWithoutLossExactly(v: View, p: seq<Byte>)
    requires WellFormed(v) && p != [] && ZeroFree(Concat(Reach(v.bufs, |p|))) && !Search(v, p).found
    ensures v.offset <= |Concat(v.bufs)|
    ensures NoneBefore(Flat(v), p, Search(v, p).consumed)
       <==> DropsHead(v, p)
            || forall i :: v.offset <= i < |Concat(v.bufs)| && KeptFrom(v.bufs, p) <= i < v.offset + KeptFrom(v.bufs, p)
                           ==> !CanStart(Concat(v.bufs), p, i)
  {
    hide Search, Flat, KeptFrom, NoneBefore, CanStart, SearchBorder, IndexOf, Cut, Reach, Concat;
    if v.bufs == [] {
      NoBuffers(v, p);
      return;
    }
    var all, plain := Concat(v.bufs), View(v.bufs, 0);
    FlatIsTail(v);
    SearchIsFaithful(v.bufs, p);
    SearchConsumes(v, p);
    SearchAtOffset(v, p);
    if DropsHead(v, p) {
      DroppedConsumes(v, p);
      NoneBehind(all, v.offset, p, Search(v, p).consumed);
    } else {
      FailedConsumes(v, p);
      PlainFails(v.bufs, p);
      NoneBehindExactly(all, v.offset, p, KeptFrom(v.bufs, p), Search(v, p).consumed);
    }
  }

  // ------------------------------------------------------- inputs on which it fails

  lemma NotInNines(b: seq<Byte>, p: seq<Byte>)
    requires b == [9, 9, 9, 9, 67] && p == [67, 68]
    ensures IndexOf(b, p) == -1 && Cut(b) == b
  {
    CutZeroFree(b);
    IndexOfIsFirst(b, p);
    hide IndexOf, Cut;
    forall k ensures !OccursAt(b, p, k) {
      assert 0 <= k <= 3 ==> b[k..k + 2][0] == 9;
    }
  }

  lemma KeptInNines(b: seq<Byte>, p: seq<Byte>)
    requires b == [9, 9, 9, 9, 67] && p == [67, 68]
    ensures KeepFrom(b, p, 0) == 4
  {
    assert b[3..] == [b[3], b[4]] && b[4..] == [b[4]];
    assert StrNCmpEq(b[4..], p, 1) && !StrNCmpEq(b[3..], p, 2);
    assert KeepFrom(b, p, 1) == 4;
  }

  /** Behind three consumed nines, a search for CD throws away the C that a D could still follow. */
  lemma SuffixLostBehindOffset()
    ensures var v, p := View([Buffer(1, [9, 9, 9, 9, 67])], 3), [67, 68];
            && WellFormed(v) && Flat(v) == [9, 67] && Search(v, p) == SearchResult(false, View([], 0), 2, 0)
            && OccursAt(Flat(v) + [68], p, 1)
  {
    hide IndexOf, Cut, KeepFrom;
    var b: seq<Byte>, p: seq<Byte> := [9, 9, 9, 9, 67], [67, 68];
    var v := View([Buffer(1, b)], 3);
    NotInNines(b, p);
    KeptInNines(b, p);
    assert [Buffer(1, b)][1..] == [];
    assert Flat(v) == [9, 67];
  }

  /** A hit in bytes that were read already: the search succeeds and the pattern is nowhere to be found. */
  lemma HitInConsumedBytes()
    ensures var v := View([Buffer(1, [67, 9, 9])], 1);
            WellFormed(v) && Flat(v) == [9, 9] && !Occurs(Flat(v), [67]) && Search(v, [67]).found
  {
    var b: seq<Byte>, p: seq<Byte> := [67, 9, 9], [67];
    assert Cut(b) == b by { CutZeroFree(b); }
    assert b[..1] == p;
    assert IndexOf(b, p) == 0;
    assert Flat(View([Buffer(1, b)], 1)) == [9, 9];
  }

  /** An occurrence hidden behind a zero byte: the search goes on to a later one. */
  lemma ZeroByteHidesFirst()
    ensures var v := View([Buffer(1, [0, 67, 9]), Buffer(2, [67])], 0);
            WellFormed(v) && OccursAt(Flat(v), [67], 1) && Search(v, [67]).found && Search(v, [67]).consumed == 3
  {
    var b: seq<Byte>, next: seq<Byte>, p: seq<Byte> := [0, 67, 9], [67], [67];
    var first, second := Buffer(1, b), Buffer(2, next);
    assert Cut(b) == [] && IndexOf(Cut(b), p) == -1;
    assert SearchBorder(b, next, p, 0) == NoMatch;
    assert Cut(next) == next by { CutZeroFree(next); }
    assert IndexOf(next, p) == 0;
    assert [first, second][1..] == [second];
    assert Search(View([second], 0), p) == SearchResult(true, View([second], 0), 0, 0);
    ConcatHead([second], second, []);
    assert Flat(View([first, second], 0)) == b + next;
  }
}
