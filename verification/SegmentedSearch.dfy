/** The segmented search against search over the flat bytes. */
module SegmentedSearch {
  import opened Bytes
  import opened PatternSearch
  import opened SegmentedView

  /** No occurrence starts among the first `n` bytes of `a`, whatever bytes arrive behind them. */
  ghost predicate NoneBefore(a: seq<Byte>, p: seq<Byte>, n: nat) {
    forall i, ext: seq<Byte> :: i < n ==> !OccursAt(a + ext, p, i)
  }

  /**
   * The buffers a search gets to see: up to and including the first one shorter than the pattern,
   * where it gives up.
   */
  function Reach(bufs: seq<Buffer>, m: nat): seq<Buffer> {
    if bufs == [] then []
    else if |bufs[0].data| < m || |bufs| == 1 then [bufs[0]]
    else [bufs[0]] + Reach(bufs[1..], m)
  }

  lemma {:induction false} StrNCmpIsEquality(a: seq<Byte>, b: seq<Byte>, n: nat)
    requires n <= |a| && n <= |b| && ZeroFree(a)
    ensures StrNCmpEq(a, b, n) <==> a[..n] == b[..n]
  {
    if n > 0 {
      StrNCmpIsEquality(a[1..], b[1..], n - 1);
      assert a[..n] == [a[0]] + a[1..][..n - 1];
      assert b[..n] == [b[0]] + b[1..][..n - 1];
    }
  }

  lemma OccursInPrefix(a: seq<Byte>, t: seq<Byte>, p: seq<Byte>, i: int)
    requires i + |p| <= |a|
    ensures OccursAt(a + t, p, i) <==> OccursAt(a, p, i)
  {
    if 0 <= i { assert (a + t)[i..i + |p|] == a[i..i + |p|]; }
  }

  lemma OccursInSuffix(a: seq<Byte>, t: seq<Byte>, p: seq<Byte>, i: int)
    requires i >= |a|
    ensures OccursAt(a + t, p, i) <==> OccursAt(t, p, i - |a|)
  {
    if i + |p| <= |a + t| { assert (a + t)[i..i + |p|] == t[i - |a|..i - |a| + |p|]; }
  }

  lemma NoneBeforeExtends(a: seq<Byte>, t: seq<Byte>, p: seq<Byte>, n: nat)
    requires NoneBefore(a, p, n)
    ensures NoneBefore(a + t, p, n)
  {
    forall i, ext: seq<Byte> | i < n ensures !OccursAt((a + t) + ext, p, i) {
      assert (a + t) + ext == a + (t + ext);
    }
  }

  lemma NoneBeforeShift(a: seq<Byte>, t: seq<Byte>, p: seq<Byte>, n: nat)
    requires NoneBefore(a + t, p, |a|) && NoneBefore(t, p, n)
    ensures NoneBefore(a + t, p, |a| + n)
  {
    forall i, ext: seq<Byte> | i < |a| + n ensures !OccursAt((a + t) + ext, p, i) {
      if i >= |a| {
        assert (a + t) + ext == a + (t + ext);
        OccursInSuffix(a, t + ext, p, i);
      }
    }
  }

  // ------------------------------------------------------- one buffer

  lemma NoHitInside(b: seq<Byte>, p: seq<Byte>)
    requires ZeroFree(b) && IndexOf(Cut(b), p) == -1 && |p| <= |b|
    ensures NoneBefore(b, p, |b| - |p| + 1) && !Occurs(b, p)
  {
    CutZeroFree(b);
    IndexOfIsFirst(b, p);
    forall i, ext: seq<Byte> | i < |b| - |p| + 1 ensures !OccursAt(b + ext, p, i) {
      OccursInPrefix(b, ext, p, i);
    }
  }

  lemma FirstHit(b: seq<Byte>, p: seq<Byte>)
    requires ZeroFree(b) && IndexOf(Cut(b), p) != -1
    ensures NoneBefore(b, p, IndexOf(Cut(b), p)) && OccursAt(b, p, IndexOf(Cut(b), p))
  {
    CutZeroFree(b);
    IndexOfIsFirst(b, p);
    var hit := IndexOf(b, p);
    forall i, ext: seq<Byte> | i < hit ensures !OccursAt(b + ext, p, i) {
      OccursInPrefix(b, ext, p, i);
    }
  }

  /** A match starting `k` bytes before the end of `b` needs those bytes to be a prefix of the pattern. */
  lemma PartialMatch(b: seq<Byte>, ext: seq<Byte>, p: seq<Byte>, i: nat)
    requires i <= |b| <= i + |p| && OccursAt(b + ext, p, i)
    ensures b[i..] == p[..|b| - i]
  {
    assert (b + ext)[i..i + |p|][..|b| - i] == b[i..];
  }

  lemma {:induction false} KeepsPossibleMatch(b: seq<Byte>, p: seq<Byte>, i: nat)
    requires i <= |p| <= |b| && ZeroFree(b) && NoneBefore(b, p, |b| - |p| + i)
    ensures |b| - |p| + i <= KeepFrom(b, p, i) <= |b| && NoneBefore(b, p, KeepFrom(b, p, i))
    decreases |p| - i
  {
    var offset := |b| - |p| + i;
    if i < |p| && !StrNCmpEq(b[offset..], p, |p| - i) {
      StrNCmpIsEquality(b[offset..], p, |p| - i);
      forall k, ext: seq<Byte> | k < offset + 1 ensures !OccursAt(b + ext, p, k) {
        if k == offset && OccursAt(b + ext, p, k) {
          PartialMatch(b, ext, p, k);
        }
      }
      KeepsPossibleMatch(b, p, i + 1);
    }
  }

  // ------------------------------------------------------- two buffers

  lemma StraddlesTwo(tail: seq<Byte>, next: seq<Byte>, p: seq<Byte>, i: nat)
    requires i <= |next| && i <= |p| && |tail| == |p| - i
    ensures tail[..|p| - i] == p[..|p| - i] && next[..i] == p[|p| - i..][..i] <==> tail + next[..i] == p
  {
    var k := |p| - i;
    assert tail[..k] == tail && p[k..][..i] == p[k..] && p == p[..k] + p[k..];
    if tail + next[..i] == p {
      assert (tail + next[..i])[..k] == tail && (tail + next[..i])[k..] == next[..i];
    }
  }

  /** The two `strncmp` calls at the border decide a straddling occurrence. */
  lemma BorderCompare(b: seq<Byte>, next: seq<Byte>, p: seq<Byte>, i: nat, ext: seq<Byte>)
    requires i < |p| <= |b| && i <= |next| && ZeroFree(b) && ZeroFree(next)
    ensures StrNCmpEq(b[|b| - |p| + i..], p, |p| - i) && StrNCmpEq(next, p[|p| - i..], i)
       <==> OccursAt((b + next) + ext, p, |b| - |p| + i)
  {
    hide StrNCmpEq;
    var offset, k := |b| - |p| + i, |p| - i;
    assert ZeroFree(b[offset..]);
    StrNCmpIsEquality(b[offset..], p, k);
    StrNCmpIsEquality(next, p[k..], i);
    StraddlesTwo(b[offset..], next, p, i);
    assert ((b + next) + ext)[offset..offset + |p|] == b[offset..] + next[..i];
  }

  lemma NoneBeforeNext(a: seq<Byte>, p: seq<Byte>, n: nat)
    requires NoneBefore(a, p, n) && forall ext: seq<Byte> :: !OccursAt(a + ext, p, n)
    ensures NoneBefore(a, p, n + 1)
  {
    hide OccursAt;
  }

  lemma {:induction false} BorderMeaning(b: seq<Byte>, next: seq<Byte>, p: seq<Byte>, i: nat)
    requires i <= |p| <= |b| && ZeroFree(b) && ZeroFree(next)
    requires NoneBefore(b + next, p, |b| - |p| + i)
    ensures match SearchBorder(b, next, p, i)
            case Match(o) => NoneBefore(b + next, p, o) && o <= |b| && OccursAt(b + next, p, o)
            case TooShort(o) => NoneBefore(b + next, p, o) && o <= |b| && |next| < o + |p| - |b|
            case NoMatch => NoneBefore(b + next, p, |b|)
    decreases |p| - i
  {
    hide NoneBefore, OccursAt, StrNCmpEq, ZeroFree;
    if i < |p| && i <= |next| {
      BorderCompare(b, next, p, i, []);
      assert (b + next) + [] == b + next;
      if !OccursAt(b + next, p, |b| - |p| + i) {
        forall ext: seq<Byte> ensures !OccursAt((b + next) + ext, p, |b| - |p| + i) {
          BorderCompare(b, next, p, i, ext);
        }
        NoneBeforeNext(b + next, p, |b| - |p| + i);
        BorderMeaning(b, next, p, i + 1);
      }
    }
  }

  // ------------------------------------------------------- the whole search

  /** What a search from offset 0 over `bufs` promises about the flat bytes. */
  ghost predicate Faithful(bufs: seq<Buffer>, p: seq<Byte>, r: SearchResult) {
    && (r.found <==> Occurs(Concat(Reach(bufs, |p|)), p))
    && (r.found ==> OccursAt(Concat(bufs), p, r.consumed))
    && NoneBefore(Concat(bufs), p, r.consumed)
  }

  lemma ReachHead(bufs: seq<Buffer>, m: nat)
    requires bufs != []
    ensures Reach(bufs, m) != [] && Reach(bufs, m)[0] == bufs[0]
    ensures Concat(Reach(bufs, m)) == bufs[0].data + Concat(Reach(bufs, m)[1..])
  {
  }

  lemma PrefixesZeroFree(a: seq<Byte>, b: seq<Byte>)
    requires ZeroFree(a + b)
    ensures ZeroFree(a) && ZeroFree(b)
  {
    forall k | 0 <= k < |a| ensures a[k] != 0 { assert (a + b)[k] == a[k]; }
    forall k | 0 <= k < |b| ensures b[k] != 0 { assert (a + b)[|a| + k] == b[k]; }
  }

  /** A search that ends in its first buffer, or at the border behind it. */
  lemma EndsAtHead(b: seq<Byte>, t: seq<Byte>, reachTail: seq<Byte>, p: seq<Byte>, i: nat)
    requires OccursAt(b, p, i)
    ensures OccursAt(b + t, p, i) && Occurs(b + reachTail, p)
  {
    OccursInPrefix(b, t, p, i);
    OccursInPrefix(b, reachTail, p, i);
  }

  /** The search result from a plain stream whose first buffer decides it. */
  lemma HeadDecides(bufs: seq<Buffer>, p: seq<Byte>, hit: int)
    requires bufs != [] && |p| <= |bufs[0].data| && hit == IndexOf(Cut(bufs[0].data), p) != -1
    ensures var r := Search(View(bufs, 0), p); r.found && r.consumed == hit
  {
  }

  lemma SearchHits(bufs: seq<Buffer>, p: seq<Byte>)
    requires bufs != [] && |p| <= |bufs[0].data| && ZeroFree(bufs[0].data)
    requires IndexOf(Cut(bufs[0].data), p) != -1
    ensures Faithful(bufs, p, Search(View(bufs, 0), p))
  {
    var b, t := bufs[0].data, Concat(bufs[1..]);
    var hit := IndexOf(Cut(b), p);
    HeadDecides(bufs, p, hit);
    ReachHead(bufs, |p|);
    FirstHit(b, p);
    NoneBeforeExtends(b, t, p, hit);
    EndsAtHead(b, t, Concat(Reach(bufs, |p|)[1..]), p, hit);
  }

  lemma LastBufferKeeps(bufs: seq<Buffer>, p: seq<Byte>)
    requires |bufs| == 1 && |p| <= |bufs[0].data| && IndexOf(Cut(bufs[0].data), p) == -1
    ensures var r := Search(View(bufs, 0), p);
            !r.found && r.consumed == Min(|bufs[0].data|, KeepFrom(bufs[0].data, p, 0))
  {
    assert Flat(View(bufs, 0)) == bufs[0].data;
  }

  lemma SearchLastBuffer(bufs: seq<Buffer>, p: seq<Byte>)
    requires |bufs| == 1 && |p| <= |bufs[0].data| && ZeroFree(bufs[0].data)
    requires IndexOf(Cut(bufs[0].data), p) == -1
    ensures Faithful(bufs, p, Search(View(bufs, 0), p))
  {
    hide Search, KeepFrom, Concat, Cut;
    var b := bufs[0].data;
    assert Concat(bufs) == b && Reach(bufs, |p|) == bufs by { assert bufs == [bufs[0]]; ConcatOne(bufs[0]); }
    LastBufferKeeps(bufs, p);
    NoHitInside(b, p);
    NoneBeforeFewer(b, p, |b| - |p| + 1, |b| - |p|);
    KeepsPossibleMatch(b, p, 0);
  }

  lemma NoneBeforeFewer(a: seq<Byte>, p: seq<Byte>, n: nat, n': nat)
    requires NoneBefore(a, p, n) && n' <= n
    ensures NoneBefore(a, p, n')
  {
  }

  lemma SearchShortHead(bufs: seq<Buffer>, p: seq<Byte>)
    requires bufs == [] || |bufs[0].data| < |p|
    requires p != []
    ensures Faithful(bufs, p, Search(View(bufs, 0), p))
  {
    assert bufs != [] ==> Concat(Reach(bufs, |p|)) == bufs[0].data;
  }

  lemma ConcatTwo(bufs: seq<Buffer>)
    requires |bufs| >= 2
    ensures Concat(bufs) == (bufs[0].data + bufs[1].data) + Concat(bufs[2..])
  {
    assert bufs[1..][1..] == bufs[2..] && bufs[1..][0] == bufs[1];
  }

  lemma ReachTwo(bufs: seq<Buffer>, m: nat)
    requires |bufs| >= 2 && m <= |bufs[0].data|
    ensures Reach(bufs, m) == [bufs[0]] + Reach(bufs[1..], m)
    ensures Concat(Reach(bufs, m)) == (bufs[0].data + bufs[1].data) + Concat(Reach(bufs[1..], m)[1..])
  {
    ReachHead(bufs[1..], m);
    assert ([bufs[0]] + Reach(bufs[1..], m))[1..] == Reach(bufs[1..], m);
  }

  /** A border that is found, or that stops because the second buffer is too short. */
  lemma SearchStopsAtBorder(bufs: seq<Buffer>, p: seq<Byte>)
    requires |bufs| >= 2 && 0 < |p| <= |bufs[0].data| && IndexOf(Cut(bufs[0].data), p) == -1
    requires ZeroFree(bufs[0].data) && ZeroFree(bufs[1].data)
    requires !SearchBorder(bufs[0].data, bufs[1].data, p, 0).NoMatch?
    ensures Faithful(bufs, p, Search(View(bufs, 0), p))
  {
    var b, next, t := bufs[0].data, bufs[1].data, Concat(bufs[2..]);
    var r := Search(View(bufs, 0), p);
    ConcatTwo(bufs);
    ReachTwo(bufs, |p|);
    NoHitInside(b, p);
    NoneBeforeExtends(b, next, p, |b| - |p|);
    BorderMeaning(b, next, p, 0);
    var o := SearchBorder(b, next, p, 0).offset;
    assert r.consumed == o by { assert |Flat(View(bufs, 0))| >= |b|; }
    NoneBeforeExtends(b + next, t, p, o);
    if r.found {
      EndsAtHead(b + next, t, Concat(Reach(bufs[1..], |p|)[1..]), p, o);
    } else {
      assert |next| < |p|;
      assert Concat(Reach(bufs[1..], |p|)[1..]) == [];
      assert Concat(Reach(bufs, |p|)) == b + next;
      NotInside(b + next, p, o);
    }
  }

  lemma NotInside(a: seq<Byte>, p: seq<Byte>, n: nat)
    requires NoneBefore(a, p, n) && |a| < n + |p|
    ensures !Occurs(a, p)
  {
    assert a + [] == a;
  }

  lemma BorderPassed(bufs: seq<Buffer>, p: seq<Byte>)
    requires |bufs| >= 2 && |p| <= |bufs[0].data| && IndexOf(Cut(bufs[0].data), p) == -1
    requires SearchBorder(bufs[0].data, bufs[1].data, p, 0).NoMatch?
    ensures var r, rest := Search(View(bufs, 0), p), Search(View(bufs[1..], 0), p);
            r.found == rest.found && r.consumed == |bufs[0].data| + rest.consumed
  {
  }

  lemma NoneAtHead(b: seq<Byte>, next: seq<Byte>, p: seq<Byte>)
    requires 0 < |p| <= |b| && ZeroFree(b) && ZeroFree(next) && IndexOf(Cut(b), p) == -1
    requires SearchBorder(b, next, p, 0).NoMatch?
    ensures NoneBefore(b + next, p, |b|)
  {
    NoHitInside(b, p);
    NoneBeforeExtends(b, next, p, |b| - |p|);
    BorderMeaning(b, next, p, 0);
  }

  lemma NoneAtHeadOf(b: seq<Byte>, next: seq<Byte>, rest: seq<Byte>, p: seq<Byte>)
    requires NoneBefore(b + next, p, |b|)
    ensures NoneBefore(b + (next + rest), p, |b|)
  {
    NoneBeforeExtends(b + next, rest, p, |b|);
    assert b + (next + rest) == (b + next) + rest;
  }

  lemma SearchMovesOn(bufs: seq<Buffer>, p: seq<Byte>, r: SearchResult, rest: SearchResult)
    requires |bufs| >= 2 && |p| <= |bufs[0].data|
    requires NoneBefore(bufs[0].data + bufs[1].data, p, |bufs[0].data|)
    requires r.found == rest.found && r.consumed == |bufs[0].data| + rest.consumed
    requires Faithful(bufs[1..], p, rest)
    ensures Faithful(bufs, p, r)
  {
    var b, next := bufs[0].data, bufs[1].data;
    ReachHead(bufs[1..], |p|);
    assert Concat(Reach(bufs, |p|)) == b + Concat(Reach(bufs[1..], |p|)) by { ReachTwo(bufs, |p|); }
    MovesOn(b, next, Concat(bufs[1..]), Concat(Reach(bufs[1..], |p|)), p, rest.consumed);
  }

  lemma MovesOn(b: seq<Byte>, next: seq<Byte>, tail: seq<Byte>, reach: seq<Byte>, p: seq<Byte>, n: nat)
    requires NoneBefore(b + next, p, |b|) && next <= tail && next <= reach && NoneBefore(tail, p, n)
    ensures NoneBefore(b + tail, p, |b| + n)
    ensures Occurs(b + reach, p) <==> Occurs(reach, p)
    ensures OccursAt(b + tail, p, |b| + n) <==> OccursAt(tail, p, n)
  {
    assert tail == next + tail[|next|..] && reach == next + reach[|next|..];
    NoneAtHeadOf(b, next, tail[|next|..], p);
    NoneAtHeadOf(b, next, reach[|next|..], p);
    NoneBeforeShift(b, tail, p, n);
    MovesPast(b, reach, p);
    OccursInSuffix(b, tail, p, |b| + n);
  }

  lemma MovesPast(b: seq<Byte>, t: seq<Byte>, p: seq<Byte>)
    requires NoneBefore(b + t, p, |b|)
    ensures Occurs(b + t, p) <==> Occurs(t, p)
  {
    assert (b + t) + [] == b + t;
    if Occurs(b + t, p) {
      var i :| OccursAt(b + t, p, i);
      OccursInSuffix(b, t, p, i);
    }
    if Occurs(t, p) {
      var i :| OccursAt(t, p, i);
      OccursInSuffix(b, t, p, |b| + i);
    }
  }

  /**
   * From offset 0 over zero-free bytes, the search finds the pattern exactly when it occurs in the
   * bytes up to the first short buffer; what it finds is the first occurrence in the whole stream;
   * and found or not, nothing it drops could have started a match, not even with bytes yet to come.
   */
  lemma {:induction false} SearchIsFaithful(bufs: seq<Buffer>, p: seq<Byte>)
    requires p != [] && ZeroFree(Concat(Reach(bufs, |p|)))
    ensures Faithful(bufs, p, Search(View(bufs, 0), p))
  {
    if bufs == [] || |bufs[0].data| < |p| {
      SearchShortHead(bufs, p);
      return;
    }
    ReachHead(bufs, |p|);
    PrefixesZeroFree(bufs[0].data, Concat(Reach(bufs, |p|)[1..]));
    if IndexOf(Cut(bufs[0].data), p) != -1 {
      SearchHits(bufs, p);
    } else if |bufs| == 1 {
      SearchLastBuffer(bufs, p);
    } else {
      ReachTwo(bufs, |p|);
      PrefixesZeroFree(bufs[0].data + bufs[1].data, Concat(Reach(bufs[1..], |p|)[1..]));
      PrefixesZeroFree(bufs[0].data, bufs[1].data);
      if SearchBorder(bufs[0].data, bufs[1].data, p, 0).NoMatch? {
        SearchIsFaithful(bufs[1..], p);
        BorderPassed(bufs, p);
        NoneAtHead(bufs[0].data, bufs[1].data, p);
        SearchMovesOn(bufs, p, Search(View(bufs, 0), p), Search(View(bufs[1..], 0), p));
      } else {
        SearchStopsAtBorder(bufs, p);
      }
    }
  }

  /**
   * The same as a statement about the stream: found, it is positioned at the first flat occurrence;
   * not found, the bytes it dropped cannot start one.
   */
  lemma SearchPositionsStream(bufs: seq<Buffer>, p: seq<Byte>)
    requires p != [] && ZeroFree(Concat(Reach(bufs, |p|)))
    ensures var r := Search(View(bufs, 0), p);
            && r.consumed <= |Concat(bufs)| && Flat(r.view) == Concat(bufs)[r.consumed..]
            && (r.found ==> FirstOccurrence(Concat(bufs), p, r.consumed) && p <= Flat(r.view))
            && (!r.found ==> forall i, ext: seq<Byte> :: i < r.consumed ==> !OccursAt(Concat(bufs) + ext, p, i))
  {
    hide Search;
    var v, all := View(bufs, 0), Concat(bufs);
    var r := Search(v, p);
    SearchIsFaithful(bufs, p);
    SearchConsumes(v, p);
    FlatOfPlain(bufs);
    assert all + [] == all;
    if r.found {
      assert all[r.consumed..r.consumed + |p|] == all[r.consumed..][..|p|];
    }
  }

  lemma {:induction false} ReachEverything(bufs: seq<Buffer>, m: nat)
    requires forall i :: 0 <= i < |bufs| - 1 ==> m <= |bufs[i].data|
    ensures Reach(bufs, m) == bufs
  {
    if |bufs| > 1 {
      assert forall i :: 0 <= i < |bufs[1..]| - 1 ==> bufs[1..][i] == bufs[i + 1];
      ReachEverything(bufs[1..], m);
    }
  }

  /**
   * The segmented search reports a match exactly when the flat search would, if and only if a pattern
   * that occurs at all occurs before the search gives up at a short buffer. Buffers that are all at
   * least as long as the pattern, except perhaps the last, never make it give up.
   */
  lemma AgreesWithFlatSearch(bufs: seq<Buffer>, p: seq<Byte>)
    requires p != [] && ZeroFree(Concat(Reach(bufs, |p|)))
    ensures (Search(View(bufs, 0), p).found <==> Occurs(Concat(bufs), p))
       <==> (Occurs(Concat(bufs), p) ==> Occurs(Concat(Reach(bufs, |p|)), p))
    ensures (forall i :: 0 <= i < |bufs| - 1 ==> |p| <= |bufs[i].data|)
        ==> (Search(View(bufs, 0), p).found <==> Occurs(Concat(bufs), p))
  {
    hide Search;
    SearchIsFaithful(bufs, p);
    if forall i :: 0 <= i < |bufs| - 1 ==> |p| <= |bufs[i].data| {
      ReachEverything(bufs, |p|);
    }
  }

  /** The first buffer neither holds the pattern nor shares it with the second, which is long enough to tell. */
  predicate DropsHead(v: View, p: seq<Byte>) {
    && |v.bufs| >= 2 && |p| <= |v.bufs[0].data| && IndexOf(Cut(v.bufs[0].data), p) == -1
    && SearchBorder(v.bufs[0].data, v.bufs[1].data, p, 0).NoMatch?
  }

  /** The source's `m_size` stays exact over a search if and only if the search ends at its first buffer. */
  lemma SizeStaysExact(v: View, p: seq<Byte>)
    requires WellFormed(v) && p != []
    ensures Search(v, p).unaccounted == 0 <==> !DropsHead(v, p)
  {
    hide Search;
    SearchCases(v, p);
    if DropsHead(v, p) {
      SearchContinuesAt(v, p, View(v.bufs[1..], 0), |v.bufs[0].data| - v.offset);
    }
  }

  /** A head of two nines is dropped before a C: the size is off by two. */
  lemma DroppedHeadStaysInSize()
    ensures var v := View([Buffer(1, [9, 9]), Buffer(2, [67])], 0);
            Flat(v) == [9, 9, 67] && Search(v, [67]) == SearchResult(true, View([Buffer(2, [67])], 0), 2, 2)
  {
    var b: seq<Byte>, next: seq<Byte>, p: seq<Byte> := [9, 9], [67], [67];
    var first, second := Buffer(1, b), Buffer(2, next);
    assert Cut(b) == b by { CutZeroFree(b); }
    assert Cut(next) == next by { CutZeroFree(next); }
    assert b[1..] == [9] && IndexOf(b[1..], p) == -1 && IndexOf(b, p) == -1 && IndexOf(next, p) == 0;
    assert [first, second][1..] == [second];
    ConcatHead([second], second, []);
  }

  /** A magic word cut after three bytes is never found, although it is all there. */
  lemma ShortHeadBlocksSearch()
    ensures var bufs := [Buffer(1, [67, 79, 77]), Buffer(2, [85, 77])];
            var p: seq<Byte> := [67, 79, 77, 85];
            OccursAt(Concat(bufs), p, 0) && Search(View(bufs, 0), p) == SearchResult(false, View(bufs, 0), 0, 0)
  {
    var first, second := Buffer(1, [67, 79, 77]), Buffer(2, [85, 77]);
    ConcatHead([second], second, []);
    ConcatHead([first, second], first, [second]);
  }

  /** With bytes of the head already read, the search skips from the wrong place: here it stops at a 9. */
  lemma OffsetMisplacesSearch()
    ensures var v := View([Buffer(1, [9, 67, 9])], 1);
            WellFormed(v) && Flat(v) == [67, 9]
            && Search(v, [67]).found && Flat(Search(v, [67]).view) == [9]
  {
    var b: seq<Byte>, p: seq<Byte> := [9, 67, 9], [67];
    var v := View([Buffer(1, b)], 1);
    assert Cut(b) == b by { CutZeroFree(b); }
    assert IndexOf(b[1..], p) == 0;
    assert IndexOf(b, p) == 1;
    assert Flat(v) == [67, 9];
    FlatConsume(v, 1);
  }

  // ------------------------------------------------------- runs

  datatype Op = AppendOp(buffer: Buffer) | PeekOp(n: nat) | ReadOp(n: nat) | SkipOp(n: nat)

  /** Every operation but append needs a first buffer. */
  ghost predicate Runs(v: View, ops: seq<Op>)
    requires WellFormed(v)
    decreases |ops|
  {
    ops == [] || ((ops[0].AppendOp? || v.bufs != []) && Runs(After(v, ops[0]), ops[1..]))
  }

  function After(v: View, op: Op): (r: View)
    requires WellFormed(v) && (op.AppendOp? || v.bufs != [])
    ensures WellFormed(r)
  {
    match op
    case AppendOp(b) => Append(v, b)
    case PeekOp(_) => v
    case ReadOp(n) => Skip(v, n)
    case SkipOp(n) => Skip(v, n)
  }

  function Output(flat: seq<Byte>, op: Op): seq<Byte> {
    if op.PeekOp? || op.ReadOp? then flat[..Min(|flat|, op.n)] else []
  }

  /** What the run returns, operation by operation, with the size after each one. */
  function RunOnBuffers(v: View, ops: seq<Op>): seq<(seq<Byte>, nat)>
    requires WellFormed(v) && Runs(v, ops)
    decreases |ops|
  {
    if ops == [] then []
    else
      var w := After(v, ops[0]);
      [(Output(Flat(v), ops[0]), |Flat(w)|)] + RunOnBuffers(w, ops[1..])
  }

  function AfterFlat(flat: seq<Byte>, op: Op): seq<Byte> {
    match op
    case AppendOp(b) => flat + b.data
    case PeekOp(_) => flat
    case ReadOp(n) => flat[Min(|flat|, n)..]
    case SkipOp(n) => flat[Min(|flat|, n)..]
  }

  function RunOnBytes(flat: seq<Byte>, ops: seq<Op>): seq<(seq<Byte>, nat)>
    decreases |ops|
  {
    if ops == [] then []
    else
      var rest := AfterFlat(flat, ops[0]);
      [(Output(flat, ops[0]), |rest|)] + RunOnBytes(rest, ops[1..])
  }

  /** The list of buffers is indistinguishable from one flat byte string, over every run. */
  lemma {:induction false} RunsRefineFlatString(v: View, ops: seq<Op>)
    requires WellFormed(v) && Runs(v, ops)
    ensures RunOnBuffers(v, ops) == RunOnBytes(Flat(v), ops)
    decreases |ops|
  {
    hide Flat, Skip, Append;
    if ops != [] {
      var w := After(v, ops[0]);
      assert Flat(w) == AfterFlat(Flat(v), ops[0]) by {
        match ops[0]
        case AppendOp(b) => FlatAppend(v, b);
        case PeekOp(_) =>
        case ReadOp(n) => SkipFlat(v, n);
        case SkipOp(n) => SkipFlat(v, n);
      }
      RunsRefineFlatString(w, ops[1..]);
    }
  }

  lemma SkipFlat(v: View, n: nat)
    requires WellFormed(v) && v.bufs != []
    ensures Flat(Skip(v, n)) == Flat(v)[Min(|Flat(v)|, n)..]
  {
    FlatConsume(v, Min(|Flat(v)|, n));
  }
}
