/** Knuth-Morris-Pratt search as the transport resync uses it (src/commutil_common.cpp). */
module PatternSearch {
  import opened Bytes

  /** `p` occurs in `h` at index `i`. */
  ghost predicate OccursAt(h: seq<Byte>, p: seq<Byte>, i: int) {
    0 <= i && i + |p| <= |h| && h[i..i + |p|] == p
  }

  ghost predicate Occurs(h: seq<Byte>, p: seq<Byte>) {
    exists i :: OccursAt(h, p, i)
  }

  ghost predicate FirstOccurrence(h: seq<Byte>, p: seq<Byte>, i: int) {
    OccursAt(h, p, i) && forall k :: k < i ==> !OccursAt(h, p, k)
  }

  predicate ZeroFree(h: seq<Byte>) {
    forall k :: 0 <= k < |h| ==> h[k] != 0
  }

  /** The index the flat search is meant to report: the first occurrence, or -1. */
  function IndexOf(h: seq<Byte>, p: seq<Byte>): (r: int)
    ensures r == -1 || 0 <= r <= |h| - |p|
  {
    if |h| < |p| then -1
    else if h[..|p|] == p then 0
    else
      var rest := IndexOf(h[1..], p);
      if rest == -1 then -1 else rest + 1
  }

  /** The haystack up to its first zero byte: all that the search ever looks at. */
  function Cut(h: seq<Byte>): (c: seq<Byte>)
    ensures c <= h && ZeroFree(c)
    ensures |c| < |h| ==> h[|c|] == 0
  {
    if h == [] || h[0] == 0 then [] else [h[0]] + Cut(h[1..])
  }

  /** A proper border of `s`: a shorter prefix that is also a suffix. */
  ghost predicate Border(s: seq<Byte>, k: int) {
    0 <= k < |s| && s[..k] == s[|s| - k..]
  }

  ghost predicate LongestBorder(s: seq<Byte>, k: int) {
    Border(s, k) && forall j :: Border(s, j) ==> j <= k
  }

  ghost predicate BorderTable(needle: seq<Byte>, b: seq<int>) {
    |b| == |needle| + 1 && b[0] == -1 &&
    forall i :: 1 <= i <= |needle| ==> LongestBorder(needle[..i], b[i])
  }

  lemma BorderOfBorder(s: seq<Byte>, j: int, k: int)
    requires Border(s, j) && 0 <= k < j
    ensures Border(s[..j], k) <==> Border(s, k)
  {
    assert s[..j][..k] == s[..k];
    assert s[..j][j - k..] == s[|s| - j..][j - k..] == s[|s| - k..];
  }

  /** Extending a string by one byte extends a border exactly when the next byte agrees. */
  lemma BorderExtend(s: seq<Byte>, c: Byte, k: int)
    requires 0 <= k < |s|
    ensures Border(s + [c], k + 1) <==> Border(s, k) && s[k] == c
  {
    var t := s + [c];
    assert t[..k + 1] == s[..k] + [s[k]];
    assert t[|t| - (k + 1)..] == s[|s| - k..] + [c];
    if t[..k + 1] == t[|t| - (k + 1)..] {
      assert t[..k + 1][k] == s[k] && t[|t| - (k + 1)..][k] == c;
      assert s[..k] == t[..k + 1][..k] == t[|t| - (k + 1)..][..k] == s[|s| - k..];
    }
  }

  method KmpBorders(needle: seq<Byte>) returns (borders: array<int>)
    ensures fresh(borders)
    ensures BorderTable(needle, borders[..])
  {
    borders := new int[|needle| + 1];
    var i, j := 0, -1;
    borders[i] := j;
    while i < |needle|
      invariant 0 <= i <= |needle| && -1 <= j && j == borders[i] && borders[0] == -1
      invariant forall k :: 1 <= k <= i ==> LongestBorder(needle[..k], borders[k])
    {
      ghost var s := needle[..i];
      assert i > 0 ==> LongestBorder(s, j);
      while j >= 0 && needle[i] != needle[j]
        invariant -1 <= j && (j >= 0 ==> Border(s, j))
        invariant forall k :: Border(s, k) && s[k] == needle[i] ==> k <= j
        modifies {}
        decreases j
      {
        assert s[..j] == needle[..j];
        NextBorder(s, j, borders[j], needle[i]);
        j := borders[j];
      }
      LongestExtends(needle, i, j);
      i := i + 1;
      j := j + 1;
      borders[i] := j;
    }
  }

  /** When the border `j` cannot be extended by `c`, the next candidate is the longest border of the border. */
  lemma NextBorder(s: seq<Byte>, j: int, b: int, c: Byte)
    requires Border(s, j) && s[j] != c
    requires if j == 0 then b == -1 else LongestBorder(s[..j], b)
    requires forall k :: Border(s, k) && s[k] == c ==> k <= j
    ensures -1 <= b < j && (b >= 0 ==> Border(s, b))
    ensures forall k :: Border(s, k) && s[k] == c ==> k <= b
  {
    forall k | Border(s, k) && s[k] == c ensures k <= b {
      BorderOfBorder(s, j, k);
    }
    if j > 0 {
      BorderOfBorder(s, j, b);
    }
  }

  lemma LongestExtends(needle: seq<Byte>, i: nat, j: int)
    requires i < |needle| && -1 <= j
    requires j >= 0 ==> Border(needle[..i], j) && needle[i] == needle[j]
    requires forall k :: Border(needle[..i], k) && needle[..i][k] == needle[i] ==> k <= j
    ensures LongestBorder(needle[..i + 1], j + 1)
  {
    var s, c := needle[..i], needle[i];
    assert needle[..i + 1] == s + [c];
    if j >= 0 {
      BorderExtend(s, c, j);
    }
    forall k | Border(s + [c], k) ensures k <= j + 1 {
      if k > 0 {
        BorderExtend(s, c, k - 1);
      }
    }
  }

  lemma OccurrenceByte(h: seq<Byte>, p: seq<Byte>, i: int, q: int)
    requires OccursAt(h, p, i) && 0 <= q < |p|
    ensures h[i + q] == p[q]
  {
    assert h[i..i + |p|][q] == h[i + q];
  }

  lemma OverlapIsBorder(h: seq<Byte>, needle: seq<Byte>, i: nat, j: nat, d: nat)
    requires 0 < d < j <= |needle| && i + j <= |h| && h[i..i + j] == needle[..j]
    requires OccursAt(h, needle, i + d)
    ensures Border(needle[..j], j - d)
  {
    assert h[i + d..i + d + |needle|][..j - d] == h[i..i + j][d..];
    assert needle[..j][..j - d] == needle[..j][d..];
  }

  /** No alignment is lost when the search shifts the needle to its longest border. */
  lemma ShiftIsSafe(h: seq<Byte>, needle: seq<Byte>, i: nat, j: nat, b: int, k: int)
    requires 0 < j < |needle| && i + j < |h|
    requires h[i..i + j] == needle[..j] && h[i + j] != needle[j]
    requires LongestBorder(needle[..j], b)
    requires i <= k < i + j - b
    ensures !OccursAt(h, needle, k)
  {
    if OccursAt(h, needle, k) && k > i {
      OverlapIsBorder(h, needle, i, j, k - i);
    } else if OccursAt(h, needle, i) {
      OccurrenceByte(h, needle, i, j);
    }
  }

  /** The scan has matched `j` needle bytes at alignment `i` and ruled out every earlier alignment of `c`. */
  ghost predicate Scanned(c: seq<Byte>, needle: seq<Byte>, i: int, j: int) {
    0 <= i && 0 <= j <= |needle| && i + j <= |c| && c[i..i + j] == needle[..j] &&
    forall k :: k < i ==> !OccursAt(c, needle, k)
  }

  lemma MatchOne(c: seq<Byte>, needle: seq<Byte>, i: int, j: int)
    requires Scanned(c, needle, i, j) && j < |needle| && i + j < |c| && c[i + j] == needle[j]
    ensures Scanned(c, needle, i, j + 1)
  {
    assert c[i..i + j + 1] == c[i..i + j] + [c[i + j]];
    assert needle[..j + 1] == needle[..j] + [needle[j]];
  }

  lemma SkipOne(c: seq<Byte>, needle: seq<Byte>, i: int)
    requires Scanned(c, needle, i, 0) && |needle| > 0 && i < |c| && c[i] != needle[0]
    ensures Scanned(c, needle, i + 1, 0)
  {
    if OccursAt(c, needle, i) {
      OccurrenceByte(c, needle, i, 0);
    }
  }

  lemma Shift(c: seq<Byte>, needle: seq<Byte>, i: int, j: int, b: int)
    requires Scanned(c, needle, i, j) && 0 < j < |needle| && i + j < |c| && c[i + j] != needle[j]
    requires LongestBorder(needle[..j], b)
    ensures Scanned(c, needle, i + (j - b), b)
  {
    forall k | i <= k < i + j - b ensures !OccursAt(c, needle, k) {
      ShiftIsSafe(c, needle, i, j, b, k);
    }
    assert c[i + (j - b)..i + j] == c[i..i + j][j - b..] == needle[..j][..b] == needle[..b];
  }

  lemma ScanStart(c: seq<Byte>, needle: seq<Byte>)
    ensures Scanned(c, needle, 0, 0)
  {
  }

  lemma ScanFound(c: seq<Byte>, needle: seq<Byte>, i: int)
    requires Scanned(c, needle, i, |needle|)
    ensures FirstOccurrence(c, needle, i) && Occurs(c, needle)
  {
    assert OccursAt(c, needle, i);
  }

  lemma ScanExhausted(c: seq<Byte>, needle: seq<Byte>, i: int, j: int)
    requires Scanned(c, needle, i, j) && |c| < i + |needle|
    ensures !Occurs(c, needle)
  {
  }

  lemma ScanBounds(c: seq<Byte>, needle: seq<Byte>, i: int, j: int)
    requires Scanned(c, needle, i, j)
    ensures 0 <= i && 0 <= j <= |needle| && i + j <= |c|
  {
  }

  lemma CutByte(h: seq<Byte>, at: nat)
    requires at <= |Cut(h)| && at < |h|
    ensures at < |Cut(h)| <==> h[at] != 0
    ensures at < |Cut(h)| ==> Cut(h)[at] == h[at]
  {
  }

  /** The `do` loop: slide the needle to ever shorter borders until the pending byte fits. */
  method ShiftNeedle(haystack: seq<Byte>, needle: seq<Byte>, borders: array<int>, i0: nat, j0: nat)
    returns (i: nat, j: nat)
    requires BorderTable(needle, borders[..])
    requires Scanned(Cut(haystack), needle, i0, j0) && 0 < j0 < |needle| && i0 + j0 < |Cut(haystack)|
    requires haystack[i0 + j0] != needle[j0]
    ensures Scanned(Cut(haystack), needle, i, j) && j < j0 && i + j == i0 + j0
  {
    ghost var c := Cut(haystack);
    ghost var table := borders[..];
    var b := borders[j0];
    assert b == table[j0];
    Shift(c, needle, i0, j0, b);
    i, j := i0 + (j0 - b), b;
    while j > 0 && needle[j] != haystack[i + j]
      invariant Scanned(c, needle, i, j) && i + j == i0 + j0 && j < j0
      decreases j
    {
      b := borders[j];
      assert b == table[j];
      Shift(c, needle, i, j, b);
      i, j := i + (j - b), b;
    }
  }

  /** The scan, with the haystack pointer as the index `at`. */
  method KmpSearch(haystack: seq<Byte>, needle: seq<Byte>, borders: array<int>) returns (r: int)
    requires BorderTable(needle, borders[..])
    ensures r == -1 <==> !Occurs(Cut(haystack), needle)
    ensures r != -1 ==> FirstOccurrence(Cut(haystack), needle, r)
  {
    hide Scanned, OccursAt, Cut, BorderTable;
    var maxIndex := |haystack| - |needle|;
    var i, j, at := 0, 0, 0;
    ghost var c := Cut(haystack);
    ScanStart(c, needle);
    while i <= maxIndex
      invariant Scanned(c, needle, i, j) && at == i + j && (j < |needle| || j == 0)
      decreases maxIndex - i
    {
      ScanBounds(c, needle, i, j);
      while j < |needle| && haystack[at] != 0 && needle[j] == haystack[at]
        invariant Scanned(c, needle, i, j) && 0 <= j <= |needle| && at == i + j <= |c|
        decreases |needle| - j
      {
        CutByte(haystack, at);
        MatchOne(c, needle, i, j);
        j := j + 1;
        at := at + 1;
        ScanBounds(c, needle, i, j);
      }
      if j == |needle| {
        r := at - |needle|;
        ScanFound(c, needle, i);
        return;
      }
      CutByte(haystack, at);
      if haystack[at] == 0 {
        ScanExhausted(c, needle, i, j);
        return -1;
      }
      if j == 0 {
        SkipOne(c, needle, i);
        at := at + 1;
        i := i + 1;
      } else {
        i, j := ShiftNeedle(haystack, needle, borders, i, j);
        ScanBounds(c, needle, i, j);
      }
    }
    ScanExhausted(c, needle, i, j);
    r := -1;
  }

  lemma {:induction false} IndexOfIsFirst(h: seq<Byte>, p: seq<Byte>)
    ensures IndexOf(h, p) == -1 <==> !Occurs(h, p)
    ensures IndexOf(h, p) != -1 ==> FirstOccurrence(h, p, IndexOf(h, p))
  {
    if |h| >= |p| && h[..|p|] == p {
      assert OccursAt(h, p, 0);
    } else if |h| >= |p| {
      var t := h[1..];
      IndexOfIsFirst(t, p);
      forall i | i >= 1 ensures OccursAt(h, p, i) <==> OccursAt(t, p, i - 1) {
        if i + |p| <= |h| { assert h[i..i + |p|] == t[i - 1..i - 1 + |p|]; }
      }
      forall i | OccursAt(h, p, i) ensures OccursAt(t, p, i - 1) {
        assert h[i..i + |p|] == p;
      }
      if IndexOf(t, p) != -1 {
        assert OccursAt(h, p, IndexOf(t, p) + 1);
      }
    }
  }

  method Strnstr(haystack: seq<Byte>, needle: seq<Byte>) returns (r: int)
    ensures r == IndexOf(Cut(haystack), needle)
    ensures r == -1 <==> !Occurs(Cut(haystack), needle)
    ensures r != -1 ==> FirstOccurrence(Cut(haystack), needle, r)
  {
    IndexOfIsFirst(Cut(haystack), needle);
    if |haystack| < |needle| {
      return -1;
    }
    var borders := KmpBorders(needle);
    r := KmpSearch(haystack, needle, borders);
  }

  /** What the header comment promises: the first occurrence in the whole haystack, zero bytes included. */
  ghost predicate Documented(h: seq<Byte>, p: seq<Byte>, r: int) {
    if r == -1 then !Occurs(h, p) else FirstOccurrence(h, p, r)
  }

  /**
   * The documentation allows zero bytes, the code stops at the first one. The two agree exactly
   * when the first occurrence, if there is any, ends before the first zero byte.
   */
  lemma DocumentedExactly(h: seq<Byte>, p: seq<Byte>)
    ensures Documented(h, p, IndexOf(Cut(h), p))
       <==> forall i :: FirstOccurrence(h, p, i) ==> i + |p| <= |Cut(h)|
  {
    hide OccursAt, Cut, IndexOf;
    var c, r, k := Cut(h), IndexOf(Cut(h), p), IndexOf(h, p);
    IndexOfIsFirst(c, p);
    IndexOfIsFirst(h, p);
    OccursInCutExactly(h, p, r);
    OccursInCutExactly(h, p, k);
    if Occurs(h, p) {
      FirstIsUnique(h, p, k);
      if k + |p| <= |c| {
        assert Occurs(c, p) && r <= k && !(r < k);
      }
    }
  }

  lemma OccursInCutExactly(h: seq<Byte>, p: seq<Byte>, i: int)
    ensures OccursAt(Cut(h), p, i) <==> OccursAt(h, p, i) && i + |p| <= |Cut(h)|
  {
    if 0 <= i && i + |p| <= |Cut(h)| { assert Cut(h)[i..i + |p|] == h[i..i + |p|]; }
  }

  lemma FirstIsUnique(a: seq<Byte>, p: seq<Byte>, k: int)
    requires FirstOccurrence(a, p, k)
    ensures forall j :: FirstOccurrence(a, p, j) <==> j == k
  {
    hide OccursAt;
    forall j ensures FirstOccurrence(a, p, j) <==> j == k {
      assert FirstOccurrence(a, p, j) ==> !(j < k) && !(k < j);
    }
  }

  lemma {:induction false} CutAtLeast(h: seq<Byte>, g: nat)
    requires g <= |h| && ZeroFree(h[..g])
    ensures g <= |Cut(h)|
  {
    if g > 0 {
      assert h[..g][0] == h[0];
      assert h[1..][..g - 1] == h[..g][1..];
      CutAtLeast(h[1..], g - 1);
    }
  }

  /** A zero-free pattern behind a zero-free prefix lies inside the cut. */
  lemma CutCovers(h: seq<Byte>, p: seq<Byte>, g: nat)
    requires g <= |h| && ZeroFree(h[..g]) && ZeroFree(p) && OccursAt(h, p, g)
    ensures g + |p| <= |Cut(h)|
  {
    CutAtLeast(h, g);
    if |Cut(h)| < g + |p| {
      OccurrenceByte(h, p, g, |Cut(h)| - g);
    }
  }

  lemma OccursInCut(h: seq<Byte>, p: seq<Byte>, k: int)
    requires OccursAt(Cut(h), p, k)
    ensures OccursAt(h, p, k)
  {
    assert Cut(h)[k..k + |p|] == h[k..k + |p|];
  }

  lemma {:induction false} CutZeroFree(h: seq<Byte>)
    requires ZeroFree(h)
    ensures Cut(h) == h
  {
    if h != [] {
      CutZeroFree(h[1..]);
    }
  }

  /** An input on which the documented meaning fails: the needle stands right behind a zero byte. */
  lemma ZeroByteHidesMatch()
    ensures var h: seq<Byte> := [0, 67]; var p: seq<Byte> := [67];
            OccursAt(h, p, 1) && IndexOf(Cut(h), p) == -1
  {
  }
}
