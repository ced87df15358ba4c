/** The open-addressing hash table, used by one thread (inc/transport/concurrent_hash_table.h). */
module HashTables {
  import opened Bytes

  const INVALID_ENTRY: Uint32 := 0xFFFF_FFFF

  /** Key 0 marks a free entry. */
  datatype Entry<V> = Entry(key: Uint64, value: V)

  // ------------------------------------------------------- masked probing

  function Pow2(k: nat): (p: nat)
    ensures p >= 1
  {
    if k == 0 then 1 else 2 * Pow2(k - 1)
  }

  ghost predicate IsPow2(n: nat) {
    exists k :: n == Pow2(k)
  }

  /** Bitwise `&`. */
  function BitAnd(a: nat, b: nat): (r: nat)
    ensures r <= b
  {
    if a == 0 || b == 0 then 0 else (a % 2) * (b % 2) + 2 * BitAnd(a / 2, b / 2)
  }

  /** The remainder, as a function of its own: the proofs below use only what `HalfRem` says of it. */
  function Rem(x: nat, n: nat): (r: nat)
    requires n > 0
  {
    x % n
  }

  lemma HalfRem(x: nat, half: nat)
    requires half > 0
    ensures Rem(x, 2 * half) == x % 2 + 2 * Rem(x / 2, half)
  {
    var y, q := x / 2, (x / 2) / half;
    var r := y % half;
    assert y == half * q + r;
    assert 2 * (half * q) == (2 * half) * q;
    ModUnique(x, 2 * half, q, x % 2 + 2 * r);
  }

  lemma AllOnes(half: nat)
    requires half > 0
    ensures (2 * half - 1) % 2 == 1 && (2 * half - 1) / 2 == half - 1
  {
  }

  lemma {:induction false} MaskIsRem(x: nat, k: nat)
    ensures BitAnd(x, Pow2(k) - 1) == Rem(x, Pow2(k))
  {
    if k == 0 || x == 0 {
      ZeroMask(x, Pow2(k));
    } else {
      hide BitAnd, Pow2, Rem;
      Doubling(k);
      MaskIsRem(x / 2, k - 1);
      MaskHalf(x, Pow2(k - 1));
    }
  }

  lemma MaskHalf(x: nat, half: nat)
    requires x > 0 && half > 0 && BitAnd(x / 2, half - 1) == Rem(x / 2, half)
    ensures BitAnd(x, 2 * half - 1) == Rem(x, 2 * half)
  {
    hide BitAnd, Rem;
    AllOnes(half);
    HalfRem(x, half);
    MaskedStep(x, 2 * half - 1, half);
  }

  /** Masking with a power of two less one is taking the remainder. */
  lemma MaskIsMod(x: nat, k: nat)
    ensures BitAnd(x, Pow2(k) - 1) == x % Pow2(k)
  {
    hide BitAnd, Pow2;
    MaskIsRem(x, k);
  }

  lemma Doubling(k: nat)
    requires k > 0
    ensures Pow2(k) == 2 * Pow2(k - 1)
  {
  }

  lemma ZeroMask(x: nat, p: nat)
    requires p > 0 && (x == 0 || p == 1)
    ensures BitAnd(x, p - 1) == x % p
  {
    if x == 0 {
      ModUnique(0, p, 0, 0);
    }
  }

  lemma MaskedStep(x: nat, mask: nat, half: nat)
    requires x > 0 && mask > 0 && mask % 2 == 1 && mask / 2 == half - 1
    ensures BitAnd(x, mask) == x % 2 + 2 * BitAnd(x / 2, half - 1)
  {
  }

  /** The slot probed after `c` steps from the hash `h` in a table of `n` entries. */
  function Slot(h: nat, c: nat, n: nat): (s: nat)
    requires n > 0
    ensures s < n
  {
    (h + c) % n
  }

  lemma SlotStep(h: nat, c: nat, n: nat)
    requires n > 0
    ensures (Slot(h, c, n) + 1) % n == Slot(h, c + 1, n)
  {
    var q, r := (h + c) / n, (h + c) % n;
    assert h + c == n * q + r;
    if r + 1 < n {
      ModUnique(h + c + 1, n, q, r + 1);
      ModUnique(r + 1, n, 0, r + 1);
    } else {
      assert h + c + 1 == n * (q + 1) + 0;
      ModUnique(h + c + 1, n, q + 1, 0);
      ModUnique(n, n, 1, 0);
    }
  }

  /** Probing a full round visits every slot exactly once. */
  lemma ProbingIsBijective(h: nat, n: nat, s: nat)
    requires s < n
    ensures exists c :: 0 <= c < n && Slot(h, c, n) == s
    ensures forall c, d :: 0 <= c < n && 0 <= d < n && Slot(h, c, n) == s && Slot(h, d, n) == s ==> c == d
  {
    var q, r := h / n, h % n;
    assert h == n * q + r;
    var c := if s >= r then s - r else s + n - r;
    assert Slot(h, c, n) == s by {
      if s >= r {
        ModUnique(h + c, n, q, s);
      } else {
        assert h + c == n * (q + 1) + s;
        ModUnique(h + c, n, q + 1, s);
      }
    }
    forall c, d | 0 <= c < d < n && Slot(h, c, n) == Slot(h, d, n) ensures false {
      SlotsDiffer(h, c, d, n);
    }
  }

  lemma SlotsDiffer(h: nat, c: nat, d: nat, n: nat)
    requires c < d < c + n
    ensures Slot(h, c, n) != Slot(h, d, n)
  {
    var x, y := h + c, h + d;
    var q, q' := x / n, y / n;
    assert x == n * q + x % n && y == n * q' + y % n;
    if q < q' {
      MulStep(n, q, q');
    } else if q' < q {
      MulStep(n, q', q);
    }
  }

  // ------------------------------------------------------- tables as sequences of entries

  /** The first probe, from the `c`-th on, that meets `key`; the number of entries if none does. */
  function FindKey<V>(es: seq<Entry<V>>, h: nat, key: Uint64, c: nat): (r: nat)
    requires c <= |es|
    ensures c <= r <= |es|
    ensures forall d :: c <= d < r ==> es[Slot(h, d, |es|)].key != key
    ensures r < |es| ==> es[Slot(h, r, |es|)].key == key
    decreases |es| - c
  {
    if c == |es| || es[Slot(h, c, |es|)].key == key then c else FindKey(es, h, key, c + 1)
  }

  /** The first probe, from the `c`-th on, that meets `key` or a free entry. */
  function FindPlace<V>(es: seq<Entry<V>>, h: nat, key: Uint64, c: nat): (r: nat)
    requires c <= |es|
    ensures c <= r <= |es|
    ensures forall d :: c <= d < r ==> es[Slot(h, d, |es|)].key != key && es[Slot(h, d, |es|)].key != 0
    ensures r < |es| ==> es[Slot(h, r, |es|)].key == key || es[Slot(h, r, |es|)].key == 0
    decreases |es| - c
  {
    if c == |es| || es[Slot(h, c, |es|)].key == key || es[Slot(h, c, |es|)].key == 0 then c
    else FindPlace(es, h, key, c + 1)
  }

  ghost predicate Unique<V>(es: seq<Entry<V>>) {
    forall i, j :: 0 <= i < j < |es| && es[i].key != 0 ==> es[i].key != es[j].key
  }

  ghost predicate Holds<V>(es: seq<Entry<V>>, key: Uint64) {
    exists i :: 0 <= i < |es| && es[i].key == key
  }

  /** The finite map a table stands for. */
  ghost function Mapping<V>(es: seq<Entry<V>>): (m: map<Uint64, V>)
    requires Unique(es)
    ensures forall k: Uint64 :: k in m <==> k != 0 && Holds(es, k)
    ensures forall i :: 0 <= i < |es| && es[i].key != 0 ==> es[i].key in m && m[es[i].key] == es[i].value
  {
    map i | 0 <= i < |es| && es[i].key != 0 :: es[i].key := es[i].value
  }

  lemma MissMeansAbsent<V>(es: seq<Entry<V>>, h: nat, key: Uint64)
    ensures FindKey(es, h, key, 0) == |es| <==> !Holds(es, key)
  {
    if i :| 0 <= i < |es| && es[i].key == key {
      ProbingIsBijective(h, |es|, i);
      var c :| 0 <= c < |es| && Slot(h, c, |es|) == i;
    }
  }

  lemma NoPlaceMeansFull<V>(es: seq<Entry<V>>, h: nat, key: Uint64)
    ensures FindPlace(es, h, key, 0) == |es| <==> forall i :: 0 <= i < |es| ==> es[i].key != key && es[i].key != 0
  {
    forall i | 0 <= i < |es| && FindPlace(es, h, key, 0) == |es| ensures es[i].key != key && es[i].key != 0 {
      ProbingIsBijective(h, |es|, i);
      var c :| 0 <= c < |es| && Slot(h, c, |es|) == i;
    }
    if FindPlace(es, h, key, 0) < |es| {
      var s := Slot(h, FindPlace(es, h, key, 0), |es|);
      assert es[s].key == key || es[s].key == 0;
    }
  }

  /** `setItem` on the entries: the new entries, and the slot or the invalid entry id. */
  function SetEntry<V>(es: seq<Entry<V>>, h: nat, key: Uint64, value: V): (r: (seq<Entry<V>>, Uint32))
    requires |es| < INVALID_ENTRY
    ensures |r.0| == |es|
  {
    var c := FindPlace(es, h, key, 0);
    if c == |es| then (es, INVALID_ENTRY)
    else (es[Slot(h, c, |es|) := Entry(key, value)], Slot(h, c, |es|))
  }

  function ClearEntry<V>(es: seq<Entry<V>>, i: nat): (r: seq<Entry<V>>)
    requires i < |es|
    ensures |r| == |es|
  {
    es[i := es[i].(key := 0)]
  }

  /** Inserting a key the table does not hold adds it to the map, unless every entry is taken. */
  lemma SetAfterMiss<V>(es: seq<Entry<V>>, h: nat, key: Uint64, value: V)
    requires Unique(es) && key != 0 && !Holds(es, key) && |es| < INVALID_ENTRY
    ensures var (after, id) := SetEntry(es, h, key, value);
            && Unique(after)
            && (id == INVALID_ENTRY <==> forall i :: 0 <= i < |es| ==> es[i].key != 0)
            && Mapping(after) == if id == INVALID_ENTRY then Mapping(es) else Mapping(es)[key := value]
  {
    NoPlaceMeansFull(es, h, key);
    var (after, id) := SetEntry(es, h, key, value);
    if id != INVALID_ENTRY {
      var s: nat := id;
      forall k: Uint64 | k != 0 ensures Holds(after, k) <==> Holds(es, k) || k == key {
        assert after[s].key == key;
        if i :| 0 <= i < |es| && es[i].key == k { assert after[i].key == k; }
        if i :| 0 <= i < |es| && after[i].key == k { assert i == s || es[i].key == k; }
      }
      MappingUpdated(es, after, s, key, value);
    }
  }

  lemma MappingUpdated<V>(es: seq<Entry<V>>, after: seq<Entry<V>>, s: nat, key: Uint64, value: V)
    requires Unique(es) && Unique(after) && s < |es| && key != 0 && after == es[s := Entry(key, value)]
    requires forall k: Uint64 :: k != 0 ==> (Holds(after, k) <==> Holds(es, k) || k == key)
    requires es[s].key == 0 || es[s].key == key
    ensures Mapping(after) == Mapping(es)[key := value]
  {
    var m, m' := Mapping(es)[key := value], Mapping(after);
    assert after[s].key == key;
    forall k: Uint64 | k in m' ensures k in m && m[k] == m'[k] {
      var i :| 0 <= i < |after| && after[i].key == k;
      if i != s { assert es[i].key == k; }
    }
  }

  /** Clearing an entry takes its key out of the map and leaves a hole behind. */
  lemma ClearRemoves<V>(es: seq<Entry<V>>, i: nat)
    requires Unique(es) && i < |es| && es[i].key != 0
    ensures Unique(ClearEntry(es, i)) && Mapping(ClearEntry(es, i)) == Mapping(es) - {es[i].key}
  {
    hide Mapping, ClearEntry, Unique, Holds;
    var after, key := ClearEntry(es, i), es[i].key;
    ValuesAfterClear(es, i);
    var m, m' := Mapping(es) - {key}, Mapping(after);
    forall k: Uint64 ensures k in m' <==> k in m {
      if k != 0 { HoldsAfterClear(es, i, k); }
    }
  }

  lemma ValuesAfterClear<V>(es: seq<Entry<V>>, i: nat)
    requires Unique(es) && i < |es| && es[i].key != 0
    ensures Unique(ClearEntry(es, i))
    ensures forall k: Uint64 ::
      k in Mapping(ClearEntry(es, i)) ==> (k in Mapping(es) && Mapping(ClearEntry(es, i))[k] == Mapping(es)[k])
  {
    var after := ClearEntry(es, i);
    assert Unique(after);
    assert forall j :: 0 <= j < |es| && after[j].key != 0 ==> es[j] == after[j];
    hide ClearEntry, Unique;
    forall k: Uint64 | k in Mapping(after) ensures k in Mapping(es) && Mapping(after)[k] == Mapping(es)[k] {
      var j :| 0 <= j < |es| && after[j].key == k;
    }
  }

  lemma HoldsAfterClear<V>(es: seq<Entry<V>>, i: nat, k: Uint64)
    requires Unique(es) && i < |es| && es[i].key != 0 && k != 0
    ensures Holds(ClearEntry(es, i), k) <==> Holds(es, k) && k != es[i].key
  {
    var after := ClearEntry(es, i);
    if j :| 0 <= j < |es| && es[j].key == k && k != es[i].key {
      assert after[j].key == k;
    }
    if j :| 0 <= j < |es| && after[j].key == k {
      assert es[j].key == k && j != i;
    }
  }

  /** No hole comes before the key on its probe path, or the table does not hold the key. */
  ghost predicate NoHoleBefore<V>(es: seq<Entry<V>>, h: nat, key: Uint64) {
    forall d :: 0 <= d < FindKey(es, h, key, 0) < |es| ==> es[Slot(h, d, |es|)].key != 0
  }

  /**
   * Overwriting through `setItem` alone, as its comment promises, keeps one entry per key if and only
   * if no hole comes before the key on its probe path. Then it does overwrite: the key maps to the new
   * value and all others stay, unless the key is new and every entry is taken.
   */
  lemma SetKeepsUniqueExactly<V>(es: seq<Entry<V>>, h: nat, key: Uint64, value: V)
    requires Unique(es) && key != 0 && |es| < INVALID_ENTRY
    ensures var (after, id) := SetEntry(es, h, key, value);
            && (Unique(after) <==> NoHoleBefore(es, h, key))
            && (NoHoleBefore(es, h, key) ==>
                  && (id == INVALID_ENTRY <==> forall i :: 0 <= i < |es| ==> es[i].key != key && es[i].key != 0)
                  && Mapping(after) == if id == INVALID_ENTRY then Mapping(es) else Mapping(es)[key := value])
  {
    var c, k := FindPlace(es, h, key, 0), FindKey(es, h, key, 0);
    MissMeansAbsent(es, h, key);
    NoPlaceMeansFull(es, h, key);
    if k == |es| {
      SetAfterMiss(es, h, key, value);
    } else if c < k {
      HoleDuplicates(es, h, key, value);
    } else {
      OverwritesValue(es, h, key, value);
    }
  }

  lemma HoleDuplicates<V>(es: seq<Entry<V>>, h: nat, key: Uint64, value: V)
    requires Unique(es) && key != 0 && |es| < INVALID_ENTRY
    requires FindPlace(es, h, key, 0) < FindKey(es, h, key, 0) < |es|
    ensures !Unique(SetEntry(es, h, key, value).0) && !NoHoleBefore(es, h, key)
  {
    var c, k := FindPlace(es, h, key, 0), FindKey(es, h, key, 0);
    var after := SetEntry(es, h, key, value).0;
    var s, t := Slot(h, c, |es|), Slot(h, k, |es|);
    SlotsDiffer(h, c, k, |es|);
    assert after[s].key == key && after[t].key == key;
    var lo, hi := if s < t then s else t, if s < t then t else s;
    assert after[lo].key == after[hi].key == key;
  }

  lemma OverwritesValue<V>(es: seq<Entry<V>>, h: nat, key: Uint64, value: V)
    requires Unique(es) && key != 0 && |es| < INVALID_ENTRY
    requires FindKey(es, h, key, 0) < |es| && FindKey(es, h, key, 0) <= FindPlace(es, h, key, 0)
    ensures var (after, id) := SetEntry(es, h, key, value);
            && Unique(after) && id != INVALID_ENTRY && Mapping(after) == Mapping(es)[key := value]
            && NoHoleBefore(es, h, key)
  {
    var c, k := FindPlace(es, h, key, 0), FindKey(es, h, key, 0);
    assert c == k;
    var s := Slot(h, k, |es|);
    var after := SetEntry(es, h, key, value).0;
    assert forall i :: 0 <= i < |es| ==> after[i].key == es[i].key;
    MappingUpdated(es, after, s, key, value);
  }

  /** A hole before the key: the second insertion of 7 creates a second entry for it. */
  lemma HoleDuplicatesKey()
    ensures var es := [Entry(0, 1), Entry(7, 2)];
            Unique(es) && !Unique(SetEntry(es, 0, 7, 3).0)
  {
    var es := [Entry(0, 1), Entry(7, 2)];
    assert FindPlace(es, 0, 7, 0) == 0;
    var after := SetEntry(es, 0, 7, 3).0;
    assert after[0].key == after[1].key == 7;
  }

  // ------------------------------------------------------- runs

  /** `Insert` is the set-after-miss of the UDP server: look the key up and set it only if it is missing. */
  datatype TableOp<V> = Get(key: Uint64) | Remove(key: Uint64) | Insert(key: Uint64, value: V)

  datatype Answer<V> = Hit(value: V) | Nothing | Done | Full

  function TableStep<V>(es: seq<Entry<V>>, hash: Uint64 -> Uint32, op: TableOp<V>): (r: (seq<Entry<V>>, Answer<V>))
    requires |es| < INVALID_ENTRY
    ensures |r.0| == |es|
  {
    var h := hash(op.key);
    var c := FindKey(es, h, op.key, 0);
    match op
    case Get(_) => (es, if c < |es| then Hit(es[Slot(h, c, |es|)].value) else Nothing)
    case Remove(_) => if c < |es| then (ClearEntry(es, Slot(h, c, |es|)), Done) else (es, Nothing)
    case Insert(key, value) =>
      if c < |es| then (es, Hit(es[Slot(h, c, |es|)].value))
      else
        var (after, id) := SetEntry(es, h, key, value);
        (after, if id == INVALID_ENTRY then Full else Done)
  }

  /** A finite map with room for `n` keys. */
  ghost function MapStep<V>(m: map<Uint64, V>, n: nat, op: TableOp<V>): (map<Uint64, V>, Answer<V>) {
    match op
    case Get(key) => (m, if key in m then Hit(m[key]) else Nothing)
    case Remove(key) => if key in m then (m - {key}, Done) else (m, Nothing)
    case Insert(key, value) =>
      if key in m then (m, Hit(m[key]))
      else if |m| == n then (m, Full)
      else (m[key := value], Done)
  }

  function TableRun<V>(es: seq<Entry<V>>, hash: Uint64 -> Uint32, ops: seq<TableOp<V>>): seq<Answer<V>>
    requires |es| < INVALID_ENTRY
    decreases |ops|
  {
    if ops == [] then []
    else
      var (after, answer) := TableStep(es, hash, ops[0]);
      [answer] + TableRun(after, hash, ops[1..])
  }

  ghost function MapRun<V>(m: map<Uint64, V>, n: nat, ops: seq<TableOp<V>>): seq<Answer<V>>
    decreases |ops|
  {
    if ops == [] then []
    else
      var (after, answer) := MapStep(m, n, ops[0]);
      [answer] + MapRun(after, n, ops[1..])
  }

  ghost function KeySet<V>(es: seq<Entry<V>>): set<Uint64> {
    set i | 0 <= i < |es| && es[i].key != 0 :: es[i].key
  }

  lemma {:induction false} KeyCount<V>(es: seq<Entry<V>>)
    requires Unique(es)
    ensures |KeySet(es)| <= |es|
    ensures |KeySet(es)| == |es| <==> forall i :: 0 <= i < |es| ==> es[i].key != 0
  {
    if es == [] {
      assert KeySet(es) == {};
    } else {
      var front, last := es[..|es| - 1], es[|es| - 1].key;
      KeyCount(front);
      hide Unique;
      if last == 0 {
        assert KeySet(es) == KeySet(front);
      } else {
        assert KeySet(es) == KeySet(front) + {last};
        assert last !in KeySet(front);
      }
    }
  }

  /** The map is as large as the table exactly when every entry is taken. */
  lemma FullMeansFull<V>(es: seq<Entry<V>>)
    requires Unique(es)
    ensures |Mapping(es)| == |es| <==> forall i :: 0 <= i < |es| ==> es[i].key != 0
  {
    KeyCount(es);
    assert Mapping(es).Keys == KeySet(es);
  }

  lemma FoundValue<V>(es: seq<Entry<V>>, h: nat, key: Uint64)
    requires Unique(es) && key != 0
    ensures var c := FindKey(es, h, key, 0);
            if c < |es| then key in Mapping(es) && Mapping(es)[key] == es[Slot(h, c, |es|)].value
                             && es[Slot(h, c, |es|)].key == key
            else key !in Mapping(es)
  {
    MissMeansAbsent(es, h, key);
  }

  lemma StepRefinesMap<V>(es: seq<Entry<V>>, hash: Uint64 -> Uint32, op: TableOp<V>)
    requires Unique(es) && op.key != 0 && |es| < INVALID_ENTRY
    ensures var (after, answer) := TableStep(es, hash, op);
            Unique(after) && MapStep(Mapping(es), |es|, op) == (Mapping(after), answer)
  {
    hide Mapping, FindKey, SetEntry, ClearEntry;
    var h := hash(op.key);
    FoundValue(es, h, op.key);
    var c := FindKey(es, h, op.key, 0);
    match op
    case Get(_) =>
    case Remove(_) =>
      if c < |es| { ClearRemoves(es, Slot(h, c, |es|)); }
    case Insert(key, value) =>
      if c == |es| {
        MissMeansAbsent(es, h, key);
        SetAfterMiss(es, h, key, value);
        FullMeansFull(es);
      }
  }

  /**
   * Over every run of get, remove and set-after-miss, with any hash and despite the holes removals
   * leave, the table answers like a finite map with room for as many keys as it has entries.
   */
  lemma {:induction false} RunsRefineMap<V>(es: seq<Entry<V>>, hash: Uint64 -> Uint32, ops: seq<TableOp<V>>)
    requires Unique(es) && |es| < INVALID_ENTRY && forall i :: 0 <= i < |ops| ==> ops[i].key != 0
    ensures TableRun(es, hash, ops) == MapRun(Mapping(es), |es|, ops)
    decreases |ops|
  {
    hide Mapping, TableStep, MapStep, Unique;
    if ops != [] {
      StepRefinesMap(es, hash, ops[0]);
      var (after, _) := TableStep(es, hash, ops[0]);
      RunsRefineMap(after, hash, ops[1..]);
    }
  }

  // ------------------------------------------------------- the table in memory

  class HashTable<V(0)> {
    const hash: Uint64 -> Uint32
    var entries: array?<Entry<V>>
    var size: nat

    constructor (hash: Uint64 -> Uint32)
      ensures entries == null && size == 0 && this.hash == hash
    {
      this.hash := hash;
      entries := null;
      size := 0;
    }

    ghost predicate Valid()
      reads this, entries
    {
      entries != null && size == entries.Length < INVALID_ENTRY && IsPow2(size) && Unique(entries[..])
    }

    /** The table size is the least power of two that holds `wanted` entries. */
    method Initialize(wanted: nat) returns (rc: ErrorCode)
      requires wanted <= 0x8000_0000
      modifies this
      ensures if old(size != 0 || entries != null)
              then rc == AlreadyExists && size == old(size) && entries == old(entries)
              else rc == Ok && Valid() && fresh(entries) && wanted <= size && (size == 1 || size < 2 * wanted)
                   && Mapping(entries[..]) == map[]
    {
      if size != 0 || entries != null {
        return AlreadyExists;
      }
      var size2pow := 1;
      ghost var k := 0;
      assert size2pow == Pow2(k);
      while size2pow < wanted
        invariant size2pow == Pow2(k) <= 0x8000_0000 && (size2pow == 1 || size2pow < 2 * wanted)
        decreases wanted - size2pow
      {
        k := k + 1;
        size2pow := 2 * size2pow;
        HalfRange(k);
      }
      var table := new Entry<V>[size2pow];
      for i := 0 to size2pow
        invariant fresh(table) && forall j :: 0 <= j < i ==> table[j].key == 0
      {
        table[i] := table[i].(key := 0);
      }
      entries := table;
      size := size2pow;
      rc := Ok;
    }

    /** `value` is only overwritten by a hit. */
    method GetItem(key: Uint64, before: V) returns (id: Uint32, value: V)
      requires Valid()
      ensures if Holds(entries[..], key) then id < size && entries[id].key == key && entries[id].value == value
              else id == INVALID_ENTRY && value == before
    {
      hide BitAnd, IsPow2, Slot, Unique, Holds;
      ghost var es := entries[..];
      MissMeansAbsent(es, hash(key), key);
      var count, idx := 0, hash(key);
      while count < size
        invariant count <= size && FindKey(es, hash(key), key, 0) >= count
        invariant FindKey(es, hash(key), key, 0) == FindKey(es, hash(key), key, count)
        invariant if count == 0 then idx == hash(key) else idx == Slot(hash(key), count - 1, size) + 1
        decreases size - count
      {
        MaskedSlotOf(idx, count, hash(key), size);
        idx := BitAnd(idx, size - 1);
        if entries[idx].key == key {
          return idx, entries[idx].value;
        }
        idx := idx + 1;
        count := count + 1;
      }
      return INVALID_ENTRY, before;
    }

    method SetItem(key: Uint64, value: V) returns (id: Uint32)
      requires entries != null && size == entries.Length < INVALID_ENTRY && IsPow2(size)
      modifies entries
      ensures (entries[..], id) == SetEntry(old(entries[..]), hash(key), key, value)
    {
      hide BitAnd, IsPow2, Slot, Unique;
      ghost var es := entries[..];
      var count, idx := 0, hash(key);
      while count < size
        invariant count <= size && entries[..] == es
        invariant FindPlace(es, hash(key), key, 0) == FindPlace(es, hash(key), key, count)
        invariant if count == 0 then idx == hash(key) else idx == Slot(hash(key), count - 1, size) + 1
        decreases size - count
      {
        MaskedSlotOf(idx, count, hash(key), size);
        idx := BitAnd(idx, size - 1);
        var probed := entries[idx].key;
        if probed != key && probed != 0 {
          idx := idx + 1;
          count := count + 1;
          continue;
        }
        entries[idx] := Entry(key, value);
        return idx;
      }
      return INVALID_ENTRY;
    }

    method RemoveAt(id: Uint32)
      requires entries != null && id < entries.Length
      modifies entries
      ensures entries[..] == ClearEntry(old(entries[..]), id)
      ensures entries[id].key == 0 && entries[id].value == old(entries[id].value)
      ensures forall i :: 0 <= i < entries.Length && i != id ==> entries[i] == old(entries[i])
    {
      entries[id] := entries[id].(key := 0);
    }

    method RemoveItem(key: Uint64) returns (id: Uint32)
      requires Valid()
      modifies entries
      ensures if Holds(old(entries[..]), key)
              then id < size && old(entries[id].key) == key && entries[..] == ClearEntry(old(entries[..]), id)
              else id == INVALID_ENTRY && entries[..] == old(entries[..])
    {
      hide BitAnd, IsPow2, Slot, Unique, Holds;
      ghost var es := entries[..];
      MissMeansAbsent(es, hash(key), key);
      var count, idx := 0, hash(key);
      while count < size
        invariant count <= size && entries[..] == es
        invariant FindKey(es, hash(key), key, 0) == FindKey(es, hash(key), key, count)
        invariant if count == 0 then idx == hash(key) else idx == Slot(hash(key), count - 1, size) + 1
        decreases size - count
      {
        MaskedSlotOf(idx, count, hash(key), size);
        idx := BitAnd(idx, size - 1);
        if entries[idx].key != key {
          idx := idx + 1;
          count := count + 1;
          continue;
        }
        RemoveAt(idx);
        return idx;
      }
      return INVALID_ENTRY;
    }

    /**
     * One operation, whichever it is; an insertion looks the key up and sets it only if it is missing,
     * as the UDP server does. It answers, and changes the map of the table, as a finite map would.
     */
    method Perform(op: TableOp<V>) returns (answer: Answer<V>)
      requires Valid() && op.key != 0
      modifies entries
      ensures Valid() && (entries[..], answer) == TableStep(old(entries[..]), hash, op)
      ensures var m, after := old(Mapping(entries[..])), Mapping(entries[..]);
              if op.key in m then
                && answer == (if op.Remove? then Done else Hit(m[op.key]))
                && after == (if op.Remove? then m - {op.key} else m)
              else if op.Insert? then
                if |m| == size then answer == Full && after == m
                else answer == Done && after == m[op.key := op.value]
              else answer == Nothing && after == m
    {
      hide SetEntry, ClearEntry, FindKey, BitAnd, IsPow2, Slot, Unique, Holds, Mapping;
      ghost var es := entries[..];
      StepRefinesMap(es, hash, op);
      ProbeFinds(es, hash(op.key), op.key);
      match op
      case Get(key) =>
        var before: V := *;
        var id, value := GetItem(key, before);
        answer := if id == INVALID_ENTRY then Nothing else Hit(value);
      case Remove(key) =>
        var id := RemoveItem(key);
        answer := if id == INVALID_ENTRY then Nothing else Done;
      case Insert(key, value) =>
        var before: V := *;
        var found, held := GetItem(key, before);
        if found != INVALID_ENTRY {
          return Hit(held);
        }
        var id := SetItem(key, value);
        answer := if id == INVALID_ENTRY then Full else Done;
    }
  }

  /** With unique keys, the entry a probe finds is the only one that holds the key. */
  lemma ProbeFinds<V>(es: seq<Entry<V>>, h: nat, key: Uint64)
    requires Unique(es) && key != 0
    ensures Holds(es, key) <==> FindKey(es, h, key, 0) < |es|
    ensures forall i :: 0 <= i < |es| && es[i].key == key ==> i == Slot(h, FindKey(es, h, key, 0), |es|)
  {
    MissMeansAbsent(es, h, key);
  }

  lemma MaskedSlotOf(idx: nat, c: nat, h: nat, size: nat)
    requires IsPow2(size) && size > 0 && (if c == 0 then idx == h else idx == Slot(h, c - 1, size) + 1)
    ensures BitAnd(idx, size - 1) == Slot(h, c, size)
  {
    var k :| size == Pow2(k);
    MaskIsMod(idx, k);
    if c > 0 {
      SlotStep(h, c - 1, size);
    }
  }

  /** Doubling a power of two below 2^31 stays within 2^31. */
  lemma HalfRange(k: nat)
    requires k > 0 && Pow2(k - 1) < 0x8000_0000
    ensures Pow2(k) <= 0x8000_0000
  {
    if k - 1 >= 31 {
      Pow2Grows(31, k - 1);
      assert Pow2(31) == 0x8000_0000 by { Pow2Of31(); }
    } else {
      Pow2Grows(k, 31);
      Pow2Of31();
    }
  }

  lemma {:induction false} Pow2Grows(a: nat, b: nat)
    requires a <= b
    ensures Pow2(a) <= Pow2(b)
    decreases b - a
  {
    if a < b {
      Pow2Grows(a, b - 1);
    }
  }

  lemma Pow2Of31()
    ensures Pow2(31) == 0x8000_0000
  {
    assert Pow2(8) == 256;
    assert Pow2(16) == 65536;
    assert Pow2(24) == 16777216;
  }
}
