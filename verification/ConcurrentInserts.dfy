/**
 * The hash table under concurrent inserts and lookups (inc/transport/concurrent_hash_table.h): every
 * load, compare-and-swap and store of every thread is one atomic step.
 */
module ConcurrentInserts {
  import opened Bytes
  import opened HashTables

  /** Where an inserting thread stands in `setItem`; `count` probes lie behind it. */
  datatype Phase =
    | Probing(count: nat)
    | SawFree(count: nat)
    | Claimed(slot: nat)
    | Returned(slot: nat)
    | Rejected

  datatype Inserter<V> = Inserter(key: Uint64, value: V, phase: Phase)

  /** Where a reading thread stands in `getItem`. */
  datatype ReadPhase<V> =
    | Idle
    | Scanning(count: nat)
    | Matched(slot: nat)
    | Got(value: V)
    | Missed

  /** `armed`: when the lookup started, some insert of its key had already returned. */
  datatype Reader<V> = Reader(key: Uint64, armed: bool, phase: ReadPhase<V>)

  datatype State<V> = State(keys: seq<Uint64>, values: seq<V>, ins: seq<Inserter<V>>, readers: seq<Reader<V>>)

  datatype Action = Load(t: nat) | Cas(t: nat) | Store(t: nat) | StartRead(r: nat) | LoadKey(r: nat) | ReadValue(r: nat)

  predicate Shaped<V>(s: State<V>) {
    && 0 < |s.keys| == |s.values|
    && (forall t :: 0 <= t < |s.ins| ==>
          match s.ins[t].phase
          case Probing(c) => c <= |s.keys|
          case SawFree(c) => c < |s.keys|
          case Claimed(i) => i < |s.keys|
          case Returned(i) => i < |s.keys|
          case Rejected => true)
    && (forall r :: 0 <= r < |s.readers| ==>
          match s.readers[r].phase
          case Scanning(c) => c <= |s.keys|
          case Matched(i) => i < |s.keys|
          case _ => true)
  }

  predicate Enabled<V>(s: State<V>, a: Action) {
    match a
    case Load(t) => t < |s.ins| && s.ins[t].phase.Probing?
    case Cas(t) => t < |s.ins| && s.ins[t].phase.SawFree?
    case Store(t) => t < |s.ins| && s.ins[t].phase.Claimed?
    case StartRead(r) => r < |s.readers| && s.readers[r].phase.Idle?
    case LoadKey(r) => r < |s.readers| && s.readers[r].phase.Scanning?
    case ReadValue(r) => r < |s.readers| && s.readers[r].phase.Matched?
  }

  /** The probe of thread `t` that comes next. */
  function ProbeSlot<V>(s: State<V>, hash: Uint64 -> Uint32, key: Uint64, c: nat): (i: nat)
    requires Shaped(s)
    ensures i < |s.keys|
  {
    Slot(hash(key), c, |s.keys|)
  }

  function SetPhase<V>(s: State<V>, t: nat, p: Phase): State<V>
    requires t < |s.ins|
  {
    s.(ins := s.ins[t := s.ins[t].(phase := p)])
  }

  function SetReadPhase<V>(s: State<V>, r: nat, p: ReadPhase<V>): State<V>
    requires r < |s.readers|
  {
    s.(readers := s.readers[r := s.readers[r].(phase := p)])
  }

  predicate HasReturned<V>(s: State<V>, key: Uint64) {
    exists t :: 0 <= t < |s.ins| && s.ins[t].key == key && s.ins[t].phase.Returned?
  }

  /** The load of the probed key. */
  function StepLoad<V>(s: State<V>, t: nat, hash: Uint64 -> Uint32): (s': State<V>)
    requires Shaped(s) && Enabled(s, Load(t))
    ensures Shaped(s')
  {
    var me := s.ins[t];
    if me.phase.count == |s.keys| then SetPhase(s, t, Rejected)
    else
      var i := ProbeSlot(s, hash, me.key, me.phase.count);
      if s.keys[i] == me.key then SetPhase(s, t, Claimed(i))
      else if s.keys[i] != 0 then SetPhase(s, t, Probing(me.phase.count + 1))
      else SetPhase(s, t, SawFree(me.phase.count))
  }

  function Step<V>(s: State<V>, a: Action, hash: Uint64 -> Uint32): (s': State<V>)
    requires Shaped(s) && Enabled(s, a)
    ensures Shaped(s')
  {
    match a
    case Load(t) => StepLoad(s, t, hash)
    case Cas(t) =>
      var me := s.ins[t];
      var i := ProbeSlot(s, hash, me.key, me.phase.count);
      if s.keys[i] == 0 then SetPhase(s.(keys := s.keys[i := me.key]), t, Claimed(i))
      else SetPhase(s, t, Probing(me.phase.count + 1))
    case Store(t) =>
      var i := s.ins[t].phase.slot;
      SetPhase(s.(values := s.values[i := s.ins[t].value]), t, Returned(i))
    case StartRead(r) =>
      var me := s.readers[r];
      s.(readers := s.readers[r := Reader(me.key, HasReturned(s, me.key), Scanning(0))])
    case LoadKey(r) =>
      var me := s.readers[r];
      if me.phase.count == |s.keys| then SetReadPhase(s, r, Missed)
      else
        var i := ProbeSlot(s, hash, me.key, me.phase.count);
        if s.keys[i] == me.key then SetReadPhase(s, r, Matched(i))
        else SetReadPhase(s, r, Scanning(me.phase.count + 1))
    case ReadValue(r) =>
      SetReadPhase(s, r, Got(s.values[s.readers[r].phase.slot]))
  }

  // ------------------------------------------------------- invariant

  predicate Owns<V>(s: State<V>, t: int, i: int) {
    0 <= t < |s.ins| && 0 <= i && (s.ins[t].phase == Claimed(i) || s.ins[t].phase == Returned(i))
  }

  /** The table starts with the keys `init`; every inserted key is new, non-zero and inserted once. */
  ghost predicate DistinctKeys<V>(s: State<V>, init: seq<Uint64>) {
    && |init| == |s.keys|
    && (forall i, j :: 0 <= i < j < |init| && init[i] != 0 ==> init[i] != init[j])
    && (forall t, u :: 0 <= t < u < |s.ins| ==> s.ins[t].key != s.ins[u].key)
    && (forall t :: 0 <= t < |s.ins| ==> s.ins[t].key != 0 && s.ins[t].key !in init)
    && (forall r :: 0 <= r < |s.readers| ==> s.readers[r].key != 0)
  }

  ghost predicate Slots<V>(s: State<V>, init: seq<Uint64>)
    requires |init| == |s.keys|
  {
    && (forall t, i :: Owns(s, t, i) ==> i < |s.keys| && s.keys[i] == s.ins[t].key)
    && (forall i :: 0 <= i < |s.keys| && s.keys[i] != 0 ==> s.keys[i] == init[i] || exists t :: Owns(s, t, i))
    && (forall i :: 0 <= i < |s.keys| && init[i] != 0 ==> s.keys[i] == init[i])
  }

  /** The first `c` probes of a key all met taken entries. */
  ghost predicate Passed<V>(s: State<V>, hash: Uint64 -> Uint32, key: Uint64, c: nat)
    requires Shaped(s)
  {
    forall d :: 0 <= d < c ==> s.keys[ProbeSlot(s, hash, key, d)] != 0
  }

  ghost predicate InserterOk<V>(s: State<V>, hash: Uint64 -> Uint32, me: Inserter<V>)
    requires Shaped(s)
  {
    match me.phase
    case Probing(c) => Passed(s, hash, me.key, c)
    case SawFree(c) => Passed(s, hash, me.key, c)
    case Claimed(_) => true
    case Returned(i) => i < |s.keys| && s.values[i] == me.value
    case Rejected => forall i :: 0 <= i < |s.keys| ==> s.keys[i] != 0
  }

  ghost predicate Inserters<V>(s: State<V>, hash: Uint64 -> Uint32)
    requires Shaped(s)
  {
    forall t :: 0 <= t < |s.ins| ==> InserterOk(s, hash, s.ins[t])
  }

  /** The insert whose return armed a lookup, and where the lookup stands relative to its entry. */
  ghost predicate Witness<V>(s: State<V>, hash: Uint64 -> Uint32, me: Reader<V>, t: int)
    requires Shaped(s)
  {
    && 0 <= t < |s.ins| && s.ins[t].key == me.key && s.ins[t].phase.Returned?
    && match me.phase
       case Scanning(c) => forall d :: 0 <= d < c ==> ProbeSlot(s, hash, me.key, d) != s.ins[t].phase.slot
       case Got(v) => v == s.ins[t].value
       case Missed => false
       case _ => true
  }

  /** A lookup that started after an insert of its key returned cannot have run past that insert's entry. */
  ghost predicate Lookups<V>(s: State<V>, hash: Uint64 -> Uint32)
    requires Shaped(s)
  {
    forall r :: 0 <= r < |s.readers| ==> LookupOk(s, hash, s.readers[r])
  }

  ghost predicate LookupOk<V>(s: State<V>, hash: Uint64 -> Uint32, me: Reader<V>)
    requires Shaped(s)
  {
    && (match me.phase
        case Matched(i) => i < |s.keys| && s.keys[i] == me.key
        case _ => true)
    && (me.armed ==> me.phase.Idle? || exists t :: Witness(s, hash, me, t))
  }

  ghost predicate Inv<V>(s: State<V>, init: seq<Uint64>, hash: Uint64 -> Uint32) {
    Shaped(s) && DistinctKeys(s, init) && Slots(s, init) && Inserters(s, hash) && Lookups(s, hash)
  }

  ghost predicate Initial<V>(s: State<V>, init: seq<Uint64>) {
    && Shaped(s) && DistinctKeys(s, init) && s.keys == init
    && (forall t :: 0 <= t < |s.ins| ==> s.ins[t].phase == Probing(0))
    && (forall r :: 0 <= r < |s.readers| ==> s.readers[r].phase.Idle? && !s.readers[r].armed)
  }

  lemma InitialInv<V>(s: State<V>, init: seq<Uint64>, hash: Uint64 -> Uint32)
    requires Initial(s, init)
    ensures Inv(s, init, hash)
  {
  }

  // ------------------------------------------------------- every step keeps the invariant

  lemma OneOwner<V>(s: State<V>, init: seq<Uint64>, t: nat, u: nat, i: nat)
    requires DistinctKeys(s, init) && Slots(s, init) && Owns(s, t, i) && Owns(s, u, i)
    ensures t == u
  {
    assert s.ins[t].key == s.keys[i] == s.ins[u].key;
  }

  lemma InitialOrInserted<V>(s: State<V>, init: seq<Uint64>, i: nat)
    requires DistinctKeys(s, init) && Slots(s, init) && i < |s.keys| && s.keys[i] != 0
    ensures if s.keys[i] in init then s.keys[i] == init[i] else exists t :: Owns(s, t, i)
  {
    if s.keys[i] != init[i] {
      var t :| Owns(s, t, i);
      assert s.keys[i] == s.ins[t].key;
    }
  }

  /** No key sits in two slots. */
  lemma OneSlot<V>(s: State<V>, init: seq<Uint64>, i: nat, j: nat)
    requires DistinctKeys(s, init) && Slots(s, init) && i < |s.keys| && j < |s.keys| && s.keys[i] == s.keys[j] != 0
    ensures i == j
  {
    InitialOrInserted(s, init, i);
    InitialOrInserted(s, init, j);
    if s.keys[i] !in init {
      var t :| Owns(s, t, i);
      var u :| Owns(s, u, j);
      assert s.ins[t].key == s.ins[u].key;
      assert !(t < u) && !(u < t);
    }
  }

  /** Threads keep their keys and values, and an entry whose key is set keeps it for good. */
  lemma StepKeepsKeys<V>(s: State<V>, a: Action, init: seq<Uint64>, hash: Uint64 -> Uint32)
    requires Shaped(s) && Enabled(s, a) && DistinctKeys(s, init)
    ensures var s' := Step(s, a, hash);
            && DistinctKeys(s', init) && |s'.ins| == |s.ins|
            && (forall t :: 0 <= t < |s.ins| ==> s'.ins[t].key == s.ins[t].key && s'.ins[t].value == s.ins[t].value)
            && (forall i :: 0 <= i < |s.keys| && s.keys[i] != 0 ==> s'.keys[i] == s.keys[i])
  {
    StepFrame(s, a, hash);
    hide Step, Shaped;
  }

  /** A step changes phases, at most one free key, and no inserter's or reader's own data. */
  lemma StepFrame<V>(s: State<V>, a: Action, hash: Uint64 -> Uint32)
    requires Shaped(s) && Enabled(s, a)
    ensures var s' := Step(s, a, hash);
            && |s'.keys| == |s.keys| && |s'.ins| == |s.ins| && |s'.readers| == |s.readers|
            && (forall t :: 0 <= t < |s.ins| ==> s'.ins[t].key == s.ins[t].key && s'.ins[t].value == s.ins[t].value)
            && (forall r :: 0 <= r < |s.readers| ==> s'.readers[r].key == s.readers[r].key)
            && (forall i :: 0 <= i < |s.keys| && s.keys[i] != 0 ==> s'.keys[i] == s.keys[i])
  {
    hide Shaped, Slot;
  }

  lemma StepOwners<V>(s: State<V>, a: Action, hash: Uint64 -> Uint32)
    requires Shaped(s) && Enabled(s, a)
    ensures var s' := Step(s, a, hash);
            && (forall t, i :: Owns(s, t, i) ==> Owns(s', t, i))
            && (forall t, i :: Owns(s', t, i) ==>
                  Owns(s, t, i) || (s'.keys[i] == s.ins[t].key && (a == Load(t) || a == Cas(t))))
            && (forall i :: 0 <= i < |s.keys| && s'.keys[i] != s.keys[i] ==> a.Cas? && Owns(s', a.t, i))
  {
  }

  lemma StepSlots<V>(s: State<V>, a: Action, init: seq<Uint64>, hash: Uint64 -> Uint32)
    requires Shaped(s) && Enabled(s, a) && DistinctKeys(s, init) && Slots(s, init)
    ensures DistinctKeys(Step(s, a, hash), init) && Slots(Step(s, a, hash), init)
  {
    StepKeepsKeys(s, a, init, hash);
    StepOwners(s, a, hash);
    var s' := Step(s, a, hash);
    hide Step, Owns;
    forall i | 0 <= i < |s'.keys| && s'.keys[i] != 0 ensures s'.keys[i] == init[i] || exists t :: Owns(s', t, i) {
      if s'.keys[i] == s.keys[i] && s.keys[i] != init[i] {
        var t :| Owns(s, t, i);
        assert Owns(s', t, i);
      }
    }
  }

  lemma PassedStays<V>(s: State<V>, s': State<V>, hash: Uint64 -> Uint32, key: Uint64, c: nat)
    requires Shaped(s) && Shaped(s') && |s.keys| == |s'.keys| && Passed(s, hash, key, c)
    requires forall i :: 0 <= i < |s.keys| && s.keys[i] != 0 ==> s'.keys[i] == s.keys[i]
    ensures Passed(s', hash, key, c)
  {
    forall d | 0 <= d < c ensures s'.keys[ProbeSlot(s', hash, key, d)] != 0 {
      assert s.keys[ProbeSlot(s, hash, key, d)] != 0;
    }
  }

  lemma PassedOne<V>(s: State<V>, hash: Uint64 -> Uint32, key: Uint64, c: nat)
    requires Shaped(s) && Passed(s, hash, key, c) && s.keys[ProbeSlot(s, hash, key, c)] != 0
    ensures Passed(s, hash, key, c + 1)
  {
  }

  lemma PassedAll<V>(s: State<V>, hash: Uint64 -> Uint32, key: Uint64)
    requires Shaped(s) && Passed(s, hash, key, |s.keys|)
    ensures forall i :: 0 <= i < |s.keys| ==> s.keys[i] != 0
  {
    forall i | 0 <= i < |s.keys| ensures s.keys[i] != 0 {
      ProbingIsBijective(hash(key), |s.keys|, i);
      var c :| 0 <= c < |s.keys| && Slot(hash(key), c, |s.keys|) == i;
      assert s.keys[ProbeSlot(s, hash, key, c)] != 0;
    }
  }

  /** The thread that moves. */
  lemma MoverOk<V>(s: State<V>, a: Action, t: nat, init: seq<Uint64>, hash: Uint64 -> Uint32)
    requires Shaped(s) && Enabled(s, a) && DistinctKeys(s, init) && t < |s.ins| && InserterOk(s, hash, s.ins[t])
    requires a == Load(t) || a == Cas(t) || a == Store(t)
    ensures InserterOk(Step(s, a, hash), hash, Step(s, a, hash).ins[t])
  {
    var me, s' := s.ins[t], Step(s, a, hash);
    if !a.Store? {
      var c := me.phase.count;
      PassedStays(s, s', hash, me.key, c);
      if c == |s.keys| {
        PassedAll(s, hash, me.key);
      } else if s'.keys[ProbeSlot(s', hash, me.key, c)] != 0 {
        PassedOne(s', hash, me.key, c);
      }
    }
  }

  /** A thread that stands still while another moves. */
  lemma BystanderOk<V>(s: State<V>, a: Action, t: nat, init: seq<Uint64>, hash: Uint64 -> Uint32)
    requires Shaped(s) && Enabled(s, a) && DistinctKeys(s, init) && Slots(s, init)
    requires t < |s.ins| && InserterOk(s, hash, s.ins[t]) && a != Load(t) && a != Cas(t) && a != Store(t)
    ensures Step(s, a, hash).ins[t] == s.ins[t] && InserterOk(Step(s, a, hash), hash, s.ins[t])
  {
    var me, s' := s.ins[t], Step(s, a, hash);
    StepKeepsKeys(s, a, init, hash);
    if me.phase.Probing? || me.phase.SawFree? {
      PassedStays(s, s', hash, me.key, me.phase.count);
    }
    if me.phase.Returned? && a.Store? && s.ins[a.t].phase.slot == me.phase.slot {
      assert Owns(s, t, me.phase.slot) && Owns(s, a.t, me.phase.slot);
      OneOwner(s, init, t, a.t, me.phase.slot);
    }
  }

  lemma StepInserters<V>(s: State<V>, a: Action, init: seq<Uint64>, hash: Uint64 -> Uint32)
    requires Shaped(s) && Enabled(s, a) && DistinctKeys(s, init) && Slots(s, init) && Inserters(s, hash)
    ensures Inserters(Step(s, a, hash), hash)
  {
    var s' := Step(s, a, hash);
    StepKeepsKeys(s, a, init, hash);
    hide Step, InserterOk;
    forall t | 0 <= t < |s'.ins| ensures InserterOk(s', hash, s'.ins[t]) {
      if a == Load(t) || a == Cas(t) || a == Store(t) {
        MoverOk(s, a, t, init, hash);
      } else {
        BystanderOk(s, a, t, init, hash);
      }
    }
  }

  // ------------------------------------------------------- lookups

  lemma LookupStandsStill<V>(s: State<V>, a: Action, r: nat, init: seq<Uint64>, hash: Uint64 -> Uint32)
    requires Shaped(s) && Enabled(s, a) && DistinctKeys(s, init) && r < |s.readers| && LookupOk(s, hash, s.readers[r])
    requires a != StartRead(r) && a != LoadKey(r) && a != ReadValue(r)
    ensures Step(s, a, hash).readers[r] == s.readers[r] && LookupOk(Step(s, a, hash), hash, s.readers[r])
  {
    StepKeepsKeys(s, a, init, hash);
    var me, s' := s.readers[r], Step(s, a, hash);
    if me.armed && !me.phase.Idle? {
      var t :| Witness(s, hash, me, t);
      assert s'.ins[t].phase == s.ins[t].phase;
      if me.phase.Scanning? {
        forall d | 0 <= d < me.phase.count ensures ProbeSlot(s', hash, me.key, d) != s.ins[t].phase.slot {
          assert ProbeSlot(s, hash, me.key, d) != s.ins[t].phase.slot;
        }
      }
      assert Witness(s', hash, me, t);
    }
  }

  /** A full scan meets every slot. */
  lemma ScanMeets<V>(s: State<V>, hash: Uint64 -> Uint32, key: Uint64, i: nat)
    requires Shaped(s) && i < |s.keys|
    ensures exists d :: 0 <= d < |s.keys| && ProbeSlot(s, hash, key, d) == i
  {
    ProbingIsBijective(hash(key), |s.keys|, i);
    var d :| 0 <= d < |s.keys| && Slot(hash(key), d, |s.keys|) == i;
    assert ProbeSlot(s, hash, key, d) == i;
  }

  lemma LookupScans<V>(s: State<V>, r: nat, init: seq<Uint64>, hash: Uint64 -> Uint32)
    requires Inv(s, init, hash) && Enabled(s, LoadKey(r))
    ensures LookupOk(Step(s, LoadKey(r), hash), hash, Step(s, LoadKey(r), hash).readers[r])
  {
    var me, s' := s.readers[r], Step(s, LoadKey(r), hash);
    var c := me.phase.count;
    assert LookupOk(s, hash, me);
    if me.armed {
      var t :| Witness(s, hash, me, t);
      var i := s.ins[t].phase.slot;
      assert Owns(s, t, i) && s.keys[i] == me.key;
      if c == |s.keys| {
        ScanMeets(s, hash, me.key, i);
      } else {
        forall d | 0 <= d < c ensures ProbeSlot(s', hash, me.key, d) != i {
          assert ProbeSlot(s, hash, me.key, d) != i;
        }
        assert s'.ins[t] == s.ins[t];
        assert Witness(s', hash, s'.readers[r], t);
      }
    }
  }

  lemma LookupReads<V>(s: State<V>, r: nat, init: seq<Uint64>, hash: Uint64 -> Uint32)
    requires Inv(s, init, hash) && Enabled(s, ReadValue(r))
    ensures LookupOk(Step(s, ReadValue(r), hash), hash, Step(s, ReadValue(r), hash).readers[r])
  {
    var me, s' := s.readers[r], Step(s, ReadValue(r), hash);
    assert LookupOk(s, hash, me);
    if me.armed {
      var t :| Witness(s, hash, me, t);
      var i := s.ins[t].phase.slot;
      assert Owns(s, t, i);
      OneSlot(s, init, i, me.phase.slot);
      assert InserterOk(s, hash, s.ins[t]);
      assert Witness(s', hash, s'.readers[r], t);
    }
  }

  lemma LookupStarts<V>(s: State<V>, r: nat, init: seq<Uint64>, hash: Uint64 -> Uint32)
    requires Inv(s, init, hash) && Enabled(s, StartRead(r))
    ensures LookupOk(Step(s, StartRead(r), hash), hash, Step(s, StartRead(r), hash).readers[r])
  {
    var me, s' := s.readers[r], Step(s, StartRead(r), hash);
    if HasReturned(s, me.key) {
      var t :| 0 <= t < |s.ins| && s.ins[t].key == me.key && s.ins[t].phase.Returned?;
      assert s'.ins[t] == s.ins[t];
      assert Witness(s', hash, s'.readers[r], t);
    }
  }

  lemma StepLookups<V>(s: State<V>, a: Action, init: seq<Uint64>, hash: Uint64 -> Uint32)
    requires Inv(s, init, hash) && Enabled(s, a)
    ensures Lookups(Step(s, a, hash), hash)
  {
    var s' := Step(s, a, hash);
    assert |s'.readers| == |s.readers|;
    hide Step, LookupOk;
    forall r | 0 <= r < |s'.readers| ensures LookupOk(s', hash, s'.readers[r]) {
      if a == StartRead(r) {
        LookupStarts(s, r, init, hash);
      } else if a == LoadKey(r) {
        LookupScans(s, r, init, hash);
      } else if a == ReadValue(r) {
        LookupReads(s, r, init, hash);
      } else {
        LookupStandsStill(s, a, r, init, hash);
      }
    }
  }

  lemma StepKeepsInv<V>(s: State<V>, a: Action, init: seq<Uint64>, hash: Uint64 -> Uint32)
    requires Inv(s, init, hash) && Enabled(s, a)
    ensures Inv(Step(s, a, hash), init, hash)
  {
    hide Step, Slots, Inserters, Lookups, DistinctKeys, Shaped;
    StepSlots(s, a, init, hash);
    StepInserters(s, a, init, hash);
    StepLookups(s, a, init, hash);
  }

  // ------------------------------------------------------- every interleaving

  ghost predicate Schedules<V>(s: State<V>, actions: seq<Action>, hash: Uint64 -> Uint32)
    requires Shaped(s)
    decreases |actions|
  {
    actions == [] || (Enabled(s, actions[0]) && Schedules(Step(s, actions[0], hash), actions[1..], hash))
  }

  function Run<V>(s: State<V>, actions: seq<Action>, hash: Uint64 -> Uint32): (e: State<V>)
    requires Shaped(s) && Schedules(s, actions, hash)
    ensures Shaped(e)
    decreases |actions|
  {
    if actions == [] then s else Run(Step(s, actions[0], hash), actions[1..], hash)
  }

  lemma {:induction false} RunKeepsInv<V>(s: State<V>, actions: seq<Action>, init: seq<Uint64>, hash: Uint64 -> Uint32)
    requires Inv(s, init, hash) && Schedules(s, actions, hash)
    ensures var e := Run(s, actions, hash);
            && Inv(e, init, hash) && |e.ins| == |s.ins|
            && (forall t :: 0 <= t < |s.ins| ==> e.ins[t].key == s.ins[t].key && e.ins[t].value == s.ins[t].value)
            && (forall i :: 0 <= i < |s.keys| && s.keys[i] != 0 ==> e.keys[i] == s.keys[i])
    decreases |actions|
  {
    hide Step, Slots, Inserters, Lookups;
    if actions != [] {
      StepKeepsInv(s, actions[0], init, hash);
      StepKeepsKeys(s, actions[0], init, hash);
      RunKeepsInv(Step(s, actions[0], hash), actions[1..], init, hash);
    }
  }

  /** An insert of the reader's key has returned, and the reader has not started, or started after that. */
  predicate WillSee<V>(s: State<V>, t: nat, r: nat) {
    && t < |s.ins| && r < |s.readers| && s.ins[t].phase.Returned? && s.ins[t].key == s.readers[r].key
    && (s.readers[r].phase.Idle? || s.readers[r].armed)
  }

  lemma {:induction false} RunWillSee<V>(s: State<V>, actions: seq<Action>, hash: Uint64 -> Uint32, t: nat, r: nat)
    requires Shaped(s) && Schedules(s, actions, hash) && WillSee(s, t, r)
    ensures WillSee(Run(s, actions, hash), t, r)
    decreases |actions|
  {
    if actions != [] {
      StepWillSee(s, actions[0], hash, t, r);
      hide Step;
      RunWillSee(Step(s, actions[0], hash), actions[1..], hash, t, r);
    }
  }

  lemma StepWillSee<V>(s: State<V>, a: Action, hash: Uint64 -> Uint32, t: nat, r: nat)
    requires Shaped(s) && Enabled(s, a) && WillSee(s, t, r)
    ensures WillSee(Step(s, a, hash), t, r)
  {
    hide Slot;
  }

  /**
   * Threads insert pairwise distinct, new, non-zero keys and look keys up. In every interleaving of
   * their loads, compare-and-swaps and stores: an entry whose key is set never changes it; no key sits
   * in two entries; a returned insert is where it says, with its value; "full" is only reported when
   * every entry is taken; and a lookup that starts after an insert of its key has returned ends, if it
   * ends, with that insert's value.
   */
  lemma ConcurrentInsertsAreSafe<V>(s: State<V>, before: seq<Action>, after: seq<Action>,
                                    init: seq<Uint64>, hash: Uint64 -> Uint32)
    requires Initial(s, init) && Schedules(s, before, hash) && Schedules(Run(s, before, hash), after, hash)
    ensures var mid := Run(s, before, hash);
            var e := Run(mid, after, hash);
            && |mid.keys| == |e.keys| && Shaped(e)
            && (forall i :: 0 <= i < |e.keys| && mid.keys[i] != 0 ==> e.keys[i] == mid.keys[i])
            && (forall i, j :: 0 <= i < j < |e.keys| && e.keys[i] != 0 ==> e.keys[i] != e.keys[j])
            && (forall t :: 0 <= t < |e.ins| && e.ins[t].phase.Returned? ==>
                  e.keys[e.ins[t].phase.slot] == e.ins[t].key && e.values[e.ins[t].phase.slot] == e.ins[t].value)
            && (forall t :: 0 <= t < |e.ins| && e.ins[t].phase.Rejected? ==>
                  forall i :: 0 <= i < |e.keys| ==> e.keys[i] != 0)
            && (forall r, t :: 0 <= r < |e.readers| && e.readers[r].armed && 0 <= t < |e.ins|
                               && e.ins[t].key == e.readers[r].key ==>
                  && !e.readers[r].phase.Missed?
                  && (e.readers[r].phase.Got? ==> e.readers[r].phase.value == e.ins[t].value))
            && (forall r, t :: 0 <= r < |mid.readers| && mid.readers[r].phase.Idle? && 0 <= t < |mid.ins|
                               && mid.ins[t].key == mid.readers[r].key && mid.ins[t].phase.Returned? ==>
                  && r < |e.readers| && t < |e.ins| && !e.readers[r].phase.Missed?
                  && (e.readers[r].phase.Got? ==> e.readers[r].phase.value == e.ins[t].value))
  {
    hide Step, Slots, Run, Schedules;
    InitialInv(s, init, hash);
    RunKeepsInv(s, before, init, hash);
    var mid := Run(s, before, hash);
    RunKeepsInv(mid, after, init, hash);
    var e := Run(mid, after, hash);
    forall i, j | 0 <= i < j < |e.keys| && e.keys[i] != 0 ensures e.keys[i] != e.keys[j] {
      if e.keys[i] == e.keys[j] { OneSlot(e, init, i, j); }
    }
    forall t | 0 <= t < |e.ins| && e.ins[t].phase.Returned?
      ensures e.keys[e.ins[t].phase.slot] == e.ins[t].key && e.values[e.ins[t].phase.slot] == e.ins[t].value
    {
      ReturnedHolds(e, init, hash, t);
    }
    forall r, t | 0 <= r < |e.readers| && e.readers[r].armed && 0 <= t < |e.ins| && e.ins[t].key == e.readers[r].key
      ensures !e.readers[r].phase.Missed? && (e.readers[r].phase.Got? ==> e.readers[r].phase.value == e.ins[t].value)
    {
      ArmedLookup(e, init, hash, r, t);
    }
    forall r, t | 0 <= r < |mid.readers| && mid.readers[r].phase.Idle? && 0 <= t < |mid.ins|
                  && mid.ins[t].key == mid.readers[r].key && mid.ins[t].phase.Returned?
      ensures r < |e.readers| && t < |e.ins| && !e.readers[r].phase.Missed?
      ensures e.readers[r].phase.Got? ==> e.readers[r].phase.value == e.ins[t].value
    {
      RunWillSee(mid, after, hash, t, r);
    }
  }

  lemma ReturnedHolds<V>(s: State<V>, init: seq<Uint64>, hash: Uint64 -> Uint32, t: nat)
    requires Inv(s, init, hash) && t < |s.ins| && s.ins[t].phase.Returned?
    ensures s.keys[s.ins[t].phase.slot] == s.ins[t].key && s.values[s.ins[t].phase.slot] == s.ins[t].value
  {
    assert Owns(s, t, s.ins[t].phase.slot);
    assert InserterOk(s, hash, s.ins[t]);
  }

  lemma ArmedLookup<V>(s: State<V>, init: seq<Uint64>, hash: Uint64 -> Uint32, r: nat, t: nat)
    requires Inv(s, init, hash) && r < |s.readers| && s.readers[r].armed
    requires t < |s.ins| && s.ins[t].key == s.readers[r].key
    ensures !s.readers[r].phase.Missed? && (s.readers[r].phase.Got? ==> s.readers[r].phase.value == s.ins[t].value)
  {
    assert LookupOk(s, hash, s.readers[r]);
    if !s.readers[r].phase.Idle? {
      var u :| Witness(s, hash, s.readers[r], u);
      assert !(u < t) && !(t < u);
    }
  }

  // ------------------------------------------------------- an insert without interference

  function EntriesOf<V>(s: State<V>): (es: seq<Entry<V>>)
    requires Shaped(s)
    ensures |es| == |s.keys| && forall i :: 0 <= i < |es| ==> es[i] == Entry(s.keys[i], s.values[i])
  {
    seq(|s.keys|, i requires 0 <= i < |s.keys| => Entry(s.keys[i], s.values[i]))
  }

  /** Thread `t` runs until it has returned or was rejected, and no other thread moves. */
  function Alone<V>(s: State<V>, t: nat, hash: Uint64 -> Uint32): (e: State<V>)
    requires Shaped(s) && t < |s.ins|
    ensures Shaped(e) && t < |e.ins|
    decreases match s.ins[t].phase
              case Probing(c) => 2 * (|s.keys| - c) + 3
              case SawFree(c) => 2 * (|s.keys| - c) + 2
              case Claimed(_) => 1
              case _ => 0
  {
    match s.ins[t].phase
    case Probing(_) => Alone(Step(s, Load(t), hash), t, hash)
    case SawFree(_) => Alone(Step(s, Cas(t), hash), t, hash)
    case Claimed(_) => Step(s, Store(t), hash)
    case _ => s
  }

  /** Undisturbed, the steps of a thread are one call of `setItem` as one thread sees it. */
  lemma {:induction false} AloneIsSetItem<V>(s: State<V>, t: nat, hash: Uint64 -> Uint32)
    requires Shaped(s) && t < |s.ins| && s.ins[t].phase == Probing(0) && |s.keys| < INVALID_ENTRY
    ensures var me, e := s.ins[t], Alone(s, t, hash);
            && (EntriesOf(e), if e.ins[t].phase.Returned? then e.ins[t].phase.slot else INVALID_ENTRY)
               == SetEntry(EntriesOf(s), hash(me.key), me.key, me.value)
            && (e.ins[t].phase.Returned? || e.ins[t].phase.Rejected?)
  {
    AloneFinds(s, t, hash);
  }

  /** Where an undisturbed probe leads: past the last entry, into the entry it meets, or on to the next one. */
  lemma AloneProbes<V>(s: State<V>, t: nat, hash: Uint64 -> Uint32)
    requires Shaped(s) && t < |s.ins| && s.ins[t].phase.Probing?
    ensures var me, e := s.ins[t], Alone(s, t, hash); var c := me.phase.count;
            && c <= |s.keys| == |s.values| && s.keys != []
            && if c == |s.keys| then e == SetPhase(s, t, Rejected)
               else
                 var i := ProbeSlot(s, hash, me.key, c);
                 if s.keys[i] == me.key || s.keys[i] == 0 then
                   e.ins[t].phase == Returned(i) && e.keys == s.keys[i := me.key] && e.values == s.values[i := me.value]
                 else
                   Shaped(SetPhase(s, t, Probing(c + 1))) && e == Alone(SetPhase(s, t, Probing(c + 1)), t, hash)
  {
    hide Slot;
    var me := s.ins[t];
    if me.phase.count < |s.keys| {
      var i := ProbeSlot(s, hash, me.key, me.phase.count);
      var d := Step(s, Load(t), hash);
      if s.keys[i] == me.key {
        AloneStores(d, t, i, hash);
      } else if s.keys[i] == 0 {
        AloneStores(Step(d, Cas(t), hash), t, i, hash);
      }
    }
  }

  lemma AloneStores<V>(s: State<V>, t: nat, i: nat, hash: Uint64 -> Uint32)
    requires Shaped(s) && t < |s.ins| && s.ins[t].phase == Claimed(i)
    ensures i < |s.keys| == |s.values|
    ensures var e := Alone(s, t, hash);
            e.ins[t].phase == Returned(i) && e.keys == s.keys && e.values == s.values[i := s.ins[t].value]
  {
  }

  lemma SameEntries<V>(s: State<V>, d: State<V>)
    requires Shaped(s) && Shaped(d) && s.keys == d.keys && s.values == d.values
    ensures EntriesOf(s) == EntriesOf(d)
  {
  }

  /** Claiming an entry and storing the value sets key and value of that entry. */
  lemma StoredEntry<V>(s: State<V>, t: nat, i: nat, e: State<V>)
    requires Shaped(s) && Shaped(e) && t < |s.ins| && i < |s.keys|
    requires e.keys == s.keys[i := s.ins[t].key] && e.values == s.values[i := s.ins[t].value]
    ensures EntriesOf(e) == EntriesOf(s)[i := Entry(s.ins[t].key, s.ins[t].value)]
  {
  }

  lemma {:induction false} AloneFinds<V>(s: State<V>, t: nat, hash: Uint64 -> Uint32)
    requires Shaped(s) && t < |s.ins| && s.ins[t].phase.Probing? && |s.keys| < INVALID_ENTRY
    ensures var me, e, es := s.ins[t], Alone(s, t, hash), EntriesOf(s);
            var c := FindPlace(es, hash(me.key), me.key, me.phase.count);
            if c == |es| then e.ins[t].phase.Rejected? && EntriesOf(e) == es
            else e.ins[t].phase == Returned(Slot(hash(me.key), c, |es|))
                 && EntriesOf(e) == es[Slot(hash(me.key), c, |es|) := Entry(me.key, me.value)]
    decreases |s.keys| - s.ins[t].phase.count
  {
    hide Slot, Shaped, EntriesOf, Alone, Step;
    AloneProbes(s, t, hash);
    var me, c := s.ins[t], s.ins[t].phase.count;
    if c < |s.keys| {
      var i := ProbeSlot(s, hash, me.key, c);
      if s.keys[i] == me.key || s.keys[i] == 0 {
        StoredEntry(s, t, i, Alone(s, t, hash));
      } else {
        SameEntries(s, SetPhase(s, t, Probing(c + 1)));
        AloneFinds(SetPhase(s, t, Probing(c + 1)), t, hash);
      }
    } else {
      SameEntries(s, Alone(s, t, hash));
    }
  }

  /** Reader `r` runs until its lookup has ended, and no other thread moves. */
  function AloneRead<V>(s: State<V>, r: nat, hash: Uint64 -> Uint32): (e: State<V>)
    requires Shaped(s) && r < |s.readers|
    ensures Shaped(e) && r < |e.readers|
    decreases match s.readers[r].phase
              case Idle => |s.keys| + 3
              case Scanning(c) => |s.keys| - c + 2
              case Matched(_) => 1
              case _ => 0
  {
    match s.readers[r].phase
    case Idle => AloneRead(Step(s, StartRead(r), hash), r, hash)
    case Scanning(_) => AloneRead(Step(s, LoadKey(r), hash), r, hash)
    case Matched(_) => Step(s, ReadValue(r), hash)
    case _ => s
  }

  /** Undisturbed, the steps of a lookup are one call of `getItem` as one thread sees it. */
  lemma AloneIsGetItem<V>(s: State<V>, r: nat, hash: Uint64 -> Uint32)
    requires Shaped(s) && r < |s.readers| && s.readers[r].phase.Idle? && Unique(EntriesOf(s))
    requires s.readers[r].key != 0
    ensures var m, key, e := Mapping(EntriesOf(s)), s.readers[r].key, AloneRead(s, r, hash);
            && e.keys == s.keys && e.values == s.values
            && e.readers[r].phase == if key in m then Got(m[key]) else Missed
  {
    hide Slot, EntriesOf, AloneRead, Mapping, Unique;
    var key, d := s.readers[r].key, Step(s, StartRead(r), hash);
    SameEntries(s, d);
    assert AloneRead(s, r, hash) == AloneRead(d, r, hash) by { ReadStarts(s, r, hash); }
    AloneReadFinds(d, r, hash);
    FoundValue(EntriesOf(s), hash(key), key);
  }

  lemma ReadStarts<V>(s: State<V>, r: nat, hash: Uint64 -> Uint32)
    requires Shaped(s) && r < |s.readers| && s.readers[r].phase.Idle?
    ensures AloneRead(s, r, hash) == AloneRead(Step(s, StartRead(r), hash), r, hash)
  {
    hide HasReturned;
  }

  lemma {:induction false} AloneReadFinds<V>(s: State<V>, r: nat, hash: Uint64 -> Uint32)
    requires Shaped(s) && r < |s.readers| && s.readers[r].phase.Scanning?
    ensures var key, e, es := s.readers[r].key, AloneRead(s, r, hash), EntriesOf(s);
            var c := FindKey(es, hash(key), key, s.readers[r].phase.count);
            && e.keys == s.keys && e.values == s.values
            && e.readers[r].phase == if c == |es| then Missed else Got(es[Slot(hash(key), c, |es|)].value)
    decreases |s.keys| - s.readers[r].phase.count
  {
    hide Slot, EntriesOf;
    var c, d := s.readers[r].phase.count, Step(s, LoadKey(r), hash);
    if c < |s.keys| && d.readers[r].phase.Scanning? {
      SameEntries(s, d);
      AloneReadFinds(d, r, hash);
    }
  }

  // ------------------------------------------------------- inserts of one key

  /**
   * With equal keys the race breaks uniqueness: both threads see entry 0 free, the loser of the swap
   * moves on and claims entry 1 for the same key.
   */
  lemma EqualKeysDuplicate(hash: Uint64 -> Uint32)
    requires hash(7) == 0
    ensures var s := State([0, 0], [0, 0], [Inserter(7, 1, Probing(0)), Inserter(7, 2, Probing(0))], []);
            var actions := [Load(0), Load(1), Cas(0), Cas(1), Load(1), Cas(1)];
            Shaped(s) && Schedules(s, actions, hash) && Run(s, actions, hash).keys == [7, 7]
  {
    hide Run, Schedules, Step, Slot;
    var s := State([0, 0], [0, 0], [Inserter(7, 1, Probing(0)), Inserter(7, 2, Probing(0))], []);
    var s3 := State([7, 0], [0, 0], [Inserter(7, 1, Claimed(0)), Inserter(7, 2, SawFree(0))], []);
    var s6 := State([7, 7], [0, 0], [Inserter(7, 1, Claimed(0)), Inserter(7, 2, Claimed(1))], []);
    BothSeeFree(hash);
    LoserMovesOn(hash);
    RunNone(s6, hash);
    RunThree(s3, Cas(1), Load(1), Cas(1), [], hash);
    RunThree(s, Load(0), Load(1), Cas(0), [Cas(1), Load(1), Cas(1)] + [], hash);
    assert [Load(0), Load(1), Cas(0)] + ([Cas(1), Load(1), Cas(1)] + [])
        == [Load(0), Load(1), Cas(0), Cas(1), Load(1), Cas(1)];
  }

  lemma BothSeeFree(hash: Uint64 -> Uint32)
    requires hash(7) == 0
    ensures var s := State([0, 0], [0, 0], [Inserter(7, 1, Probing(0)), Inserter(7, 2, Probing(0))], []);
            var s1 := SetPhase(s, 0, SawFree(0));
            var s2 := SetPhase(s1, 1, SawFree(0));
            && Shaped(s) && Step(s, Load(0), hash) == s1 && Step(s1, Load(1), hash) == s2
            && Step(s2, Cas(0), hash)
               == State([7, 0], [0, 0], [Inserter(7, 1, Claimed(0)), Inserter(7, 2, SawFree(0))], [])
  {
    hide Slot;
    SlotsOfTwo();
  }

  lemma LoserMovesOn(hash: Uint64 -> Uint32)
    requires hash(7) == 0
    ensures var s := State([7, 0], [0, 0], [Inserter(7, 1, Claimed(0)), Inserter(7, 2, SawFree(0))], []);
            var s1 := SetPhase(s, 1, Probing(1));
            var s2 := SetPhase(s, 1, SawFree(1));
            && Shaped(s) && Step(s, Cas(1), hash) == s1 && Step(s1, Load(1), hash) == s2
            && Step(s2, Cas(1), hash)
               == State([7, 7], [0, 0], [Inserter(7, 1, Claimed(0)), Inserter(7, 2, Claimed(1))], [])
  {
    hide Slot;
    SlotsOfTwo();
  }

  lemma SlotsOfTwo()
    ensures Slot(0, 0, 2) == 0 && Slot(0, 1, 2) == 1
  {
  }

  lemma RunNone<V>(s: State<V>, hash: Uint64 -> Uint32)
    requires Shaped(s)
    ensures Schedules(s, [], hash) && Run(s, [], hash) == s
  {
  }

  lemma RunOne<V>(s: State<V>, a: Action, rest: seq<Action>, hash: Uint64 -> Uint32)
    requires Shaped(s) && Enabled(s, a) && Schedules(Step(s, a, hash), rest, hash)
    ensures Schedules(s, [a] + rest, hash) && Run(s, [a] + rest, hash) == Run(Step(s, a, hash), rest, hash)
  {
    hide Step, Shaped;
    assert ([a] + rest)[1..] == rest;
  }

  lemma RunThree<V>(s: State<V>, a: Action, b: Action, c: Action, rest: seq<Action>, hash: Uint64 -> Uint32)
    requires Shaped(s) && Enabled(s, a) && Enabled(Step(s, a, hash), b)
    requires Enabled(Step(Step(s, a, hash), b, hash), c)
    requires Schedules(Step(Step(Step(s, a, hash), b, hash), c, hash), rest, hash)
    ensures Schedules(s, [a, b, c] + rest, hash)
    ensures Run(s, [a, b, c] + rest, hash) == Run(Step(Step(Step(s, a, hash), b, hash), c, hash), rest, hash)
  {
    hide Run, Schedules, Step, Enabled, Shaped;
    RunOne(Step(Step(s, a, hash), b, hash), c, rest, hash);
    RunOne(Step(s, a, hash), b, [c] + rest, hash);
    RunOne(s, a, [b] + ([c] + rest), hash);
    assert [a, b, c] + rest == [a] + ([b] + ([c] + rest));
  }
}
