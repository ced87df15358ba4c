/** The backlog of pending requests and its three indices (src/msg/msg_backlog.cpp, inc/msg/msg_backlog.h). */
module Backlogs {
  import opened Bytes
  import opened RequestSlots
  import opened RequestPools

  /** A request message, known by its address, with the header fields and size the backlog uses. */
  datatype RequestMsg = RequestMsg(address: Address, requestId: Uint64, requestIndex: nat, payloadSize: nat)

  datatype Entry = Entry(msg: RequestMsg, slot: MsgRequest)

  /** `EntryRequestTimeCmp`: by request time, then by request id. */
  predicate Earlier(a: Entry, b: Entry)
    reads a.slot`requestTimeMillis, b.slot`requestTimeMillis
  {
    a.slot.requestTimeMillis < b.slot.requestTimeMillis
    || (a.slot.requestTimeMillis == b.slot.requestTimeMillis && a.msg.requestId < b.msg.requestId)
  }

  ghost function SlotsOf(s: seq<Entry>): (r: set<MsgRequest>)
    ensures forall i :: 0 <= i < |s| ==> s[i].slot in r
  {
    set e | e in s :: e.slot
  }

  ghost predicate Ordered(s: seq<Entry>)
    reads SlotsOf(s)`requestTimeMillis
  {
    forall i, j :: 0 <= i < j < |s| ==> Earlier(s[i], s[j])
  }

  /** How many entries of the ordered set come before `e`. */
  function Place(s: seq<Entry>, e: Entry): (k: nat)
    reads set x | x in s :: x.slot, e.slot
    ensures k <= |s|
    ensures forall i :: 0 <= i < k ==> Earlier(s[i], e)
    ensures k < |s| ==> !Earlier(s[k], e)
  {
    if s == [] || !Earlier(s[0], e) then 0 else 1 + Place(s[1..], e)
  }

  function TotalPayload(s: seq<Entry>): nat {
    if s == [] then 0 else s[0].msg.payloadSize + TotalPayload(s[1..])
  }

  lemma {:induction false} TotalSplit(a: seq<Entry>, b: seq<Entry>)
    ensures TotalPayload(a + b) == TotalPayload(a) + TotalPayload(b)
  {
    if a == [] {
      assert a + b == b;
    } else {
      assert (a + b)[1..] == a[1..] + b;
      TotalSplit(a[1..], b);
    }
  }

  lemma TotalInsert(s: seq<Entry>, k: nat, e: Entry)
    requires k <= |s|
    ensures TotalPayload(s[..k] + [e] + s[k..]) == TotalPayload(s) + e.msg.payloadSize
  {
    assert s == s[..k] + s[k..];
    assert TotalPayload([e]) == e.msg.payloadSize;
    TotalSplit(s[..k], s[k..]);
    TotalSplit(s[..k] + [e], s[k..]);
    TotalSplit(s[..k], [e]);
  }

  lemma TotalRemove(s: seq<Entry>, k: nat)
    requires k < |s|
    ensures TotalPayload(s[..k] + s[k + 1..]) == TotalPayload(s) - s[k].msg.payloadSize
  {
    var t := s[..k] + s[k + 1..];
    assert t[..k] == s[..k] && t[k..] == s[k + 1..];
    assert s == t[..k] + [s[k]] + t[k..];
    TotalInsert(t, k, s[k]);
  }

  /** Map, set and heap hold the same entries, each under its request id. */
  ghost predicate SameEntries(m: map<Uint64, Entry>, s: seq<Entry>, h: set<Entry>) {
    && (forall id :: id in m ==> m[id].msg.requestId == id && m[id] in s)
    && (forall e :: e in s ==> e.msg.requestId in m && m[e.msg.requestId] == e)
    && (forall e :: e in h ==> e in s)
    && (forall e :: e in s ==> e in h)
  }

  lemma SameAfterAdd(m: map<Uint64, Entry>, s: seq<Entry>, h: set<Entry>, k: nat, e: Entry)
    requires SameEntries(m, s, h) && e.msg.requestId !in m && k <= |s|
    ensures SameEntries(m[e.msg.requestId := e], s[..k] + [e] + s[k..], h + {e})
  {
    InsertElements(s, k, e);
  }

  lemma SameAfterRemove(m: map<Uint64, Entry>, s: seq<Entry>, h: set<Entry>, k: nat)
    requires SameEntries(m, s, h) && k < |s| && forall i, j :: 0 <= i < j < |s| ==> s[i] != s[j]
    ensures SameEntries(m - {s[k].msg.requestId}, s[..k] + s[k + 1..], h - {s[k]})
  {
    RemoveElements(s, k);
    assert s[k] in s;
  }

  ghost function MessagesOf(m: map<Uint64, Entry>): map<Uint64, RequestMsg> {
    map id | id in m :: m[id].msg
  }

  lemma MessagesAfterAdd(m: map<Uint64, Entry>, e: Entry)
    ensures MessagesOf(m[e.msg.requestId := e]) == MessagesOf(m)[e.msg.requestId := e.msg]
  {
  }

  lemma MessagesAfterRemove(m: map<Uint64, Entry>, id: Uint64)
    ensures MessagesOf(m - {id}) == MessagesOf(m) - {id}
  {
  }

  /** No stored entry has the new request id, so the ordered set has exactly one place for the entry. */
  lemma InsertKeepsOrder(s: seq<Entry>, k: nat, e: Entry)
    requires Ordered(s) && k == Place(s, e) && forall i :: 0 <= i < |s| ==> s[i].msg.requestId != e.msg.requestId
    ensures Ordered(s[..k] + [e] + s[k..])
  {
    var t := s[..k] + [e] + s[k..];
    forall i, j | 0 <= i < j < |t| ensures Earlier(t[i], t[j]) {
      if j > k && i >= k && k < |s| {
        assert Earlier(e, s[k]);
      }
    }
  }

  /** The order of the set: by request time, and of two equal times the smaller request id comes first. */
  lemma OrderIsByTimeThenId(s: seq<Entry>, i: nat, j: nat)
    requires Ordered(s) && i < |s| && j < |s|
    ensures i < j <==> s[i].slot.requestTimeMillis < s[j].slot.requestTimeMillis
                       || (s[i].slot.requestTimeMillis == s[j].slot.requestTimeMillis
                           && s[i].msg.requestId < s[j].msg.requestId)
  {
  }

  lemma InsertElements(s: seq<Entry>, k: nat, e: Entry)
    requires k <= |s|
    ensures forall x :: x in s[..k] + [e] + s[k..] <==> x in s || x == e
  {
    assert s == s[..k] + s[k..];
  }

  lemma OrderedDistinct(s: seq<Entry>)
    requires Ordered(s)
    ensures forall i, j :: 0 <= i < j < |s| ==> s[i] != s[j]
  {
    forall i, j | 0 <= i < j < |s| ensures s[i] != s[j] {
      assert Earlier(s[i], s[j]);
    }
  }

  lemma RemoveKeepsOrder(s: seq<Entry>, k: nat)
    requires Ordered(s) && k < |s|
    ensures Ordered(s[..k] + s[k + 1..])
  {
  }

  lemma RemoveElements(s: seq<Entry>, k: nat)
    requires k < |s| && forall i, j :: 0 <= i < j < |s| ==> s[i] != s[j]
    ensures forall x :: x in s[..k] + s[k + 1..] <==> x in s && x != s[k]
  {
    var t := s[..k] + s[k + 1..];
    forall x | x in s && x != s[k] ensures x in t {
      var i :| 0 <= i < |s| && s[i] == x;
      if i < k { assert t[i] == x; } else { assert t[i - 1] == x; }
    }
    forall x | x in t ensures x in s && x != s[k] {
      var i :| 0 <= i < |t| && t[i] == x;
      assert x == if i < k then s[i] else s[i + 1];
    }
  }

  lemma OldestStaysFirst(s: seq<Entry>)
    requires s != [] && Ordered(s)
    ensures Place(s[1..], s[0]) == 0
  {
    if |s| > 1 {
      assert Earlier(s[0], s[1]);
    }
  }

  /**
   * What happens to a backlog: its own operations, and between them what happens to the slots of the
   * pool. A slot that serves no stored request is cleared, grabbed again and given its next request; a
   * resend time is touched.
   */
  datatype BacklogOp =
    | Add(msg: RequestMsg)
    | Remove(msg: RequestMsg)
    | Update
    | Regrab(slot: nat, requestId: Uint64, request: Address, now: Uint64)
    | Touch(slot: nat, now: Uint64)

  /** The stored requests by id, and the request ids the pool's slots carry. */
  datatype Book = Book(stored: map<Uint64, RequestMsg>, slotIds: seq<Uint64>)

  predicate InUse(stored: map<Uint64, RequestMsg>, slot: nat) {
    exists id :: id in stored && stored[id].requestIndex == slot
  }

  function Expected(b: Book, op: BacklogOp): (Book, ErrorCode) {
    match op
    case Add(msg) =>
      if msg.requestIndex >= |b.slotIds| || b.slotIds[msg.requestIndex] != msg.requestId then (b, NotFound)
      else if msg.requestId in b.stored then (b, AlreadyExists)
      else (b.(stored := b.stored[msg.requestId := msg]), Ok)
    case Remove(msg) =>
      if msg.requestId !in b.stored then (b, NotFound)
      else if b.stored[msg.requestId] != msg then (b, DataCorrupt)
      else (b.(stored := b.stored - {msg.requestId}), Ok)
    case Regrab(slot, requestId, _, _) =>
      if slot >= |b.slotIds| || InUse(b.stored, slot) then (b, Ok)
      else (b.(slotIds := b.slotIds[slot := requestId]), Ok)
    case Update => (b, Ok)
    case Touch(_, _) => (b, Ok)
  }

  function ExpectedRun(b: Book, ops: seq<BacklogOp>): (Book, seq<ErrorCode>) {
    if ops == [] then (b, [])
    else
      var (before, rcs) := ExpectedRun(b, ops[..|ops| - 1]);
      var (after, rc) := Expected(before, ops[|ops| - 1]);
      (after, rcs + [rc])
  }

  predicate AddedAt(ops: seq<BacklogOp>, rcs: seq<ErrorCode>, i: int, id: Uint64) {
    0 <= i < |ops| == |rcs| && rcs[i].Ok? && ops[i].Add? && ops[i].msg.requestId == id
  }

  predicate RemovedAt(ops: seq<BacklogOp>, rcs: seq<ErrorCode>, i: int, id: Uint64) {
    0 <= i < |ops| == |rcs| && rcs[i].Ok? && ops[i].Remove? && ops[i].msg.requestId == id
  }

  /** No removal of `id` behind position `i` succeeded. */
  ghost predicate StaysFrom(ops: seq<BacklogOp>, rcs: seq<ErrorCode>, i: int, id: Uint64) {
    forall j :: i < j ==> !RemovedAt(ops, rcs, j, id)
  }

  /** After a run, `id` is stored with the message `msg`, from before the run or from an addition in it. */
  ghost predicate KeptInRun(b: Book, ops: seq<BacklogOp>, rcs: seq<ErrorCode>, id: Uint64, msg: RequestMsg) {
    || (id in b.stored && b.stored[id] == msg && StaysFrom(ops, rcs, -1, id))
    || exists i :: AddedAt(ops, rcs, i, id) && ops[i].msg == msg && StaysFrom(ops, rcs, i, id)
  }

  /**
   * Over every run, a request is stored in the end exactly if it was stored before the run or was added
   * in it successfully, and no later removal of its id succeeded.
   */
  lemma {:induction false} StoredAfterRun(b: Book, ops: seq<BacklogOp>, id: Uint64, msg: RequestMsg)
    ensures var (e, rcs) := ExpectedRun(b, ops);
            |rcs| == |ops| && ((id in e.stored && e.stored[id] == msg) <==> KeptInRun(b, ops, rcs, id, msg))
    decreases |ops|
  {
    hide Expected, KeptInRun;
    if ops == [] {
      NothingRun(b, id, msg);
    } else {
      var front, op := ops[..|ops| - 1], ops[|ops| - 1];
      var (m, rcs) := ExpectedRun(b, front);
      var (e, rc) := Expected(m, op);
      StoredAfterRun(b, front, id, msg);
      KeptOneMore(b, front, rcs, op, rc, id, msg);
      StoredAfterOne(m, op, id, msg);
      assert front + [op] == ops;
    }
  }

  lemma NothingRun(b: Book, id: Uint64, msg: RequestMsg)
    ensures (id in b.stored && b.stored[id] == msg) <==> KeptInRun(b, [], [], id, msg)
  {
  }

  lemma StoredAfterOne(b: Book, op: BacklogOp, id: Uint64, msg: RequestMsg)
    ensures var (e, rc) := Expected(b, op);
            var added, removed := rc.Ok? && op == Add(msg) && msg.requestId == id,
                                  rc.Ok? && op.Remove? && op.msg.requestId == id;
            (id in e.stored && e.stored[id] == msg)
            <==> added || (id in b.stored && b.stored[id] == msg && !removed)
  {
  }

  lemma KeptOneMore(b: Book, ops: seq<BacklogOp>, rcs: seq<ErrorCode>, op: BacklogOp, rc: ErrorCode, id: Uint64,
                    msg: RequestMsg)
    requires |rcs| == |ops|
    ensures var added, removed := rc.Ok? && op == Add(msg) && msg.requestId == id,
                                  rc.Ok? && op.Remove? && op.msg.requestId == id;
            KeptInRun(b, ops + [op], rcs + [rc], id, msg)
            <==> added || (KeptInRun(b, ops, rcs, id, msg) && !removed)
  {
    var longer, codes, n := ops + [op], rcs + [rc], |ops|;
    forall j
      ensures RemovedAt(longer, codes, j, id)
              <==> RemovedAt(ops, rcs, j, id) || (j == n && RemovedAt(longer, codes, n, id))
      ensures AddedAt(longer, codes, j, id)
              <==> AddedAt(ops, rcs, j, id) || (j == n && AddedAt(longer, codes, n, id))
    {
    }
    if i :| AddedAt(ops, rcs, i, id) && ops[i].msg == msg && StaysFrom(ops, rcs, i, id) {
      assert AddedAt(longer, codes, i, id);
    }
    if i :| AddedAt(longer, codes, i, id) && longer[i].msg == msg && StaysFrom(longer, codes, i, id) {
      assert i < n ==> AddedAt(ops, rcs, i, id);
      assert i < n ==> !RemovedAt(longer, codes, n, id);
    }
    assert AddedAt(longer, codes, n, id) <==> rc.Ok? && op.Add? && op.msg.requestId == id;
    assert RemovedAt(longer, codes, n, id) <==> rc.Ok? && op.Remove? && op.msg.requestId == id;
  }

  // ------------------------------------------------------- the ready check

  /** What the code reports: the oldest request was resent before the barrier. */
  predicate ReportsReady(s: seq<Entry>, barrier: Uint64)
    reads SlotsOf(s)
  {
    s != [] && s[0].slot.resendTimeMillis < barrier
  }

  /** What the documentation promises: some request of the backlog was. */
  ghost predicate SomeReady(s: seq<Entry>, barrier: Uint64)
    reads SlotsOf(s)
  {
    exists i :: 0 <= i < |s| && s[i].slot.resendTimeMillis < barrier
  }

  /** No request was resent longer ago than the oldest one. */
  ghost predicate OldestResentFirst(s: seq<Entry>)
    reads SlotsOf(s)
  {
    forall i :: 0 <= i < |s| ==> s[0].slot.resendTimeMillis <= s[i].slot.resendTimeMillis
  }

  /** The report is right for every time barrier exactly when no request was resent longer ago than the oldest one. */
  lemma ReadyCheckExactly(s: seq<Entry>)
    ensures (forall barrier: Uint64 :: ReportsReady(s, barrier) <==> SomeReady(s, barrier)) <==> OldestResentFirst(s)
  {
    if i :| 0 <= i < |s| && s[i].slot.resendTimeMillis < s[0].slot.resendTimeMillis {
      assert SomeReady(s, s[0].slot.resendTimeMillis);
    }
  }

  /** A stored request sits in the slot its header names, which carries its id. */
  ghost predicate InItsSlot(pool: MsgRequestPool, e: Entry)
    reads e.slot`requestId
  {
    e.msg.requestIndex < |pool.requests| && e.slot == pool.requests[e.msg.requestIndex]
    && e.slot.requestId == e.msg.requestId
  }

  class MsgBacklog {
    const pool: MsgRequestPool
    var requestMap: map<Uint64, Entry>
    /** The `std::set` ordered by request time, in iteration order. */
    var requestSet: seq<Entry>
    /** The `std::set` meant to be ordered by resend time; only its elements are ever used. */
    var minHeap: set<Entry>
    var backlogSizeBytes: nat

    constructor (pool: MsgRequestPool)
      requires pool.Distinct()
      ensures Valid() && this.pool == pool && Stored() == map[] && backlogSizeBytes == 0
    {
      this.pool := pool;
      requestMap, requestSet, minHeap, backlogSizeBytes := map[], [], {}, 0;
      new;
      assert Stored() == map[];
    }

    /**
     * All three indices hold the same entries, the set is in order, the size is the sum of payloads,
     * and every stored request sits in the slot its header names, which carries its id.
     */
    ghost predicate Valid()
      reads this, SlotsOf(requestSet)`requestTimeMillis, SlotsOf(requestSet)`requestId
    {
      && SameEntries(requestMap, requestSet, minHeap)
      && Ordered(requestSet)
      && backlogSizeBytes == TotalPayload(requestSet)
      && pool.Distinct() && forall e :: e in requestSet ==> InItsSlot(pool, e)
    }

    ghost function Stored(): map<Uint64, RequestMsg>
      reads `requestMap
    {
      MessagesOf(requestMap)
    }

    /** The ids the slots of the pool carry, slot by slot. */
    ghost function SlotIds(): (ids: seq<Uint64>)
      reads pool.requests
      ensures |ids| == |pool.requests|
      ensures forall i :: 0 <= i < |ids| ==> ids[i] == pool.requests[i].requestId
    {
      seq(|pool.requests|, i requires 0 <= i < |pool.requests| reads pool.requests => pool.requests[i].requestId)
    }

    ghost function Now(): Book
      reads `requestMap, pool.requests
    {
      Book(Stored(), SlotIds())
    }

    /** The three insertions and the new size. */
    method InsertEntry(entry: Entry)
      requires Valid() && entry.msg.requestId !in requestMap && InItsSlot(pool, entry)
      modifies this
      ensures Valid() && Stored() == old(Stored())[entry.msg.requestId := entry.msg]
      ensures requestMap == old(requestMap)[entry.msg.requestId := entry] && minHeap == old(minHeap) + {entry}
      ensures forall e :: e in requestSet <==> e in old(requestSet) || e == entry
      ensures backlogSizeBytes == old(backlogSizeBytes) + entry.msg.payloadSize
    {
      hide SameEntries, Ordered, Earlier, MessagesOf, TotalPayload, InItsSlot;
      var k := Place(requestSet, entry);
      AddFacts(entry, k);
      InsertElements(requestSet, k, entry);
      requestMap := requestMap[entry.msg.requestId := entry];
      requestSet := requestSet[..k] + [entry] + requestSet[k..];
      minHeap := minHeap + {entry};
      backlogSizeBytes := backlogSizeBytes + entry.msg.payloadSize;
    }

    method AddPendingRequest(msg: RequestMsg) returns (rc: ErrorCode)
      requires Valid()
      modifies this
      ensures Valid() && (Now(), rc) == Expected(old(Now()), Add(msg))
      ensures rc.NotFound? <==> msg.requestIndex >= |pool.requests|
                                || pool.requests[msg.requestIndex].requestId != msg.requestId
      ensures rc.AlreadyExists? <==> !rc.NotFound? && msg.requestId in old(requestMap)
      ensures rc.Ok? <==> !rc.NotFound? && msg.requestId !in old(requestMap)
      ensures !rc.Ok? ==> unchanged(this)
      ensures rc.Ok? ==>
                var entry := Entry(msg, pool.requests[msg.requestIndex]);
                && requestMap == old(requestMap)[msg.requestId := entry] && minHeap == old(minHeap) + {entry}
                && (forall e :: e in requestSet <==> e in old(requestSet) || e == entry)
                && backlogSizeBytes == old(backlogSizeBytes) + msg.payloadSize
                && Stored() == old(Stored())[msg.requestId := msg]
    {
      if msg.requestIndex >= |pool.requests| || pool.requests[msg.requestIndex].requestId != msg.requestId {
        return NotFound;
      }
      if msg.requestId in requestMap {
        return AlreadyExists;
      }
      InsertEntry(Entry(msg, pool.requests[msg.requestIndex]));
      return Ok;
    }

    /** What the three insertions come to; no stored entry has the id, so none of them can fail. */
    lemma AddFacts(e: Entry, k: nat)
      requires Valid() && e.msg.requestId !in requestMap && k == Place(requestSet, e)
      ensures var id, grown := e.msg.requestId, requestSet[..k] + [e] + requestSet[k..];
              && SameEntries(requestMap[id := e], grown, minHeap + {e})
              && Ordered(grown) && TotalPayload(grown) == backlogSizeBytes + e.msg.payloadSize
              && id !in Stored() && MessagesOf(requestMap[id := e]) == Stored()[id := e.msg]
    {
      hide TotalPayload;
      InsertKeepsOrder(requestSet, k, e);
      TotalInsert(requestSet, k, e);
      SameAfterAdd(requestMap, requestSet, minHeap, k, e);
      MessagesAfterAdd(requestMap, e);
    }

    /** `std::lower_bound` by time, then a walk over the entries of the same time. */
    method FindRequestByTime(time: Uint64, msg: RequestMsg) returns (found: bool, k: nat)
      requires Valid()
      ensures Valid()
      ensures found ==> k < |requestSet| && requestSet[k].msg == msg
      ensures !found ==>
                forall i :: 0 <= i < |requestSet| && requestSet[i].slot.requestTimeMillis == time ==>
                  requestSet[i].msg != msg
    {
      hide SameEntries, TotalPayload, InItsSlot;
      k := 0;
      while k < |requestSet| && requestSet[k].slot.requestTimeMillis < time
        invariant k <= |requestSet|
        invariant forall i :: 0 <= i < k ==> requestSet[i].slot.requestTimeMillis < time
      {
        k := k + 1;
      }
      while k < |requestSet| && requestSet[k].msg != msg && requestSet[k].slot.requestTimeMillis == time
        invariant k <= |requestSet|
        invariant forall i :: 0 <= i < k && requestSet[i].slot.requestTimeMillis == time ==> requestSet[i].msg != msg
        invariant forall i :: k <= i < |requestSet| ==> requestSet[i].slot.requestTimeMillis >= time
      {
        k := k + 1;
      }
      found := k < |requestSet| && requestSet[k].msg == msg;
      if !found && k < |requestSet| {
        forall i | k < i < |requestSet| ensures requestSet[i].slot.requestTimeMillis != time {
          assert Earlier(requestSet[k], requestSet[i]);
        }
      }
    }

    /** An entry of the ordered set is the one stored under its id. */
    lemma StoredIsOwn(k: nat)
      requires Valid() && k < |requestSet|
      ensures var id := requestSet[k].msg.requestId;
              id in Stored() && Stored()[id] == requestSet[k].msg && requestMap[id] == requestSet[k]
    {
      assert requestSet[k] in requestSet;
    }

    lemma SameKeys(id: Uint64)
      ensures id in Stored() <==> id in requestMap
    {
    }

    lemma StoredHasPlace(id: Uint64)
      requires Valid() && id in requestMap
      ensures exists i :: 0 <= i < |requestSet| && requestSet[i] == requestMap[id]
      ensures id in Stored() && Stored()[id] == requestMap[id].msg
    {
    }

    /** The three erasures and the new size. */
    method EraseAt(k: nat)
      requires Valid() && k < |requestSet|
      modifies this
      ensures Valid() && Stored() == old(Stored()) - {old(requestSet[k].msg.requestId)}
      ensures var entry := old(requestSet[k]);
              && requestMap == old(requestMap) - {entry.msg.requestId} && minHeap == old(minHeap) - {entry}
              && (forall e :: e in requestSet <==> e in old(requestSet) && e != entry)
              && backlogSizeBytes == old(backlogSizeBytes) - entry.msg.payloadSize
    {
      hide SameEntries, Ordered, MessagesOf, TotalPayload, InItsSlot;
      EraseFacts(k);
      OrderedDistinct(requestSet);
      RemoveElements(requestSet, k);
      var entry := requestSet[k];
      requestMap := requestMap - {entry.msg.requestId};
      requestSet := requestSet[..k] + requestSet[k + 1..];
      minHeap := minHeap - {entry};
      backlogSizeBytes := backlogSizeBytes - entry.msg.payloadSize;
    }

    lemma EraseFacts(k: nat)
      requires Valid() && k < |requestSet|
      ensures var e, rest := requestSet[k], requestSet[..k] + requestSet[k + 1..];
              && SameEntries(requestMap - {e.msg.requestId}, rest, minHeap - {e})
              && Ordered(rest) && TotalPayload(rest) == backlogSizeBytes - e.msg.payloadSize
              && MessagesOf(requestMap - {e.msg.requestId}) == Stored() - {e.msg.requestId}
    {
      hide SameEntries, MessagesOf, TotalPayload;
      OrderedDistinct(requestSet);
      RemoveKeepsOrder(requestSet, k);
      SameAfterRemove(requestMap, requestSet, minHeap, k);
      TotalRemove(requestSet, k);
      MessagesAfterRemove(requestMap, requestSet[k].msg.requestId);
    }

    method RemovePendingRequest(msg: RequestMsg) returns (rc: ErrorCode)
      requires Valid()
      modifies this
      ensures Valid() && (Now(), rc) == Expected(old(Now()), Remove(msg))
      ensures rc.NotFound? <==> msg.requestId !in old(requestMap)
      ensures rc.Ok? <==> msg.requestId in old(requestMap) && old(requestMap)[msg.requestId].msg == msg
      ensures rc.DataCorrupt? <==> msg.requestId in old(requestMap) && old(requestMap)[msg.requestId].msg != msg
      ensures !rc.Ok? ==> unchanged(this)
      ensures rc.Ok? ==>
                var entry := old(requestMap)[msg.requestId];
                && requestMap == old(requestMap) - {msg.requestId} && minHeap == old(minHeap) - {entry}
                && (forall e :: e in requestSet <==> e in old(requestSet) && e != entry)
                && backlogSizeBytes == old(backlogSizeBytes) - msg.payloadSize
                && Stored() == old(Stored()) - {msg.requestId}
    {
      hide Valid, Stored, SameEntries, Earlier;
      SameKeys(msg.requestId);
      if msg.requestId !in requestMap {
        return NotFound;
      }
      var time := requestMap[msg.requestId].slot.requestTimeMillis;
      StoredHasPlace(msg.requestId);
      var found, k := FindRequestByTime(time, msg);
      if !found {
        return DataCorrupt;
      }
      StoredIsOwn(k);
      EraseAt(k);
      return Ok;
    }

    /** Erase the oldest entry and insert it again: its place depends on the request time alone. */
    method UpdateReadyResendRequest()
      requires Valid() && requestSet != []
      modifies this
      ensures Valid() && requestSet == old(requestSet) && Stored() == old(Stored())
      ensures minHeap == old(minHeap) && backlogSizeBytes == old(backlogSizeBytes)
    {
      var entry, rest := requestSet[0], requestSet[1..];
      OldestStaysFirst(requestSet);
      var k := Place(rest, entry);
      assert rest[..k] + [entry] + rest[k..] == requestSet;
      requestSet := rest[..k] + [entry] + rest[k..];
    }

    /** The ready check looks at the oldest request only. */
    method HasReadyResendRequest(barrier: Uint64) returns (ready: bool)
      requires Valid()
      ensures ready <==> requestSet != [] && requestSet[0].slot.resendTimeMillis < barrier
      ensures ready == ReportsReady(requestSet, barrier) && (ready ==> SomeReady(requestSet, barrier))
      ensures OldestResentFirst(requestSet) ==> (ready <==> SomeReady(requestSet, barrier))
    {
      ready := requestSet != [] && requestSet[0].slot.resendTimeMillis < barrier;
    }

    /** The slot of an index that no stored request names is in no entry. */
    lemma FreeSlot(slot: nat)
      requires Valid() && slot < |pool.requests| && !InUse(Stored(), slot)
      ensures pool.requests[slot] !in SlotsOf(requestSet)
    {
      forall e | e in requestSet ensures e.slot != pool.requests[slot] {
        assert InItsSlot(pool, e);
        assert e.msg.requestId in Stored() && Stored()[e.msg.requestId] == e.msg;
      }
    }

    /** A free slot is returned to idle, grabbed for the next request and given it. */
    method RegrabSlot(slot: nat, requestId: Uint64, request: Address, now: Uint64)
      requires Valid() && slot < |pool.requests| && !InUse(Stored(), slot)
      modifies pool.requests[slot]
      ensures Valid() && Now() == Book(old(Stored()), old(SlotIds())[slot := requestId])
      ensures pool.requests[slot].requestTimeMillis == pool.requests[slot].resendTimeMillis == now
      ensures pool.requests[slot].requestId == requestId && pool.requests[slot].status == Pending
      ensures pool.requests[slot].request == request && pool.requests[slot].response == 0
    {
      hide SameEntries, Ordered, MessagesOf, InItsSlot, InUse;
      FreeSlot(slot);
      var r := pool.requests[slot];
      ghost var ids := SlotIds();
      r.ClearResponse();
      var won := r.TryGrab(requestId);
      r.SetRequest(request, now);
      assert forall e :: e in requestSet ==> e.slot in SlotsOf(requestSet);
      assert SlotIds() == ids[slot := requestId];
    }

    /** A new request: its free slot is taken for it, and it is stored. */
    method SendRequest(msg: RequestMsg, now: Uint64)
      requires Valid() && msg.requestIndex < |pool.requests|
      requires msg.requestId !in Stored() && !InUse(Stored(), msg.requestIndex)
      modifies this, pool.requests
      ensures Valid() && Stored() == old(Stored())[msg.requestId := msg]
      ensures var r := pool.requests[msg.requestIndex]; r.requestTimeMillis == r.resendTimeMillis == now
      ensures forall k :: 0 <= k < |pool.requests| && k != msg.requestIndex ==> unchanged(pool.requests[k])
    {
      hide SameEntries, Ordered, MessagesOf, InItsSlot, InUse, TotalPayload;
      assert pool.requests[msg.requestIndex] in pool.requests;
      RegrabSlot(msg.requestIndex, msg.requestId, msg.address, now);
      var rc := AddPendingRequest(msg);
    }

    /** `updateResendTime` of any slot, in use or not. */
    method TouchSlot(slot: nat, now: Uint64)
      requires Valid() && slot < |pool.requests|
      modifies pool.requests`resendTimeMillis
      ensures Valid() && Now() == old(Now()) && pool.requests[slot].resendTimeMillis == now
      ensures forall k :: 0 <= k < |pool.requests| && k != slot ==> unchanged(pool.requests[k])
    {
      hide SameEntries, MessagesOf;
      pool.requests[slot].resendTimeMillis := now;
      assert SlotIds() == old(SlotIds());
    }

    /** One operation, whichever it is. */
    method Perform(op: BacklogOp) returns (rc: ErrorCode)
      requires Valid()
      modifies this, pool.requests
      ensures Valid() && (Now(), rc) == Expected(old(Now()), op)
      ensures !op.Add? && !op.Remove? ==> Stored() == old(Stored()) && rc.Ok?
      ensures forall k :: 0 <= k < |pool.requests| ==>
                pool.requests[k].requestId == if op.Regrab? && op.slot == k && !InUse(old(Stored()), k)
                                              then op.requestId else old(pool.requests[k].requestId)
    {
      hide SameEntries, Ordered, MessagesOf, InItsSlot, TotalPayload;
      rc := Ok;
      match op
      case Add(msg) => rc := AddPendingRequest(msg);
      case Remove(msg) => rc := RemovePendingRequest(msg);
      case Update =>
        if requestSet != [] {
          UpdateReadyResendRequest();
        }
      case Regrab(slot, requestId, request, now) =>
        if slot < |pool.requests| && SlotFree(slot) {
          RegrabSlot(slot, requestId, request, now);
        }
      case Touch(slot, now) =>
        if slot < |pool.requests| {
          TouchSlot(slot, now);
        }
    }

    /** No entry names the slot. */
    predicate SlotFree(slot: nat)
      requires Valid()
      reads this, SlotsOf(requestSet)
      ensures SlotFree(slot) <==> !InUse(Stored(), slot)
    {
      FreeByIndex(slot);
      forall e :: e in requestSet ==> e.msg.requestIndex != slot
    }

    lemma FreeByIndex(slot: nat)
      requires Valid()
      ensures (forall e :: e in requestSet ==> e.msg.requestIndex != slot) <==> !InUse(Stored(), slot)
    {
      forall e | e in requestSet ensures e.msg.requestId in Stored() && Stored()[e.msg.requestId] == e.msg {
      }
      if id :| id in Stored() && Stored()[id].requestIndex == slot {
        assert requestMap[id] in requestSet;
      }
    }

    /**
     * Over every run of adds, removes, updates and slots taken for new requests in between, the backlog
     * stays consistent, and it stores and answers exactly what a map by request id would; a failed
     * operation changes nothing.
     */
    method Replay(ops: seq<BacklogOp>) returns (rcs: seq<ErrorCode>)
      requires Valid()
      modifies this, pool.requests
      ensures Valid() && (Now(), rcs) == ExpectedRun(old(Now()), ops)
    {
      hide Valid, Now, Expected;
      rcs := [];
      for i := 0 to |ops|
        invariant Valid() && (Now(), rcs) == ExpectedRun(old(Now()), ops[..i])
      {
        assert ops[..i + 1][..i] == ops[..i];
        var rc := Perform(ops[i]);
        rcs := rcs + [rc];
      }
      assert ops[..|ops|] == ops;
    }
  }

  /**
   * The oldest of two requests was resent just now, the other one is due, and the check reports that
   * nothing is ready.
   */
  method ReadyRequestMissed() returns (backlog: MsgBacklog)
    ensures fresh(backlog) && backlog.Valid()
    ensures SomeReady(backlog.requestSet, 50) && !ReportsReady(backlog.requestSet, 50)
  {
    hide backlog.Valid, backlog.Stored, SomeReady, ReportsReady;
    var pool := new MsgRequestPool(2);
    backlog := new MsgBacklog(pool);
    var first, second := RequestMsg(101, 1, 0, 8), RequestMsg(102, 2, 1, 8);
    var a, b := pool.requests[0], pool.requests[1];
    assert a in pool.requests && b in pool.requests && pool.requests == [a, b];
    backlog.SendRequest(first, 10);
    backlog.SendRequest(second, 20);
    backlog.TouchSlot(0, 90);
    OldestOfTwo(backlog, first, second);
  }

  lemma OldestOfTwo(backlog: MsgBacklog, first: RequestMsg, second: RequestMsg)
    requires backlog.Valid() && backlog.Stored() == map[1 := first, 2 := second]
    requires |backlog.pool.requests| == 2 && first == RequestMsg(101, 1, 0, 8) && second == RequestMsg(102, 2, 1, 8)
    requires var a, b := backlog.pool.requests[0], backlog.pool.requests[1];
             a.requestTimeMillis == 10 && a.resendTimeMillis == 90 && b.requestTimeMillis == b.resendTimeMillis == 20
    ensures SomeReady(backlog.requestSet, 50) && !ReportsReady(backlog.requestSet, 50)
  {
    var s := backlog.requestSet;
    assert 1 in backlog.Stored() && 2 in backlog.Stored();
    backlog.StoredHasPlace(1);
    backlog.StoredHasPlace(2);
    var i :| 0 <= i < |s| && s[i] == backlog.requestMap[1];
    var j :| 0 <= j < |s| && s[j] == backlog.requestMap[2];
    backlog.StoredIsOwn(0);
    assert InItsSlot(backlog.pool, s[i]) && InItsSlot(backlog.pool, s[j]) && InItsSlot(backlog.pool, s[0]);
  }
}
