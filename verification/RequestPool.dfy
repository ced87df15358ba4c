/** The pool of request slots, used by one thread (src/msg/msg_request.cpp, src/msg/msg_request_pool.cpp). */
module RequestPools {
  import opened Bytes
  import opened RequestSlots

  /** A request or response message is known by its address; 0 is null. */
  type Address = nat

  class MsgRequest {
    var requestId: Uint64
    var status: Status
    var request: Address
    var response: Address
    var requestTimeMillis: Uint64
    var resendTimeMillis: Uint64

    constructor ()
      ensures status.Idle? && requestId == 0 && request == 0 && response == 0
      ensures requestTimeMillis == 0 && resendTimeMillis == 0
    {
      requestId, status, request, response := 0, Idle, 0, 0;
      requestTimeMillis, resendTimeMillis := 0, 0;
    }

    /** The slot is in the state `s` of the machine in RequestSlots.dfy. */
    ghost predicate Shows(s: State)
      reads this
    {
      status == s.status && requestId == s.id
    }

    method TryGrab(id: Uint64) returns (won: bool)
      modifies `status, `requestId
      ensures won == old(status).Idle?
      ensures if won then status == Pending && requestId == id else status == old(status) && requestId == old(requestId)
      ensures forall s: State, t: nat :: old(Shows(s)) && t < |s.grabs| && s.grabs[t] == Grabber(id, Start) ==>
                var steps := if won then [LoadStatus(t), SwapStatus(t), StoreId(t)] else [LoadStatus(t)];
                Schedules(s, steps) && Shows(Run(s, steps))
    {
      forall s: State, t: nat | Shows(s) && t < |s.grabs| && s.grabs[t] == Grabber(id, Start) {
        GrabAlone(s, t);
      }
      if !status.Idle? {
        return false;
      }
      status := Pending;
      requestId := id;
      return true;
    }

    method SetRequest(msg: Address, now: Uint64)
      modifies `request, `requestTimeMillis, `resendTimeMillis
      ensures request == msg && requestTimeMillis == resendTimeMillis == now
    {
      request := msg;
      requestTimeMillis := now;
      resendTimeMillis := now;
    }

    /** Installs the response whatever the status; an idle slot becomes taken. */
    method SetResponse(msg: Address)
      modifies `status, `response
      ensures response == msg && status == Arrived
    {
      response := msg;
      status := Arrived;
    }

    method AbortResponse()
      modifies `status, `response
      ensures if old(status).Pending? then status == Aborted && response == 0
              else status == old(status) && response == old(response)
      ensures forall s: State :: old(Shows(s)) ==> Shows(Step(s, Abort))
    {
      if status.Pending? {
        response := 0;
        status := Aborted;
      }
    }

    /** The request id is kept. */
    method ClearResponse()
      modifies `status, `request, `response, `requestTimeMillis
      ensures status.Idle? && request == 0 && response == 0 && requestTimeMillis == 0
      ensures forall s: State :: old(Shows(s)) ==> Shows(Step(s, Clear))
    {
      request := 0;
      requestTimeMillis := 0;
      response := 0;
      status := Idle;
    }
  }

  class MsgRequestPool {
    const requests: seq<MsgRequest>

    ghost predicate Distinct() {
      forall i, j :: 0 <= i < j < |requests| ==> requests[i] != requests[j]
    }

    constructor (poolSize: nat)
      ensures Distinct() && |requests| == poolSize
      ensures forall r :: r in requests ==> fresh(r) && r.status.Idle? && r.requestId == 0
    {
      var slots: seq<MsgRequest> := [];
      for i := 0 to poolSize
        invariant |slots| == i && forall j, k :: 0 <= j < k < i ==> slots[j] != slots[k]
        invariant forall r :: r in slots ==> fresh(r) && r.status.Idle? && r.requestId == 0
      {
        var r := new MsgRequest();
        slots := slots + [r];
      }
      requests := slots;
    }

    /**
     * The scan starts at the slot the low 32 bits of the request id point to and goes round once: it
     * takes the first idle slot on its way, and fails exactly when none is idle.
     */
    method GetVacantRequest(requestId: Uint64) returns (slot: MsgRequest?, index: nat)
      requires requests != [] && Distinct()
      modifies requests`status, requests`requestId
      ensures slot == null <==> forall r :: r in requests ==> !old(r.status).Idle?
      ensures slot != null ==>
                && index < |requests| && slot == requests[index] && old(slot.status).Idle?
                && var n, start := |requests|, requestId % 0x1_0000_0000 % |requests|;
                   forall k: nat :: k < n && old(requests[k].status).Idle? ==>
                     (if index >= start then index - start else index + n - start)
                     <= (if k >= start then k - start else k + n - start)
      ensures slot != null ==> slot.status == Pending && slot.requestId == requestId
      ensures forall r :: r in requests && r != slot ==> unchanged(r)
    {
      slot, index := null, 0;
      var start := requestId % 0x1_0000_0000 % |requests|;
      for i := 0 to |requests|
        invariant forall r :: r in requests ==> unchanged(r)
        invariant forall k: nat :: k < |requests| && (if k >= start then k - start else k + |requests| - start) < i ==>
                    !old(requests[k].status).Idle?
      {
        index := (start + i) % |requests|;
        TriedAt(start, |requests|, i, index);
        assert requests[index] in requests;
        var won := requests[index].TryGrab(requestId);
        if won {
          slot := requests[index];
          return;
        }
      }
      forall r | r in requests ensures !r.status.Idle? {
        var k :| 0 <= k < |requests| && requests[k] == r;
      }
    }

    /** The slot tried `i` places behind the start lies `i` places behind it, going round. */
    lemma TriedAt(start: nat, n: nat, i: nat, k: nat)
      requires start < n && i < n && k == (start + i) % n
      ensures k < n && i == if k >= start then k - start else k + n - start
    {
    }

    /**
     * `setResponse`: accepted exactly when index and request id match the slot, as two steps of the
     * machine in RequestSlots.dfy; nothing else changes.
     */
    method SetResponse(msg: Address, requestIndex: nat, requestId: Uint64) returns (rc: ErrorCode)
      requires Distinct()
      modifies requests`status, requests`response
      ensures rc.Ok? <==> requestIndex < |requests| && old(requests[requestIndex].requestId) == requestId
      ensures rc.InvalidArgument? <==> requestIndex >= |requests|
      ensures rc.DataCorrupt? <==> requestIndex < |requests| && old(requests[requestIndex].requestId) != requestId
      ensures rc.Ok? ==> requests[requestIndex].status == Arrived && requests[requestIndex].response == msg
      ensures requestIndex < |requests| ==>
                forall s: State, r: nat ::
                  old(requests[requestIndex].Shows(s)) && r < |s.responses|
                  && s.responses[r] == Responder(requestId, Unchecked) ==>
                    var steps := if rc.Ok? then [CheckId(r), Install(r)] else [CheckId(r)];
                    && Schedules(s, steps) && requests[requestIndex].Shows(Run(s, steps))
                    && |Run(s, steps).responses| == |s.responses|
                    && (rc.Ok? <==> Run(s, steps).responses[r].phase.Installed?)
      ensures forall k :: 0 <= k < |requests| && (rc.Ok? ==> k != requestIndex) ==> unchanged(requests[k])
    {
      if requestIndex >= |requests| {
        return InvalidArgument;
      }
      forall s: State, r: nat | requests[requestIndex].Shows(s) && r < |s.responses|
                                && s.responses[r] == Responder(requestId, Unchecked) {
        ResponseAlone(s, r);
      }
      if requests[requestIndex].requestId != requestId {
        return DataCorrupt;
      }
      requests[requestIndex].SetResponse(msg);
      return Ok;
    }

    /** `clearPendingRequest`: the slot keeps only its request id and resend time; nothing else changes. */
    method ClearPendingRequest(requestIndex: nat, requestId: Uint64) returns (rc: ErrorCode)
      requires Distinct()
      modifies requests`status, requests`request, requests`response, requests`requestTimeMillis
      ensures rc.Ok? <==> requestIndex < |requests| && old(requests[requestIndex].requestId) == requestId
      ensures rc.InvalidArgument? <==> requestIndex >= |requests|
      ensures rc.DataCorrupt? <==> requestIndex < |requests| && old(requests[requestIndex].requestId) != requestId
      ensures rc.Ok? ==>
        var r := requests[requestIndex];
        r.status == Idle && r.request == 0 && r.response == 0 && r.requestTimeMillis == 0
      ensures rc.Ok? ==> forall s: State ::
                old(requests[requestIndex].Shows(s)) ==> requests[requestIndex].Shows(Step(s, Clear))
      ensures forall k :: 0 <= k < |requests| && (rc.Ok? ==> k != requestIndex) ==> unchanged(requests[k])
    {
      if requestIndex >= |requests| {
        return InvalidArgument;
      }
      if requests[requestIndex].requestId != requestId {
        return DataCorrupt;
      }
      requests[requestIndex].ClearResponse();
      return Ok;
    }

    /** Every pending request is aborted, every other slot is left alone. */
    method AbortPendingRequests()
      requires Distinct()
      modifies requests`status, requests`response
      ensures forall r :: r in requests && old(r.status).Pending? ==> r.status == Aborted && r.response == 0
      ensures forall r :: r in requests && !old(r.status).Pending? ==> unchanged(r)
    {
      for i := 0 to |requests|
        invariant forall k :: 0 <= k < i ==>
          if old(requests[k].status).Pending? then requests[k].status == Aborted && requests[k].response == 0
          else unchanged(requests[k])
        invariant forall k :: i <= k < |requests| ==> unchanged(requests[k])
      {
        requests[i].AbortResponse();
      }
    }
  }
}
