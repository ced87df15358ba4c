/**
 * One request slot under concurrent use (src/msg/msg_request.cpp, src/msg/msg_request_pool.cpp): grabs,
 * responses, aborts and clears, each load, swap, store and locked section one atomic step.
 */
module RequestSlots {
  import opened Bytes

  datatype Status = Idle | Pending | Arrived | Aborted

  /** `tryGrab`: load the status, swap it to pending, then store the request id. */
  datatype GrabPhase = Start | SawIdle | Won | Stored | Lost

  datatype Grabber = Grabber(id: Uint64, phase: GrabPhase)

  /** `MsgRequestPool::setResponse`: compare the request id, then install the response. */
  datatype ResponsePhase = Unchecked | Accepted | Installed | Refused

  datatype Responder = Responder(id: Uint64, phase: ResponsePhase)

  /** `ResponseInstalled` records the id the slot carries when the response `r` is installed. */
  datatype Event =
    | GrabWon(id: Uint64)
    | IdStored(id: Uint64)
    | BackToIdle
    | ResponseAccepted(r: nat, id: Uint64)
    | ResponseInstalled(r: nat, id: Uint64)

  datatype State = State(status: Status, id: Uint64, grabs: seq<Grabber>, responses: seq<Responder>, log: seq<Event>)

  datatype Action =
    | LoadStatus(t: nat)
    | SwapStatus(t: nat)
    | StoreId(t: nat)
    | CheckId(r: nat)
    | Install(r: nat)
    | Abort
    | Clear

  predicate Enabled(s: State, a: Action) {
    match a
    case LoadStatus(t) => t < |s.grabs| && s.grabs[t].phase.Start?
    case SwapStatus(t) => t < |s.grabs| && s.grabs[t].phase.SawIdle?
    case StoreId(t) => t < |s.grabs| && s.grabs[t].phase.Won?
    case CheckId(r) => r < |s.responses| && s.responses[r].phase.Unchecked?
    case Install(r) => r < |s.responses| && s.responses[r].phase.Accepted?
    case Abort => true
    case Clear => true
  }

  function SetGrab(s: State, t: nat, p: GrabPhase): State
    requires t < |s.grabs|
  {
    s.(grabs := s.grabs[t := s.grabs[t].(phase := p)])
  }

  function SetResponse(s: State, r: nat, p: ResponsePhase): State
    requires r < |s.responses|
  {
    s.(responses := s.responses[r := s.responses[r].(phase := p)])
  }

  function Step(s: State, a: Action): State
    requires Enabled(s, a)
  {
    match a
    case LoadStatus(t) => SetGrab(s, t, if s.status.Idle? then SawIdle else Lost)
    case SwapStatus(t) =>
      if s.status.Idle? then SetGrab(s.(status := Pending, log := s.log + [GrabWon(s.grabs[t].id)]), t, Won)
      else SetGrab(s, t, Lost)
    case StoreId(t) => SetGrab(s.(id := s.grabs[t].id, log := s.log + [IdStored(s.grabs[t].id)]), t, Stored)
    case CheckId(r) =>
      if s.id == s.responses[r].id then SetResponse(s.(log := s.log + [ResponseAccepted(r, s.id)]), r, Accepted)
      else SetResponse(s, r, Refused)
    case Install(r) => SetResponse(s.(status := Arrived, log := s.log + [ResponseInstalled(r, s.id)]), r, Installed)
    case Abort => if s.status.Pending? then s.(status := Aborted) else s
    case Clear => s.(status := Idle, log := s.log + [BackToIdle])
  }

  ghost predicate Schedules(s: State, actions: seq<Action>)
    decreases |actions|
  {
    actions == [] || (Enabled(s, actions[0]) && Schedules(Step(s, actions[0]), actions[1..]))
  }

  function Run(s: State, actions: seq<Action>): State
    requires Schedules(s, actions)
    decreases |actions|
  {
    if actions == [] then s else Run(Step(s, actions[0]), actions[1..])
  }

  ghost predicate Initial(s: State) {
    && s.status.Idle? && s.log == []
    && (forall t, u :: 0 <= t < u < |s.grabs| ==> s.grabs[t].id != s.grabs[u].id)
    && (forall t :: 0 <= t < |s.grabs| ==> s.grabs[t].phase.Start? && s.grabs[t].id != s.id)
    && (forall r :: 0 <= r < |s.responses| ==> s.responses[r].phase.Unchecked?)
  }

  lemma InitialInvs(s: State)
    requires Initial(s)
    ensures GrabInv(s) && IdInv(s) && CheckInv(s) && InstallInv(s)
    ensures AcceptsLastStored(s.log, s.id) && s.id == LastStored(s.log, s.id)
  {
  }

  // ------------------------------------------------------- one grab at a time

  /** Some grab succeeded and the slot has not returned to idle since. */
  predicate OpenGrab(log: seq<Event>) {
    log != [] && !log[|log| - 1].BackToIdle? && (log[|log| - 1].GrabWon? || OpenGrab(log[..|log| - 1]))
  }

  /** Between any two successful grabs the slot returns to idle. */
  ghost predicate GrabsSeparated(log: seq<Event>) {
    forall i, j :: 0 <= i < j < |log| && log[i].GrabWon? && log[j].GrabWon? ==>
      exists m :: i < m < j && log[m].BackToIdle?
  }

  lemma OpenAfter(log: seq<Event>, e: Event)
    ensures OpenGrab(log + [e]) <==> !e.BackToIdle? && (e.GrabWon? || OpenGrab(log))
  {
    assert (log + [e])[..|log|] == log;
  }

  lemma {:induction false} NotOpenMeansReturned(log: seq<Event>, i: nat)
    requires !OpenGrab(log) && i < |log| && log[i].GrabWon?
    ensures exists m :: i < m < |log| && log[m].BackToIdle?
    decreases |log|
  {
    var n := |log| - 1;
    if !log[n].BackToIdle? {
      NotOpenMeansReturned(log[..n], i);
      var m :| i < m < n && log[..n][m].BackToIdle?;
      assert log[m].BackToIdle?;
    }
  }

  lemma SeparatedAfter(log: seq<Event>, e: Event)
    requires GrabsSeparated(log) && (e.GrabWon? ==> !OpenGrab(log))
    ensures GrabsSeparated(log + [e])
  {
    var l := log + [e];
    forall i, j | 0 <= i < j < |l| && l[i].GrabWon? && l[j].GrabWon?
      ensures exists m :: i < m < j && l[m].BackToIdle?
    {
      if j == |log| {
        NotOpenMeansReturned(log, i);
        var m :| i < m < |log| && log[m].BackToIdle?;
        assert l[m].BackToIdle?;
      } else {
        var m :| i < m < j && log[m].BackToIdle?;
        assert l[m].BackToIdle?;
      }
    }
  }

  ghost predicate GrabInv(s: State) {
    GrabsSeparated(s.log) && (OpenGrab(s.log) ==> !s.status.Idle?)
  }

  lemma StepGrabInv(s: State, a: Action)
    requires Enabled(s, a) && GrabInv(s)
    ensures GrabInv(Step(s, a))
  {
    var s' := Step(s, a);
    if s'.log != s.log {
      var e := s'.log[|s.log|];
      assert s'.log == s.log + [e];
      OpenAfter(s.log, e);
      SeparatedAfter(s.log, e);
    }
  }

  /** In every interleaving, at most one grab of the slot succeeds between two returns to idle. */
  lemma {:induction false} OneGrabAtATime(s: State, actions: seq<Action>)
    requires GrabInv(s) && Schedules(s, actions)
    ensures GrabInv(Run(s, actions))
    decreases |actions|
  {
    hide Step, GrabInv;
    if actions != [] {
      StepGrabInv(s, actions[0]);
      OneGrabAtATime(Step(s, actions[0]), actions[1..]);
    }
  }

  // ------------------------------------------------------- which responses are accepted

  /** Distinct ids: the slot carries the id of a grab only once that grab has stored it. */
  ghost predicate IdInv(s: State) {
    && (forall t, u :: 0 <= t < u < |s.grabs| ==> s.grabs[t].id != s.grabs[u].id)
    && (forall t :: 0 <= t < |s.grabs| && s.grabs[t].id == s.id ==> s.grabs[t].phase.Stored?)
  }

  /** A stored id that another grab has replaced does not come back. */
  ghost predicate Replaced(s: State, t: nat) {
    t < |s.grabs| && s.grabs[t].phase.Stored? && s.id != s.grabs[t].id
  }

  lemma StepIds(s: State, a: Action)
    requires Enabled(s, a) && IdInv(s)
    ensures var s' := Step(s, a);
            && IdInv(s') && |s'.grabs| == |s.grabs| && |s'.responses| == |s.responses|
            && (forall t :: 0 <= t < |s.grabs| ==> s'.grabs[t].id == s.grabs[t].id)
            && (forall r :: 0 <= r < |s.responses| ==> s'.responses[r].id == s.responses[r].id)
            && (forall t: nat :: Replaced(s, t) ==> Replaced(s', t))
  {
  }

  lemma {:induction false} RunIds(s: State, actions: seq<Action>)
    requires IdInv(s) && Schedules(s, actions)
    ensures var e := Run(s, actions);
            && IdInv(e) && |e.grabs| == |s.grabs| && |e.responses| == |s.responses|
            && (forall t :: 0 <= t < |s.grabs| ==> e.grabs[t].id == s.grabs[t].id)
            && (forall r :: 0 <= r < |s.responses| ==> e.responses[r].id == s.responses[r].id)
    decreases |actions|
  {
    hide Step, IdInv;
    if actions != [] {
      StepIds(s, actions[0]);
      RunIds(Step(s, actions[0]), actions[1..]);
    }
  }

  /** Once replaced, no response to the old request is accepted, in any continuation. */
  lemma {:induction false} ReplacedIsRefused(s: State, actions: seq<Action>, t: nat, r: nat)
    requires IdInv(s) && Schedules(s, actions) && Replaced(s, t)
    requires r < |s.responses| && s.responses[r].id == s.grabs[t].id
    requires !s.responses[r].phase.Accepted? && !s.responses[r].phase.Installed?
    ensures var e := Run(s, actions);
            r < |e.responses| && !e.responses[r].phase.Accepted? && !e.responses[r].phase.Installed?
    decreases |actions|
  {
    hide IdInv;
    if actions != [] {
      StepIds(s, actions[0]);
      var s' := Step(s, actions[0]);
      assert !s'.responses[r].phase.Accepted? && !s'.responses[r].phase.Installed?;
      hide Step;
      ReplacedIsRefused(s', actions[1..], t, r);
    }
  }

  lemma {:induction false} RefusedStays(s: State, actions: seq<Action>, r: nat)
    requires Schedules(s, actions) && r < |s.responses|
    requires s.responses[r].phase.Refused? || s.responses[r].phase.Installed?
    ensures var e := Run(s, actions);
            |e.responses| == |s.responses| && e.responses[r] == s.responses[r]
    decreases |actions|
  {
    if actions != [] {
      RefusedStays(Step(s, actions[0]), actions[1..], r);
    }
  }

  /**
   * A grab has won the slot, and meanwhile the slot carries another request's id. A response to the
   * older request can still be installed if and only if it has passed its check already, or has not
   * been checked yet while the older grab's own id store is outstanding.
   */
  lemma LateResponseExactly(s: State, t: nat, r: nat)
    requires IdInv(s) && t < |s.grabs| && (s.grabs[t].phase.Won? || s.grabs[t].phase.Stored?)
    requires s.id != s.grabs[t].id
    requires r < |s.responses| && s.responses[r].id == s.grabs[t].id && !s.responses[r].phase.Installed?
    ensures (exists actions :: Schedules(s, actions) && |Run(s, actions).responses| > r
                               && Run(s, actions).responses[r].phase.Installed?)
       <==> s.responses[r].phase.Accepted? || (s.responses[r].phase.Unchecked? && s.grabs[t].phase.Won?)
  {
    hide Schedules, Run;
    if s.responses[r].phase.Accepted? {
      RunOnly(s, Install(r));
    } else if s.responses[r].phase.Unchecked? && s.grabs[t].phase.Won? {
      InstallUnchecked(s, t, r);
    } else {
      forall actions | Schedules(s, actions)
        ensures |Run(s, actions).responses| > r && !Run(s, actions).responses[r].phase.Installed?
      {
        if s.responses[r].phase.Refused? {
          RefusedStays(s, actions, r);
        } else {
          ReplacedIsRefused(s, actions, t, r);
        }
      }
    }
  }

  lemma InstallUnchecked(s: State, t: nat, r: nat)
    requires t < |s.grabs| && s.grabs[t].phase.Won?
    requires r < |s.responses| && s.responses[r] == Responder(s.grabs[t].id, Unchecked)
    ensures exists actions :: Schedules(s, actions) && |Run(s, actions).responses| > r
                              && Run(s, actions).responses[r].phase.Installed?
  {
    hide Schedules, Run;
    var s1 := Step(s, StoreId(t));
    var s2 := Step(s1, CheckId(r));
    assert s2.responses[r].phase.Accepted? && Step(s2, Install(r)).responses[r].phase.Installed?;
    RunThree(s, StoreId(t), CheckId(r), Install(r));
  }

  // ------------------------------------------------------- where an installed response lands

  /** No request id is stored at the positions after `i` and before `j`. */
  ghost predicate NoStoreBetween(log: seq<Event>, i: int, j: int) {
    forall k :: 0 <= i < k < j && k < |log| ==> !log[k].IdStored?
  }

  /** Position `i` is the check of response `r`. */
  ghost predicate ChecksResponse(s: State, i: int, r: nat) {
    0 <= i < |s.log| && s.log[i].ResponseAccepted? && s.log[i].r == r
  }

  /** The slot still carries the id `r` was checked against exactly while no id was stored since. */
  ghost predicate CheckOk(s: State, i: int, r: nat) {
    && r < |s.responses| && 0 <= i < |s.log| && s.log[i] == ResponseAccepted(r, s.responses[r].id)
    && (s.id == s.responses[r].id <==> NoStoreBetween(s.log, i, |s.log|))
    && (forall t :: 0 <= t < |s.grabs| && s.grabs[t].id == s.responses[r].id ==> s.grabs[t].phase.Stored?)
    && NoWinAfter(s.log, i, s.responses[r].id)
  }

  /** The request of a check does not win the slot after the check. */
  ghost predicate NoWinAfter(log: seq<Event>, i: int, id: Uint64) {
    forall k :: 0 <= i < k < |log| ==> log[k] != GrabWon(id)
  }

  ghost predicate NoReturnBetween(log: seq<Event>, i: int, j: int) {
    forall k :: 0 <= i < k < j && k < |log| ==> !log[k].BackToIdle?
  }

  /** Before position `j`, the request `id` won the slot and the slot did not return to idle since. */
  ghost predicate HeldBy(log: seq<Event>, j: int, id: Uint64) {
    exists g :: 0 <= g < j && g < |log| && log[g] == GrabWon(id) && NoReturnBetween(log, g, j)
  }

  ghost predicate CheckInv(s: State) {
    && (forall i, r :: ChecksResponse(s, i, r) ==> CheckOk(s, i, r))
    && (forall r :: 0 <= r < |s.responses| && s.responses[r].phase.Accepted? ==> exists i :: ChecksResponse(s, i, r))
  }

  /**
   * The installation at `j` was checked; the slot still carries the id of the check exactly if no store
   * intervened, and still is held by the request of the response exactly if it was at the check and has
   * not returned to idle since.
   */
  ghost predicate LandsExactly(s: State, j: int) {
    && 0 <= j < |s.log| && s.log[j].ResponseInstalled? && s.log[j].r < |s.responses|
    && (exists i :: i < j && ChecksResponse(s, i, s.log[j].r))
    && (forall i :: i < j && ChecksResponse(s, i, s.log[j].r) ==>
          var id := s.responses[s.log[j].r].id;
          && (s.log[j].id == id <==> NoStoreBetween(s.log, i, j))
          && (HeldBy(s.log, j, id) <==> HeldBy(s.log, i, id) && NoReturnBetween(s.log, i, j)))
  }

  ghost predicate InstallInv(s: State) {
    forall j :: 0 <= j < |s.log| && s.log[j].ResponseInstalled? ==> LandsExactly(s, j)
  }

  /** What a step adds to the log, and that it keeps the ids of the responses. */
  ghost predicate Extends(s: State, d: State) {
    && (d.log == s.log || (|d.log| == |s.log| + 1 && d.log[..|s.log|] == s.log))
    && |d.responses| == |s.responses| && |d.grabs| == |s.grabs|
    && (forall r :: 0 <= r < |s.responses| ==> d.responses[r].id == s.responses[r].id)
    && (forall k :: 0 <= k < |s.log| ==> d.log[k] == s.log[k])
  }

  lemma StepExtends(s: State, a: Action)
    requires Enabled(s, a)
    ensures Extends(s, Step(s, a))
  {
  }

  lemma StepCheckInv(s: State, a: Action)
    requires Enabled(s, a) && IdInv(s) && CheckInv(s)
    ensures CheckInv(Step(s, a))
  {
    hide CheckOk, IdInv, NoStoreBetween;
    var d := Step(s, a);
    StepExtends(s, a);
    forall i, r | ChecksResponse(d, i, r) ensures CheckOk(d, i, r) {
      if i < |s.log| {
        assert ChecksResponse(s, i, r);
        CheckStays(s, a, i, r);
      } else {
        CheckNow(s, a);
      }
    }
    forall r | 0 <= r < |d.responses| && d.responses[r].phase.Accepted? ensures exists i :: ChecksResponse(d, i, r) {
      if s.responses[r].phase.Accepted? {
        var i :| ChecksResponse(s, i, r);
        assert ChecksResponse(d, i, r);
      } else {
        assert ChecksResponse(d, |s.log|, r);
      }
    }
  }

  /** A later store is of a grab that had not stored yet, so of another id. */
  lemma CheckStays(s: State, a: Action, i: int, r: nat)
    requires Enabled(s, a) && IdInv(s) && CheckOk(s, i, r)
    ensures CheckOk(Step(s, a), i, r)
  {
    var d := Step(s, a);
    StepExtends(s, a);
    if a.StoreId? {
      assert d.log[|s.log|].IdStored?;
      assert !NoStoreBetween(d.log, i, |d.log|);
    } else {
      assert NoStoreBetween(d.log, i, |d.log|) <==> NoStoreBetween(s.log, i, |s.log|);
    }
  }

  lemma CheckNow(s: State, a: Action)
    requires Enabled(s, a) && IdInv(s) && a.CheckId? && s.id == s.responses[a.r].id
    ensures CheckOk(Step(s, a), |s.log|, a.r)
  {
  }

  lemma StepInstallInv(s: State, a: Action)
    requires Enabled(s, a) && CheckInv(s) && InstallInv(s)
    ensures InstallInv(Step(s, a))
  {
    hide LandsExactly, CheckInv, Extends;
    var d := Step(s, a);
    StepExtends(s, a);
    forall j | 0 <= j < |d.log| && d.log[j].ResponseInstalled? ensures LandsExactly(d, j) {
      if j < |s.log| {
        assert d.log[j] == s.log[j] by { assert Extends(s, d); LogKept(s, d, j); }
        InstalledStays(s, d, j);
      } else {
        InstalledNow(s, a);
      }
    }
  }

  lemma LogKept(s: State, d: State, j: nat)
    requires Extends(s, d) && j < |s.log|
    ensures j < |d.log| && d.log[j] == s.log[j]
  {
  }

  lemma InstalledStays(s: State, d: State, j: nat)
    requires Extends(s, d) && LandsExactly(s, j)
    ensures LandsExactly(d, j)
  {
    hide NoStoreBetween, NoReturnBetween, HeldBy;
    var r := s.log[j].r;
    var i :| i < j && ChecksResponse(s, i, r);
    assert ChecksResponse(d, i, r);
    forall i | i < j && ChecksResponse(d, i, r)
      ensures var id := d.responses[r].id;
              && (d.log[j].id == id <==> NoStoreBetween(d.log, i, j))
              && (HeldBy(d.log, j, id) <==> HeldBy(d.log, i, id) && NoReturnBetween(d.log, i, j))
    {
      assert ChecksResponse(s, i, r);
      SamePast(s.log, d.log, i, j, d.responses[r].id);
    }
  }

  /** What lies before position `j` does not depend on what is added behind it. */
  lemma SamePast(log: seq<Event>, longer: seq<Event>, i: int, j: int, id: Uint64)
    requires 0 <= i < j <= |log| <= |longer| && forall k :: 0 <= k < |log| ==> longer[k] == log[k]
    ensures NoStoreBetween(longer, i, j) <==> NoStoreBetween(log, i, j)
    ensures NoReturnBetween(longer, i, j) <==> NoReturnBetween(log, i, j)
    ensures HeldBy(longer, i, id) <==> HeldBy(log, i, id)
    ensures HeldBy(longer, j, id) <==> HeldBy(log, j, id)
  {
    SameHolder(log, longer, i, id);
    SameHolder(log, longer, j, id);
  }

  lemma SameHolder(log: seq<Event>, longer: seq<Event>, j: int, id: Uint64)
    requires 0 <= j <= |log| <= |longer| && forall k :: 0 <= k < |log| ==> longer[k] == log[k]
    ensures HeldBy(longer, j, id) <==> HeldBy(log, j, id)
  {
    if g :| 0 <= g < j && g < |log| && log[g] == GrabWon(id) && NoReturnBetween(log, g, j) {
      assert longer[g] == GrabWon(id) && NoReturnBetween(longer, g, j);
    }
    if g :| 0 <= g < j && g < |longer| && longer[g] == GrabWon(id) && NoReturnBetween(longer, g, j) {
      assert log[g] == GrabWon(id) && NoReturnBetween(log, g, j);
    }
  }

  /** A request that won the slot before its check holds it later exactly if it never returned to idle. */
  lemma HeldSinceCheck(log: seq<Event>, i: int, id: Uint64)
    requires 0 <= i < |log| && log[i].ResponseAccepted? && NoWinAfter(log, i, id)
    ensures HeldBy(log, |log|, id) <==> HeldBy(log, i, id) && NoReturnBetween(log, i, |log|)
  {
    if g :| 0 <= g < |log| && log[g] == GrabWon(id) && NoReturnBetween(log, g, |log|) {
      assert g < i && NoReturnBetween(log, g, i);
    }
    if HeldBy(log, i, id) && NoReturnBetween(log, i, |log|) {
      var g :| 0 <= g < i && g < |log| && log[g] == GrabWon(id) && NoReturnBetween(log, g, i);
      assert NoReturnBetween(log, g, |log|);
    }
  }

  lemma InstalledNow(s: State, a: Action)
    requires Enabled(s, a) && CheckInv(s) && a.Install?
    ensures LandsExactly(Step(s, a), |s.log|)
  {
    hide NoStoreBetween, NoReturnBetween, HeldBy, NoWinAfter;
    var d, j, r := Step(s, a), |s.log|, a.r;
    assert d.log == s.log + [ResponseInstalled(r, s.id)];
    var i :| ChecksResponse(s, i, r);
    assert i < j && ChecksResponse(d, i, r);
    assert forall k :: 0 <= k < j ==> d.log[k] == s.log[k];
    forall i | i < j && ChecksResponse(d, i, r)
      ensures var id := d.responses[r].id;
              && (d.log[j].id == id <==> NoStoreBetween(d.log, i, j))
              && (HeldBy(d.log, j, id) <==> HeldBy(d.log, i, id) && NoReturnBetween(d.log, i, j))
    {
      assert ChecksResponse(s, i, r) && CheckOk(s, i, r);
      SamePast(s.log, d.log, i, j, s.responses[r].id);
      HeldSinceCheck(s.log, i, s.responses[r].id);
    }
  }

  /**
   * In every interleaving, each installed response was checked before; it lands in a slot that carries
   * the id it was checked against if and only if no id is stored between check and installation, and it
   * reaches the request it answers if and only if that request held the slot at the check and the slot
   * did not return to idle in between.
   */
  lemma {:induction false} InstallLandsExactly(s: State, actions: seq<Action>)
    requires IdInv(s) && CheckInv(s) && InstallInv(s) && Schedules(s, actions)
    ensures IdInv(Run(s, actions)) && CheckInv(Run(s, actions)) && InstallInv(Run(s, actions))
    decreases |actions|
  {
    hide Step, IdInv, CheckInv, InstallInv;
    if actions != [] {
      StepIds(s, actions[0]);
      StepCheckInv(s, actions[0]);
      StepInstallInv(s, actions[0]);
      InstallLandsExactly(Step(s, actions[0]), actions[1..]);
    }
  }

  lemma RunNone(s: State)
    ensures Schedules(s, []) && Run(s, []) == s
  {
  }

  lemma RunOne(s: State, a: Action, rest: seq<Action>)
    requires Enabled(s, a) && Schedules(Step(s, a), rest)
    ensures Schedules(s, [a] + rest) && Run(s, [a] + rest) == Run(Step(s, a), rest)
  {
    assert ([a] + rest)[1..] == rest;
  }

  lemma RunOnly(s: State, a: Action)
    requires Enabled(s, a)
    ensures Schedules(s, [a]) && Run(s, [a]) == Step(s, a)
  {
    RunNone(Step(s, a));
    RunOne(s, a, []);
    assert [a] + [] == [a];
  }

  lemma RunThree(s: State, a: Action, b: Action, c: Action)
    requires Enabled(s, a) && Enabled(Step(s, a), b) && Enabled(Step(Step(s, a), b), c)
    ensures Schedules(s, [a, b, c]) && Run(s, [a, b, c]) == Step(Step(Step(s, a), b), c)
  {
    hide Schedules, Run, Enabled, Step;
    RunOnly(Step(Step(s, a), b), c);
    RunOne(Step(s, a), b, [c]);
    RunOne(s, a, [b] + [c]);
    assert [a] + ([b] + [c]) == [a, b, c];
  }

  lemma {:induction false} RunBoth(s: State, a: seq<Action>, b: seq<Action>)
    requires Schedules(s, a) && Schedules(Run(s, a), b)
    ensures Schedules(s, a + b) && Run(s, a + b) == Run(Run(s, a), b)
    decreases |a|
  {
    hide Step;
    if a == [] {
      assert a + b == b;
    } else {
      RunBoth(Step(s, a[0]), a[1..], b);
      assert (a + b)[1..] == a[1..] + b;
    }
  }

  /** The slot after an undisturbed grab. */
  function Grabbed(s: State, t: nat): State
    requires t < |s.grabs|
  {
    var id := s.grabs[t].id;
    State(Pending, id, s.grabs[t := Grabber(id, Stored)], s.responses, s.log + [GrabWon(id), IdStored(id)])
  }

  /** Undisturbed, the steps of a grab take an idle slot for their request and leave any other as it is. */
  lemma GrabAlone(s: State, t: nat)
    requires t < |s.grabs| && s.grabs[t].phase.Start?
    ensures var won := [LoadStatus(t), SwapStatus(t), StoreId(t)];
            if s.status.Idle? then
              Schedules(s, won) && Run(s, won) == Grabbed(s, t)
            else
              Schedules(s, [LoadStatus(t)])
              && Run(s, [LoadStatus(t)]) == s.(grabs := s.grabs[t := Grabber(s.grabs[t].id, Lost)])
  {
    hide Schedules, Run;
    if s.status.Idle? {
      RunThree(s, LoadStatus(t), SwapStatus(t), StoreId(t));
      var id := s.grabs[t].id;
      assert (s.log + [GrabWon(id)]) + [IdStored(id)] == s.log + [GrabWon(id), IdStored(id)];
    } else {
      RunOnly(s, LoadStatus(t));
    }
  }

  /** Undisturbed, a response is installed exactly if it carries the slot's id, and else refused. */
  lemma ResponseAlone(s: State, r: nat)
    requires r < |s.responses| && s.responses[r].phase.Unchecked?
    ensures var id, taken := s.responses[r].id, [CheckId(r), Install(r)];
            if s.id == id then
              && Schedules(s, taken)
              && Run(s, taken) == State(Arrived, id, s.grabs, s.responses[r := Responder(id, Installed)],
                                        s.log + [ResponseAccepted(r, id), ResponseInstalled(r, id)])
            else
              && Schedules(s, [CheckId(r)])
              && Run(s, [CheckId(r)]) == s.(responses := s.responses[r := Responder(id, Refused)])
  {
    hide Schedules, Run;
    if s.id == s.responses[r].id {
      var id, d := s.responses[r].id, Step(s, CheckId(r));
      RunOnly(d, Install(r));
      RunOne(s, CheckId(r), [Install(r)]);
      assert [CheckId(r)] + [Install(r)] == [CheckId(r), Install(r)];
      assert (s.log + [ResponseAccepted(r, id)]) + [ResponseInstalled(r, id)]
          == s.log + [ResponseAccepted(r, id), ResponseInstalled(r, id)];
    } else {
      RunOnly(s, CheckId(r));
    }
  }

  /**
   * The outstanding store does happen: the slot is cleared between a grab's swap and its id store, a
   * second grab wins and stores its id, and only then the first one stores, so the slot is held by
   * request 2 but answers to request 1.
   */
  lemma StoreOvertaken()
    ensures var s := State(Idle, 0, [Grabber(1, Start), Grabber(2, Start)], [], []);
            var actions := [LoadStatus(0), SwapStatus(0), Clear, LoadStatus(1), SwapStatus(1), StoreId(1), StoreId(0)];
            Initial(s) && Schedules(s, actions)
            && Run(s, actions) == State(Pending, 1, [Grabber(1, Stored), Grabber(2, Stored)], [],
                 [GrabWon(1), BackToIdle, GrabWon(2), IdStored(2), IdStored(1)])
  {
    hide Schedules, Run;
    var s := State(Idle, 0, [Grabber(1, Start), Grabber(2, Start)], [], []);
    var early, late := [LoadStatus(0), SwapStatus(0), Clear], [LoadStatus(1), SwapStatus(1), StoreId(1)];
    var mid := State(Idle, 0, [Grabber(1, Won), Grabber(2, Start)], [], [GrabWon(1), BackToIdle]);
    RunThree(s, LoadStatus(0), SwapStatus(0), Clear);
    assert Run(s, early) == mid;
    GrabAlone(mid, 1);
    RunOnly(Run(mid, late), StoreId(0));
    RunBoth(s, early, late);
    RunBoth(s, early + late, [StoreId(0)]);
    assert (early + late) + [StoreId(0)]
        == [LoadStatus(0), SwapStatus(0), Clear, LoadStatus(1), SwapStatus(1), StoreId(1), StoreId(0)];
  }

  /**
   * An install overtakes a replacement: the response to request 1 is checked, then the slot is cleared
   * and taken by request 2, and only then the response is installed.
   */
  lemma InstallOvertaken()
    ensures var s := State(Idle, 0, [Grabber(1, Start), Grabber(2, Start)], [Responder(1, Unchecked)], []);
            var actions := [LoadStatus(0), SwapStatus(0), StoreId(0), CheckId(0), Clear, LoadStatus(1), SwapStatus(1),
                            StoreId(1), Install(0)];
            Initial(s) && Schedules(s, actions)
            && Run(s, actions) == State(Arrived, 2, [Grabber(1, Stored), Grabber(2, Stored)], [Responder(1, Installed)],
                 [GrabWon(1), IdStored(1), ResponseAccepted(0, 1), BackToIdle, GrabWon(2), IdStored(2),
                  ResponseInstalled(0, 2)])
  {
    hide Schedules, Run;
    var s := State(Idle, 0, [Grabber(1, Start), Grabber(2, Start)], [Responder(1, Unchecked)], []);
    var first, late := [LoadStatus(0), SwapStatus(0), StoreId(0)], [LoadStatus(1), SwapStatus(1), StoreId(1)];
    var s3 := Grabbed(s, 0);
    GrabAlone(s, 0);
    var s5 := Step(Step(s3, CheckId(0)), Clear);
    RunOnly(Step(s3, CheckId(0)), Clear);
    RunOne(s3, CheckId(0), [Clear]);
    RunBoth(s, first, [CheckId(0)] + [Clear]);
    GrabAlone(s5, 1);
    RunBoth(s, first + ([CheckId(0)] + [Clear]), late);
    RunOnly(Grabbed(s5, 1), Install(0));
    RunBoth(s, first + ([CheckId(0)] + [Clear]) + late, [Install(0)]);
    assert first + ([CheckId(0)] + [Clear]) + late + [Install(0)]
        == [LoadStatus(0), SwapStatus(0), StoreId(0), CheckId(0), Clear, LoadStatus(1), SwapStatus(1), StoreId(1),
            Install(0)];
  }

  /**
   * The id alone does not protect the next request: it has won the slot but not stored its id yet, and
   * the response to request 1 still finds its own id there.
   */
  lemma InstallIntoNextGrab()
    ensures var s := State(Idle, 0, [Grabber(1, Start), Grabber(2, Start)], [Responder(1, Unchecked)], []);
            var actions := [LoadStatus(0), SwapStatus(0), StoreId(0), Clear, LoadStatus(1), SwapStatus(1), CheckId(0),
                            Install(0)];
            Initial(s) && Schedules(s, actions)
            && Run(s, actions) == State(Arrived, 1, [Grabber(1, Stored), Grabber(2, Won)], [Responder(1, Installed)],
                 [GrabWon(1), IdStored(1), BackToIdle, GrabWon(2), ResponseAccepted(0, 1), ResponseInstalled(0, 1)])
  {
    hide Schedules, Run;
    var s := State(Idle, 0, [Grabber(1, Start), Grabber(2, Start)], [Responder(1, Unchecked)], []);
    var s3 := Grabbed(s, 0);
    GrabAlone(s, 0);
    RunThree(s3, Clear, LoadStatus(1), SwapStatus(1));
    RunBoth(s, [LoadStatus(0), SwapStatus(0), StoreId(0)], [Clear, LoadStatus(1), SwapStatus(1)]);
    var s6 := Step(Step(Step(s3, Clear), LoadStatus(1)), SwapStatus(1));
    RunOnly(Step(s6, CheckId(0)), Install(0));
    RunOne(s6, CheckId(0), [Install(0)]);
    var six := [LoadStatus(0), SwapStatus(0), StoreId(0)] + [Clear, LoadStatus(1), SwapStatus(1)];
    RunBoth(s, six, [CheckId(0)] + [Install(0)]);
    assert six + ([CheckId(0)] + [Install(0)])
        == [LoadStatus(0), SwapStatus(0), StoreId(0), Clear, LoadStatus(1), SwapStatus(1), CheckId(0), Install(0)];
  }

  /** Every response accepted in a run was checked against the id stored last. */
  predicate AcceptsLastStored(log: seq<Event>, first: Uint64) {
    log == [] ||
    (AcceptsLastStored(log[..|log| - 1], first)
     && (log[|log| - 1].ResponseAccepted? ==> log[|log| - 1].id == LastStored(log[..|log| - 1], first)))
  }

  function LastStored(log: seq<Event>, first: Uint64): Uint64 {
    if log == [] then first
    else if log[|log| - 1].IdStored? then log[|log| - 1].id
    else LastStored(log[..|log| - 1], first)
  }

  lemma {:induction false} AcceptedIsLastStored(s: State, actions: seq<Action>, first: Uint64)
    requires Schedules(s, actions) && AcceptsLastStored(s.log, first) && s.id == LastStored(s.log, first)
    ensures var e := Run(s, actions);
            AcceptsLastStored(e.log, first) && e.id == LastStored(e.log, first)
    decreases |actions|
  {
    if actions != [] {
      var s' := Step(s, actions[0]);
      assert s'.log != s.log ==> s'.log[..|s.log|] == s.log && |s'.log| == |s.log| + 1;
      AcceptedIsLastStored(s', actions[1..], first);
    }
  }
}
