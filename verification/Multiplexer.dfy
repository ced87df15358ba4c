/**
 * The message multiplexer (src/msg/msg_multiplexer.cpp): I/O threads push events to per-connection
 * queues, one worker drains each queue. Every step below is atomic. Assigning a queue and looking it up
 * take no lock, so between a look-up and its push other threads may do anything; a push takes the lock
 * of its queue, and a worker holds that lock from waking up until it has drained the queue.
 */
module Multiplexers {
  import opened Bytes

  datatype Kind = Connect | Disconnect | Data | Stop

  /** An event; `epoch` counts the connects of its connection, `payload` identifies the message. */
  datatype Event = Event(kind: Kind, conn: nat, epoch: nat, payload: nat)

  datatype Phase = Waiting | Draining | Exited

  datatype Worker = Worker(phase: Phase, done: bool)

  /** An I/O thread: between two pushes, or with an event and the queue it looked up for it. */
  datatype Pusher = Free | Found(event: Event, queue: nat)

  /**
   * `queues[q]` is the event list, newest first. `homes[c]` lists the queues connection `c` was assigned
   * to, connect by connect; its last element is the entry of `m_connectionMap`. `pushers` are the I/O
   * threads. `pushed`, `handled` and `sent` record what was pushed to a queue, handled by its worker and
   * pushed for a connection.
   */
  datatype State = State(
    homes: seq<seq<nat>>,
    queues: seq<seq<Event>>,
    workers: seq<Worker>,
    pushers: seq<Pusher>,
    pushed: seq<seq<Event>>,
    handled: seq<seq<Event>>,
    sent: seq<seq<Event>>)

  /** The queue of an assignment is any: threads may race on `m_nextQueue`. */
  datatype Action =
    | Assign(conn: nat, queue: nat)
    | Look(thread: nat, conn: nat, kind: Kind, payload: nat)
    | Post(thread: nat)
    | PostStop(queue: nat)
    | Wake(queue: nat)
    | Handle(queue: nat)
    | Release(queue: nat)

  predicate Shaped(s: State) {
    && |s.queues| == |s.workers| == |s.pushed| == |s.handled|
    && |s.homes| == |s.sent|
    && (forall c, k :: 0 <= c < |s.homes| && 0 <= k < |s.homes[c]| ==> s.homes[c][k] < |s.queues|)
    && (forall t :: 0 <= t < |s.pushers| && s.pushers[t].Found? ==>
          s.pushers[t].event.conn < |s.homes| && s.pushers[t].queue < |s.queues|)
  }

  /** The queue of the latest connect of a connection. */
  function Home(s: State, c: nat): nat
    requires c < |s.homes| && s.homes[c] != []
  {
    s.homes[c][|s.homes[c]| - 1]
  }

  /** A push needs the queue's lock, which a draining worker holds. */
  predicate CanPush(s: State, q: nat) {
    q < |s.workers| && !s.workers[q].phase.Draining?
  }

  predicate Enabled(s: State, a: Action) {
    match a
    case Assign(c, q) => c < |s.homes| && q < |s.queues|
    case Look(t, c, kind, _) =>
      t < |s.pushers| && s.pushers[t].Free? && !kind.Stop? && c < |s.homes| && s.homes[c] != []
    case Post(t) => t < |s.pushers| && s.pushers[t].Found? && CanPush(s, s.pushers[t].queue)
    case PostStop(q) => CanPush(s, q)
    case Wake(q) => q < |s.workers| && q < |s.queues| && s.workers[q].phase.Waiting? && s.queues[q] != []
    case Handle(q) => q < |s.workers| && q < |s.queues| && s.workers[q].phase.Draining? && s.queues[q] != []
    case Release(q) => q < |s.workers| && q < |s.queues| && s.workers[q].phase.Draining? && s.queues[q] == []
  }

  /** `push_front`. */
  function Push(s: State, q: nat, e: Event): State
    requires Shaped(s) && q < |s.queues|
  {
    s.(queues := s.queues[q := [e] + s.queues[q]], pushed := s.pushed[q := s.pushed[q] + [e]])
  }

  /** An event of connection `c`, also entered in its record. */
  function Send(s: State, q: nat, e: Event): State
    requires Shaped(s) && e.conn < |s.homes| && q < |s.queues|
  {
    Push(s, q, e).(sent := s.sent[e.conn := s.sent[e.conn] + [e]])
  }

  function Step(s: State, a: Action): (s': State)
    requires Shaped(s) && Enabled(s, a)
    ensures Shaped(s')
  {
    match a
    case Assign(c, q) => s.(homes := s.homes[c := s.homes[c] + [q]])
    case Look(t, c, kind, payload) =>
      s.(pushers := s.pushers[t := Found(Event(kind, c, |s.homes[c]|, payload), Home(s, c))])
    case Post(t) => Send(s, s.pushers[t].queue, s.pushers[t].event).(pushers := s.pushers[t := Free])
    case PostStop(q) => Push(s, q, Event(Stop, q, 0, 0))
    case Wake(q) => s.(workers := s.workers[q := Worker(Draining, s.workers[q].done)])
    case Handle(q) =>
      var n := |s.queues[q]|;
      var e := s.queues[q][n - 1];
      s.(queues := s.queues[q := s.queues[q][..n - 1]],
         handled := s.handled[q := s.handled[q] + [e]],
         workers := s.workers[q := Worker(Draining, e.kind.Stop?)])
    case Release(q) =>
      var done := s.workers[q].done;
      s.(workers := s.workers[q := Worker(if done then Exited else Waiting, done)])
  }

  // ------------------------------------------------------- invariant

  lemma ReverseLast(es: seq<Event>)
    requires es != []
    ensures Reverse(es) == [es[|es| - 1]] + Reverse(es[..|es| - 1])
  {
    hide Reverse;
    var front, last := es[..|es| - 1], es[|es| - 1];
    assert es == front + [last];
    ReverseAppend(front, last);
  }

  /** Nothing is lost, duplicated or reordered between the pushes to a queue and its worker. */
  ghost predicate Fifo(s: State, q: nat)
    requires Shaped(s) && q < |s.queues|
  {
    s.pushed[q] == s.handled[q] + Reverse(s.queues[q])
  }

  predicate EndsWithStop(es: seq<Event>) {
    es != [] && es[|es| - 1].kind.Stop?
  }

  predicate WorkerOk(w: Worker, handled: seq<Event>) {
    && (w.done <==> EndsWithStop(handled))
    && (w.phase.Waiting? ==> !w.done) && (w.phase.Exited? ==> w.done)
  }

  /** The events of one epoch of a connection. */
  function Epoch(es: seq<Event>, c: nat, k: nat): seq<Event> {
    if es == [] then []
    else
      var e := es[|es| - 1];
      Epoch(es[..|es| - 1], c, k) + (if !e.kind.Stop? && e.conn == c && e.epoch == k then [e] else [])
  }

  /** Every event pushed for epoch `k` of connection `c` went to the one queue assigned at that connect, in order. */
  ghost predicate Routed(s: State, c: nat, k: nat, q: nat)
    requires Shaped(s) && c < |s.homes| && q < |s.queues|
  {
    Epoch(s.pushed[q], c, k)
    == if 0 < k <= |s.homes[c]| && s.homes[c][k - 1] == q then Epoch(s.sent[c], c, k) else []
  }

  /** What an I/O thread has looked up is the queue of the epoch its event belongs to. */
  predicate LookedUp(s: State, t: nat)
    requires Shaped(s) && t < |s.pushers|
  {
    s.pushers[t].Found? ==>
      var e := s.pushers[t].event;
      && !e.kind.Stop? && e.conn < |s.homes| && 0 < e.epoch <= |s.homes[e.conn]|
      && s.homes[e.conn][e.epoch - 1] == s.pushers[t].queue
  }

  ghost predicate Inv(s: State) {
    && Shaped(s)
    && (forall t :: 0 <= t < |s.pushers| ==> LookedUp(s, t))
    && (forall q :: 0 <= q < |s.queues| ==> Fifo(s, q) && WorkerOk(s.workers[q], s.handled[q]))
    && (forall c, k: nat, q :: 0 <= c < |s.homes| && 0 <= q < |s.queues| ==> Routed(s, c, k, q))
    && (forall c, k: nat :: 0 <= c < |s.homes| && k > |s.homes[c]| ==> Epoch(s.sent[c], c, k) == [])
  }

  predicate Initial(s: State) {
    && Shaped(s)
    && (forall q :: 0 <= q < |s.queues| ==>
          s.queues[q] == [] && s.pushed[q] == [] && s.handled[q] == [] && s.workers[q] == Worker(Waiting, false))
    && (forall c :: 0 <= c < |s.homes| ==> s.homes[c] == [] && s.sent[c] == [])
    && (forall t :: 0 <= t < |s.pushers| ==> s.pushers[t] == Free)
  }

  lemma InitialInv(s: State)
    requires Initial(s)
    ensures Inv(s)
  {
  }

  lemma EpochPush(es: seq<Event>, e: Event, c: nat, k: nat)
    ensures Epoch(es + [e], c, k)
         == Epoch(es, c, k) + (if !e.kind.Stop? && e.conn == c && e.epoch == k then [e] else [])
  {
    assert (es + [e])[..|es|] == es;
  }

  /** A push keeps the queue in order. */
  lemma PushFifo(s: State, q: nat, e: Event)
    requires Shaped(s) && q < |s.queues| && Fifo(s, q)
    ensures Shaped(Push(s, q, e)) && Fifo(Push(s, q, e), q)
  {
    assert ([e] + s.queues[q])[1..] == s.queues[q];
    assert s.handled[q] + (Reverse(s.queues[q]) + [e]) == (s.handled[q] + Reverse(s.queues[q])) + [e];
  }

  lemma HandleFifo(s: State, q: nat)
    requires Shaped(s) && Enabled(s, Handle(q)) && Fifo(s, q)
    ensures Fifo(Step(s, Handle(q)), q)
  {
    var es := s.queues[q];
    ReverseLast(es);
    var e, rest := es[|es| - 1], Reverse(es[..|es| - 1]);
    assert s.handled[q] + ([e] + rest) == (s.handled[q] + [e]) + rest;
  }

  lemma StepQueues(s: State, a: Action)
    requires Inv(s) && Enabled(s, a)
    ensures var s' := Step(s, a);
            forall q :: 0 <= q < |s'.queues| ==> Fifo(s', q) && WorkerOk(s'.workers[q], s'.handled[q])
  {
    var s' := Step(s, a);
    forall q | 0 <= q < |s'.queues| ensures Fifo(s', q) && WorkerOk(s'.workers[q], s'.handled[q]) {
      assert Fifo(s, q) && WorkerOk(s.workers[q], s.handled[q]);
      match a
      case Assign(_, _) =>
      case Look(_, _, _, _) =>
      case Post(t) =>
        if q == s.pushers[t].queue { PushFifo(s, q, s.pushers[t].event); }
      case PostStop(i) =>
        if q == i { PushFifo(s, q, Event(Stop, q, 0, 0)); }
      case Handle(i) =>
        if q == i { HandleFifo(s, q); }
      case Wake(_) =>
      case Release(_) =>
    }
  }

  /** Sending keeps every epoch on its queue. */
  lemma SendRouted(s: State, home: nat, e: Event)
    requires Shaped(s) && e.conn < |s.homes| && home < |s.queues| && !e.kind.Stop?
    requires 0 < e.epoch <= |s.homes[e.conn]| && s.homes[e.conn][e.epoch - 1] == home
    requires forall c, k: nat, q :: 0 <= c < |s.homes| && 0 <= q < |s.queues| ==> Routed(s, c, k, q)
    requires forall c, k: nat :: 0 <= c < |s.homes| && k > |s.homes[c]| ==> Epoch(s.sent[c], c, k) == []
    ensures var s' := Send(s, home, e);
            && Shaped(s')
            && (forall c, k: nat, q :: 0 <= c < |s.homes| && 0 <= q < |s.queues| ==> Routed(s', c, k, q))
            && (forall c, k: nat :: 0 <= c < |s.homes| && k > |s.homes[c]| ==> Epoch(s'.sent[c], c, k) == [])
  {
    hide Epoch;
    var s' := Send(s, home, e);
    forall c, k: nat, q | 0 <= c < |s.homes| && 0 <= q < |s.queues| ensures Routed(s', c, k, q) {
      assert Routed(s, c, k, q);
      EpochPush(s.pushed[home], e, c, k);
      EpochPush(s.sent[e.conn], e, c, k);
    }
    forall c, k: nat | 0 <= c < |s.homes| && k > |s.homes[c]| ensures Epoch(s'.sent[c], c, k) == [] {
      EpochPush(s.sent[e.conn], e, c, k);
    }
  }

  /** A new connect opens an epoch that has no events yet. */
  lemma AssignRouted(s: State, conn: nat, queue: nat, s': State)
    requires Inv(s) && Enabled(s, Assign(conn, queue)) && s' == Step(s, Assign(conn, queue))
    ensures forall c, k: nat, q :: 0 <= c < |s'.homes| && 0 <= q < |s'.queues| ==> Routed(s', c, k, q)
    ensures forall c, k: nat :: 0 <= c < |s'.homes| && k > |s'.homes[c]| ==> Epoch(s'.sent[c], c, k) == []
  {
    forall c, k: nat, q | 0 <= c < |s'.homes| && 0 <= q < |s'.queues| ensures Routed(s', c, k, q) {
      assert Routed(s, c, k, q);
      if c == conn && k == |s.homes[c]| + 1 {
        assert Epoch(s.sent[c], c, k) == [];
      }
    }
  }

  /** A push goes to the queue that was looked up, and that is the one of its epoch. */
  lemma PostRouted(s: State, t: nat, s': State)
    requires Inv(s) && Enabled(s, Post(t)) && s' == Step(s, Post(t))
    ensures forall c, k: nat, q :: 0 <= c < |s'.homes| && 0 <= q < |s'.queues| ==> Routed(s', c, k, q)
    ensures forall c, k: nat :: 0 <= c < |s'.homes| && k > |s'.homes[c]| ==> Epoch(s'.sent[c], c, k) == []
  {
    hide Epoch, Fifo, WorkerOk;
    assert LookedUp(s, t);
    var q, e := s.pushers[t].queue, s.pushers[t].event;
    SendRouted(s, q, e);
    forall c, k: nat, i | 0 <= c < |s'.homes| && 0 <= i < |s'.queues| ensures Routed(s', c, k, i) {
      assert Routed(Send(s, q, e), c, k, i);
    }
  }

  lemma StepRoutes(s: State, a: Action)
    requires Inv(s) && Enabled(s, a)
    ensures var s' := Step(s, a);
            && (forall c, k: nat, q :: 0 <= c < |s'.homes| && 0 <= q < |s'.queues| ==> Routed(s', c, k, q))
            && (forall c, k: nat :: 0 <= c < |s'.homes| && k > |s'.homes[c]| ==> Epoch(s'.sent[c], c, k) == [])
  {
    hide Epoch;
    var s' := Step(s, a);
    match a
    case Assign(c, q) => AssignRouted(s, c, q, s');
    case Post(t) => PostRouted(s, t, s');
    case PostStop(i) =>
      forall c, k: nat, q | 0 <= c < |s'.homes| && 0 <= q < |s'.queues| ensures Routed(s', c, k, q) {
        assert Routed(s, c, k, q);
        EpochPush(s.pushed[i], Event(Stop, i, 0, 0), c, k);
      }
    case _ =>
      forall c, k: nat, q | 0 <= c < |s'.homes| && 0 <= q < |s'.queues| ensures Routed(s', c, k, q) {
        assert Routed(s, c, k, q);
      }
  }

  /** A queue once looked up stays the one of its epoch, whatever is assigned meanwhile. */
  lemma StepLooks(s: State, a: Action)
    requires Inv(s) && Enabled(s, a)
    ensures var s' := Step(s, a); forall t :: 0 <= t < |s'.pushers| ==> LookedUp(s', t)
  {
    hide Fifo, Routed, WorkerOk, Epoch;
    var s' := Step(s, a);
    forall t | 0 <= t < |s'.pushers| ensures LookedUp(s', t) {
      assert LookedUp(s, t);
    }
  }

  lemma StepKeepsInv(s: State, a: Action)
    requires Inv(s) && Enabled(s, a)
    ensures Inv(Step(s, a))
  {
    hide Step, Fifo, Routed, WorkerOk, Epoch, LookedUp;
    StepLooks(s, a);
    StepQueues(s, a);
    StepRoutes(s, a);
  }

  // ------------------------------------------------------- every interleaving

  ghost predicate Schedules(s: State, actions: seq<Action>)
    requires Shaped(s)
    decreases |actions|
  {
    actions == [] || (Enabled(s, actions[0]) && Schedules(Step(s, actions[0]), actions[1..]))
  }

  function Run(s: State, actions: seq<Action>): (e: State)
    requires Shaped(s) && Schedules(s, actions)
    ensures Shaped(e)
    decreases |actions|
  {
    if actions == [] then s else Run(Step(s, actions[0]), actions[1..])
  }

  lemma {:induction false} RunKeepsInv(s: State, actions: seq<Action>)
    requires Inv(s) && Schedules(s, actions)
    ensures Inv(Run(s, actions))
    decreases |actions|
  {
    hide Step, Inv;
    if actions != [] {
      InvShaped(s);
      StepKeepsInv(s, actions[0]);
      RunKeepsInv(Step(s, actions[0]), actions[1..]);
    }
  }

  lemma InvShaped(s: State)
    requires Inv(s)
    ensures Shaped(s)
  {
  }

  lemma EpochNone(c: nat, k: nat)
    ensures Epoch([], c, k) == []
  {
  }

  lemma {:induction false} EpochSplit(a: seq<Event>, b: seq<Event>, c: nat, k: nat)
    ensures Epoch(a + b, c, k) == Epoch(a, c, k) + Epoch(b, c, k)
    decreases |b|
  {
    hide Epoch;
    if b == [] {
      assert a + b == a;
      EpochNone(c, k);
    } else {
      var front, e := b[..|b| - 1], b[|b| - 1];
      EpochSplit(a, front, c, k);
      assert a + b == (a + front) + [e] && b == front + [e];
      EpochPush(a + front, e, c, k);
      EpochPush(front, e, c, k);
    }
  }

  /**
   * In every interleaving, the events handled for a connection between two of its connects are a
   * prefix, in order, of those pushed for it, and all of them are handled by one worker.
   */
  lemma EpochsAreHandledInOrder(s: State, actions: seq<Action>, c: nat, k: nat)
    requires Initial(s) && Schedules(s, actions) && c < |Run(s, actions).homes| && 0 < k <= |Run(s, actions).homes[c]|
    ensures var e := Run(s, actions);
            var home := e.homes[c][k - 1];
            && home < |e.queues|
            && Epoch(e.handled[home], c, k) <= Epoch(e.sent[c], c, k)
            && (forall q :: 0 <= q < |e.queues| && q != home ==> Epoch(e.handled[q], c, k) == [])
  {
    hide Run, Schedules, Step;
    InitialInv(s);
    RunKeepsInv(s, actions);
    var e := Run(s, actions);
    forall q | 0 <= q < |e.queues| ensures Epoch(e.handled[q], c, k) <= Epoch(e.pushed[q], c, k) && Routed(e, c, k, q) {
      assert Fifo(e, q) && Routed(e, c, k, q);
      EpochSplit(e.handled[q], Reverse(e.queues[q]), c, k);
    }
  }

  // ------------------------------------------------------- stopping

  predicate WorkerAction(a: Action, q: nat) {
    a == Wake(q) || a == Handle(q) || a == Release(q)
  }

  /** What the worker of `q` still has to do. */
  function WorkLeft(s: State, q: nat): nat
    requires Shaped(s) && q < |s.queues|
  {
    3 * |s.queues[q]|
    + (match s.workers[q].phase
       case Waiting => if s.queues[q] == [] then 0 else 2
       case Draining => 1
       case Exited => 0)
  }

  /** The worker's own next step, if it has one. */
  function NextOf(s: State, q: nat): (a: Action)
    requires Shaped(s) && q < |s.queues|
    ensures WorkerAction(a, q)
    ensures (exists b :: WorkerAction(b, q) && Enabled(s, b)) <==> Enabled(s, a)
  {
    match s.workers[q].phase
    case Waiting => Wake(q)
    case Exited => Wake(q)
    case Draining => if s.queues[q] == [] then Release(q) else Handle(q)
  }

  /** A step that pushes to queue `q`. */
  predicate PushesTo(s: State, a: Action, q: nat)
    requires Shaped(s) && Enabled(s, a)
  {
    match a
    case Post(t) => s.pushers[t].queue == q
    case PostStop(i) => i == q
    case _ => false
  }

  /** A schedule in which nothing is pushed to queue `q` any more. */
  ghost predicate QuietSchedule(s: State, actions: seq<Action>, q: nat)
    requires Shaped(s) && Schedules(s, actions)
    decreases |actions|
  {
    actions == [] || (!PushesTo(s, actions[0], q) && QuietSchedule(Step(s, actions[0]), actions[1..], q))
  }

  /** How many of the steps the worker of `q` takes. */
  function StepsOf(actions: seq<Action>, q: nat): nat {
    if actions == [] then 0
    else (if WorkerAction(actions[0], q) then 1 else 0) + StepsOf(actions[1..], q)
  }

  /** A worker leaves only with an empty queue. */
  predicate LeftEmpty(s: State, q: nat)
    requires Shaped(s) && q < |s.queues|
  {
    s.workers[q].phase.Exited? ==> s.queues[q] == []
  }

  lemma QuietStep(s: State, a: Action, q: nat)
    requires Shaped(s) && q < |s.queues| && Enabled(s, a) && !PushesTo(s, a, q) && LeftEmpty(s, q)
    ensures var d := Step(s, a);
            && q < |d.queues| && d.pushed[q] == s.pushed[q] && LeftEmpty(d, q)
            && WorkLeft(d, q) + (if WorkerAction(a, q) then 1 else 0) <= WorkLeft(s, q)
  {
  }

  lemma {:induction false} QuietRun(s: State, actions: seq<Action>, q: nat)
    requires Shaped(s) && q < |s.queues| && Schedules(s, actions) && QuietSchedule(s, actions, q) && LeftEmpty(s, q)
    ensures var e := Run(s, actions);
            && q < |e.queues| && e.pushed[q] == s.pushed[q] && LeftEmpty(e, q)
            && StepsOf(actions, q) + WorkLeft(e, q) <= WorkLeft(s, q)
    decreases |actions|
  {
    hide Step, PushesTo, LeftEmpty, WorkLeft;
    if actions != [] {
      QuietStep(s, actions[0], q);
      QuietRun(Step(s, actions[0]), actions[1..], q);
    }
  }

  /** A worker with nothing to do has handled every event, and has left exactly if the last one was the stop event. */
  lemma SettledWorker(e: State, q: nat)
    requires Inv(e) && q < |e.queues| && !Enabled(e, NextOf(e, q)) && LeftEmpty(e, q)
    ensures e.handled[q] == e.pushed[q] && (e.workers[q].phase.Exited? <==> EndsWithStop(e.pushed[q]))
  {
    assert Fifo(e, q) && WorkerOk(e.workers[q], e.handled[q]);
    assert e.handled[q] + [] == e.handled[q];
  }

  /**
   * Stopping: in every schedule that pushes nothing more to its queue, a worker that has not left yet
   * takes a bounded number of steps; once it has no step left, it has handled every event of its queue
   * exactly once, and it has left if and only if the last event pushed to the queue is the stop event.
   */
  lemma WorkerStopsExactly(s: State, actions: seq<Action>, q: nat)
    requires Inv(s) && q < |s.queues| && !s.workers[q].phase.Exited?
    requires Schedules(s, actions) && QuietSchedule(s, actions, q)
    ensures var e := Run(s, actions);
            && q < |e.queues| && StepsOf(actions, q) + WorkLeft(e, q) <= WorkLeft(s, q)
            && (!Enabled(e, NextOf(e, q)) ==>
                  && e.handled[q] == s.pushed[q]
                  && (e.workers[q].phase.Exited? <==> EndsWithStop(s.pushed[q])))
  {
    hide Step, NextOf, WorkLeft, Schedules, QuietSchedule, Run, Enabled;
    RunKeepsInv(s, actions);
    QuietRun(s, actions, q);
    var e := Run(s, actions);
    if !Enabled(e, NextOf(e, q)) {
      SettledWorker(e, q);
    }
  }

  /** The states of the run below, with one connection, one queue and one I/O thread. */
  function StopRun(queue: seq<Event>, pushed: seq<Event>, handled: seq<Event>, sent: seq<Event>, worker: Worker,
                   pusher: Pusher): State {
    State([[0]], [queue], [worker], [pusher], [pushed], [handled], [sent])
  }

  const STOP: Event := Event(Stop, 0, 0, 0)
  const LATE: Event := Event(Data, 0, 1, 5)

  /** A message whose push comes behind the stop event keeps the worker: it handles both and waits again. */
  lemma EventBehindStop()
    ensures var s := State([[]], [[]], [Worker(Waiting, false)], [Free], [[]], [[]], [[]]);
            var actions := [Assign(0, 0), Look(0, 0, Data, 5), PostStop(0), Post(0)]
                           + [Wake(0), Handle(0), Handle(0), Release(0)];
            Initial(s) && Schedules(s, actions)
            && Run(s, actions) == StopRun([], [STOP, LATE], [STOP, LATE], [LATE], Worker(Waiting, false), Free)
  {
    hide Schedules, Run, Step;
    StopDrained();
    StopPushed();
    var w, f := Worker(Waiting, false), Found(LATE, 0);
    var rest := [Wake(0), Handle(0), Handle(0), Release(0)];
    RunOne(StopRun([STOP], [STOP], [], [], w, f), Post(0), rest);
    RunOne(StopRun([], [], [], [], w, f), PostStop(0), [Post(0)] + rest);
    RunOne(StopRun([], [], [], [], w, Free), Look(0, 0, Data, 5), [PostStop(0)] + ([Post(0)] + rest));
    RunOne(State([[]], [[]], [w], [Free], [[]], [[]], [[]]), Assign(0, 0),
           [Look(0, 0, Data, 5)] + ([PostStop(0)] + ([Post(0)] + rest)));
    assert [Assign(0, 0)] + ([Look(0, 0, Data, 5)] + ([PostStop(0)] + ([Post(0)] + rest)))
        == [Assign(0, 0), Look(0, 0, Data, 5), PostStop(0), Post(0)] + rest;
  }

  lemma StopPushed()
    ensures var w, f := Worker(Waiting, false), Found(LATE, 0);
            && Step(State([[]], [[]], [w], [Free], [[]], [[]], [[]]), Assign(0, 0)) == StopRun([], [], [], [], w, Free)
            && Step(StopRun([], [], [], [], w, Free), Look(0, 0, Data, 5)) == StopRun([], [], [], [], w, f)
            && Step(StopRun([], [], [], [], w, f), PostStop(0)) == StopRun([STOP], [STOP], [], [], w, f)
            && Step(StopRun([STOP], [STOP], [], [], w, f), Post(0))
               == StopRun([LATE, STOP], [STOP, LATE], [], [LATE], w, Free)
  {
    var w, none: seq<Event>, home: seq<nat> := Worker(Waiting, false), [], [];
    assert home + [0] == [0] && [home][0 := [0]] == [[0]] && [Free][0 := Found(LATE, 0)] == [Found(LATE, 0)];
    assert [STOP] + none == [STOP] && none + [STOP] == [STOP] && [none][0 := [STOP]] == [[STOP]];
    assert [LATE] + [STOP] == [LATE, STOP] && [STOP] + [LATE] == [STOP, LATE] && none + [LATE] == [LATE];
    assert [[STOP]][0 := [LATE, STOP]] == [[LATE, STOP]] && [[STOP]][0 := [STOP, LATE]] == [[STOP, LATE]];
    assert [none][0 := [LATE]] == [[LATE]] && [Found(LATE, 0)][0 := Free] == [Free];
  }

  lemma StopDrained()
    ensures var s := StopRun([LATE, STOP], [STOP, LATE], [], [LATE], Worker(Waiting, false), Free);
            var actions := [Wake(0), Handle(0), Handle(0), Release(0)];
            Schedules(s, actions)
            && Run(s, actions) == StopRun([], [STOP, LATE], [STOP, LATE], [LATE], Worker(Waiting, false), Free)
  {
    hide Schedules, Run, Step;
    var w, d := Worker(Waiting, false), Worker(Draining, false);
    StopSteps();
    RunNone(StopRun([], [STOP, LATE], [STOP, LATE], [LATE], w, Free));
    RunOne(StopRun([], [STOP, LATE], [STOP, LATE], [LATE], d, Free), Release(0), []);
    RunOne(StopRun([LATE], [STOP, LATE], [STOP], [LATE], Worker(Draining, true), Free), Handle(0), [Release(0)] + []);
    var rest := [Handle(0)] + ([Release(0)] + []);
    RunOne(StopRun([LATE, STOP], [STOP, LATE], [], [LATE], d, Free), Handle(0), rest);
    RunOne(StopRun([LATE, STOP], [STOP, LATE], [], [LATE], w, Free), Wake(0), [Handle(0)] + rest);
    assert [Wake(0)] + ([Handle(0)] + rest) == [Wake(0), Handle(0), Handle(0), Release(0)];
  }

  lemma StopSteps()
    ensures var d := Worker(Draining, false);
            && Step(StopRun([LATE, STOP], [STOP, LATE], [], [LATE], Worker(Waiting, false), Free), Wake(0))
               == StopRun([LATE, STOP], [STOP, LATE], [], [LATE], d, Free)
            && Step(StopRun([LATE, STOP], [STOP, LATE], [], [LATE], d, Free), Handle(0))
               == StopRun([LATE], [STOP, LATE], [STOP], [LATE], Worker(Draining, true), Free)
            && Step(StopRun([LATE], [STOP, LATE], [STOP], [LATE], Worker(Draining, true), Free), Handle(0))
               == StopRun([], [STOP, LATE], [STOP, LATE], [LATE], d, Free)
            && Step(StopRun([], [STOP, LATE], [STOP, LATE], [LATE], d, Free), Release(0))
               == StopRun([], [STOP, LATE], [STOP, LATE], [LATE], Worker(Waiting, false), Free)
  {
    var w, d, done := Worker(Waiting, false), Worker(Draining, false), Worker(Draining, true);
    var none: seq<Event> := [];
    assert [w][0 := d] == [d] && [d][0 := done] == [done] && [done][0 := d] == [d] && [d][0 := w] == [w];
    assert [LATE, STOP][..1] == [LATE] && [LATE][..0] == none;
    assert none + [STOP] == [STOP] && [STOP] + [LATE] == [STOP, LATE];
    assert [[LATE, STOP]][0 := [LATE]] == [[LATE]] && [[LATE]][0 := none] == [none];
    assert [none][0 := [STOP]] == [[STOP]] && [[STOP]][0 := [STOP, LATE]] == [[STOP, LATE]];
  }

  lemma RunNone(s: State)
    requires Shaped(s)
    ensures Schedules(s, []) && Run(s, []) == s
  {
  }

  lemma RunOne(s: State, a: Action, rest: seq<Action>)
    requires Shaped(s) && Enabled(s, a) && Schedules(Step(s, a), rest)
    ensures Schedules(s, [a] + rest) && Run(s, [a] + rest) == Run(Step(s, a), rest)
  {
    assert ([a] + rest)[1..] == rest;
  }

  // ------------------------------------------------------- an undisturbed push

  /** `pushEvent` by one I/O thread: the queue is looked up, then the event is pushed to it. */
  function PushActions(thread: nat, e: Event): seq<Action> {
    [Look(thread, e.conn, e.kind, e.payload), Post(thread)]
  }

  /** An I/O thread is free to push an event of the connection's current epoch. */
  predicate PushReady(s: State, thread: nat, e: Event) {
    && Shaped(s) && e.conn < |s.homes| && e.epoch == |s.homes[e.conn]| > 0 && !e.kind.Stop?
    && thread < |s.pushers| && s.pushers[thread].Free? && CanPush(s, Home(s, e.conn))
  }

  lemma LookMoves(s: State, thread: nat, e: Event)
    requires PushReady(s, thread, e)
    ensures Enabled(s, Look(thread, e.conn, e.kind, e.payload))
    ensures var d := Step(s, Look(thread, e.conn, e.kind, e.payload));
            && thread < |d.pushers| && d.pushers[thread] == Found(e, Home(s, e.conn)) && Enabled(d, Post(thread))
            && Step(d, Post(thread)).homes == s.homes
  {
  }

  lemma PushRuns(s: State, thread: nat, e: Event)
    requires PushReady(s, thread, e)
    ensures Enabled(s, Look(thread, e.conn, e.kind, e.payload))
    ensures var d := Step(s, Look(thread, e.conn, e.kind, e.payload));
            && Enabled(d, Post(thread)) && Schedules(s, PushActions(thread, e))
            && Run(s, PushActions(thread, e)) == Step(d, Post(thread)) && Step(d, Post(thread)).homes == s.homes
  {
    hide Step;
    LookMoves(s, thread, e);
    var d := Step(s, Look(thread, e.conn, e.kind, e.payload));
    RunNone(Step(d, Post(thread)));
    RunOne(d, Post(thread), []);
    RunOne(s, Look(thread, e.conn, e.kind, e.payload), [Post(thread)] + []);
    assert PushActions(thread, e) == [Look(thread, e.conn, e.kind, e.payload)] + ([Post(thread)] + []);
  }

  // ------------------------------------------------------- the multiplexer in memory

  /** Let the worker of `q` run until it waits or has left. */
  function Drain(s: State, q: nat): (e: State)
    requires Inv(s) && q < |s.queues|
    ensures Inv(e) && q < |e.queues| && !Enabled(e, NextOf(e, q)) && e.pushed == s.pushed
    decreases WorkLeft(s, q)
  {
    var a := NextOf(s, q);
    if !Enabled(s, a) then s
    else
      StepKeepsInv(s, a);
      Drain(Step(s, a), q)
  }

  /**
   * The fields the steps above stand for, and the state of the run so far as the ghost field `run`. A
   * method that touches a queue runs under its lock.
   */
  class MsgMultiplexer {
    var nextQueue: nat
    /** -1 while a connection was never assigned. */
    var connectionMap: seq<int>
    var queues: seq<seq<Event>>
    ghost var run: State

    ghost predicate InRange()
      reads this
    {
      nextQueue < |queues| && forall c :: 0 <= c < |connectionMap| ==> -1 <= connectionMap[c] < |queues|
    }

    /** The fields are those of the run: each connection maps to the queue of its latest connect. */
    ghost predicate Represents(s: State)
      reads this
    {
      && Shaped(s) && nextQueue < |queues| && queues == s.queues && |connectionMap| == |s.homes|
      && forall c :: 0 <= c < |s.homes| ==>
           connectionMap[c] == if s.homes[c] == [] then -1 else s.homes[c][|s.homes[c]| - 1]
    }

    ghost predicate Valid()
      reads this
    {
      Inv(run) && Represents(run)
    }

    constructor (maxConnections: nat, concurrency: nat, ghost threads: nat)
      requires concurrency > 0
      ensures Valid() && Initial(run) && |run.homes| == maxConnections && |run.queues| == concurrency
      ensures |run.pushers| == threads
    {
      nextQueue := 0;
      connectionMap := seq(maxConnections, _ => -1);
      queues := seq(concurrency, _ => []);
      ghost var none: seq<seq<Event>> := seq(concurrency, _ => []);
      run := State(seq(maxConnections, _ => []), none, seq(concurrency, _ => Worker(Waiting, false)),
                   seq(threads, _ => Free), none, none, seq(maxConnections, _ => []));
      new;
      InitialInv(run);
    }

    lemma SameQueues()
      requires Valid()
      ensures queues == run.queues && |run.workers| == |queues|
    {
    }

    /** Queues are handed out in turn. */
    method AssignQueueId(conn: nat)
      requires InRange() && conn < |connectionMap|
      modifies `nextQueue, `connectionMap
      ensures InRange()
      ensures connectionMap == old(connectionMap)[conn := old(nextQueue)]
      ensures nextQueue == (old(nextQueue) + 1) % |queues|
    {
      var queueId := nextQueue;
      nextQueue := (nextQueue + 1) % |queues|;
      connectionMap := connectionMap[conn := queueId];
    }

    /** The first half of `onConnect`: the connection is assigned the next queue, without any lock. */
    method Assign(conn: nat)
      requires Valid() && conn < |connectionMap|
      modifies this
      ensures Valid() && Enabled(old(run), Action.Assign(conn, old(nextQueue)))
      ensures run == Step(old(run), Action.Assign(conn, old(nextQueue)))
      ensures nextQueue == (old(nextQueue) + 1) % |queues|
    {
      hide Inv, Fifo, Routed, Reverse;
      InvShaped(run);
      ghost var a := Action.Assign(conn, nextQueue);
      StepKeepsInv(run, a);
      AssignQueueId(conn);
      run := Step(run, a);
    }

    /** The first half of `pushEvent`: the connection's queue is read, without any lock. */
    method LookUp(ghost thread: nat, conn: nat, ghost kind: Kind, ghost payload: nat) returns (queueId: int)
      requires Valid() && Enabled(run, Look(thread, conn, kind, payload))
      modifies `run
      ensures Valid() && run == Step(old(run), Look(thread, conn, kind, payload))
      ensures queueId == connectionMap[conn] == run.pushers[thread].queue
    {
      hide Inv, Fifo, Routed, Reverse;
      InvShaped(run);
      StepKeepsInv(run, Look(thread, conn, kind, payload));
      queueId := connectionMap[conn];
      run := Step(run, Look(thread, conn, kind, payload));
    }

    /** The second half of `pushEvent`: the event becomes the newest of the queue that was read. */
    method PushTo(ghost thread: nat, queueId: nat, e: Event)
      requires Valid() && Enabled(run, Post(thread)) && run.pushers[thread] == Found(e, queueId)
      modifies `queues, `run
      ensures Valid() && run == Step(old(run), Post(thread))
      ensures queueId < |queues| && queues == old(queues)[queueId := [e] + old(queues[queueId])]
      ensures Reverse(queues[queueId]) == Reverse(old(queues[queueId])) + [e]
    {
      hide Inv, Fifo, Routed;
      InvShaped(run);
      StepKeepsInv(run, Post(thread));
      queues := queues[queueId := [e] + queues[queueId]];
      run := Step(run, Post(thread));
    }

    /** `pushEvent`, when no other thread comes in between: two steps of the machine. */
    method PushEvent(ghost thread: nat, e: Event)
      requires Valid() && PushReady(run, thread, e)
      modifies `queues, `run
      ensures Valid() && Schedules(old(run), PushActions(thread, e)) && run == Run(old(run), PushActions(thread, e))
    {
      hide Inv, Fifo, Routed, Reverse, Step;
      InvShaped(run);
      ghost var before := run;
      LookMoves(before, thread, e);
      var queueId := LookUp(thread, e.conn, e.kind, e.payload);
      InvShaped(run);
      PushTo(thread, queueId, e);
      InvShaped(run);
      PushRuns(before, thread, e);
    }

    /** `onConnect`, when no other thread comes in between: the assignment, then the push. */
    method OnConnect(ghost thread: nat, conn: nat, epoch: nat)
      requires Valid() && conn < |run.homes| && epoch == |run.homes[conn]| + 1
      requires thread < |run.pushers| && run.pushers[thread].Free? && CanPush(run, nextQueue)
      modifies this
      ensures Valid() && conn < |run.homes| && |run.homes[conn]| == epoch && Home(run, conn) == old(nextQueue)
      ensures var push := PushActions(thread, Event(Connect, conn, epoch, 0));
              var actions := [Action.Assign(conn, old(nextQueue))] + push;
              Schedules(old(run), actions) && run == Run(old(run), actions)
    {
      hide Inv, Fifo, Routed, Reverse, Step, Run, Schedules, PushActions;
      InvShaped(run);
      ghost var before, q := run, nextQueue;
      Assign(conn);
      InvShaped(run);
      AssignMoves(before, conn, q);
      ghost var mid := run;
      PushEvent(thread, Event(Connect, conn, epoch, 0));
      InvShaped(run);
      RunOne(before, Action.Assign(conn, q), PushActions(thread, Event(Connect, conn, epoch, 0)));
      PushRuns(mid, thread, Event(Connect, conn, epoch, 0));
    }

    /** One queue's share of `stop`. */
    method StopQueue(q: nat)
      requires Valid() && Enabled(run, PostStop(q))
      modifies this
      ensures Valid() && run == Step(old(run), PostStop(q))
      ensures q < |queues| && queues == old(queues)[q := [Event(Stop, q, 0, 0)] + old(queues[q])]
      ensures connectionMap == old(connectionMap) && nextQueue == old(nextQueue)
    {
      hide Inv, Fifo, Routed, Reverse;
      InvShaped(run);
      StepKeepsInv(run, PostStop(q));
      queues := queues[q := [Event(Stop, q, 0, 0)] + queues[q]];
      run := Step(run, PostStop(q));
    }

    /** The worker of `q` takes the lock when woken and gives it back when the queue is empty. */
    ghost method LockStep(q: nat, a: Action)
      requires Valid() && (a == Wake(q) || a == Release(q)) && Enabled(run, a)
      modifies `run
      ensures Valid() && run == Step(old(run), a)
    {
      hide Inv;
      InvShaped(run);
      StepKeepsInv(run, a);
      WorkerMoves(run, q);
      run := Step(run, a);
    }

    /** The oldest event of a queue is handled and dropped. */
    method HandleOldest(q: nat) returns (e: Event)
      requires Valid() && Enabled(run, Handle(q))
      modifies `queues, `run
      ensures Valid() && run == Step(old(run), Handle(q))
      ensures e == old(queues[q])[|old(queues[q])| - 1]
      ensures queues == old(queues)[q := old(queues[q])[..|old(queues[q])| - 1]]
    {
      hide Inv, Reverse;
      InvShaped(run);
      StepKeepsInv(run, Handle(q));
      WorkerMoves(run, q);
      var es := queues[q];
      e := es[|es| - 1];
      queues := queues[q := es[..|es| - 1]];
      run := Step(run, Handle(q));
    }

    /**
     * One round of a worker: woken by an event, it handles the events in the order they were pushed,
     * each once, and leaves exactly when the last one pushed was the stop event. It takes the worker
     * as far as the steps above do.
     */
    method DrainQueue(q: nat) returns (handled: seq<Event>, done: bool)
      requires Valid() && Enabled(run, Wake(q))
      modifies `queues, `run
      ensures Valid() && run == Drain(old(run), q)
      ensures queues == old(queues)[q := []] && handled == Reverse(old(queues[q]))
      ensures (done <==> EndsWithStop(handled)) && (done <==> run.workers[q].phase.Exited?)
    {
      hide Inv, Drain, Reverse, Step, EndsWithStop, Shaped, Represents;
      handled, done := [], false;
      SameQueues();
      ghost var all := Reverse(queues[q]);
      Starts(run, q);
      LockStep(q, Wake(q));
      SameQueues();
      while queues[q] != []
        invariant Valid() && q < |queues| == |run.workers| && queues == run.queues
        invariant queues == old(queues)[q := queues[q]]
        invariant handled + Reverse(queues[q]) == all
        invariant if handled == [] then queues[q] == old(queues[q]) && !done
                  else (done <==> EndsWithStop(handled)) && run.workers[q].done == done
        invariant run.workers[q].phase.Draining? && Drain(run, q) == Drain(old(run), q)
        decreases |queues[q]|
      {
        HandleOne(handled, queues[q], all);
        Continues(run, q);
        var e := HandleOldest(q);
        SameQueues();
        done := e.kind.Stop?;
        handled := handled + [e];
      }
      HandledAll(handled, all, queues[q]);
      Ends(run, q);
      LockStep(q, Release(q));
    }
  }

  /** What the steps of a worker change. */
  lemma WorkerMoves(s: State, q: nat)
    requires Shaped(s) && q < |s.queues|
    ensures Enabled(s, Wake(q)) ==>
              Step(s, Wake(q)) == s.(workers := s.workers[q := Worker(Draining, s.workers[q].done)])
    ensures Enabled(s, Handle(q)) ==>
              var d, es := Step(s, Handle(q)), s.queues[q];
              d.queues == s.queues[q := es[..|es| - 1]] && d.homes == s.homes
    ensures Enabled(s, Release(q)) ==>
              var done := s.workers[q].done;
              Step(s, Release(q)) == s.(workers := s.workers[q := Worker(if done then Exited else Waiting, done)])
  {
  }

  lemma Starts(s: State, q: nat)
    requires Inv(s) && Enabled(s, Wake(q))
    ensures q < |s.queues| && Shaped(s) && s.queues[q] != []
    ensures var d := Step(s, Wake(q));
            q < |d.workers| && d.workers[q].phase.Draining? && Inv(d) && q < |d.queues| && Drain(d, q) == Drain(s, q)
  {
    StepKeepsInv(s, Wake(q));
  }

  lemma Continues(s: State, q: nat)
    requires Inv(s) && Enabled(s, Handle(q))
    ensures q < |s.queues| && Shaped(s) && s.queues[q] != []
    ensures var d, es := Step(s, Handle(q)), s.queues[q];
            && q < |d.workers| && d.workers[q] == Worker(Draining, es[|es| - 1].kind.Stop?)
            && Inv(d) && q < |d.queues| && Drain(d, q) == Drain(s, q)
  {
    StepKeepsInv(s, Handle(q));
  }

  lemma Ends(s: State, q: nat)
    requires Inv(s) && Enabled(s, Release(q))
    ensures q < |s.queues| && Shaped(s)
    ensures var d := Step(s, Release(q));
            q < |d.workers| && (d.workers[q].phase.Exited? <==> s.workers[q].done) && d == Drain(s, q)
  {
    StepKeepsInv(s, Release(q));
  }

  lemma HandleOne(handled: seq<Event>, es: seq<Event>, all: seq<Event>)
    requires es != [] && handled + Reverse(es) == all
    ensures var front, e := es[..|es| - 1], es[|es| - 1];
            (handled + [e]) + Reverse(front) == all && (EndsWithStop(handled + [e]) <==> e.kind.Stop?)
  {
    hide Reverse;
    ReverseLast(es);
    var rest, e := Reverse(es[..|es| - 1]), es[|es| - 1];
    assert handled + ([e] + rest) == (handled + [e]) + rest;
  }

  lemma HandledAll(handled: seq<Event>, all: seq<Event>, es: seq<Event>)
    requires es == [] && handled + Reverse(es) == all
    ensures handled == all
  {
    assert handled + [] == handled;
  }

  lemma AssignMoves(s: State, c: nat, q: nat)
    requires Shaped(s) && Enabled(s, Assign(c, q))
    ensures var d := Step(s, Assign(c, q));
            |d.homes| == |s.homes| && d.homes[c] == s.homes[c] + [q] && d.workers == s.workers && d.pushers == s.pushers
  {
  }
}
