/**
 * The per-client datagram scheduler as a state machine: any number of handler tasks and client
 * coroutines of one address, interleaved at their `await`s.
 */
module DatagramServer {
  import opened Options
  import opened ClientData

  type TaskId = nat

  /** Where a task is suspended. */
  datatype Pc =
    | Notifying                 // handler: datagram appended, waiting for the lock of the condition
    | Scheduled                 // client coroutine given to `start_soon`, not started yet
    | InGenerator               // in `anext`, `asend` or `athrow` of the request handler generator
    | Acquiring                 // `pop_datagram`: waiting for the lock
    | Parked(notified: bool)    // `pop_datagram`: in `queue_condition.wait()`
    | Closing                   // in `aclose` of the generator

  /**
   * `arrived` is everything ever pushed for the address, `sessions` what each successive generator has
   * taken. `failed` is set by the inconsistent state error or by a pop from an empty queue.
   */
  datatype State<D> = State(
    client: Record<D>,
    tasks: map<TaskId, Pc>,
    next: TaskId,
    arrived: seq<D>,
    sessions: seq<seq<D>>,
    failed: bool)

  function Init<D>(): State<D> {
    State(Record(None, []), map[], 0, [], [], false)
  }

  datatype Step<D> =
    | Arrive(d: D)                        // `handler` starts
    | Notify(t: TaskId, waiter: TaskId)   // `handler` gets the lock and notifies `waiter` if it is parked
    | Begin(t: TaskId)                    // a scheduled coroutine starts
    | Ask(t: TaskId)                      // the generator yields: the next datagram is wanted
    | Finish(t: TaskId)                   // the generator returns or raises
    | Acquire(t: TaskId)                  // `pop_datagram` gets the lock
    | Wake(t: TaskId)                     // `wait()` returns after a notification
    | Timeout(t: TaskId)                  // the receive timeout expires, and is thrown into the generator
    | Close(t: TaskId)                    // `aclose` is done: the end of the coroutine
    | Forget                              // nothing refers to the client data any more: the weak cache drops it

  predicate IsAt<D>(s: State<D>, t: TaskId, pc: Pc) {
    t in s.tasks && s.tasks[t] == pc
  }

  predicate SomeoneParked<D>(s: State<D>) {
    exists t :: t in s.tasks && s.tasks[t] == Parked(false)
  }

  predicate Enabled<D>(s: State<D>, step: Step<D>) {
    match step
    case Arrive(_) => true
    case Notify(t, waiter) =>
      IsAt(s, t, Notifying) && (SomeoneParked(s) ==> IsAt(s, waiter, Parked(false)))
    case Begin(t) => IsAt(s, t, Scheduled)
    case Ask(t) => IsAt(s, t, InGenerator)
    case Finish(t) => IsAt(s, t, InGenerator)
    case Acquire(t) => IsAt(s, t, Acquiring)
    case Wake(t) => IsAt(s, t, Parked(true))
    case Timeout(t) => t in s.tasks && (s.tasks[t].Acquiring? || s.tasks[t].Parked?)
    case Close(t) => IsAt(s, t, Closing)
    case Forget => s.tasks == map[]
  }

  function At<D>(s: State<D>, t: TaskId, pc: Pc): State<D> {
    s.(tasks := s.tasks[t := pc])
  }

  function End<D>(s: State<D>, t: TaskId): State<D> {
    s.(tasks := s.tasks - {t})
  }

  /** A coroutine that has started: a new generator is opened with its first datagram. */
  function Opened<D>(s: State<D>, t: TaskId, start: Option<(D, Record<D>)>): State<D> {
    match start
    case None => s.(failed := true)
    case Some(p) => At(s, t, InGenerator).(client := p.1, sessions := s.sessions + [[p.0]])
  }

  /** The loop of `pop_datagram`, with the lock held. */
  function PopOrWait<D>(s: State<D>, t: TaskId): State<D> {
    match s.client.Pop()
    case None => At(s, t, Parked(false))
    case Some(p) =>
      if s.sessions == [] then s.(failed := true)
      else
        var n := |s.sessions| - 1;
        At(s, t, InGenerator).(client := p.1, sessions := s.sessions[n := s.sessions[n] + [p.0]])
  }

  /** `handler` behind `push_datagram`. */
  function AfterPush<D>(s: State<D>, t: TaskId): State<D> {
    if s.client.state == None && |s.client.queue| > 0 then Opened(s, t, s.client.StartInPlace())
    else End(s, t)
  }

  function Do<D>(s: State<D>, step: Step<D>): State<D>
    requires Enabled(s, step)
  {
    match step
    case Arrive(d) =>
      var s1 := s.(client := s.client.Push(d), arrived := s.arrived + [d], next := s.next + 1);
      if s.client.state == None then AfterPush(s1, s.next) else At(s1, s.next, Notifying)
    case Notify(t, waiter) =>
      AfterPush(if SomeoneParked(s) then At(s, waiter, Parked(true)) else s, t)
    case Begin(t) => Opened(s, t, s.client.StartCoroutine())
    case Ask(t) => At(s, t, Acquiring)
    case Finish(t) => At(s, t, Closing)
    case Acquire(t) => PopOrWait(s, t)
    case Wake(t) => PopOrWait(s, t)
    case Timeout(t) => At(s, t, InGenerator)
    case Close(t) =>
      (match s.client.EndCoroutine()
       case None => s.(failed := true)
       case Some(r) =>
         var s1 := End(s, t).(client := r);
         if s.client.queue == [] then s1 else At(s1, s.next, Scheduled).(next := s.next + 1))
    case Forget => s.(client := Record(None, []))
  }

  // ----- the invariant -----

  /** Has this task an open generator? */
  predicate IsOpen(pc: Pc) {
    pc.InGenerator? || pc.Acquiring? || pc.Parked? || pc.Closing?
  }

  /** A client coroutine, scheduled or started. */
  predicate Works<D>(s: State<D>, t: TaskId) {
    t in s.tasks && !s.tasks[t].Notifying?
  }

  predicate Notifies<D>(s: State<D>, t: TaskId) {
    t in s.tasks && s.tasks[t].Notifying?
  }

  function Flatten<D>(ss: seq<seq<D>>): seq<D> {
    if ss == [] then [] else Flatten(ss[..|ss| - 1]) + ss[|ss| - 1]
  }

  /** At most one task is a client coroutine, and the state tells what it is doing. */
  ghost predicate OneWorker<D>(s: State<D>) {
    && (forall t, u :: Works(s, t) && Works(s, u) ==> t == u)
    && (forall t :: Works(s, t) ==>
          s.client.state == Some(if s.tasks[t].Scheduled? then TaskPending else TaskRunning))
    && (s.client.state != None ==> exists t :: Works(s, t))
    && (forall t :: t in s.tasks ==> t < s.next)
  }

  /** Without a coroutine the queue is empty; a pending one has something to pop. */
  ghost predicate QueueFitsState<D>(s: State<D>) {
    && (s.client.state == None ==> s.client.queue == [])
    && (s.client.state == Some(TaskPending) ==> s.client.queue != [])
  }

  /** Everything that arrived was taken, in order, or is queued; every generator took at least one. */
  ghost predicate Conserved<D>(s: State<D>) {
    && Flatten(s.sessions) + s.client.queue == s.arrived
    && (forall i :: 0 <= i < |s.sessions| ==> s.sessions[i] != [])
    && (s.client.state == Some(TaskRunning) ==> s.sessions != [])
  }

  /** A parked coroutine with datagrams in its queue is about to be notified. */
  ghost predicate NoLostWakeup<D>(s: State<D>) {
    SomeoneParked(s) && s.client.queue != [] ==> exists t :: Notifies(s, t)
  }

  ghost predicate Inv<D>(s: State<D>) {
    !s.failed && OneWorker(s) && QueueFitsState(s) && Conserved(s) && NoLostWakeup(s)
  }

  // ----- every step keeps it -----

  lemma FlattenOpened<D>(ss: seq<seq<D>>, d: D)
    ensures Flatten(ss + [[d]]) == Flatten(ss) + [d]
  {
    assert (ss + [[d]])[..|ss|] == ss;
  }

  lemma FlattenTaken<D>(ss: seq<seq<D>>, d: D)
    requires ss != []
    ensures var n := |ss| - 1; Flatten(ss[n := ss[n] + [d]]) == Flatten(ss) + [d]
  {
    var n := |ss| - 1;
    assert ss[n := ss[n] + [d]][..n] == ss[..n];
  }

  lemma OnlyWorker<D>(s: State<D>, t: TaskId)
    requires t in s.tasks && !s.tasks[t].Notifying?
    requires forall u :: Works(s, u) ==> u == t
    ensures Works(s, t)
    ensures SomeoneParked(s) ==> s.tasks[t] == Parked(false)
  {
    if SomeoneParked(s) {
      var u :| u in s.tasks && s.tasks[u] == Parked(false);
      assert Works(s, u);
    }
  }

  /** A coroutine starts in task `t`, which is the only worker or a new one. */
  lemma OpenedKeepsInv<D>(s: State<D>, t: TaskId, r: Record<D>, d: D)
    requires forall u :: Works(s, u) ==> u == t
    requires forall u :: u in s.tasks ==> u < s.next
    requires t < s.next && !s.failed
    requires Flatten(s.sessions) + ([d] + r.queue) == s.arrived
    requires forall i :: 0 <= i < |s.sessions| ==> s.sessions[i] != []
    requires r.state == Some(TaskRunning)
    ensures Inv(Opened(s, t, Some((d, r))))
  {
    hide Flatten;
    var s' := Opened(s, t, Some((d, r)));
    forall u | Works(s', u) ensures u == t {
      assert u != t ==> Works(s, u);
    }
    OnlyWorker(s', t);
    FlattenOpened(s.sessions, d);
    assert Flatten(s.sessions) + [d] + r.queue == Flatten(s.sessions) + ([d] + r.queue);
  }

  lemma ArriveKeepsInv<D>(s: State<D>, d: D)
    requires Inv(s)
    ensures Inv(Do(s, Arrive(d)))
  {
    if s.client.state == None {
      FirstArrivalKeepsInv(s, d);
    } else {
      QueuedArrivalKeepsInv(s, d);
    }
  }

  /** The handler starts the coroutine itself, without a suspension in between. */
  lemma FirstArrivalKeepsInv<D>(s: State<D>, d: D)
    requires Inv(s) && s.client.state == None
    ensures Inv(Do(s, Arrive(d)))
  {
    hide Flatten;
    var s1 := s.(client := s.client.Push(d), arrived := s.arrived + [d], next := s.next + 1);
    assert s1.client.queue == [d];
    assert forall u :: Works(s1, u) ==> Works(s, u);
    assert Flatten(s.sessions) + [] == Flatten(s.sessions);
    assert [d][1..] == [] && [d] + [] == [d];
    OpenedKeepsInv(s1, s.next, Record(Some(TaskRunning), []), d);
  }

  /** The datagram is queued, and the handler is between its append and its notification. */
  lemma QueuedArrivalKeepsInv<D>(s: State<D>, d: D)
    requires Inv(s) && s.client.state != None
    ensures Inv(Do(s, Arrive(d)))
  {
    hide Flatten;
    var s' := Do(s, Arrive(d));
    assert forall u :: Works(s', u) <==> Works(s, u);
    var w :| Works(s, w);
    assert Works(s', w);
    assert Notifies(s', s.next);
  }

  lemma NotifyKeepsInv<D>(s: State<D>, t: TaskId, waiter: TaskId)
    requires Inv(s) && Enabled(s, Notify(t, waiter))
    ensures Inv(Do(s, Notify(t, waiter)))
  {
    var s' := Do(s, Notify(t, waiter));
    assert forall u :: Works(s', u) <==> Works(s, u);
    if SomeoneParked(s) {
      assert Works(s, waiter) && Works(s', waiter);
      OnlyWorker(s', waiter);
    }
  }

  lemma BeginKeepsInv<D>(s: State<D>, t: TaskId)
    requires Inv(s) && Enabled(s, Begin(t))
    ensures Inv(Do(s, Begin(t)))
  {
    assert Works(s, t);
    var q := s.client.queue;
    assert [q[0]] + q[1..] == q;
    OpenedKeepsInv(s, t, Record(Some(TaskRunning), q[1..]), q[0]);
  }

  /** The running coroutine moves on without touching the record. */
  lemma MoveKeepsInv<D>(s: State<D>, t: TaskId, pc: Pc)
    requires Inv(s) && t in s.tasks && IsOpen(s.tasks[t]) && IsOpen(pc)
    requires pc == Parked(false) ==> s.client.queue == []
    ensures Inv(At(s, t, pc))
  {
    var s' := At(s, t, pc);
    assert Works(s, t) && Works(s', t);
    assert forall u :: Works(s', u) <==> Works(s, u);
    OnlyWorker(s', t);
  }

  lemma PopOrWaitKeepsInv<D>(s: State<D>, t: TaskId)
    requires Inv(s) && t in s.tasks && IsOpen(s.tasks[t])
    ensures Inv(PopOrWait(s, t))
  {
    assert Works(s, t);
    var q := s.client.queue;
    if q == [] {
      MoveKeepsInv(s, t, Parked(false));
    } else {
      var s' := PopOrWait(s, t);
      assert forall u :: Works(s', u) <==> Works(s, u);
      OnlyWorker(s', t);
      FlattenTaken(s.sessions, q[0]);
      assert [q[0]] + q[1..] == q;
      assert Flatten(s.sessions) + [q[0]] + q[1..] == Flatten(s.sessions) + ([q[0]] + q[1..]);
    }
  }

  lemma CloseKeepsInv<D>(s: State<D>, t: TaskId)
    requires Inv(s) && Enabled(s, Close(t))
    ensures Inv(Do(s, Close(t)))
  {
    var s' := Do(s, Close(t));
    assert Works(s, t);
    if s.client.queue == [] {
      assert forall u :: !Works(s', u) by {
        assert forall u :: Works(s', u) ==> Works(s, u) && u != t;
      }
    } else {
      forall u | Works(s', u) ensures u == s.next {
        assert u != s.next ==> Works(s, u) && u != t;
      }
      OnlyWorker(s', s.next);
    }
  }

  lemma StepKeepsInv<D>(s: State<D>, step: Step<D>)
    requires Inv(s) && Enabled(s, step)
    ensures Inv(Do(s, step))
  {
    match step
    case Arrive(d) => ArriveKeepsInv(s, d);
    case Notify(t, waiter) => NotifyKeepsInv(s, t, waiter);
    case Begin(t) => BeginKeepsInv(s, t);
    case Ask(t) => MoveKeepsInv(s, t, Acquiring);
    case Finish(t) => MoveKeepsInv(s, t, Closing);
    case Acquire(t) => PopOrWaitKeepsInv(s, t);
    case Wake(t) => PopOrWaitKeepsInv(s, t);
    case Timeout(t) => MoveKeepsInv(s, t, InGenerator);
    case Close(t) => CloseKeepsInv(s, t);
    case Forget => ForgetKeepsInv(s);
  }

  /** The weak cache can only forget a client whose queue is empty, so nothing is lost with it. */
  lemma ForgetKeepsInv<D>(s: State<D>)
    requires Inv(s) && Enabled(s, Forget)
    ensures s.client == Record(None, []) && Inv(Do(s, Forget))
  {
    assert forall t :: !Works(s, t);
  }

  // ----- all runs -----

  predicate Legal<D>(s: State<D>, steps: seq<Step<D>>)
    decreases |steps|
  {
    steps == [] || (Enabled(s, steps[0]) && Legal(Do(s, steps[0]), steps[1..]))
  }

  function Exec<D>(s: State<D>, steps: seq<Step<D>>): State<D>
    requires Legal(s, steps)
    decreases |steps|
  {
    if steps == [] then s else Exec(Do(s, steps[0]), steps[1..])
  }

  lemma {:induction false} RunKeepsInv<D>(s: State<D>, steps: seq<Step<D>>)
    requires Inv(s) && Legal(s, steps)
    ensures Inv(Exec(s, steps))
    decreases |steps|
  {
    if steps != [] {
      StepKeepsInv(s, steps[0]);
      RunKeepsInv(Do(s, steps[0]), steps[1..]);
    }
  }

  /**
   * Over all interleavings: the inconsistent state error is never raised, no pop finds an empty queue, and
   * there is at most one open generator.
   */
  lemma OneGeneratorAtATime<D>(steps: seq<Step<D>>)
    requires Legal(Init(), steps)
    ensures var s := Exec(Init(), steps);
            && !s.failed
            && forall t, u :: t in s.tasks && u in s.tasks && IsOpen(s.tasks[t]) && IsOpen(s.tasks[u]) ==> t == u
  {
    RunKeepsInv(Init(), steps);
    var s := Exec(Init(), steps);
    forall t, u | t in s.tasks && u in s.tasks && IsOpen(s.tasks[t]) && IsOpen(s.tasks[u]) ensures t == u {
      assert Works(s, t) && Works(s, u);
    }
  }

  /**
   * The same in terms of the record: over all interleavings, every step finds the state that the code requires.
   * A coroutine starts on a pending client with a datagram, pops and ends on a running one, and a handler that
   * resumes never finds a client without task but with datagrams.
   */
  lemma StateIsConsistent<D>(steps: seq<Step<D>>, step: Step<D>)
    requires Legal(Init(), steps) && Enabled(Exec(Init(), steps), step)
    ensures var client := Exec(Init(), steps).client;
            && (step.Begin? ==> client.state == Some(TaskPending) && client.queue != [])
            && (step.Acquire? || step.Wake? || step.Close? ==> client.state == Some(TaskRunning))
            && (step.Arrive? || step.Notify? ==> client.state != None || client.queue == [])
            && (step.Forget? ==> client.state == None && client.queue == [])
  {
    hide Legal, Exec;
    assert Inv(Init<D>()) by {
      NothingTaken<D>();
    }
    RunKeepsInv(Init(), steps);
    var s := Exec(Init(), steps);
    if step.Begin? || step.Acquire? || step.Wake? || step.Close? {
      assert Works(s, step.t);
    } else if step.Forget? {
      ForgetKeepsInv(s);
    }
  }

  /**
   * Conservation and order: the successive generators took a prefix of what arrived, the rest is queued,
   * and once no task is left everything has been taken. No generator is opened without a datagram.
   */
  lemma NothingLost<D>(steps: seq<Step<D>>)
    requires Legal(Init(), steps)
    ensures var s := Exec(Init(), steps);
            && Flatten(s.sessions) + s.client.queue == s.arrived
            && (s.tasks == map[] ==> Flatten(s.sessions) == s.arrived)
            && forall i :: 0 <= i < |s.sessions| ==> s.sessions[i] != []
  {
    RunKeepsInv(Init(), steps);
    var s := Exec(Init(), steps);
    if s.tasks == map[] {
      ForgetKeepsInv(s);
      assert Flatten(s.sessions) + [] == Flatten(s.sessions);
    }
  }

  /** A step of the server itself: no arrival, no timeout, and not the request handler. */
  predicate ServerStep<D>(step: Step<D>) {
    step.Notify? || step.Begin? || step.Acquire? || step.Wake?
  }

  /** The oldest datagram that no generator has taken yet. */
  ghost predicate Oldest<D>(s: State<D>, d: D) {
    |Flatten(s.sessions)| < |s.arrived| && d == s.arrived[|Flatten(s.sessions)|]
  }

  /**
   * No lost wakeup: while datagrams are queued, either the request handler is busy with an earlier one, or one
   * or two steps of the server give the oldest one to a generator.
   */
  lemma {:induction false} QueueIsServed<D>(steps: seq<Step<D>>) returns (serve: seq<Step<D>>)
    requires Legal(Init(), steps) && Exec(Init(), steps).client.queue != []
    requires forall t :: !IsAt(Exec(Init(), steps), t, InGenerator) && !IsAt(Exec(Init(), steps), t, Closing)
    ensures 1 <= |serve| <= 2 && forall i :: 0 <= i < |serve| ==> ServerStep(serve[i])
    ensures var s := Exec(Init(), steps);
            && Legal(s, serve)
            && var s' := Exec(s, serve);
               && Oldest(s, s.client.queue[0])
               && Flatten(s'.sessions) == Flatten(s.sessions) + [s.client.queue[0]]
               && s'.client.queue == s.client.queue[1..]
  {
    hide Flatten, Legal, Exec;
    assert Inv(Init<D>()) by {
      NothingTaken<D>();
    }
    RunKeepsInv(Init(), steps);
    var s := Exec(Init(), steps);
    var w :| Works(s, w);
    assert !IsAt(s, w, InGenerator) && !IsAt(s, w, Closing);
    match s.tasks[w]
    case Scheduled => serve := ServedBy(s, Begin(w));
    case Acquiring => serve := ServedBy(s, Acquire(w));
    case Parked(notified) =>
      if notified {
        serve := ServedBy(s, Wake(w));
      } else {
        assert SomeoneParked(s);
        var h :| Notifies(s, h);
        var s1 := Do(s, Notify(h, w));
        StepKeepsInv(s, Notify(h, w));
        serve := ServedBy(s1, Wake(w));
        ExecOne(s, Notify(h, w), serve);
        serve := [Notify(h, w)] + serve;
      }
  }

  lemma NothingTaken<D>()
    ensures Inv(Init<D>())
  {
  }

  /** A step that pops. */
  lemma ServedBy<D>(s: State<D>, step: Step<D>) returns (serve: seq<Step<D>>)
    requires Inv(s) && s.client.queue != [] && Enabled(s, step)
    requires step.Begin? || step.Acquire? || step.Wake?
    ensures serve == [step] && Legal(s, serve)
    ensures Oldest(s, s.client.queue[0])
    ensures Flatten(Exec(s, serve).sessions) == Flatten(s.sessions) + [s.client.queue[0]]
    ensures Exec(s, serve).client.queue == s.client.queue[1..]
  {
    hide Flatten, Legal, Exec;
    var d := s.client.queue[0];
    serve := [step];
    ExecNone(Do(s, step));
    ExecOne(s, step, []);
    assert serve == [step] + [];
    assert s.arrived[|Flatten(s.sessions)|] == d;
    assert Works(s, step.t);
    if step.Begin? {
      FlattenOpened(s.sessions, d);
    } else {
      FlattenTaken(s.sessions, d);
    }
  }

  /** Each generator costs a queued datagram: without arrivals there are at most as many as were queued. */
  lemma {:induction false} RestartsAreBounded<D>(s: State<D>, steps: seq<Step<D>>)
    requires Inv(s) && Legal(s, steps) && forall i :: 0 <= i < |steps| ==> !steps[i].Arrive?
    ensures |Exec(s, steps).sessions| <= |s.sessions| + |s.client.queue|
    decreases |steps|
  {
    if steps != [] {
      StepKeepsInv(s, steps[0]);
      var s1 := Do(s, steps[0]);
      assert |s1.sessions| + |s1.client.queue| <= |s.sessions| + |s.client.queue|;
      RestartsAreBounded(s1, steps[1..]);
    }
  }

  /**
   * Why `handler` checks the length of the queue: a handler can resume when the client has no task any
   * more because its datagram was already taken, and then there is nothing to pop.
   */
  lemma HandlerMayResumeLate<D>(a: D, b: D)
    ensures var steps := [Arrive(a)] + ([Arrive(b)] + TakeAndEndSteps());
            && Legal(Init(), steps)
            && var s := Exec(Init(), steps);
               IsAt(s, 1, Notifying) && s.client == Record(None, []) && Flatten(s.sessions) == [a, b]
  {
    hide Legal, Exec;
    FirstArrivals(a, b);
    TakeAndEnd(Do(Do(Init(), Arrive(a)), Arrive(b)), a, b);
    ExecOne(Do(Init(), Arrive(a)), Arrive(b), TakeAndEndSteps());
    ExecOne(Init(), Arrive(a), [Arrive(b)] + TakeAndEndSteps());
  }

  function TakeAndEndSteps<D>(): seq<Step<D>> {
    [Ask(0)] + ([Acquire(0)] + ([Finish(0)] + ([Close(0)] + [])))
  }

  lemma FirstArrivals<D>(a: D, b: D)
    ensures Do(Do(Init(), Arrive(a)), Arrive(b))
         == State(Record(Some(TaskRunning), [b]), map[0 := InGenerator, 1 := Notifying], 2, [a, b], [[a]], false)
  {
    var s1 := Do(Init(), Arrive(a));
    assert s1 == State(Record(Some(TaskRunning), []), map[0 := InGenerator], 1, [a], [[a]], false);
    assert [a] + [b] == [a, b] && [] + [b] == [b];
  }

  lemma TakeAndEnd<D>(s: State<D>, a: D, b: D)
    requires s == State(Record(Some(TaskRunning), [b]), map[0 := InGenerator, 1 := Notifying], 2, [a, b], [[a]], false)
    ensures var steps := TakeAndEndSteps();
            && Legal(s, steps)
            && var s' := Exec(s, steps);
               IsAt(s', 1, Notifying) && s'.client == Record(None, []) && Flatten(s'.sessions) == [a, b]
  {
    hide Legal, Exec, Do, Enabled, IsAt;
    var s4 := State(Record(Some(TaskRunning), []), map[0 := InGenerator, 1 := Notifying], 2, [a, b], [[a, b]], false);
    Taken(s, a, b);
    assert Flatten([[a, b]]) == [a, b] by {
      assert [[a, b]][..0] == [];
    }
    Ended(s4);
    ExecNone(Do(Do(s4, Finish(0)), Close(0)));
    ExecOne(Do(s4, Finish(0)), Close(0), []);
    ExecOne(s4, Finish(0), [Close(0)] + []);
    ExecOne(Do(s, Ask(0)), Acquire(0), [Finish(0)] + ([Close(0)] + []));
    ExecOne(s, Ask(0), [Acquire(0)] + ([Finish(0)] + ([Close(0)] + [])));
  }

  lemma Ended<D>(s: State<D>)
    requires s.client == Record(Some(TaskRunning), []) && s.tasks == map[0 := InGenerator, 1 := Notifying]
    ensures Enabled(s, Finish(0)) && Enabled(Do(s, Finish(0)), Close(0))
    ensures var s' := Do(Do(s, Finish(0)), Close(0));
            IsAt(s', 1, Notifying) && s'.client == Record(None, []) && s'.sessions == s.sessions
  {
  }

  lemma Taken<D>(s: State<D>, a: D, b: D)
    requires s == State(Record(Some(TaskRunning), [b]), map[0 := InGenerator, 1 := Notifying], 2, [a, b], [[a]], false)
    ensures Enabled(s, Ask(0)) && Enabled(Do(s, Ask(0)), Acquire(0))
    ensures Do(Do(s, Ask(0)), Acquire(0))
         == State(Record(Some(TaskRunning), []), map[0 := InGenerator, 1 := Notifying], 2, [a, b], [[a, b]], false)
  {
    assert [a] + [b] == [a, b] && [[a]][0 := [a, b]] == [[a, b]] && [b][1..] == [];
  }

  lemma ExecNone<D>(s: State<D>)
    ensures Legal(s, []) && Exec(s, []) == s
  {
  }

  lemma ExecOne<D>(s: State<D>, step: Step<D>, rest: seq<Step<D>>)
    requires Enabled(s, step) && Legal(Do(s, step), rest)
    ensures Legal(s, [step] + rest) && Exec(s, [step] + rest) == Exec(Do(s, step), rest)
  {
    assert ([step] + rest)[1..] == rest;
  }

  // ----- the request handler generator -----

  /**
   * What the generator does, step by step: it asks for a datagram, finishes, or gets a timeout thrown into it,
   * which it may catch. Nothing else changes.
   */
  lemma GeneratorSteps<D>(s: State<D>, t: TaskId)
    requires t in s.tasks
    ensures Enabled(s, Ask(t)) <==> s.tasks[t] == InGenerator
    ensures Enabled(s, Finish(t)) <==> s.tasks[t] == InGenerator
    ensures Enabled(s, Timeout(t)) <==> s.tasks[t] == Acquiring || s.tasks[t].Parked?
    ensures Enabled(s, Ask(t)) ==> Do(s, Ask(t)) == s.(tasks := s.tasks[t := Acquiring])
    ensures Enabled(s, Finish(t)) ==> Do(s, Finish(t)) == s.(tasks := s.tasks[t := Closing])
    ensures Enabled(s, Timeout(t)) ==> Do(s, Timeout(t)) == s.(tasks := s.tasks[t := InGenerator])
  {
  }

  /** Where a task can go: it gets to each place by these steps only. */
  lemma OnlyBy<D>(s: State<D>, step: Step<D>, t: TaskId)
    requires Inv(s) && Enabled(s, step)
    ensures var s' := Do(s, step);
            && (IsAt(s', t, Closing) && !IsAt(s, t, Closing) ==> step == Finish(t))
            && (IsAt(s', t, Acquiring) && !IsAt(s, t, Acquiring) ==> step == Ask(t))
            && (IsAt(s', t, Parked(false)) && !IsAt(s, t, Parked(false)) ==>
                  (step == Acquire(t) || step == Wake(t)) && s.client.queue == [])
            && (IsAt(s', t, Parked(true)) && !IsAt(s, t, Parked(true)) ==> step.Notify? && step.waiter == t)
            && (t in s.tasks && IsOpen(s.tasks[t]) && !(t in s'.tasks && IsOpen(s'.tasks[t])) ==> step == Close(t))
  {
    hide Flatten, NoLostWakeup, QueueFitsState;
  }

  /** A generator is opened, and gets its first datagram, in these cases only. */
  lemma OpenedOnlyBy<D>(s: State<D>, step: Step<D>)
    requires Inv(s) && Enabled(s, step)
    ensures var s' := Do(s, step);
            |s'.sessions| == |s.sessions| + (if step.Begin? || (step.Arrive? && s.client.state == None) then 1 else 0)
    ensures |Do(s, step).sessions| == |s.sessions| + 1 ==> Do(s, step).sessions[..|s.sessions|] == s.sessions
  {
    if step.Begin? {
      assert Works(s, step.t);
    }
  }

  /**
   * A caught timeout costs the generator nothing: when it asks again, it is the same one that gets the next
   * datagram, also one that has arrived in the meantime.
   */
  lemma {:induction false} CaughtTimeout<D>(before: seq<Step<D>>, t: TaskId, d: D)
    requires Legal(Init(), before) && Enabled(Exec(Init(), before), Timeout(t))
    ensures var s := Exec(Init(), before);
            var s1 := Do(s, Timeout(t));
            && IsAt(s1, t, InGenerator) && s1.client == s.client && s1.sessions == s.sessions
            && var again := [Arrive(d)] + ([Ask(t)] + ([Acquire(t)] + []));
               Legal(s1, again) && s.sessions != []
               && var n := |s.sessions| - 1;
                  var q := s.client.queue + [d];
                  && Exec(s1, again).sessions == s.sessions[n := s.sessions[n] + [q[0]]]
                  && Exec(s1, again).client.queue == q[1..] && IsAt(Exec(s1, again), t, InGenerator)
  {
    hide Legal, Exec, Flatten;
    assert Inv(Init<D>()) by {
      NothingTaken<D>();
    }
    RunKeepsInv(Init(), before);
    var s := Exec(Init(), before);
    Running(s, t);
    var s1 := Do(s, Timeout(t));
    assert Works(s, t) && t < s.next;
    var s2 := Do(s1, Arrive(d));
    var s3 := Do(s2, Ask(t));
    var s4 := Do(s3, Acquire(t));
    ExecNone(s4);
    ExecOne(s3, Acquire(t), []);
    ExecOne(s2, Ask(t), [Acquire(t)] + []);
    ExecOne(s1, Arrive(d), [Ask(t)] + ([Acquire(t)] + []));
  }

  // ----- the server -----

  /**
   * The code of the tasks of one client address, from one `await` to the next, on the object they share.
   * `state` is this object with the tasks around it and their history: every method is one step of it. So
   * no method can raise the inconsistent state error or pop from an empty queue.
   */
  class AsyncDatagramServer<D> {
    var client: Client<D>
    ghost var state: State<D>

    ghost predicate Valid()
      reads this, client
    {
      Inv(state) && state.client == client.Value()
    }

    constructor ()
      ensures Valid() && state == Init() && fresh(client)
    {
      client := new Client();
      state := Init();
    }

    /**
     * A datagram arrives: `handler` up to its first suspension. If the client has no task, all earlier ones
     * have been taken, and this one is given to a new generator at once.
     */
    method Handler(d: D) returns (started: Option<D>)
      requires Valid()
      modifies this`state, client
      ensures Valid() && state == Do(old(state), Arrive(d))
      ensures started.Some? ==> started == Some(d) && Flatten(old(state).sessions) == old(state).arrived
      ensures started == None ==> client.queue == old(client.queue) + [d]
    {
      hide Inv, Flatten;
      StepKeepsInv(state, Arrive(d));
      Idle(state);
      state := Do(state, Arrive(d));
      started := None;
      var notify := client.Push(d);
      if !notify {
        started := AfterPush();
      }
    }

    /**
     * A suspended `handler` gets the lock and notifies. It never starts a coroutine: either the client has a
     * task, or its queue is empty.
     */
    method HandlerNotified(ghost t: TaskId, ghost waiter: TaskId) returns (started: Option<D>)
      requires Valid() && Enabled(state, Notify(t, waiter))
      modifies this`state, client
      ensures Valid() && state == Do(old(state), Notify(t, waiter)) && started == None
    {
      hide Inv, Flatten;
      StepKeepsInv(state, Notify(t, waiter));
      Idle(state);
      state := Do(state, Notify(t, waiter));
      started := AfterPush();
    }

    /** The code of `handler` behind `push_datagram`. */
    method AfterPush() returns (started: Option<D>)
      modifies client
      ensures if old(client.state) == None && old(client.queue) != [] then
                && client.state == Some(TaskRunning) && started.Some?
                && old(client.queue) == [started.value] + client.queue
              else started == None && client.Value() == old(client.Value())
    {
      started := None;
      var pending := |client.queue|;
      if client.state == None && pending > 0 {
        var ok := client.MarkPending();
        assert ok;
        started := StartCoroutine();
      }
    }

    /** The start of a client coroutine, up to its first `await`. */
    method StartCoroutine() returns (d: Option<D>)
      requires client.state == Some(TaskPending) && client.queue != []
      modifies client
      ensures client.state == Some(TaskRunning) && d.Some? && old(client.queue) == [d.value] + client.queue
    {
      var ok := client.MarkRunning();
      assert ok;
      d := client.PopNoWait();
    }

    /** A scheduled coroutine starts: its generator gets the oldest datagram not taken. */
    method CoroutineBegins(ghost t: TaskId) returns (d: Option<D>)
      requires Valid() && Enabled(state, Begin(t))
      modifies this`state, client
      ensures Valid() && state == Do(old(state), Begin(t))
      ensures d.Some? && Oldest(old(state), d.value)
    {
      hide Inv, Flatten;
      StepKeepsInv(state, Begin(t));
      Pending(state, t);
      state := Do(state, Begin(t));
      d := StartCoroutine();
    }

    /**
     * `pop_datagram` has the lock, at first or after a notification: the generator gets the oldest datagram not
     * taken, or the coroutine waits because there is none.
     */
    method PopDatagram(ghost step: Step<D>) returns (d: Option<D>)
      requires step.Acquire? || step.Wake?
      requires Valid() && Enabled(state, step)
      modifies this`state, client
      ensures Valid() && state == Do(old(state), step)
      ensures d.Some? ==> Oldest(old(state), d.value)
      ensures d == None ==> Flatten(state.sessions) == state.arrived && IsAt(state, step.t, Parked(false))
    {
      hide Inv, Flatten;
      StepKeepsInv(state, step);
      Running(state, step.t);
      state := Do(state, step);
      d := client.PopNoWait();
    }

    /**
     * The generator is closed and its coroutine ends. Another one is scheduled if and only if datagrams have not
     * been taken.
     */
    method CoroutineEnds(ghost t: TaskId) returns (restart: bool)
      requires Valid() && Enabled(state, Close(t))
      modifies this`state, client
      ensures Valid() && state == Do(old(state), Close(t))
      ensures restart <==> Flatten(state.sessions) != state.arrived
    {
      hide Inv, Flatten;
      StepKeepsInv(state, Close(t));
      Running(state, t);
      state := Do(state, Close(t));
      var ok := client.MarkDone();
      assert ok;
      restart := client.queue != [];
      if restart {
        ok := client.MarkPending();
        assert ok;
      }
    }

    /** Nothing refers to the client any more: the next handler of the address makes a new one. */
    method Forgotten()
      requires Valid() && Enabled(state, Forget)
      modifies this
      ensures Valid() && state == Do(old(state), Forget) && fresh(client)
      ensures Flatten(state.sessions) == state.arrived
    {
      hide Inv, Flatten;
      StepKeepsInv(state, Forget);
      ForgetKeepsInv(state);
      Idle(state);
      state := Do(state, Forget);
      client := new Client();
    }

    /** The generator yields, returns or is resumed by a timeout. */
    ghost method GeneratorMoves(step: Step<D>)
      requires step.Ask? || step.Finish? || step.Timeout?
      requires Valid() && Enabled(state, step)
      modifies this`state
      ensures Valid() && state == Do(old(state), step)
    {
      hide Inv;
      StepKeepsInv(state, step);
      state := Do(state, step);
    }
  }

  lemma Idle<D>(s: State<D>)
    requires Inv(s)
    ensures s.client.state == None ==> s.client.queue == [] && Flatten(s.sessions) == s.arrived
  {
    hide Flatten;
    assert Flatten(s.sessions) + [] == Flatten(s.sessions);
  }

  lemma Pending<D>(s: State<D>, t: TaskId)
    requires Inv(s) && IsAt(s, t, Scheduled)
    ensures s.client.state == Some(TaskPending) && s.client.queue != [] && Oldest(s, s.client.queue[0])
  {
    hide Flatten;
    assert Works(s, t);
  }

  lemma Running<D>(s: State<D>, t: TaskId)
    requires Inv(s) && t in s.tasks && IsOpen(s.tasks[t])
    ensures s.client.state == Some(TaskRunning) && s.sessions != []
    ensures s.client.queue != [] ==> Oldest(s, s.client.queue[0])
    ensures s.client.queue == [] <==> Flatten(s.sessions) == s.arrived
  {
    hide Flatten;
    assert Works(s, t);
  }
}
