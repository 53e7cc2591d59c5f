/**
 * Deferred connection: any number of `connect()` calls racing with `aclose()` on one
 * `DeferredAsyncEndpointInit`, as a state machine over their `await`s.
 */
module DeferredConnect {
  import opened Options

  type TaskId = nat
  type Endpoint = nat

  /** Where a `connect()` call is suspended. */
  datatype Pc =
    | WaitingLock
    | InFactory                       // holds the lock, awaits the endpoint factory inside the cancel scope
    | ForceClosing(endpoint: Endpoint) // holds the lock, awaits `aclose_forcefully`

  /** The fields of the object; `connector` is whether there still is a transport connector. */
  datatype Fields = Fields(endpoint: Option<Endpoint>, connector: bool) {

    /** With the lock held: is the endpoint factory started? */
    predicate StartsFactory() {
      endpoint == None && connector
    }

    /** `connect()` behind the connector, which has brought `e`; an error is raised for `None`. */
    function Connected(e: Option<Endpoint>): Fields {
      if endpoint == None then Fields(e, false) else this
    }

    function Closed(): Fields {
      this.(connector := false)
    }
  }

  /**
   * `entered` and `cancelled` tell whether the scope of the connector has been entered, which is possible only
   * once, and whether it has been cancelled; `closing` are the endpoints on which `aclose()` was called or
   * which went down by themselves. The rest is history: what the factory returned, what was published and
   * force-closed, whether `aclose()` was called, how often the factory was started, and whether after that.
   */
  datatype State = State(
    fields: Fields,
    entered: bool,
    cancelled: bool,
    lock: Option<TaskId>,
    tasks: map<TaskId, Pc>,
    next: nat,
    closing: set<Endpoint>,
    made: set<Endpoint>,
    published: seq<Endpoint>,
    forceClosed: set<Endpoint>,
    acloseCalled: bool,
    starts: nat,
    startedAfterClose: bool)

  function Init(): State {
    State(Fields(None, true), false, false, None, map[], 0, {}, {}, [], {}, false, 0, false)
  }

  predicate IsClosing(s: State) {
    if s.fields.connector then false
    else s.fields.endpoint == None || s.fields.endpoint.value in s.closing
  }

  datatype Step =
    | Connect                      // a task calls `connect()`
    | Acquire(t: TaskId)           // it gets the lock; the scope raises an error when entered again
    | FactoryReturns(t: TaskId)
    | FactoryRaises(t: TaskId)     // also: the task itself is cancelled from outside
    | FactoryCancelled(t: TaskId)  // the cancel scope swallows the cancellation
    | ForceClosed(t: TaskId)
    | GiveUp(t: TaskId)            // cancelled from outside while waiting
    | Aclose
    | GoesDown(e: Endpoint)        // the endpoint starts closing by itself

  predicate IsAt(s: State, t: TaskId, pc: Pc) {
    t in s.tasks && s.tasks[t] == pc
  }

  predicate Enabled(s: State, step: Step) {
    match step
    case Connect => true
    case Acquire(t) => IsAt(s, t, WaitingLock) && s.lock == None
    case FactoryReturns(t) => IsAt(s, t, InFactory)
    case FactoryRaises(t) => IsAt(s, t, InFactory)
    case FactoryCancelled(t) => IsAt(s, t, InFactory) && s.cancelled
    case ForceClosed(t) => t in s.tasks && s.tasks[t].ForceClosing?
    case GiveUp(t) => IsAt(s, t, WaitingLock)
    case Aclose => true
    case GoesDown(e) => e in s.made
  }

  function End(s: State, t: TaskId): State {
    s.(tasks := s.tasks - {t})
  }

  function Release(s: State, t: TaskId): State {
    End(s, t).(lock := None)
  }

  function Do(s: State, step: Step): State
    requires Enabled(s, step)
  {
    match step
    case Connect => s.(tasks := s.tasks[s.next := WaitingLock], next := s.next + 1)
    case Acquire(t) =>
      if s.fields.StartsFactory() then
        if s.entered then End(s, t)
        else
          s.(tasks := s.tasks[t := InFactory], lock := Some(t), entered := true, starts := s.starts + 1,
             startedAfterClose := s.startedAfterClose || s.acloseCalled)
      else End(s, t).(fields := s.fields.Connected(None))
    case FactoryReturns(t) =>
      var e := s.next;
      var s1 := s.(next := s.next + 1, made := s.made + {e});
      if s.cancelled then
        s1.(tasks := s.tasks[t := ForceClosing(e)], closing := s.closing + {e},
            forceClosed := s.forceClosed + {e})
      else
        Release(s1, t).(fields := s.fields.Connected(Some(e)), published := s.published + [e])
    case FactoryRaises(t) => Release(s, t)
    case FactoryCancelled(t) => Release(s, t).(fields := s.fields.Connected(None))
    case ForceClosed(t) => Release(s, t).(fields := s.fields.Connected(None))
    case GiveUp(t) => End(s, t)
    case Aclose =>
      s.(cancelled := s.cancelled || s.fields.connector,
         fields := s.fields.Closed(),
         acloseCalled := true,
         closing := if s.fields.endpoint == None then s.closing else s.closing + {s.fields.endpoint.value})
    case GoesDown(e) => s.(closing := s.closing + {e})
  }

  /** The lock is held exactly by the task that is connecting, and then nothing is published yet. */
  ghost predicate LockInv(s: State) {
    && (forall t :: t in s.tasks && !s.tasks[t].WaitingLock? ==> s.lock == Some(t) && s.fields.endpoint == None)
    && (forall t :: t in s.tasks && s.tasks[t].InFactory? && !s.cancelled ==> s.fields.connector)
    && (s.lock != None ==> s.lock.value in s.tasks && !s.tasks[s.lock.value].WaitingLock?)
    && (forall t :: t in s.tasks ==> t < s.next)
  }

  ghost predicate EndpointInv(s: State) {
    && s.published == (if s.fields.endpoint == None then [] else [s.fields.endpoint.value])
    && (s.fields.endpoint != None ==> !s.fields.connector)
    && (forall e :: e in s.made <==> e in s.published || e in s.forceClosed)
    && (forall e :: e in s.made ==> e < s.next)
    && (forall e :: e in s.forceClosed ==> e in s.closing && e !in s.published)
    && (forall t :: t in s.tasks && s.tasks[t].ForceClosing? ==> s.cancelled)
  }

  /** The factory is started once, when the scope is entered, and brings one endpoint at most. */
  ghost predicate StartInv(s: State) {
    && s.starts == (if s.entered then 1 else 0)
    && (forall t :: t in s.tasks && s.tasks[t].InFactory? ==> s.entered && s.made == {})
    && (!s.entered ==> s.made == {})
    && (forall e, f :: e in s.made && f in s.made ==> e == f)
  }

  ghost predicate CloseInv(s: State) {
    && !s.startedAfterClose
    && (s.cancelled ==> s.acloseCalled)
    && (s.fields.connector <==> !s.acloseCalled && s.fields.endpoint == None)
    && (s.acloseCalled && s.fields.endpoint != None ==> s.fields.endpoint.value in s.closing)
  }

  ghost predicate Inv(s: State) {
    LockInv(s) && EndpointInv(s) && StartInv(s) && CloseInv(s)
  }

  /** Every step keeps the invariant, and a closing object stays closing. */
  lemma StepKeepsInv(s: State, step: Step)
    requires Inv(s) && Enabled(s, step)
    ensures Inv(Do(s, step))
    ensures IsClosing(s) ==> IsClosing(Do(s, step))
  {
    hide LockInv, EndpointInv, StartInv, CloseInv, IsClosing, Do;
    StepKeepsLock(s, step);
    StepKeepsEndpoint(s, step);
    StepKeepsStart(s, step);
    StepKeepsClosing(s, step);
  }

  lemma StepKeepsLock(s: State, step: Step)
    requires LockInv(s) && EndpointInv(s) && Enabled(s, step)
    ensures LockInv(Do(s, step))
  {
  }

  lemma StepKeepsEndpoint(s: State, step: Step)
    requires LockInv(s) && EndpointInv(s) && Enabled(s, step)
    ensures EndpointInv(Do(s, step))
  {
  }

  lemma StepKeepsStart(s: State, step: Step)
    requires LockInv(s) && StartInv(s) && Enabled(s, step)
    ensures StartInv(Do(s, step))
  {
  }

  lemma StepKeepsClosing(s: State, step: Step)
    requires Inv(s) && Enabled(s, step)
    ensures CloseInv(Do(s, step)) && (IsClosing(s) ==> IsClosing(Do(s, step)))
  {
  }

  // ----- all runs -----

  predicate Legal(s: State, steps: seq<Step>)
    decreases |steps|
  {
    steps == [] || (Enabled(s, steps[0]) && Legal(Do(s, steps[0]), steps[1..]))
  }

  function Exec(s: State, steps: seq<Step>): State
    requires Legal(s, steps)
    decreases |steps|
  {
    if steps == [] then s else Exec(Do(s, steps[0]), steps[1..])
  }

  lemma {:induction false} RunKeepsInv(s: State, steps: seq<Step>)
    requires Inv(s) && Legal(s, steps)
    ensures Inv(Exec(s, steps))
    ensures IsClosing(s) ==> IsClosing(Exec(s, steps))
    decreases |steps|
  {
    if steps != [] {
      StepKeepsInv(s, steps[0]);
      RunKeepsInv(Do(s, steps[0]), steps[1..]);
    }
  }

  /**
   * Over all interleavings: at most one endpoint is published and it never changes; every endpoint the
   * factory returned is either published or force-closed, not both; the factory is started at most once, and
   * never after `aclose()`; and after `aclose()` the object is closing.
   */
  lemma ConnectIsSafe(steps: seq<Step>)
    requires Legal(Init(), steps)
    ensures var s := Exec(Init(), steps);
            && s.published == (if s.fields.endpoint == None then [] else [s.fields.endpoint.value])
            && (forall e :: e in s.made ==> (e in s.published <==> e !in s.forceClosed))
            && s.starts <= 1 && !s.startedAfterClose
            && (s.acloseCalled ==> IsClosing(s))
  {
    RunKeepsInv(Init(), steps);
  }

  /** `is_closing()` never goes back to false, and a published endpoint is never replaced. */
  lemma ClosingIsFinal(before: seq<Step>, after: seq<Step>)
    requires Legal(Init(), before) && Legal(Exec(Init(), before), after)
    ensures IsClosing(Exec(Init(), before)) ==> IsClosing(Exec(Exec(Init(), before), after))
    ensures Exec(Init(), before).fields.endpoint != None ==>
              Exec(Exec(Init(), before), after).fields.endpoint == Exec(Init(), before).fields.endpoint
  {
    RunKeepsInv(Init(), before);
    RunKeepsInv(Exec(Init(), before), after);
    EndpointStays(Exec(Init(), before), after);
  }

  lemma {:induction false} EndpointStays(s: State, steps: seq<Step>)
    requires Inv(s) && Legal(s, steps)
    ensures s.fields.endpoint != None ==> Exec(s, steps).fields.endpoint == s.fields.endpoint
    decreases |steps|
  {
    if steps != [] {
      StepKeepsInv(s, steps[0]);
      EndpointStays(Do(s, steps[0]), steps[1..]);
    }
  }

  /**
   * The object is closing if and only if `aclose()` was called or the published endpoint went down: before, it can
   * still be connected.
   */
  lemma ClosingIff(steps: seq<Step>)
    requires Legal(Init(), steps)
    ensures var s := Exec(Init(), steps);
            IsClosing(s) <==> s.acloseCalled || (s.published != [] && s.published[0] in s.closing)
  {
    RunKeepsInv(Init(), steps);
  }

  /** An endpoint is closing only if it was told to, or went down by itself, or was closed forcefully. */
  lemma ClosingOnlyBy(s: State, step: Step, e: Endpoint)
    requires Inv(s) && Enabled(s, step) && e !in s.closing
    ensures e in Do(s, step).closing <==>
            || step == GoesDown(e)
            || (step == Step.Aclose && s.published == [e])
            || (step.FactoryReturns? && e == s.next && s.acloseCalled)
  {
    StartsOnce(s);
    if step.FactoryReturns? {
      NothingMade(s, step.t);
    }
  }

  // ----- what a call comes to -----

  /**
   * The factory can return, raise, or, if and only if `aclose()` was called, be cancelled. What it returns is published
   * and the call is over, unless `aclose()` was called: then it is closed forcefully first.
   */
  lemma FactoryOutcome(steps: seq<Step>, t: TaskId)
    requires Legal(Init(), steps) && IsAt(Exec(Init(), steps), t, InFactory)
    ensures var s := Exec(Init(), steps);
            var s' := Do(s, FactoryReturns(t));
            && Enabled(s, FactoryRaises(t)) && (Enabled(s, FactoryCancelled(t)) <==> s.acloseCalled)
            && s'.made == {s.next} && s.published == []
            && if s.acloseCalled then
                 && s'.published == [] && s'.forceClosed == {s.next} && IsAt(s', t, ForceClosing(s.next))
                 && Do(s', ForceClosed(t)).tasks == s.tasks - {t} && Do(s', ForceClosed(t)).lock == None
               else s'.published == [s.next] && s'.forceClosed == {} && s'.tasks == s.tasks - {t} && s'.lock == None
  {
    hide Legal, Exec;
    RunKeepsInv(Init(), steps);
    NothingMade(Exec(Init(), steps), t);
  }

  /** Nobody waits for ever: whoever holds the lock can take one step that releases it. */
  lemma LockIsReleased(steps: seq<Step>, t: TaskId) returns (serve: seq<Step>)
    requires Legal(Init(), steps) && IsAt(Exec(Init(), steps), t, WaitingLock)
    ensures 1 <= |serve| <= 2 && serve[|serve| - 1] == Acquire(t) && Enabled(Exec(Init(), steps), GiveUp(t))
    ensures Legal(Exec(Init(), steps), serve)
    ensures var s' := Exec(Exec(Init(), steps), serve); !IsAt(s', t, WaitingLock)
  {
    hide Legal, Exec;
    RunKeepsInv(Init(), steps);
    var s := Exec(Init(), steps);
    assert [Acquire(t)] + [] == [Acquire(t)];
    if s.lock == None {
      serve := [Acquire(t)];
      ExecNone(Do(s, Acquire(t)));
      ExecOne(s, Acquire(t), []);
    } else {
      var u := s.lock.value;
      var release := if s.tasks[u].InFactory? then FactoryRaises(u) else ForceClosed(u);
      var s1 := Do(s, release);
      serve := [release] + [Acquire(t)];
      ExecNone(Do(s1, Acquire(t)));
      ExecOne(s1, Acquire(t), []);
      ExecOne(s, release, [Acquire(t)]);
    }
  }

  // ----- trying again -----

  /**
   * Whoever gets the lock starts the factory if and only if it has never been started and `aclose()` has not
   * been called.
   */
  lemma FactoryStartsIff(steps: seq<Step>, t: TaskId)
    requires Legal(Init(), steps) && Enabled(Exec(Init(), steps), Acquire(t))
    ensures var s := Exec(Init(), steps);
            IsAt(Do(s, Acquire(t)), t, InFactory) <==> s.starts == 0 && !s.acloseCalled
  {
    hide Legal, Exec;
    RunKeepsInv(Init(), steps);
    StartsOnce(Exec(Init(), steps));
  }

  /** The factory is started by a call that gets the lock, before `aclose()`, and in no other way. */
  lemma StartsOnlyBy(s: State, step: Step)
    requires Inv(s) && Enabled(s, step)
    ensures Do(s, step).starts > s.starts ==> step.Acquire? && !s.acloseCalled && s.published == [] && s.starts == 0
    ensures forall t :: IsAt(Do(s, step), t, InFactory) && !IsAt(s, t, InFactory) ==> Do(s, step).starts == s.starts + 1
  {
    StartsOnce(s);
  }

  /** The factory has been started, nothing has come of it and it is not running any more. */
  predicate Failed(s: State) {
    s.starts == 1 && s.published == [] && s.lock == None
  }

  lemma StaysFailed(s: State, step: Step)
    requires Inv(s) && Failed(s) && Enabled(s, step)
    ensures Failed(Do(s, step))
  {
  }

  lemma {:induction false} RunStaysFailed(s: State, steps: seq<Step>)
    requires Inv(s) && Failed(s) && Legal(s, steps)
    ensures Failed(Exec(s, steps))
    decreases |steps|
  {
    hide Inv, Failed, Do;
    if steps != [] {
      StaysFailed(s, steps[0]);
      StepKeepsInv(s, steps[0]);
      RunStaysFailed(Do(s, steps[0]), steps[1..]);
    }
  }

  /**
   * After the factory has raised, `connect()` can be called again but never succeeds: whatever happens, the
   * factory is not started and nothing is published any more.
   */
  lemma {:induction false} FailedConnectIsFinal(before: seq<Step>, t: TaskId, after: seq<Step>)
    requires Legal(Init(), before) && Enabled(Exec(Init(), before), FactoryRaises(t))
    requires Legal(Do(Exec(Init(), before), FactoryRaises(t)), after)
    ensures var s := Exec(Do(Exec(Init(), before), FactoryRaises(t)), after);
            s.starts == 1 && s.published == [] && s.fields.endpoint == None
            && forall u :: u in s.tasks ==> s.tasks[u].WaitingLock?
  {
    hide Legal, Exec, Do;
    RunKeepsInv(Init(), before);
    var s := Exec(Init(), before);
    JustFailed(s, t);
    StepKeepsInv(s, FactoryRaises(t));
    RunStaysFailed(Do(s, FactoryRaises(t)), after);
    RunKeepsInv(Do(s, FactoryRaises(t)), after);
  }

  lemma JustFailed(s: State, t: TaskId)
    requires Inv(s) && Enabled(s, FactoryRaises(t))
    ensures Failed(Do(s, FactoryRaises(t)))
  {
  }

  /** A second call of `connect()` after a failed one: neither connected nor closing, and no task left. */
  lemma SecondConnectRaises()
    ensures var steps := [Connect, Acquire(0), FactoryRaises(0), Connect, Acquire(1)];
            && Legal(Init(), steps)
            && var s := Exec(Init(), steps);
               s.tasks == map[] && s.starts == 1 && s.published == [] && !s.acloseCalled && !IsClosing(s)
  {
    var s0 := Init();
    var s1 := Do(s0, Connect);
    var s2 := Do(s1, Acquire(0));
    var s3 := Do(s2, FactoryRaises(0));
    var s4 := Do(s3, Connect);
    var s5 := Do(s4, Acquire(1));
    hide Do, Legal, Exec;
    ExecNone(s5);
    ExecOne(s4, Acquire(1), []);
    ExecOne(s3, Connect, [Acquire(1)]);
    ExecOne(s2, FactoryRaises(0), [Connect, Acquire(1)]);
    ExecOne(s1, Acquire(0), [FactoryRaises(0), Connect, Acquire(1)]);
    ExecOne(s0, Connect, [Acquire(0), FactoryRaises(0), Connect, Acquire(1)]);
  }

  lemma ExecNone(s: State)
    ensures Legal(s, []) && Exec(s, []) == s
  {
  }

  lemma ExecOne(s: State, step: Step, rest: seq<Step>)
    requires Enabled(s, step) && Legal(Do(s, step), rest)
    ensures Legal(s, [step] + rest) && Exec(s, [step] + rest) == Exec(Do(s, step), rest)
  {
    assert ([step] + rest)[1..] == rest;
  }

  // ----- the object -----

  /** What `connect()` does once it has the lock. */
  datatype Locked = StartsFactory | Finds(endpoint: Endpoint) | RaisesClosed | RaisesEnteredTwice

  /**
   * The object itself: its methods are the code of `connect()`, of `get()` of the connector and of `aclose()`
   * between the `await`s. `state` is the object with the tasks around it and their history.
   */
  class DeferredAsyncEndpointInit {
    var endpoint: Option<Endpoint>
    var connector: bool
    var scopeEntered: bool
    var scopeCancelled: bool
    ghost var state: State

    ghost predicate Valid()
      reads this
    {
      && Inv(state)
      && state.fields == Fields(endpoint, connector)
      && state.entered == scopeEntered && state.cancelled == scopeCancelled
    }

    constructor ()
      ensures Valid() && state == Init()
    {
      endpoint, connector, scopeEntered, scopeCancelled := None, true, false, false;
      state := Init();
    }

    /**
     * A `connect()` call gets the lock. It starts the factory if and only if that has never been started and
     * `aclose()` has not been called; it raises the error of the scope if and only if the first start failed.
     */
    method LockAcquired(ghost t: TaskId) returns (r: Locked)
      requires Valid() && Enabled(state, Acquire(t))
      modifies this
      ensures Valid() && state == Do(old(state), Acquire(t))
      ensures r.StartsFactory? <==> old(state).starts == 0 && !old(state).acloseCalled
      ensures r.RaisesEnteredTwice? <==> Failed(old(state)) && !old(state).acloseCalled
      ensures r.RaisesClosed? <==> old(state).published == [] && old(state).acloseCalled
      ensures r.Finds? ==> state.published == [r.endpoint]
      ensures r.StartsFactory? ==> state.made == {}
      ensures r.RaisesClosed? ==> IsClosing(state)
    {
      hide Inv;
      StepKeepsInv(state, Acquire(t));
      StartsOnce(state);
      state := Do(state, Acquire(t));
      if endpoint == None {
        if connector {
          if scopeEntered {
            return RaisesEnteredTwice;
          }
          scopeEntered := true;
          return StartsFactory;
        }
        return RaisesClosed;
      }
      r := Finds(endpoint.value);
    }

    /** The factory has returned `e`; `force` tells to close it forcefully, otherwise `connect()` is finished. */
    method FactoryReturned(ghost t: TaskId, e: Endpoint) returns (force: bool)
      requires Valid() && Enabled(state, FactoryReturns(t)) && e == state.next
      modifies this
      ensures Valid() && state == Do(old(state), FactoryReturns(t))
      ensures state.made == {e}
      ensures if force then state.published == [] && state.forceClosed == {e} else state.published == [e]
      ensures force <==> old(state).acloseCalled
    {
      hide Inv;
      StepKeepsInv(state, FactoryReturns(t));
      NothingMade(state, t);
      state := Do(state, FactoryReturns(t));
      force := scopeCancelled;
      if !force {
        connector, endpoint := false, Some(e);
      }
    }

    /** The connector has no endpoint: the factory was cancelled, or what it brought has been closed. */
    method NoEndpoint(ghost t: TaskId, ghost step: Step)
      requires step == FactoryCancelled(t) || step == ForceClosed(t)
      requires Valid() && Enabled(state, step)
      modifies this
      ensures Valid() && state == Do(old(state), step) && state.published == [] && IsClosing(state)
    {
      hide Inv;
      StepKeepsInv(state, step);
      NothingPublished(state, t);
      state := Do(state, step);
      connector := false;
    }

    /** `cancel` tells that the scope of the connector is cancelled, `close` is the endpoint to be closed. */
    method Aclose() returns (cancel: bool, close: Option<Endpoint>)
      requires Valid()
      modifies this
      ensures Valid() && state == Do(old(state), Step.Aclose) && IsClosing(state)
      ensures cancel <==> !old(state).acloseCalled && old(state).published == []
      ensures forall e :: close == Some(e) <==> old(state).published == [e]
      ensures close == None <==> old(state).published == []
      ensures forall t :: t in state.tasks && state.tasks[t].InFactory? ==> scopeCancelled
    {
      hide Inv;
      StepKeepsInv(state, Step.Aclose);
      CloseMeansClosing(state);
      StartsOnce(state);
      state := Do(state, Step.Aclose);
      cancel := connector;
      if connector {
        scopeCancelled := true;
        connector := false;
      }
      close := endpoint;
    }

    /** What happens around the object: other steps of the tasks, and of the endpoint. */
    ghost method Elsewhere(step: Step)
      requires step.Connect? || step.FactoryRaises? || step.GiveUp? || step.GoesDown?
      requires Valid() && Enabled(state, step)
      modifies this`state
      ensures Valid() && state == Do(old(state), step)
    {
      hide Inv;
      StepKeepsInv(state, step);
      state := Do(state, step);
    }
  }

  /** The connector is there until `aclose()` is called or an endpoint published. */
  lemma StartsOnce(s: State)
    requires Inv(s)
    ensures s.fields.connector <==> !s.acloseCalled && s.fields.endpoint == None
    ensures !s.entered ==> s.starts == 0 && s.made == {} && s.published == []
    ensures s.entered ==> s.starts == 1
    ensures s.published == if s.fields.endpoint == None then [] else [s.fields.endpoint.value]
  {
    assert s.fields.endpoint.Some? ==> s.fields.endpoint.value in s.published;
  }

  lemma NothingPublished(s: State, t: TaskId)
    requires Inv(s) && t in s.tasks && !s.tasks[t].WaitingLock?
    ensures s.fields.endpoint == None && s.published == []
  {
  }

  lemma NothingMade(s: State, t: TaskId)
    requires Inv(s) && IsAt(s, t, InFactory)
    ensures s.fields.endpoint == None && s.published == [] && s.forceClosed == {} && s.made == {}
    ensures s.acloseCalled <==> s.cancelled
  {
  }

  lemma CloseMeansClosing(s: State)
    requires Inv(s)
    ensures IsClosing(Do(s, Step.Aclose))
    ensures s.fields.connector ==> s.fields.endpoint == None
    ensures !s.fields.connector ==> forall t :: t in s.tasks && s.tasks[t].InFactory? ==> s.cancelled
  {
  }
}
