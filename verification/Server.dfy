/** The thread-per-connection server (common/net/tcp_server.cpp): the accept loop, its handler threads, stop(), the
    mutex that guards the count of active handlers, and the condition variable that serve() waits on. */
module Server {
  /** Where a handler thread is; it holds the mutex while Locked, Lowered or Notified. */
  datatype Handler = Running | Finished | Locked | Lowered | Notified | Gone {
    predicate Counted() {
      Running? || Finished? || Locked?
    }

    predicate Holds() {
      Locked? || Lowered? || Notified?
    }
  }

  /** Where serve() is; it holds the mutex while Raised or Checking. */
  datatype Serve =
    | Testing | Polling | Accepting | Raising | Raised | Starting
    | Closing | Draining | Checking | Sleeping | Returned
  {
    predicate Holds() {
      Raised? || Checking?
    }

    /** A handler is counted that has no thread yet. */
    predicate Owes() {
      Raised? || Starting?
    }

    predicate PastLoop() {
      Closing? || Draining? || Checking? || Sleeping? || Returned?
    }
  }

  datatype Owner = Nobody | ByServe | ByHandler(index: nat)

  datatype State = State(stopping: bool, serve: Serve, active: int, owner: Owner, handlers: seq<Handler>)

  /** What poll and accept come back with. */
  datatype Outcome = Connection | Again | Broken

  datatype Action = Stop | Advance(outcome: Outcome) | Wake | Handle(index: nat)

  const START := State(false, Testing, 0, Nobody, [])

  predicate Enabled(s: State, a: Action) {
    match a
    case Stop => true
    case Advance(_) =>
      && !s.serve.Sleeping? && !s.serve.Returned?
      && (s.serve.Raising? || s.serve.Draining? ==> s.owner.Nobody?)
    case Wake => s.serve.Sleeping?
    case Handle(i) => i < |s.handlers| && !s.handlers[i].Gone? && (s.handlers[i].Finished? ==> s.owner.Nobody?)
  }

  function ServeStep(s: State, outcome: Outcome): State {
    match s.serve
    case Testing => s.(serve := if s.stopping then Closing else Polling)
    case Polling => s.(serve := if outcome.Connection? then Accepting else Testing)
    case Accepting => s.(serve := if outcome.Connection? then Raising else if outcome.Again? then Testing else Closing)
    case Raising => s.(serve := Raised, owner := ByServe, active := s.active + 1)
    case Raised => s.(serve := Starting, owner := Nobody)
    case Starting => s.(serve := Testing, handlers := s.handlers + [Running])
    case Closing => s.(serve := Draining)
    case Draining => s.(serve := Checking, owner := ByServe)
    case Checking => s.(serve := if s.active == 0 then Returned else Sleeping, owner := Nobody)
    case Sleeping => s
    case Returned => s
  }

  function HandlerStep(s: State, i: nat): State
    requires i < |s.handlers|
  {
    match s.handlers[i]
    case Running => s.(handlers := s.handlers[i := Finished])
    case Finished => s.(handlers := s.handlers[i := Locked], owner := ByHandler(i))
    case Locked => s.(handlers := s.handlers[i := Lowered], active := s.active - 1)
    case Lowered => s.(handlers := s.handlers[i := Notified], serve := if s.serve.Sleeping? then Draining else s.serve)
    case Notified => s.(handlers := s.handlers[i := Gone], owner := Nobody)
    case Gone => s
  }

  function Step(s: State, a: Action): State
    requires Enabled(s, a)
  {
    match a
    case Stop => s.(stopping := true)
    case Advance(outcome) => ServeStep(s, outcome)
    case Wake => s.(serve := Draining)
    case Handle(i) => HandlerStep(s, i)
  }

  function CountedHandlers(handlers: seq<Handler>): nat {
    if handlers == [] then 0
    else CountedHandlers(handlers[..|handlers| - 1]) + if handlers[|handlers| - 1].Counted() then 1 else 0
  }

  predicate Busy(handlers: seq<Handler>) {
    exists i | 0 <= i < |handlers| :: handlers[i].Lowered?
  }

  predicate Inv(s: State) {
    && s.active == CountedHandlers(s.handlers) + (if s.serve.Owes() then 1 else 0)
    && (s.owner.ByServe? <==> s.serve.Holds())
    && (forall i | 0 <= i < |s.handlers| :: s.handlers[i].Holds() <==> s.owner == ByHandler(i))
    && (s.owner.ByHandler? ==> s.owner.index < |s.handlers|)
    && (s.serve.Sleeping? ==> s.active > 0 || Busy(s.handlers))
    && (s.serve.Returned? ==> forall i | 0 <= i < |s.handlers| :: s.handlers[i].Gone?)
  }

  // ---------------------------------------------------------------- counting

  lemma {:induction false} CountedUpdate(handlers: seq<Handler>, i: nat, h: Handler)
    requires i < |handlers|
    ensures CountedHandlers(handlers[i := h]) + (if handlers[i].Counted() then 1 else 0) ==
            CountedHandlers(handlers) + (if h.Counted() then 1 else 0)
    ensures handlers[i].Counted() ==> CountedHandlers(handlers) > 0
  {
    var n, after := |handlers| - 1, handlers[i := h];
    if i == n {
      assert after[..n] == handlers[..n];
    } else {
      CountedUpdate(handlers[..n], i, h);
      assert after[..n] == handlers[..n][i := h];
    }
  }

  lemma CountedAppend(handlers: seq<Handler>, h: Handler)
    ensures CountedHandlers(handlers + [h]) == CountedHandlers(handlers) + if h.Counted() then 1 else 0
  {
    assert (handlers + [h])[..|handlers|] == handlers;
  }

  lemma {:induction false} NoneCounted(handlers: seq<Handler>)
    ensures CountedHandlers(handlers) == 0 <==> forall i | 0 <= i < |handlers| :: !handlers[i].Counted()
  {
    if handlers != [] {
      NoneCounted(handlers[..|handlers| - 1]);
    }
  }

  // ---------------------------------------------------------------- every step

  lemma StepKeeps(s: State, a: Action)
    requires Inv(s) && Enabled(s, a)
    ensures Inv(Step(s, a))
  {
    match a
    case Stop =>
    case Wake =>
    case Advance(outcome) => AdvanceKeeps(s, outcome);
    case Handle(i) => HandleKeeps(s, i);
  }

  lemma HandleKeeps(s: State, i: nat)
    requires Inv(s) && Enabled(s, Handle(i))
    ensures Inv(HandlerStep(s, i))
  {
    hide CountedHandlers;
    var s' := HandlerStep(s, i);
    CountedUpdate(s.handlers, i, s'.handlers[i]);
    if s.handlers[i].Locked? {
      assert s'.handlers[i].Lowered?;
    }
  }

  lemma AdvanceKeeps(s: State, outcome: Outcome)
    requires Inv(s) && Enabled(s, Advance(outcome))
    ensures Inv(ServeStep(s, outcome))
  {
    hide CountedHandlers;
    if s.serve.Starting? {
      CountedAppend(s.handlers, Running);
    } else if s.serve.Checking? {
      NoneCounted(s.handlers);
    }
  }

  // ---------------------------------------------------------------- every run

  predicate Steps(s: State, a: Action, s': State) {
    Enabled(s, a) && s' == Step(s, a)
  }

  predicate IsRun(states: seq<State>, actions: seq<Action>) {
    && |states| == |actions| + 1 && states[0] == START
    && forall k | 0 <= k < |actions| :: Steps(states[k], actions[k], states[k + 1])
  }

  lemma {:induction false} RunKeeps(states: seq<State>, actions: seq<Action>, k: nat)
    requires IsRun(states, actions) && k < |states|
    ensures Inv(states[k])
  {
    if k > 0 {
      RunKeeps(states, actions, k - 1);
      assert Steps(states[k - 1], actions[k - 1], states[k]);
      StepKeeps(states[k - 1], actions[k - 1]);
    }
  }

  /** Handler threads are never forgotten; they start one at a time, and only out of the loop's last statement. */
  lemma {:induction false} HandlersGrow(states: seq<State>, actions: seq<Action>, j: nat, k: nat)
    requires IsRun(states, actions) && j <= k < |states|
    ensures |states[j].handlers| <= |states[k].handlers|
    ensures states[j].stopping ==> states[k].stopping
    ensures states[j].serve.PastLoop() ==> states[k].serve.PastLoop() && |states[k].handlers| == |states[j].handlers|
    decreases k
  {
    if j < k {
      HandlersGrow(states, actions, j, k - 1);
      assert Steps(states[k - 1], actions[k - 1], states[k]);
    }
  }

  /** When serve() has returned: every thread it ever started has left the mutex for the last time, the count is zero,
      and nothing starts afterwards. */
  lemma {:induction false} DrainedForGood(states: seq<State>, actions: seq<Action>, j: nat, k: nat)
    requires IsRun(states, actions) && j <= k < |states| && states[j].serve.Returned?
    ensures states[k] == states[j].(stopping := states[k].stopping)
    ensures states[k].active == 0 && states[k].owner.Nobody? && forall i | 0 <= i < |states[k].handlers| ::
            states[k].handlers[i].Gone?
    decreases k
  {
    hide CountedHandlers;
    if j < k {
      DrainedForGood(states, actions, j, k - 1);
      assert Steps(states[k - 1], actions[k - 1], states[k]);
    } else {
      RunKeeps(states, actions, k);
      NoneCounted(states[k].handlers);
    }
  }

  /** After stop() at most one more handler starts: the connection that the loop was already taking. */
  lemma {:induction false} AtMostOneLate(states: seq<State>, actions: seq<Action>, j: nat, k: nat)
    requires IsRun(states, actions) && j <= k < |states| && states[j].stopping
    ensures states[k].stopping
    ensures |states[k].handlers| + (if Late(states[k].serve) then 1 else 0) <= |states[j].handlers| + 1
    decreases k
  {
    if j < k {
      AtMostOneLate(states, actions, j, k - 1);
      assert Steps(states[k - 1], actions[k - 1], states[k]);
    }
  }

  predicate Late(serve: Serve) {
    serve.Polling? || serve.Accepting? || serve.Raising? || serve.Raised? || serve.Starting?
  }

  /** No wake-up is lost and no lock is kept: until serve() returns, serve() itself or a handler thread can always take
      a step, without a new connection, a spurious wake-up or another stop(). */
  lemma NeverStuck(states: seq<State>, actions: seq<Action>, k: nat) returns (a: Action)
    requires IsRun(states, actions) && k < |states| && !states[k].serve.Returned?
    ensures Enabled(states[k], a) && (a.Handle? || a == Advance(Again))
  {
    var s := states[k];
    RunKeeps(states, actions, k);
    if s.owner.ByHandler? {
      a := Handle(s.owner.index);
    } else if s.serve.Sleeping? {
      NoneCounted(s.handlers);
      var i :| 0 <= i < |s.handlers| && s.handlers[i].Counted();
      a := Handle(i);
    } else {
      a := Advance(Again);
    }
  }

  // ---------------------------------------------------------------- the server serves

  /** Why serve() would leave its loop: it was told to, or accept failed for good. */
  predicate Ends(states: seq<State>, actions: seq<Action>, k: nat)
    requires |states| == |actions| + 1 && k < |states|
  {
    states[k].stopping || exists j | 0 <= j < k :: states[j].serve.Accepting? && actions[j] == Advance(Broken)
  }

  /** serve() does not give up by itself, however often a poll finds nothing or accept is interrupted. */
  lemma {:induction false} LoopEndsForAReason(states: seq<State>, actions: seq<Action>, k: nat)
    requires IsRun(states, actions) && k < |states| && states[k].serve.PastLoop()
    ensures Ends(states, actions, k)
  {
    assert k > 0;
    var s, a := states[k - 1], actions[k - 1];
    assert Steps(s, a, states[k]);
    if s.serve.PastLoop() {
      LoopEndsForAReason(states, actions, k - 1);
    } else if s.serve.Accepting? {
      assert a == Advance(Broken);
    }
  }

  /** A step leaves the loop exactly when the loop's test finds the stop flag, or accept fails for good. */
  lemma LoopEndsExactly(states: seq<State>, actions: seq<Action>, k: nat)
    requires IsRun(states, actions) && k < |actions| && !states[k].serve.PastLoop()
    ensures states[k + 1].serve.PastLoop() <==>
            && actions[k].Advance?
            && ((states[k].serve.Testing? && states[k].stopping) ||
                (states[k].serve.Accepting? && actions[k] == Advance(Broken)))
  {
    assert Steps(states[k], actions[k], states[k + 1]);
  }

  /** Connections accepted in the first `k` steps. */
  function AcceptedBefore(states: seq<State>, actions: seq<Action>, k: nat): nat
    requires k <= |actions| <= |states|
  {
    if k == 0 then 0
    else AcceptedBefore(states, actions, k - 1) +
         if states[k - 1].serve.Accepting? && actions[k - 1] == Advance(Connection) then 1 else 0
  }

  /** Every accepted connection gets a handler thread of its own, and no thread starts without one. */
  lemma {:induction false} OneHandlerEach(states: seq<State>, actions: seq<Action>, k: nat)
    requires IsRun(states, actions) && k < |states|
    ensures var serve := states[k].serve;
            AcceptedBefore(states, actions, k) ==
            |states[k].handlers| + if serve.Raising? || serve.Raised? || serve.Starting? then 1 else 0
  {
    if k > 0 {
      OneHandlerEach(states, actions, k - 1);
      assert Steps(states[k - 1], actions[k - 1], states[k]);
    }
  }

  /** Unless it is being stopped, six steps of the loop take a waiting connection and start its handler. */
  lemma ConnectionIsServed(s: State) returns (path: seq<State>)
    requires s.serve.Testing? && !s.stopping && s.owner.Nobody?
    ensures |path| == 7 && path[0] == s && forall n | 0 <= n < 6 :: Steps(path[n], Advance(Connection), path[n + 1])
    ensures path[6] == s.(handlers := s.handlers + [Running], active := s.active + 1)
  {
    var s1 := ServeStep(s, Connection);
    var s2 := ServeStep(s1, Connection);
    var s3 := ServeStep(s2, Connection);
    var s4 := ServeStep(s3, Connection);
    var s5 := ServeStep(s4, Connection);
    path := [s, s1, s2, s3, s4, s5, ServeStep(s5, Connection)];
  }

  /** A handler's four steps after its work: it takes the mutex, is counted down, wakes serve() if that sleeps, and
      lets go. */
  lemma HandlerIsCountedDown(s: State, i: nat)
    requires i < |s.handlers| && s.handlers[i].Running? && s.owner.Nobody?
    ensures var s1 := HandlerStep(s, i);
            && Enabled(s, Handle(i)) && Enabled(s1, Handle(i))
            && var s2 := HandlerStep(s1, i);
            && Enabled(s2, Handle(i))
            && var s3 := HandlerStep(s2, i);
            && Enabled(s3, Handle(i))
            && var s4 := HandlerStep(s3, i);
            && Enabled(s4, Handle(i))
            && HandlerStep(s4, i) ==
               s.(handlers := s.handlers[i := Gone], active := s.active - 1,
                  serve := if s.serve.Sleeping? then Draining else s.serve)
  {
  }

  /** With nothing active, serve() comes out of its wait in two steps and returns. */
  lemma DrainReturns(s: State, outcome: Outcome)
    requires s.serve.Draining? && s.owner.Nobody? && s.active == 0
    ensures Enabled(s, Advance(outcome)) && Enabled(ServeStep(s, outcome), Advance(outcome))
    ensures ServeStep(ServeStep(s, outcome), outcome) == s.(serve := Returned)
  {
  }
}
