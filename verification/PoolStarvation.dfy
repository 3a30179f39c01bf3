/** Which checkouts can still be served, and how failed constructions starve one for good. */
module PoolStarvation {
  import opened Wrappers
  import opened Lru
  import opened RuntimePool
  import opened PoolProtocol
  import opened PoolInvariant

  /** The event hands a runtime to this very thread. */
  predicate Hands(c: Config, s: State, e: Event, t: Thread) {
    e == Constructed(t) || (e == TakeTurn(t) && Round(s.pool, c.max).1.Took?)
  }

  /** The events, each enabled in turn, end with a runtime handed to `t`. */
  ghost predicate ServesThread(c: Config, s: State, events: seq<Event>, t: Thread)
    decreases |events|
  {
    events != [] && Enabled(c, s, events[0]) &&
    (Hands(c, s, events[0], t) || ServesThread(c, Step(c, s, events[0]), events[1..], t))
  }

  ghost predicate CanServeThread(c: Config, s: State, t: Thread) {
    exists events :: ServesThread(c, s, events, t)
  }

  /** Inside `checkout`: awake in its loop, asleep, or constructing. */
  predicate InCheckout(s: State, t: Thread) {
    var p := s.PhaseOf(t);
    p == Contending || p == Asleep || p.Constructing?
  }

  lemma ServedAfter(c: Config, s: State, e: Event, t: Thread)
    requires Enabled(c, s, e) && (Hands(c, s, e, t) || CanServeThread(c, Step(c, s, e), t))
    ensures CanServeThread(c, s, t)
  {
    if Hands(c, s, e, t) {
      assert ServesThread(c, s, [e], t);
    } else {
      var rest :| ServesThread(c, Step(c, s, e), rest, t);
      assert ([e] + rest)[1..] == rest;
      assert ServesThread(c, s, [e] + rest, t);
    }
  }

  // ---- Serving a given thread

  lemma AvailableServes(c: Config, s: State, t: Thread)
    requires Inv(c, s) && s.PhaseOf(t) == Contending && Available(c, s) > 0
    ensures CanServeThread(c, s, t)
  {
    hide ServesThread, CanServeThread, Inv, OnePlaceEach, NoLostWakeup;
    if s.pool.queue == [] {
      var after := Step(c, s, TakeTurn(t));
      assert after.PhaseOf(t).Constructing?;
      ServedAfter(c, after, Constructed(t), t);
    }
    ServedAfter(c, s, TakeTurn(t), t);
  }

  lemma LentServesContender(c: Config, s: State, t: Thread)
    requires Inv(c, s) && s.PhaseOf(t) == Contending && s.lent != {}
    ensures CanServeThread(c, s, t)
  {
    hide ServesThread, CanServeThread;
    var id :| id in s.lent;
    var n := NewThread(s.threads);
    var after := Step(c, s, Return(n, id));
    StepKeepsInv(c, s, Return(n, id));
    assert after.PhaseOf(t) == Contending;
    AvailableServes(c, after, t);
    ServedAfter(c, s, Return(n, id), t);
  }

  lemma LentServesSleeper(c: Config, s: State, t: Thread)
    requires Inv(c, s) && s.PhaseOf(t) == Asleep && s.lent != {}
    ensures CanServeThread(c, s, t)
  {
    hide ServesThread, CanServeThread, Inv;
    var id :| id in s.lent;
    var n := NewThread(s.threads);
    var s1 := Step(c, s, Return(n, id));
    StepKeepsInv(c, s, Return(n, id));
    assert s1.PhaseOf(t) == Asleep && s1.PhaseOf(n) == Notifying;
    var s2 := Step(c, s1, Notify(n, Some(t)));
    StepKeepsInv(c, s1, Notify(n, Some(t)));
    ReturnedIsAvailable(c, s, n, id);
    assert s2.PhaseOf(t) == Contending && s2.pool == s1.pool;
    AvailableServes(c, s2, t);
    ServedAfter(c, s1, Notify(n, Some(t)), t);
    ServedAfter(c, s, Return(n, id), t);
  }

  lemma ReturnedIsAvailable(c: Config, s: State, t: Thread, id: Id)
    requires Inv(c, s) && Enabled(c, s, Return(t, id))
    ensures Available(c, Step(c, s, Return(t, id))) > 0
  {
  }

  lemma LentServes(c: Config, s: State, t: Thread)
    requires Inv(c, s) && InCheckout(s, t) && s.lent != {}
    ensures CanServeThread(c, s, t)
  {
    hide ServesThread, CanServeThread, Inv;
    if s.PhaseOf(t).Constructing? {
      ServedAfter(c, s, Constructed(t), t);
    } else if s.PhaseOf(t) == Contending {
      LentServesContender(c, s, t);
    } else {
      LentServesSleeper(c, s, t);
    }
  }

  /** Another thread's construction puts a runtime into circulation. */
  lemma ConstructionServesOther(c: Config, s: State, t: Thread, u: Thread)
    requires Inv(c, s) && InCheckout(s, t) && s.PhaseOf(u).Constructing?
    ensures CanServeThread(c, s, t)
  {
    hide ServesThread, CanServeThread, Inv;
    if t != u {
      var after := Step(c, s, Constructed(u));
      StepKeepsInv(c, s, Constructed(u));
      assert s.PhaseOf(u).id in after.lent && after.PhaseOf(t) == s.PhaseOf(t);
      LentServes(c, after, t);
    }
    ServedAfter(c, s, Constructed(u), t);
  }

  /** What is available can be taken by a newcomer, who will return it. */
  lemma NewcomerServesOther(c: Config, s: State, t: Thread)
    requires Inv(c, s) && InCheckout(s, t) && Available(c, s) > 0
    ensures CanServeThread(c, s, t)
  {
    hide ServesThread, CanServeThread, Inv;
    var n := NewThread(s.threads);
    var s1 := Step(c, s, Enter(n));
    StepKeepsInv(c, s, Enter(n));
    var s2 := Step(c, s1, TakeTurn(n));
    StepKeepsInv(c, s1, TakeTurn(n));
    assert s2.PhaseOf(t) == s.PhaseOf(t);
    if s.pool.queue != [] {
      assert s.pool.queue[0] in s2.lent;
      LentServes(c, s2, t);
    } else {
      ConstructionServesOther(c, s2, t, n);
    }
    ServedAfter(c, s1, TakeTurn(n), t);
    ServedAfter(c, s, Enter(n), t);
  }

  lemma SlotsServe(c: Config, s: State, t: Thread)
    requires Inv(c, s) && InCheckout(s, t) && s.failed < c.max
    ensures CanServeThread(c, s, t)
  {
    hide ServesThread, CanServeThread, OnePlaceEach, NoLostWakeup;
    if s.lent != {} {
      LentServes(c, s, t);
    } else if s.Those(IsConstructing) != {} {
      var u :| u in s.Those(IsConstructing);
      ConstructionServesOther(c, s, t, u);
    } else {
      NewcomerServesOther(c, s, t);
    }
  }

  /** Serving a thread lends one runtime more. */
  lemma {:induction false} ServedIsServing(c: Config, s: State, events: seq<Event>, t: Thread)
    requires Inv(c, s) && ServesThread(c, s, events, t)
    ensures Serves(c, s, events)
    decreases |events|
  {
    var e := events[0];
    if Hands(c, s, e, t) {
      HandingLends(c, s, e, t);
    } else {
      StepKeepsInv(c, s, e);
      ServedIsServing(c, Step(c, s, e), events[1..], t);
    }
  }

  lemma HandingLends(c: Config, s: State, e: Event, t: Thread)
    requires Inv(c, s) && Enabled(c, s, e) && Hands(c, s, e, t)
    ensures |Step(c, s, e).lent| > |s.lent|
  {
    if e == Constructed(t) {
      assert t in s.Those(IsConstructing);
    } else {
      assert s.pool.queue[0] in s.pool.queue;
    }
  }

  /**
   A checkout under way, asleep or not, can still be given a runtime exactly while fewer
   constructions have failed than the pool has slots.
   */
  lemma CheckoutServableExactly(c: Config, states: seq<State>, events: seq<Event>, i: nat, t: Thread)
    requires Execution(c, states, events) && i < |states| && InCheckout(states[i], t)
    ensures CanServeThread(c, states[i], t) <==> states[i].failed < c.max
  {
    hide Serves, ServesThread, OnePlaceEach, NoLostWakeup;
    ReachableStatesSatisfyInv(c, states, events, i);
    if states[i].failed < c.max {
      SlotsServe(c, states[i], t);
    } else {
      forall more ensures !ServesThread(c, states[i], more, t) {
        ExhaustedNeverServes(c, states[i], more);
        if ServesThread(c, states[i], more, t) {
          ServedIsServing(c, states[i], more, t);
        }
      }
    }
  }

  // ---- Starving

  lemma OneMoreEvent(c: Config, states: seq<State>, events: seq<Event>, e: Event)
    requires Execution(c, states, events) && Enabled(c, states[|events|], e)
    ensures Execution(c, states + [Step(c, states[|events|], e)], events + [e])
  {
    hide Step, Enabled;
  }

  /** The pool after `n` failed constructions, one after the other, by one thread. */
  function Failed(n: nat): State {
    State(Pool([], n, n + 1), {}, if n == 0 then map[] else map[0 := Outside], n)
  }

  lemma {:induction false} FailTimes(c: Config, n: nat) returns (states: seq<State>, events: seq<Event>)
    requires n <= c.max
    ensures Execution(c, states, events) && states[|events|] == Failed(n)
  {
    if n == 0 {
      states, events := [FRESH], [];
    } else {
      hide Execution;
      states, events := FailTimes(c, n - 1);
      ExecutionShape(c, states, events);
      var s0 := states[|events|];
      var s1 := Step(c, s0, Enter(0));
      OneMoreEvent(c, states, events, Enter(0));
      states, events := states + [s1], events + [Enter(0)];
      var s2 := Step(c, s1, TakeTurn(0));
      OneMoreEvent(c, states, events, TakeTurn(0));
      states, events := states + [s2], events + [TakeTurn(0)];
      OneMoreEvent(c, states, events, ConstructionFailed(0));
      var s3 := Step(c, s2, ConstructionFailed(0));
      states, events := states + [s3], events + [ConstructionFailed(0)];
      assert s3.threads == map[0 := Outside];
    }
  }

  lemma ExecutionShape(c: Config, states: seq<State>, events: seq<Event>)
    requires Execution(c, states, events)
    ensures |states| == |events| + 1
  {
  }

  /** Asleep with every slot lost and nobody about to notify. */
  ghost predicate Starved(c: Config, s: State, t: Thread) {
    Inv(c, s) && s.failed == c.max && s.PhaseOf(t) == Asleep && s.Those(IsNotifying) == {}
  }

  lemma StepStarves(c: Config, s: State, e: Event, t: Thread)
    requires Starved(c, s, t) && Enabled(c, s, e)
    ensures Starved(c, Step(c, s, e), t)
  {
    StepKeepsInv(c, s, e);
    NothingInCirculation(c, s);
    var after := Step(c, s, e);
    NobodyNotifies(s);
    forall u ensures u !in after.Those(IsNotifying) {
      assert u !in s.Those(IsNotifying);
    }
  }

  lemma NobodyNotifies(s: State)
    requires s.Those(IsNotifying) == {}
    ensures forall t :: s.PhaseOf(t) != Notifying
  {
    forall t ensures s.PhaseOf(t) != Notifying {
      assert t !in s.Those(IsNotifying);
    }
  }

  lemma NothingInCirculation(c: Config, s: State)
    requires Inv(c, s) && s.failed == c.max
    ensures s.lent == {} && s.pool.queue == [] && forall t :: !s.PhaseOf(t).Constructing?
  {
    assert s.Those(IsConstructing) == {};
    forall t ensures !s.PhaseOf(t).Constructing? {
      assert t !in s.Those(IsConstructing);
    }
  }

  lemma {:induction false} SleepsForGood(c: Config, states: seq<State>, events: seq<Event>, i: nat, j: nat, t: Thread)
    requires Execution(c, states, events) && i <= j < |states| && Starved(c, states[i], t)
    ensures Starved(c, states[j], t)
    decreases j - i
  {
    hide Starved;
    if i < j {
      StepStarves(c, states[i], events[i], t);
      SleepsForGood(c, states, events, i + 1, j, t);
    }
  }

  /** Continuations of an execution, in all of which `t` is asleep from its end on. */
  ghost predicate AsleepForGood(c: Config, states: seq<State>, events: seq<Event>, t: Thread) {
    forall longer: seq<State>, more: seq<Event>, j |
      Execution(c, longer, more) && states <= longer && |events| <= j < |longer| ::
      longer[j].PhaseOf(t) == Asleep
  }

  /**
   For every size of the pool, as many failed constructions as it has slots make the
   next checkout sleep for good.
   */
  lemma FailuresStarveACheckout(c: Config) returns (states: seq<State>, events: seq<Event>)
    ensures Execution(c, states, events) && states[|events|].PhaseOf(0) == Asleep
    ensures AsleepForGood(c, states, events, 0)
  {
    hide Execution, Starved;
    states, events := FailTimes(c, c.max);
    ExecutionShape(c, states, events);
    var s0 := states[|events|];
    var s1 := Step(c, s0, Enter(0));
    OneMoreEvent(c, states, events, Enter(0));
    states, events := states + [s1], events + [Enter(0)];
    var s2 := Step(c, s1, TakeTurn(0));
    OneMoreEvent(c, states, events, TakeTurn(0));
    states, events := states + [s2], events + [TakeTurn(0)];
    ReachableStatesSatisfyInv(c, states, events, |events|);
    LastSleeperStarves(c, s2);
    forall longer: seq<State>, more: seq<Event>, j |
      Execution(c, longer, more) && states <= longer && |events| <= j < |longer|
      ensures longer[j].PhaseOf(0) == Asleep
    {
      SleepsForGood(c, longer, more, |events|, j, 0);
      StarvedSleeps(c, longer[j], 0);
    }
  }

  lemma StarvedSleeps(c: Config, s: State, t: Thread)
    requires Starved(c, s, t)
    ensures s.PhaseOf(t) == Asleep
  {
  }

  lemma LastSleeperStarves(c: Config, s: State)
    requires Inv(c, s) && s.failed == c.max && s.threads == map[0 := Asleep]
    ensures Starved(c, s, 0)
  {
  }
}
