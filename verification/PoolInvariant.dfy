/** Every step of every thread keeps the pool's invariant. */
module PoolInvariant {
  import opened Wrappers
  import opened Lru
  import opened RuntimePool
  import opened PoolProtocol

  lemma QueueShrinks(queue: seq<Id>)
    requires NoDup(queue) && queue != []
    ensures NoDup(queue[1..]) && queue[0] !in queue[1..]
    ensures forall id :: id in queue <==> id == queue[0] || id in queue[1..]
  {
  }

  lemma SameConstructing(s: State, after: State)
    requires forall t :: after.PhaseOf(t).Constructing? || s.PhaseOf(t).Constructing? ==> after.PhaseOf(t) == s.PhaseOf(t)
    ensures after.Those(IsConstructing) == s.Those(IsConstructing)
  {
    forall t ensures t in after.Those(IsConstructing) <==> t in s.Those(IsConstructing) {
      assert t in after.Those(IsConstructing) <==> after.PhaseOf(t).Constructing?;
      assert t in s.Those(IsConstructing) <==> s.PhaseOf(t).Constructing?;
    }
  }

  // ---- Conservation

  lemma TakeTurnConserves(c: Config, s: State, t: Thread)
    requires Conserved(c, s) && OnePlaceEach(s) && s.PhaseOf(t) == Contending
    ensures Conserved(c, Step(c, s, TakeTurn(t)))
  {
    var after := Step(c, s, TakeTurn(t));
    MoveOne(s, after, t, after.threads[t], IsConstructing);
    if s.pool.queue != [] {
      assert s.pool.queue[0] in s.pool.queue;
      assert s.pool.queue[0] !in s.lent;
    }
    hide OnePlaceEach, State.Those;
  }

  lemma ConstructedConserves(c: Config, s: State, t: Thread)
    requires Conserved(c, s) && OnePlaceEach(s) && s.PhaseOf(t).Constructing?
    ensures Conserved(c, Step(c, s, Constructed(t)))
  {
    assert t in s.Those(IsConstructing);
    MoveOne(s, Step(c, s, Constructed(t)), t, Outside, IsConstructing);
  }

  lemma ReturnConserves(c: Config, s: State, t: Thread, id: Id)
    requires Conserved(c, s) && s.PhaseOf(t) == Outside && id in s.lent
    ensures Conserved(c, Step(c, s, Return(t, id)))
  {
    MoveOne(s, Step(c, s, Return(t, id)), t, Notifying, IsConstructing);
  }

  lemma StepConserves(c: Config, s: State, e: Event)
    requires Conserved(c, s) && OnePlaceEach(s) && Enabled(c, s, e)
    ensures Conserved(c, Step(c, s, e))
  {
    var after := Step(c, s, e);
    match e
    case Enter(t) => MoveOne(s, after, t, Contending, IsConstructing);
    case TakeTurn(t) => TakeTurnConserves(c, s, t);
    case Constructed(t) => ConstructedConserves(c, s, t);
    case ConstructionFailed(t) => MoveOne(s, after, t, Outside, IsConstructing);
    case Return(t, id) => ReturnConserves(c, s, t, id);
    case Notify(_, _) => SameConstructing(s, after);
    case ResetFailed(_, id, _) =>
      SameConstructing(s, after);
      assert |s.lent - {id}| == |s.lent| - 1;
  }

  /** A failed reset gives back a unit that is there: the subtraction never saturates. */
  lemma DiscardNeverSaturates(c: Config, s: State, id: Id)
    requires Conserved(c, s) && id in s.lent
    ensures s.pool.total > 0 && GiveUp(s.pool).total == s.pool.total - 1
  {
    assert |s.lent| == |s.lent - {id}| + 1;
  }

  // ---- One place each

  lemma TakeTurnOnePlace(c: Config, s: State, t: Thread)
    requires OnePlaceEach(s) && s.PhaseOf(t) == Contending
    ensures OnePlaceEach(Step(c, s, TakeTurn(t)))
  {
    var after := Step(c, s, TakeTurn(t));
    if s.pool.queue != [] {
      QueueShrinks(s.pool.queue);
      SameConstructing(s, after);
    } else if s.pool.total < c.max {
      assert after.Those(IsConstructing) == s.Those(IsConstructing) + {t};
    } else {
      SameConstructing(s, after);
    }
  }

  lemma ConstructedOnePlace(c: Config, s: State, t: Thread)
    requires OnePlaceEach(s) && s.PhaseOf(t).Constructing?
    ensures OnePlaceEach(Step(c, s, Constructed(t))) && OnePlaceEach(Step(c, s, ConstructionFailed(t)))
  {
    assert t in s.Those(IsConstructing);
    assert Step(c, s, Constructed(t)).Those(IsConstructing) == s.Those(IsConstructing) - {t};
    assert Step(c, s, ConstructionFailed(t)).Those(IsConstructing) == s.Those(IsConstructing) - {t};
  }

  lemma EnterOnePlace(c: Config, s: State, t: Thread)
    requires OnePlaceEach(s) && Enabled(c, s, Enter(t))
    ensures OnePlaceEach(Step(c, s, Enter(t)))
  {
    SameConstructing(s, Step(c, s, Enter(t)));
  }

  lemma NotifyOnePlace(c: Config, s: State, e: Event)
    requires OnePlaceEach(s) && e.Notify? && Enabled(c, s, e)
    ensures OnePlaceEach(Step(c, s, e))
  {
    SameConstructing(s, Step(c, s, e));
  }

  lemma ReturnOnePlace(c: Config, s: State, t: Thread, id: Id)
    requires OnePlaceEach(s) && Enabled(c, s, Return(t, id))
    ensures OnePlaceEach(Step(c, s, Return(t, id)))
  {
    SameConstructing(s, Step(c, s, Return(t, id)));
  }

  lemma ResetFailedOnePlace(c: Config, s: State, e: Event)
    requires OnePlaceEach(s) && e.ResetFailed? && Enabled(c, s, e)
    ensures OnePlaceEach(Step(c, s, e))
  {
    SameConstructing(s, Step(c, s, e));
  }

  lemma StepOnePlace(c: Config, s: State, e: Event)
    requires OnePlaceEach(s) && Enabled(c, s, e)
    ensures OnePlaceEach(Step(c, s, e))
  {
    hide OnePlaceEach, Step;
    match e
    case Enter(t) => EnterOnePlace(c, s, t);
    case TakeTurn(t) => TakeTurnOnePlace(c, s, t);
    case Constructed(t) => ConstructedOnePlace(c, s, t);
    case ConstructionFailed(t) => ConstructedOnePlace(c, s, t);
    case Return(t, id) => ReturnOnePlace(c, s, t, id);
    case Notify(_, _) => NotifyOnePlace(c, s, e);
    case ResetFailed(_, _, _) => ResetFailedOnePlace(c, s, e);
  }

  // ---- No lost wake-up

  lemma MoveKeepsWakeups(c: Config, s: State, after: State, t: Thread, p: Phase)
    requires NoLostWakeup(c, s) && after.threads == s.threads[t := p] && p != Asleep
    requires Available(c, after) - Available(c, s) <=
             (if p == Contending || p == Notifying then 1 else 0)
             - (if s.PhaseOf(t) == Contending || s.PhaseOf(t) == Notifying then 1 else 0)
    ensures NoLostWakeup(c, after)
  {
    SleepersAfter(s, after, t, p);
    MoveOne(s, after, t, p, IsContending);
    MoveOne(s, after, t, p, IsNotifying);
  }

  /** A thread falls asleep only when nothing is available. */
  lemma FallingAsleepKeepsWakeups(c: Config, s: State, t: Thread)
    requires Conserved(c, s) && s.PhaseOf(t) == Contending
    requires Round(s.pool, c.max).1 == MustWait
    ensures NoLostWakeup(c, Step(c, s, TakeTurn(t)))
  {
    assert Available(c, Step(c, s, TakeTurn(t))) == 0;
  }

  /** Waking one of the sleepers turns the wake-up into a contender. */
  lemma WakeOne(c: Config, s: State, after: State, t: Thread)
    requires s.PhaseOf(t) == Asleep && after.threads == s.threads[t := Contending]
    ensures |after.Those(IsContending)| == |s.Those(IsContending)| + 1
    ensures after.Those(IsNotifying) == s.Those(IsNotifying)
    ensures after.AnyAsleep() ==> s.AnyAsleep()
  {
    MoveOne(s, after, t, Contending, IsContending);
    SleepersAfter(s, after, t, Contending);
  }

  lemma StepKeepsWakeups(c: Config, s: State, e: Event)
    requires Conserved(c, s) && NoLostWakeup(c, s) && Enabled(c, s, e)
    ensures NoLostWakeup(c, Step(c, s, e))
  {
    var after := Step(c, s, e);
    match e
    case Enter(t) => MoveKeepsWakeups(c, s, after, t, Contending);
    case TakeTurn(t) =>
      if Round(s.pool, c.max).1 == MustWait {
        FallingAsleepKeepsWakeups(c, s, t);
      } else {
        MoveKeepsWakeups(c, s, after, t, after.threads[t]);
      }
    case Constructed(t) => MoveKeepsWakeups(c, s, after, t, Outside);
    case ConstructionFailed(t) => MoveKeepsWakeups(c, s, after, t, Outside);
    case Return(t, _) => MoveKeepsWakeups(c, s, after, t, Notifying);
    case Notify(t, woken) => NotifyKeepsWakeups(c, s, t, woken);
    case ResetFailed(t, id, woken) => ResetFailedKeepsWakeups(c, s, t, id, woken);
  }

  lemma NotifyKeepsWakeups(c: Config, s: State, t: Thread, woken: Option<Thread>)
    requires NoLostWakeup(c, s) && Enabled(c, s, Notify(t, woken))
    ensures NoLostWakeup(c, Step(c, s, Notify(t, woken)))
  {
    var after := Step(c, s, Notify(t, woken));
    var quiet := s.(threads := s.threads[t := Outside]);
    SleepersAfter(s, quiet, t, Outside);
    MoveOne(s, quiet, t, Outside, IsContending);
    MoveOne(s, quiet, t, Outside, IsNotifying);
    if woken.Some? {
      WakeOne(c, quiet, after, woken.value);
    }
  }

  lemma ResetFailedKeepsWakeups(c: Config, s: State, t: Thread, id: Id, woken: Option<Thread>)
    requires Conserved(c, s) && NoLostWakeup(c, s) && Enabled(c, s, ResetFailed(t, id, woken))
    ensures NoLostWakeup(c, Step(c, s, ResetFailed(t, id, woken)))
  {
    var after := Step(c, s, ResetFailed(t, id, woken));
    if woken.Some? {
      WakeOne(c, s, after, woken.value);
    } else {
      assert after.threads == s.threads;
      assert after.Those(IsAsleep) == s.Those(IsAsleep);
    }
  }

  lemma StepKeepsInv(c: Config, s: State, e: Event)
    requires Inv(c, s) && Enabled(c, s, e)
    ensures Inv(c, Step(c, s, e))
  {
    StepConserves(c, s, e);
    StepOnePlace(c, s, e);
    StepKeepsWakeups(c, s, e);
  }

  /**
   Over every interleaving, barging and failed resets included: nothing is lost or
   duplicated, the maximum holds, and no wake-up goes missing.
   */
  lemma {:induction false} ReachableStatesSatisfyInv(c: Config, states: seq<State>, events: seq<Event>, i: nat)
    requires Execution(c, states, events) && i < |states|
    ensures Inv(c, states[i])
  {
    if i == 0 {
      assert FRESH.Those(IsConstructing) == {} && FRESH.Those(IsAsleep) == {};
    } else {
      ReachableStatesSatisfyInv(c, states, events, i - 1);
      StepKeepsInv(c, states[i - 1], events[i - 1]);
    }
  }

  // ---- Consequences

  /**
   A sleeper is never forgotten: if it could be served, some thread awake is about
   to take its turn or about to notify.
   */
  lemma SleeperNotForgotten(c: Config, states: seq<State>, events: seq<Event>, i: nat) returns (e: Event)
    requires Execution(c, states, events) && i < |states|
    requires states[i].AnyAsleep() && Available(c, states[i]) > 0
    ensures Enabled(c, states[i], e) && (e.TakeTurn? || e.Notify?)
  {
    ReachableStatesSatisfyInv(c, states, events, i);
    var s := states[i];
    if s.Those(IsContending) != {} {
      var t :| t in s.Those(IsContending);
      e := TakeTurn(t);
    } else {
      assert s.Those(IsNotifying) != {};
      var t, u :| t in s.Those(IsNotifying) && u in s.Those(IsAsleep);
      e := Notify(t, Some(u));
    }
  }

  /** Nothing will happen by itself: sleepers, and nobody who could ever wake them. */
  ghost predicate Wedged(s: State) {
    && s.AnyAsleep() && s.lent == {}
    && forall t :: s.PhaseOf(t) == Outside || s.PhaseOf(t) == Asleep
  }

  /** The only way to wedge the pool is to lose every slot to failed constructions. */
  lemma WedgedOnlyByFailures(c: Config, states: seq<State>, events: seq<Event>, i: nat)
    requires Execution(c, states, events) && i < |states| && Wedged(states[i])
    ensures states[i].failed == states[i].pool.total == c.max
  {
    ReachableStatesSatisfyInv(c, states, events, i);
    var s := states[i];
    forall k | k == IsContending || k == IsNotifying || k == IsConstructing ensures s.Those(k) == {} {
      forall t ensures t !in s.Those(k) {
        assert s.PhaseOf(t) == Outside || s.PhaseOf(t) == Asleep;
      }
    }
  }

  // ---- What a failed construction costs

  /** The events, each enabled in turn, end with a runtime handed to a caller. */
  ghost predicate Serves(c: Config, s: State, events: seq<Event>)
    decreases |events|
  {
    events != [] && Enabled(c, s, events[0]) &&
    (|Step(c, s, events[0]).lent| > |s.lent| || Serves(c, Step(c, s, events[0]), events[1..]))
  }

  ghost predicate CanServe(c: Config, s: State) {
    exists events :: Serves(c, s, events)
  }

  lemma {:induction false} ExhaustedNeverServes(c: Config, s: State, events: seq<Event>)
    requires Inv(c, s) && s.failed == c.max
    ensures !Serves(c, s, events)
    decreases |events|
  {
    if events == [] || !Enabled(c, s, events[0]) {
    } else {
      var e, after := events[0], Step(c, s, events[0]);
      StepKeepsInv(c, s, e);
      assert s.Those(IsConstructing) == {};
      assert |after.lent| <= |s.lent|;
      assert after.failed == c.max;
      ExhaustedNeverServes(c, after, events[1..]);
    }
  }

  /** A thread number not yet in use. */
  lemma NewThread(threads: map<Thread, Phase>) returns (t: Thread)
    ensures t !in threads
  {
    t := UpperBound(threads.Keys);
  }

  lemma {:induction false} UpperBound(used: set<Thread>) returns (t: Thread)
    ensures forall u | u in used :: u < t
  {
    if used == {} {
      t := 0;
    } else {
      var u :| u in used;
      var v := UpperBound(used - {u});
      t := if u < v then v else u + 1;
      forall w | w in used ensures w < t {
        assert w == u || w in used - {u};
      }
    }
  }

  /** A newcomer is served at once when anything is available. */
  lemma NewcomerIsServed(c: Config, s: State) returns (events: seq<Event>)
    requires Inv(c, s) && Available(c, s) > 0
    ensures Serves(c, s, events)
  {
    var t := NewThread(s.threads);
    var s1 := Step(c, s, Enter(t));
    var s2 := Step(c, s1, TakeTurn(t));
    if s.pool.queue != [] {
      events := [Enter(t), TakeTurn(t)];
      assert s.pool.queue[0] in s.pool.queue;
      assert Serves(c, s1, [TakeTurn(t)]);
      assert events[1..] == [TakeTurn(t)];
    } else {
      StepKeepsInv(c, s, Enter(t));
      StepKeepsInv(c, s1, TakeTurn(t));
      ConstructionServes(c, s2, t);
      events := [Enter(t), TakeTurn(t), Constructed(t)];
      assert events[1..] == [TakeTurn(t), Constructed(t)] && events[1..][1..] == [Constructed(t)];
      assert Serves(c, s1, [TakeTurn(t), Constructed(t)]);
    }
  }

  lemma ConstructionServes(c: Config, s: State, t: Thread)
    requires Inv(c, s) && s.PhaseOf(t).Constructing?
    ensures Serves(c, s, [Constructed(t)])
  {
    assert t in s.Those(IsConstructing);
  }

  lemma RemainingSlotServes(c: Config, s: State) returns (events: seq<Event>)
    requires Inv(c, s) && s.failed < c.max
    ensures Serves(c, s, events)
  {
    if Available(c, s) > 0 {
      events := NewcomerIsServed(c, s);
    } else if s.lent != {} {
      var id :| id in s.lent;
      var t := NewThread(s.threads);
      var after := Step(c, s, Return(t, id));
      StepKeepsInv(c, s, Return(t, id));
      var rest := NewcomerIsServed(c, after);
      events := [Return(t, id)] + rest;
      assert events[1..] == rest;
    } else {
      var t :| t in s.Those(IsConstructing);
      ConstructionServes(c, s, t);
      events := [Constructed(t)];
    }
  }

  /**
   A failed construction keeps its slot for good, and that is all that can exhaust
   the pool: some continuation still serves a caller exactly while fewer slots have
   been lost this way than the pool may hold.
   */
  lemma ServesWhileSlotsRemain(c: Config, states: seq<State>, events: seq<Event>, i: nat)
    requires Execution(c, states, events) && i < |states|
    ensures CanServe(c, states[i]) <==> states[i].failed < c.max
  {
    ReachableStatesSatisfyInv(c, states, events, i);
    if states[i].failed < c.max {
      var more := RemainingSlotServes(c, states[i]);
      assert CanServe(c, states[i]);
    } else {
      forall more ensures !Serves(c, states[i], more) {
        ExhaustedNeverServes(c, states[i], more);
      }
    }
  }
}
