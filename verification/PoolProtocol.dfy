/**
 The pool shared by any number of threads, which may hold several handles each.
 A return pushes and notifies in two steps, since it unlocks in between; a failed
 reset does both under the lock.
 */
module PoolProtocol {
  import opened Wrappers
  import opened Lru
  import opened RuntimePool

  type Thread = nat

  datatype Phase =
    | Outside
    | Contending
    | Asleep
    | Constructing(id: Id)
    | Notifying

  datatype Kind = IsOutside | IsContending | IsAsleep | IsConstructing | IsNotifying

  function KindOf(p: Phase): Kind {
    match p
    case Outside => IsOutside
    case Contending => IsContending
    case Asleep => IsAsleep
    case Constructing(_) => IsConstructing
    case Notifying => IsNotifying
  }

  /** `manualReset`: whether dropping a handle resets its runtime. */
  datatype Config = Config(max: nat, manualReset: bool)

  /**
   `lent` are the runtimes out on handles. `failed` counts the constructions that
   failed; it is bookkeeping of this model, the pool keeps no such count.
   */
  datatype State = State(pool: Pool, lent: set<Id>, threads: map<Thread, Phase>, failed: nat) {
    function PhaseOf(t: Thread): Phase {
      if t in threads then threads[t] else Outside
    }

    function Those(k: Kind): set<Thread> {
      set t | t in threads && KindOf(threads[t]) == k
    }

    predicate AnyAsleep(): (r: bool)
      ensures r <==> exists t :: PhaseOf(t) == Asleep
    {
      assert forall t :: t in Those(IsAsleep) <==> PhaseOf(t) == Asleep;
      Those(IsAsleep) != {}
    }
  }

  datatype Event =
    | Enter(t: Thread)
    | TakeTurn(t: Thread)
    | Constructed(t: Thread)
    | ConstructionFailed(t: Thread)
    | Return(t: Thread, id: Id)
    | Notify(t: Thread, woken: Option<Thread>)
    | ResetFailed(t: Thread, id: Id, woken: Option<Thread>)

  /** `notify_one` wakes one sleeper, whichever, if there is one. */
  predicate MayWake(s: State, woken: Option<Thread>) {
    if woken.Some? then s.PhaseOf(woken.value) == Asleep else !s.AnyAsleep()
  }

  predicate Enabled(c: Config, s: State, e: Event) {
    match e
    case Enter(t) => s.PhaseOf(t) == Outside
    case TakeTurn(t) => s.PhaseOf(t) == Contending
    case Constructed(t) => s.PhaseOf(t).Constructing?
    case ConstructionFailed(t) => s.PhaseOf(t).Constructing?
    case Return(t, id) => s.PhaseOf(t) == Outside && id in s.lent
    case Notify(t, woken) => s.PhaseOf(t) == Notifying && MayWake(s, woken)
    case ResetFailed(t, id, woken) =>
      c.manualReset && s.PhaseOf(t) == Outside && id in s.lent && MayWake(s, woken)
  }

  function Wake(threads: map<Thread, Phase>, woken: Option<Thread>): map<Thread, Phase> {
    if woken.Some? then threads[woken.value := Contending] else threads
  }

  function Step(c: Config, s: State, e: Event): State
    requires Enabled(c, s, e)
  {
    match e
    case Enter(t) => s.(threads := s.threads[t := Contending])
    case TakeTurn(t) => (
      var (pool, outcome) := Round(s.pool, c.max);
      match outcome
      case Took(id) => State(pool, s.lent + {id}, s.threads[t := Outside], s.failed)
      case MayConstruct(id) => State(pool, s.lent, s.threads[t := Constructing(id)], s.failed)
      case MustWait => State(pool, s.lent, s.threads[t := Asleep], s.failed))
    case Constructed(t) =>
      State(s.pool, s.lent + {s.PhaseOf(t).id}, s.threads[t := Outside], s.failed)
    case ConstructionFailed(t) =>
      State(s.pool, s.lent, s.threads[t := Outside], s.failed + 1)
    case Return(t, id) =>
      State(GiveBack(s.pool, id), s.lent - {id}, s.threads[t := Notifying], s.failed)
    case Notify(t, woken) =>
      s.(threads := Wake(s.threads[t := Outside], woken))
    case ResetFailed(t, id, woken) =>
      State(GiveUp(s.pool), s.lent - {id}, Wake(s.threads, woken), s.failed)
  }

  const FRESH := State(NEW_POOL, {}, map[], 0)

  ghost predicate Execution(c: Config, states: seq<State>, events: seq<Event>) {
    && |states| == |events| + 1
    && states[0] == FRESH
    && forall i | 0 <= i < |events| :: Enabled(c, states[i], events[i]) && states[i + 1] == Step(c, states[i], events[i])
  }

  // ---- The invariant

  /** Every slot of the pool is queued, lent, under construction or lost to a failed one. */
  ghost predicate Conserved(c: Config, s: State) {
    && s.pool.total == |s.pool.queue| + |s.lent| + |s.Those(IsConstructing)| + s.failed
    && s.pool.total <= c.max
  }

  /** Identifiers are issued once, and no runtime is in two places. */
  ghost predicate OnePlaceEach(s: State) {
    && NoDup(s.pool.queue)
    && (forall id | id in s.pool.queue :: id < s.pool.nextId && id !in s.lent)
    && (forall id | id in s.lent :: id < s.pool.nextId)
    && (forall t | t in s.Those(IsConstructing) ::
          s.threads[t].id < s.pool.nextId && s.threads[t].id !in s.lent && s.threads[t].id !in s.pool.queue)
    && (forall t, u | t in s.Those(IsConstructing) && u in s.Those(IsConstructing) && s.threads[t].id == s.threads[u].id ::
          t == u)
  }

  /** What a checkout could have at once: idle runtimes and room for new ones. */
  function Available(c: Config, s: State): int {
    |s.pool.queue| + c.max - s.pool.total
  }

  /** While someone sleeps, whatever is available has a taker awake or a wake-up on its way. */
  ghost predicate NoLostWakeup(c: Config, s: State) {
    s.AnyAsleep() ==> Available(c, s) <= |s.Those(IsContending)| + |s.Those(IsNotifying)|
  }

  ghost predicate Inv(c: Config, s: State) {
    Conserved(c, s) && OnePlaceEach(s) && NoLostWakeup(c, s)
  }

  // ---- Counting threads

  /** Moving one thread moves one unit between two counts. */
  lemma MoveOne(s: State, after: State, t: Thread, p: Phase, k: Kind)
    requires after.threads == s.threads[t := p]
    ensures |after.Those(k)| == |s.Those(k)|
              - (if t in s.threads && KindOf(s.threads[t]) == k then 1 else 0)
              + (if KindOf(p) == k then 1 else 0)
  {
    if KindOf(p) == k {
      assert after.Those(k) == s.Those(k) + {t};
    } else {
      assert after.Those(k) == s.Those(k) - {t};
    }
  }

  lemma SleepersAfter(s: State, after: State, t: Thread, p: Phase)
    requires after.threads == s.threads[t := p] && p != Asleep
    ensures after.AnyAsleep() ==> s.AnyAsleep()
  {
    if after.AnyAsleep() {
      var u :| u in after.Those(IsAsleep);
      assert u in s.Those(IsAsleep);
    }
  }
}
