/** In which order the pool hands out its idle runtimes. */
module PoolOrder {
  import opened Wrappers
  import opened Lru
  import opened RuntimePool
  import opened PoolProtocol
  import opened PoolInvariant

  /** The position of the latest event that returned this runtime. */
  function LastReturn(events: seq<Event>, id: Id): Option<nat> {
    if events == [] then None
    else if events[|events| - 1].Return? && events[|events| - 1].id == id then Some(|events| - 1)
    else LastReturn(events[..|events| - 1], id)
  }

  lemma LastReturnAppend(events: seq<Event>, e: Event, id: Id)
    ensures LastReturn(events + [e], id) == if e.Return? && e.id == id then Some(|events|) else LastReturn(events, id)
  {
    assert (events + [e])[..|events|] == events;
  }

  lemma {:induction false} LastReturnIsEarlier(events: seq<Event>, id: Id)
    ensures LastReturn(events, id).Some? ==> LastReturn(events, id).value < |events|
  {
    if events != [] {
      LastReturnIsEarlier(events[..|events| - 1], id);
    }
  }

  /** `a` was returned, and last returned before `b` was. */
  ghost predicate ReturnedBefore(events: seq<Event>, a: Id, b: Id) {
    && LastReturn(events, a).Some? && LastReturn(events, b).Some?
    && LastReturn(events, a).value < LastReturn(events, b).value
  }

  /** The queue lists runtimes that were returned, in the order of their latest return. */
  ghost predicate ByReturn(events: seq<Event>, queue: seq<Id>) {
    && (forall id | id in queue :: LastReturn(events, id).Some?)
    && forall i, j | 0 <= i < j < |queue| :: ReturnedBefore(events, queue[i], queue[j])
  }

  /** An event that returns nothing leaves the latest returns as they are. */
  lemma OtherEventKeepsOrder(events: seq<Event>, e: Event, queue: seq<Id>)
    requires ByReturn(events, queue) && !e.Return?
    ensures ByReturn(events + [e], queue)
  {
    hide LastReturn;
    forall id ensures LastReturn(events + [e], id) == LastReturn(events, id) {
      LastReturnAppend(events, e, id);
    }
  }

  lemma ReturnKeepsOrder(events: seq<Event>, e: Event, queue: seq<Id>)
    requires ByReturn(events, queue) && e.Return? && e.id !in queue
    ensures ByReturn(events + [e], queue + [e.id])
  {
    hide LastReturn;
    var longer := queue + [e.id];
    forall id ensures LastReturn(events + [e], id) == if id == e.id then Some(|events|) else LastReturn(events, id) {
      LastReturnAppend(events, e, id);
    }
    forall i, j | 0 <= i < j < |longer| ensures ReturnedBefore(events + [e], longer[i], longer[j]) {
      assert longer[i] == queue[i] && queue[i] in queue;
      LastReturnIsEarlier(events, queue[i]);
      if j < |queue| {
        assert longer[j] == queue[j] && queue[j] in queue && ReturnedBefore(events, queue[i], queue[j]);
      }
    }
    forall id | id in longer ensures LastReturn(events + [e], id).Some? {
    }
  }

  lemma RestInOrder(events: seq<Event>, queue: seq<Id>)
    requires ByReturn(events, queue) && queue != []
    ensures ByReturn(events, queue[1..])
  {
    hide LastReturn;
  }

  lemma StepKeepsOrder(c: Config, s: State, e: Event, done: seq<Event>)
    requires OnePlaceEach(s) && Enabled(c, s, e) && ByReturn(done, s.pool.queue)
    ensures ByReturn(done + [e], Step(c, s, e).pool.queue)
  {
    hide ByReturn;
    match e
    case Return(_, id) => ReturnKeepsOrder(done, e, s.pool.queue);
    case TakeTurn(_) =>
      OtherEventKeepsOrder(done, e, s.pool.queue);
      if s.pool.queue != [] {
        RestInOrder(done + [e], s.pool.queue);
      }
    case _ => OtherEventKeepsOrder(done, e, s.pool.queue);
  }

  /** In every state of every execution the idle runtimes are queued in the order in which they came back. */
  lemma {:induction false} QueueIsByReturn(c: Config, states: seq<State>, events: seq<Event>, i: nat)
    requires Execution(c, states, events) && i <= |events|
    ensures ByReturn(events[..i], states[i].pool.queue)
  {
    if i > 0 {
      QueueIsByReturn(c, states, events, i - 1);
      ReachableStatesSatisfyInv(c, states, events, i - 1);
      assert Enabled(c, states[i - 1], events[i - 1]) && states[i - 1 + 1] == Step(c, states[i - 1], events[i - 1]);
      assert events[..i] == events[..i - 1] + [events[i - 1]];
      hide ByReturn, Step, Enabled;
      StepKeepsOrder(c, states[i - 1], events[i - 1], events[..i - 1]);
    }
  }

  /**
   First in, first out: whenever a checkout takes its turn while runtimes are idle, it
   gets one of them, and of all idle ones that which was returned first.
   */
  lemma TakesFirstReturned(c: Config, states: seq<State>, events: seq<Event>, k: nat, t: Thread) returns (id: Id)
    requires Execution(c, states, events) && k < |events| && events[k] == TakeTurn(t) && states[k].pool.queue != []
    ensures id in states[k].pool.queue && id !in states[k + 1].pool.queue
    ensures id !in states[k].lent && states[k + 1].lent == states[k].lent + {id}
    ensures states[k + 1].pool.total == states[k].pool.total && states[k + 1].PhaseOf(t) == Outside
    ensures forall other | other in states[k].pool.queue && other != id ::
              other in states[k + 1].pool.queue && ReturnedBefore(events[..k], id, other)
  {
    var queue := states[k].pool.queue;
    id := queue[0];
    QueueIsByReturn(c, states, events, k);
    ReachableStatesSatisfyInv(c, states, events, k);
    QueueShrinks(queue);
    assert Enabled(c, states[k], events[k]) && states[k + 1] == Step(c, states[k], events[k]);
    hide ReturnedBefore;
    forall other | other in queue && other != id ensures ReturnedBefore(events[..k], id, other) {
      var j :| 0 <= j < |queue| && queue[j] == other;
    }
  }

  lemma IdleIsNotReturned(c: Config, states: seq<State>, events: seq<Event>, k: nat, a: Id)
    requires Execution(c, states, events) && k < |events| && a in states[k].pool.queue
    ensures !(events[k].Return? && events[k].id == a)
  {
    ReachableStatesSatisfyInv(c, states, events, k);
    assert Enabled(c, states[k], events[k]);
    hide Conserved, NoLostWakeup, Execution, Step;
  }

  lemma LastReturnNext(events: seq<Event>, k: nat, id: Id)
    requires 0 < k <= |events|
    ensures LastReturn(events[..k], id) ==
            if events[k - 1].Return? && events[k - 1].id == id then Some(k - 1) else LastReturn(events[..k - 1], id)
  {
    assert events[..k] == events[..k - 1] + [events[k - 1]];
    LastReturnAppend(events[..k - 1], events[k - 1], id);
  }

  /** A runtime that stayed idle since a return was not returned again. */
  lemma {:induction false} IdleSince(c: Config, states: seq<State>, events: seq<Event>, i: nat, k: nat, a: Id)
    requires Execution(c, states, events) && i < k <= |events| && events[i].Return? && events[i].id == a
    requires |states| == |events| + 1 && forall m | i < m < k :: a in states[m].pool.queue
    ensures LastReturn(events[..k], a) == Some(i)
    decreases k
  {
    hide *;
    LastReturnNext(events, k, a);
    if i < k - 1 {
      IdleSince(c, states, events, i, k - 1, a);
      IdleIsNotReturned(c, states, events, k - 1, a);
    }
  }

  /** Of two runtimes that were returned one after the other and stayed idle, no step takes the second. */
  lemma FirstReturnedGoesFirst(c: Config, states: seq<State>, events: seq<Event>, i: nat, j: nat, k: nat, a: Id, b: Id)
    requires Execution(c, states, events) && i < j < k < |events|
    requires events[i].Return? && events[i].id == a && events[j].Return? && events[j].id == b
    requires forall m | i < m <= k :: a in states[m].pool.queue
    requires forall m | j < m <= k :: b in states[m].pool.queue
    ensures b in states[k + 1].pool.queue
  {
    hide LastReturn, Inv;
    IdleSince(c, states, events, i, k, a);
    IdleSince(c, states, events, j, k, b);
    assert Enabled(c, states[k], events[k]) && states[k + 1] == Step(c, states[k], events[k]);
    if events[k].TakeTurn? {
      var id := TakesFirstReturned(c, states, events, k, events[k].t);
    }
  }
}
