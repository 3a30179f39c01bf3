/** What whole executions of the shared registry guarantee its callers. */
module RegistryHistory {
  import opened Wrappers
  import Lru
  import opened WarmedArtifacts
  import opened WarmedHosts
  import opened Registry
  import opened RegistryProtocol

  // ---- Slots and builders

  /**
   In every reachable state creation slots and building threads match one to one,
   by key and by generation, so no key is ever built twice at once.
   */
  lemma SlotsMatchBuilders(l: Limits, states: seq<State>, events: seq<Event>, i: nat)
    requires Execution(l, states, events) && Positive(l) && i < |states|
    ensures var s := states[i];
            && (forall t | s.Builds(t) ::
                  s.threads[t].key in s.hosts.entries &&
                  s.hosts.entries[s.threads[t].key] == Creating(s.threads[t].begun))
            && (forall k | s.hosts.IsCreating(k) ::
                  exists t :: s.At(t, Building(k, s.hosts.entries[k].generation)) &&
                              forall u | s.Builds(u) && s.threads[u].key == k :: u == t)
  {
    ReachableStatesSatisfyInv(l, states, events, i);
    var s := states[i];
    forall k | s.hosts.IsCreating(k)
      ensures exists t :: s.At(t, Building(k, s.hosts.entries[k].generation)) &&
                          forall u | s.Builds(u) && s.threads[u].key == k :: u == t
    {
      var t :| s.Builds(t) && s.threads[t].key == k;
      assert s.At(t, Building(k, s.hosts.entries[k].generation));
    }
  }

  /**
   A construction that ends finds its own slot still in place, whatever happened
   meanwhile, and the step touches no other creation.
   */
  lemma EndingTouchesOwnSlotOnly(l: Limits, states: seq<State>, events: seq<Event>, i: nat, t: Thread)
    requires Execution(l, states, events) && Positive(l) && i < |events|
    requires states[i].Builds(t) && (events[i] == Fail(t) || (events[i].Succeed? && events[i].t == t))
    ensures var h, after := states[i].hosts, states[i + 1].hosts;
            var key := states[i].threads[t].key;
            && h.IsCreating(key) && h.entries[key].generation == states[i].threads[t].begun
            && !after.IsCreating(key)
            && (forall k | k != key :: after.IsCreating(k) <==> h.IsCreating(k))
            && (forall k | after.IsCreating(k) :: after.entries[k] == h.entries[k])
    ensures events[i] == Fail(t) ==> states[i + 1].At(t, Done(None))
  {
    ReachableStatesSatisfyInv(l, states, events, i);
    if events[i] == Fail(t) {
      FailEnds(l, states[i], t);
    } else {
      SucceedEnds(l, states[i], t, events[i].serial);
    }
  }

  // ---- No stranded waiter

  /**
   A thread that sleeps has someone building the key it waits for, and whichever
   way that construction ends, the sleeper looks again.
   */
  lemma SleeperWillBeWoken(l: Limits, states: seq<State>, events: seq<Event>, i: nat, t: Thread)
    returns (builder: Thread)
    requires Execution(l, states, events) && Positive(l) && i < |states| && states[i].Sleeps(t)
    ensures var s := states[i];
            && s.Builds(builder) && s.threads[builder].key == s.threads[t].key
            && Step(l, s, Fail(builder)).At(t, Looking(s.threads[t].key))
            && forall serial :: Step(l, s, Succeed(builder, serial)).At(t, Looking(s.threads[t].key))
  {
    ReachableStatesSatisfyInv(l, states, events, i);
    var s := states[i];
    builder :| s.Builds(builder) && s.threads[builder].key == s.threads[t].key;
  }

  /** Unless every thread is free, one that is not asleep has a step of its own. */
  lemma NeverStuck(l: Limits, states: seq<State>, events: seq<Event>, i: nat, t: Thread) returns (e: Event)
    requires Execution(l, states, events) && Positive(l) && i < |states| && !states[i].Free(t)
    ensures Enabled(states[i], e)
    ensures e.LookUp? || e.Fail? || e.ClearArtifacts? || e.ClearNotify?
  {
    var s := states[i];
    match s.threads[t]
    case Looking(_) => e := LookUp(t);
    case Building(_, _) => e := Fail(t);
    case HostsCleared => e := ClearArtifacts(t);
    case ArtifactsCleared => e := ClearNotify(t);
    case Asleep(_) =>
      var builder := SleeperWillBeWoken(l, states, events, i, t);
      e := Fail(builder);
  }

  // ---- Generations count clears

  predicate Clears(e: Event) {
    e.ClearHosts?
  }

  lemma StepGeneration(l: Limits, s: State, e: Event)
    requires Inv(l, s) && Enabled(s, e)
    ensures Step(l, s, e).hosts.generation == s.hosts.generation + if Clears(e) then 1 else 0
  {
    match e
    case Succeed(t, serial) => SucceedEnds(l, s, t, serial);
    case _ =>
  }

  /** The generation stands still exactly as long as nobody clears. */
  lemma {:induction false} GenerationCountsClears(l: Limits, states: seq<State>, events: seq<Event>, i: nat, j: nat)
    requires Execution(l, states, events) && Positive(l) && i <= j < |states|
    ensures states[i].hosts.generation <= states[j].hosts.generation
    ensures states[i].hosts.generation == states[j].hosts.generation <==> forall c | i <= c < j :: !Clears(events[c])
  {
    if i < j {
      GenerationCountsClears(l, states, events, i, j - 1);
      ReachableStatesSatisfyInv(l, states, events, j - 1);
      StepGeneration(l, states[j - 1], events[j - 1]);
    }
  }

  // ---- Clear is a barrier

  /** The look that made a thread a builder. */
  ghost predicate BeganAt(states: seq<State>, events: seq<Event>, b: nat, t: Thread, key: HostKey, begun: nat) {
    && b < |events| && |states| == |events| + 1
    && events[b] == LookUp(t)
    && states[b].At(t, Looking(key)) && states[b].hosts.generation == begun
    && states[b + 1].At(t, Building(key, begun))
  }

  lemma {:induction false} BuilderBegan(l: Limits, states: seq<State>, events: seq<Event>, j: nat, t: Thread)
    returns (b: nat)
    requires Execution(l, states, events) && j < |states| && states[j].Builds(t)
    ensures b < j && BeganAt(states, events, b, t, states[j].threads[t].key, states[j].threads[t].begun)
    ensures forall i | b < i <= j :: states[i].At(t, states[j].threads[t])
  {
    assert j > 0;
    var s, e := states[j - 1], events[j - 1];
    if s.Builds(t) && s.threads[t] == states[j].threads[t] {
      b := BuilderBegan(l, states, events, j - 1, t);
    } else {
      assert e == LookUp(t);
      b := j - 1;
    }
  }

  /** A ready host was constructed by one thread, from one look, without a clear between. */
  lemma {:induction false} ReadyHostBegan(l: Limits, states: seq<State>, events: seq<Event>, j: nat, key: HostKey)
    returns (b: nat, t: Thread)
    requires Execution(l, states, events) && Positive(l) && j < |states| && states[j].hosts.IsReady(key)
    ensures b < j && BeganAt(states, events, b, t, key, states[j].hosts.generation)
  {
    assert j > 0;
    ReachableStatesSatisfyInv(l, states, events, j);
    ReachableStatesSatisfyInv(l, states, events, j - 1);
    var s, e := states[j - 1], events[j - 1];
    StepGeneration(l, s, e);
    if s.hosts.IsReady(key) && !Clears(e) {
      b, t := ReadyHostBegan(l, states, events, j - 1, key);
    } else {
      NewlyReady(l, s, e, key);
      t := e.t;
      b := BuilderBegan(l, states, events, j - 1, t);
    }
  }

  /** Only the end of its own construction makes a key ready. */
  lemma NewlyReady(l: Limits, s: State, e: Event, key: HostKey)
    requires Inv(l, s) && Enabled(s, e)
    requires Step(l, s, e).hosts.IsReady(key) && (!s.hosts.IsReady(key) || Clears(e))
    ensures e.Succeed? && s.At(e.t, Building(key, s.hosts.generation))
  {
    match e
    case Succeed(t, serial) =>
      var k, begun := s.threads[t].key, s.threads[t].begun;
      var host := Host(serial, begun);
      assert s.hosts.entries[k] == Creating(begun);
      if s.hosts.ShouldPublish(k, begun) {
        var grown := Hosts(s.hosts.entries[k := Ready(host)], Lru.Touch(s.hosts.order, k), s.hosts.generation);
        WarmedHosts.TouchKeepsValid(s.hosts, k, grown.entries);
        EvictKeepsBounded(grown, l.maxReady);
        assert grown.IsReady(key);
      }
    case _ =>
  }

  /**
   Clear is a barrier: whatever is ready after a clear was begun after it. The
   promise that an older creation is not published into the cleared cache.
   */
  lemma ClearIsABarrier(l: Limits, states: seq<State>, events: seq<Event>, c: nat, j: nat, key: HostKey)
    returns (b: nat, t: Thread)
    requires Execution(l, states, events) && Positive(l)
    requires c < j < |states| && Clears(events[c]) && states[j].hosts.IsReady(key)
    ensures c < b < j && BeganAt(states, events, b, t, key, states[j].hosts.generation)
  {
    b, t := ReadyHostBegan(l, states, events, j, key);
    GenerationCountsClears(l, states, events, b, j);
  }

  /**
   A successful creation always reaches its own caller. It is published, and then
   is ready at once, exactly when nobody cleared since it began.
   */
  lemma PublishedUnlessCleared(l: Limits, states: seq<State>, events: seq<Event>, j: nat, t: Thread) returns (b: nat)
    requires Execution(l, states, events) && Positive(l)
    requires j < |events| && events[j].Succeed? && events[j].t == t
    ensures states[j].Builds(t)
    ensures var key, begun := states[j].threads[t].key, states[j].threads[t].begun;
            var host := Host(events[j].serial, begun);
            && b < j && BeganAt(states, events, b, t, key, begun)
            && (forall i | b < i <= j :: states[i].At(t, Building(key, begun)))
            && states[j + 1].At(t, Done(Some(host)))
            && ((key in states[j + 1].hosts.entries && states[j + 1].hosts.entries[key] == Ready(host))
                <==> forall c | b < c < j :: !Clears(events[c]))
  {
    ReachableStatesSatisfyInv(l, states, events, j);
    var s := states[j];
    var key, begun := s.threads[t].key, s.threads[t].begun;
    b := BuilderBegan(l, states, events, j, t);
    GenerationCountsClears(l, states, events, b, j);
    assert s.hosts.entries[key] == Creating(begun);
    assert s.hosts.ShouldPublish(key, begun) <==> s.hosts.generation == begun;
    if s.hosts.generation == begun {
      PublishedSurvives(s.hosts, key, begun, Host(events[j].serial, begun), l.maxReady);
    }
  }

  // ---- What a look is answered

  /**
   A look, a sleeper's after it was woken included, is answered the ready host of its
   key, sleeps while the key is under construction, and otherwise takes the slot.
   */
  lemma LookIsAnswered(l: Limits, states: seq<State>, events: seq<Event>, i: nat, t: Thread)
    requires Execution(l, states, events) && Positive(l) && i < |events| && events[i] == LookUp(t)
    ensures states[i].Looks(t)
    ensures var slots, key := states[i].hosts.entries, states[i].threads[t].key;
            var after := states[i + 1];
            && (forall h :: key in slots && slots[key] == Ready(h) <==> after.At(t, Done(Some(h))))
            && (key in slots && slots[key].Creating? <==> after.At(t, Asleep(key)))
            && (key !in slots <==> after.At(t, Building(key, states[i].hosts.generation)))
            && (key !in slots ==> after.hosts.entries == slots[key := Creating(states[i].hosts.generation)])
            && (key in slots ==> after.hosts.entries == slots)
  {
    ReachableStatesSatisfyInv(l, states, events, i);
  }

  lemma NewHostOf(l: Limits, s: State, t: Thread, serial: nat, key: HostKey)
    requires Inv(l, s) && Positive(l) && s.At(t, Building(key, s.hosts.generation))
    requires Step(l, s, Succeed(t, serial)).hosts.IsReady(key)
    ensures Step(l, s, Succeed(t, serial)).hosts.entries[key] == Ready(Host(serial, s.hosts.generation))
  {
    assert s.hosts.entries[key] == Creating(s.hosts.generation);
    PublishedSurvives(s.hosts, key, s.hosts.generation, Host(serial, s.hosts.generation), l.maxReady);
  }

  lemma ReadyStays(l: Limits, s: State, e: Event, key: HostKey)
    requires Inv(l, s) && Enabled(s, e) && !Clears(e)
    requires s.hosts.IsReady(key) && Step(l, s, e).hosts.IsReady(key)
    ensures Step(l, s, e).hosts.entries[key] == s.hosts.entries[key]
  {
    match e
    case Succeed(t, serial) =>
      var k, begun := s.threads[t].key, s.threads[t].begun;
      assert s.hosts.entries[k] == Creating(begun);
      if s.hosts.ShouldPublish(k, begun) {
        var grown := Hosts(s.hosts.entries[k := Ready(Host(serial, begun))], Lru.Touch(s.hosts.order, k), s.hosts.generation);
        WarmedHosts.TouchKeepsValid(s.hosts, k, grown.entries);
        EvictKeepsBounded(grown, l.maxReady);
      }
    case _ =>
  }

  /** Thread `u` built the host for the key at `p`, and nobody cleared from then until `j`. */
  ghost predicate BuiltAt(states: seq<State>, events: seq<Event>, p: nat, u: Thread, key: HostKey, host: Host, j: nat) {
    && p < j <= |events| && |states| == |events| + 1
    && events[p] == Succeed(u, host.serial) && states[p].At(u, Building(key, host.begunIn))
    && forall c | p <= c < j :: !Clears(events[c])
  }

  lemma JustBuilt(l: Limits, states: seq<State>, events: seq<Event>, p: nat, key: HostKey)
    requires Execution(l, states, events) && Positive(l) && p < |events| && Inv(l, states[p])
    requires states[p + 1].hosts.IsReady(key) && (!states[p].hosts.IsReady(key) || Clears(events[p]))
    ensures events[p].Succeed?
    ensures BuiltAt(states, events, p, events[p].t, key, states[p + 1].hosts.entries[key].host, p + 1)
  {
    var s, e := states[p], events[p];
    assert Enabled(s, e) && states[p + 1] == Step(l, s, e);
    hide Execution, Enabled, Step, Inv;
    NewlyReady(l, s, e, key);
    NewHostOf(l, s, e.t, e.serial, key);
  }

  lemma StillBuilt(l: Limits, states: seq<State>, events: seq<Event>, p: nat, u: Thread, j: nat, key: HostKey)
    requires Execution(l, states, events) && j < |events| && Inv(l, states[j]) && !Clears(events[j])
    requires states[j].hosts.IsReady(key) && states[j + 1].hosts.IsReady(key)
    requires BuiltAt(states, events, p, u, key, states[j].hosts.entries[key].host, j)
    ensures BuiltAt(states, events, p, u, key, states[j + 1].hosts.entries[key].host, j + 1)
  {
    assert Enabled(states[j], events[j]) && states[j + 1] == Step(l, states[j], events[j]);
    hide Execution, Enabled, Step, Inv;
    ReadyStays(l, states[j], events[j], key);
  }

  /** Every ready host is one that somebody built for its key since the last clear. */
  lemma {:induction false} ReadyHostBuilt(l: Limits, states: seq<State>, events: seq<Event>, j: nat, key: HostKey)
    returns (p: nat, u: Thread)
    requires Execution(l, states, events) && Positive(l) && j < |states| && states[j].hosts.IsReady(key)
    ensures BuiltAt(states, events, p, u, key, states[j].hosts.entries[key].host, j)
  {
    assert j > 0 && |states| == |events| + 1;
    ReachableStatesSatisfyInv(l, states, events, j - 1);
    hide Execution, Inv, BuiltAt, Clears;
    if states[j - 1].hosts.IsReady(key) && !Clears(events[j - 1]) {
      p, u := ReadyHostBuilt(l, states, events, j - 1, key);
      StillBuilt(l, states, events, p, u, j - 1, key);
    } else {
      JustBuilt(l, states, events, j - 1, key);
      p, u := j - 1, events[j - 1].t;
    }
  }

  /** A caller that is served without building gets a host somebody built for its key since the last clear. */
  lemma HitWasBuilt(l: Limits, states: seq<State>, events: seq<Event>, i: nat, t: Thread) returns (p: nat, u: Thread)
    requires Execution(l, states, events) && Positive(l) && i < |events| && events[i] == LookUp(t)
    requires t in states[i + 1].threads && states[i + 1].threads[t].Done?
    ensures states[i].Looks(t)
    ensures var answer, key := states[i + 1].threads[t].host, states[i].threads[t].key;
            answer.Some? && BuiltAt(states, events, p, u, key, answer.value, i)
  {
    LookIsAnswered(l, states, events, i, t);
    hide Step, Execution, Enabled;
    p, u := ReadyHostBuilt(l, states, events, i, states[i].threads[t].key);
  }

  // ---- What a clear has done

  lemma {:induction false} ArtifactsClearedAt(l: Limits, states: seq<State>, events: seq<Event>, j: nat, t: Thread)
    returns (a: nat)
    requires Execution(l, states, events) && j < |states| && states[j].At(t, ArtifactsCleared)
    ensures a < j && events[a] == ClearArtifacts(t) && states[a].At(t, HostsCleared)
  {
    assert j > 0;
    if states[j - 1].At(t, ArtifactsCleared) {
      a := ArtifactsClearedAt(l, states, events, j - 1, t);
    } else {
      a := j - 1;
    }
  }

  lemma {:induction false} HostsClearedAt(l: Limits, states: seq<State>, events: seq<Event>, j: nat, t: Thread)
    returns (h: nat)
    requires Execution(l, states, events) && j < |states| && states[j].At(t, HostsCleared)
    ensures h < j && events[h] == ClearHosts(t)
  {
    assert j > 0;
    if states[j - 1].At(t, HostsCleared) {
      h := HostsClearedAt(l, states, events, j - 1, t);
    } else {
      h := j - 1;
    }
  }

  /**
   A clear that ends has left no ready host, then no artifact, and at its end nobody
   asleep; the creations in flight have kept their slots.
   */
  lemma ClearHasEmptied(l: Limits, states: seq<State>, events: seq<Event>, i: nat, t: Thread) returns (h: nat, a: nat)
    requires Execution(l, states, events) && i < |events| && events[i] == ClearNotify(t)
    ensures h < a < i && events[h] == ClearHosts(t) && events[a] == ClearArtifacts(t)
    ensures var slots := states[h + 1].hosts.entries; forall k | k in slots :: slots[k].Creating?
    ensures forall k | states[h].hosts.IsCreating(k) ::
              states[h + 1].hosts.IsCreating(k) && states[h + 1].hosts.entries[k] == states[h].hosts.entries[k]
    ensures states[a + 1].artifacts.entries == map[] && states[i + 1].Free(t)
    ensures var threads := states[i + 1].threads; forall u | u in threads :: !threads[u].Asleep?
  {
    a := ArtifactsClearedAt(l, states, events, i, t);
    h := HostsClearedAt(l, states, events, a, t);
  }
}
