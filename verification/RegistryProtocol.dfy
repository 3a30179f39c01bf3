/**
 The registry shared by any number of threads. Each step is one critical section;
 a construction runs between two of them with no lock held. Artifact cache steps
 are free to happen at any time with any argument, which covers every caller.
 */
module RegistryProtocol {
  import opened Wrappers
  import Lru
  import opened WarmedArtifacts
  import opened WarmedHosts
  import opened Registry

  type Thread = nat

  /** Where a thread stands inside `host_for_artifact` or `clear`. */
  datatype Phase =
    | Idle
    | Looking(key: HostKey)
    | Asleep(key: HostKey)
    | Building(key: HostKey, begun: nat)
    | HostsCleared
    | ArtifactsCleared
    | Done(host: Option<Host>)

  datatype State = State(hosts: Hosts, artifacts: Artifacts, threads: map<Thread, Phase>) {
    predicate At(t: Thread, phase: Phase) {
      t in threads && threads[t] == phase
    }

    predicate Builds(t: Thread) {
      t in threads && threads[t].Building?
    }

    predicate Sleeps(t: Thread) {
      t in threads && threads[t].Asleep?
    }

    predicate Looks(t: Thread) {
      t in threads && threads[t].Looking?
    }

    predicate Free(t: Thread) {
      t !in threads || threads[t].Idle? || threads[t].Done?
    }
  }

  datatype Event =
    | Call(t: Thread, key: HostKey)
    | LookUp(t: Thread)
    | Succeed(t: Thread, serial: nat)
    | Fail(t: Thread)
    | CheckReady(key: HostKey)
    | Remove(key: HostKey)
    | ClearHosts(t: Thread)
    | ClearArtifacts(t: Thread)
    | ClearNotify(t: Thread)
    | ArtifactGet(digest: Digest)
    | ArtifactInsert(digest: Digest, artifact: Artifact)
    | ArtifactRemove(digest: Digest)
    | ArtifactRemovePool(pool: PoolKey)

  predicate Enabled(s: State, e: Event) {
    match e
    case Call(t, _) => s.Free(t)
    case LookUp(t) => s.Looks(t)
    case Succeed(t, _) => s.Builds(t)
    case Fail(t) => s.Builds(t)
    case ClearHosts(t) => s.Free(t)
    case ClearArtifacts(t) => s.At(t, HostsCleared)
    case ClearNotify(t) => s.At(t, ArtifactsCleared)
    case _ => true
  }

  /** `notify_all`: every sleeper will look again. */
  function WakeAll(threads: map<Thread, Phase>): map<Thread, Phase> {
    map t | t in threads :: if threads[t].Asleep? then Looking(threads[t].key) else threads[t]
  }

  function AfterLook(key: HostKey, look: Look): Phase {
    match look
    case Found(host) => Done(Some(host))
    case MustWait => Asleep(key)
    case MustBuild(begun) => Building(key, begun)
  }

  function Step(l: Limits, s: State, e: Event): State
    requires Enabled(s, e)
  {
    match e
    case Call(t, key) => s.(threads := s.threads[t := Looking(key)])
    case LookUp(t) =>
      var (hosts, look) := s.hosts.LookUp(s.threads[t].key);
      s.(hosts := hosts, threads := s.threads[t := AfterLook(s.threads[t].key, look)])
    case Succeed(t, serial) =>
      var host := Host(serial, s.threads[t].begun);
      State(s.hosts.FinishOk(s.threads[t].key, s.threads[t].begun, host, l.maxReady), s.artifacts,
            WakeAll(s.threads[t := Done(Some(host))]))
    case Fail(t) =>
      State(s.hosts.FinishErr(s.threads[t].key, s.threads[t].begun), s.artifacts, WakeAll(s.threads[t := Done(None)]))
    case CheckReady(key) => s.(hosts := s.hosts.ReadyHost(key).0)
    case Remove(key) => s.(hosts := s.hosts.RemoveReady(key).0)
    case ClearHosts(t) => s.(hosts := s.hosts.ClearReady(), threads := s.threads[t := HostsCleared])
    case ClearArtifacts(t) => s.(artifacts := EMPTY, threads := s.threads[t := ArtifactsCleared])
    case ClearNotify(t) => s.(threads := WakeAll(s.threads[t := Idle]))
    case ArtifactGet(digest) => s.(artifacts := s.artifacts.Get(digest).0)
    case ArtifactInsert(digest, artifact) => s.(artifacts := s.artifacts.Insert(digest, artifact, l.maxArtifacts).0)
    case ArtifactRemove(digest) => s.(artifacts := s.artifacts.RemoveDigest(digest).0)
    case ArtifactRemovePool(pool) => s.(artifacts := s.artifacts.RemovePool(pool))
  }

  /** States visited by the events, starting from a fresh registry. */
  ghost predicate Execution(l: Limits, states: seq<State>, events: seq<Event>) {
    && |states| == |events| + 1
    && states[0] == State(NO_HOSTS, EMPTY, map[])
    && forall i | 0 <= i < |events| :: Enabled(states[i], events[i]) && states[i + 1] == Step(l, states[i], events[i])
  }

  // ---- The invariant

  /** Every thread that builds holds the slot of its key, stamped with its generation. */
  ghost predicate BuildersHoldSlots(s: State) {
    forall t | s.Builds(t) ::
      s.threads[t].key in s.hosts.entries && s.hosts.entries[s.threads[t].key] == Creating(s.threads[t].begun)
  }

  /** Every creation slot is held by a thread that builds. */
  ghost predicate SlotsHaveBuilders(s: State) {
    forall k | s.hosts.IsCreating(k) :: exists t :: s.Builds(t) && s.threads[t].key == k
  }

  /** No two threads build the same key. */
  ghost predicate OneBuilderPerKey(s: State) {
    forall t, u | s.Builds(t) && s.Builds(u) && s.threads[t].key == s.threads[u].key :: t == u
  }

  /** Ready hosts were begun in the current generation, creations no later. */
  ghost predicate Generations(s: State) {
    && (forall k | s.hosts.IsReady(k) :: s.hosts.entries[k].host.begunIn == s.hosts.generation)
    && (forall k | s.hosts.IsCreating(k) :: s.hosts.entries[k].generation <= s.hosts.generation)
  }

  /** A sleeper waits for a creation that is still in flight. */
  ghost predicate SleepersAwaited(s: State) {
    forall t | s.Sleeps(t) :: s.hosts.IsCreating(s.threads[t].key)
  }

  ghost predicate CachesSound(l: Limits, s: State) {
    && s.hosts.Valid() && s.hosts.Bounded(l.maxReady)
    && s.artifacts.Valid() && s.artifacts.Bounded(l.maxArtifacts)
  }

  ghost predicate Inv(l: Limits, s: State) {
    && CachesSound(l, s)
    && BuildersHoldSlots(s) && SlotsHaveBuilders(s) && OneBuilderPerKey(s)
    && Generations(s) && SleepersAwaited(s)
  }

  // ---- Every step keeps it

  /** The creation slots are the same, and no ready slot is new. */
  ghost predicate CreationsKept(h: Hosts, after: Hosts) {
    && after.generation == h.generation
    && (forall k | after.IsCreating(k) || h.IsCreating(k) ::
          after.IsCreating(k) && h.IsCreating(k) && after.entries[k] == h.entries[k])
    && (forall k | after.IsReady(k) :: h.IsReady(k) && after.entries[k] == h.entries[k])
  }

  lemma KeptCreationsKeepInv(l: Limits, s: State, after: State)
    requires Inv(l, s) && CachesSound(l, after)
    requires after.threads == s.threads && CreationsKept(s.hosts, after.hosts)
    ensures Inv(l, after)
  {
    forall t | after.Builds(t)
      ensures after.threads[t].key in after.hosts.entries
      ensures after.hosts.entries[after.threads[t].key] == Creating(after.threads[t].begun)
    {
      assert s.Builds(t);
      assert s.hosts.IsCreating(s.threads[t].key);
    }
    forall k | after.hosts.IsCreating(k) ensures exists t :: after.Builds(t) && after.threads[t].key == k {
      var t :| s.Builds(t) && s.threads[t].key == k;
      assert after.Builds(t);
    }
    forall t, u | after.Builds(t) && after.Builds(u) && after.threads[t].key == after.threads[u].key ensures t == u {
      assert s.Builds(t) && s.Builds(u);
    }
    forall t | after.Sleeps(t) ensures after.hosts.IsCreating(after.threads[t].key) {
      assert s.Sleeps(t);
    }
  }

  ghost predicate ArtifactsSound(l: Limits, c: Artifacts) {
    c.Valid() && c.Bounded(l.maxArtifacts)
  }

  lemma GetKeepsSound(l: Limits, c: Artifacts, digest: Digest)
    requires ArtifactsSound(l, c)
    ensures ArtifactsSound(l, c.Get(digest).0)
  {
    GetKeepsValid(c, digest);
  }

  lemma InsertKeepsSound(l: Limits, c: Artifacts, digest: Digest, artifact: Artifact)
    requires ArtifactsSound(l, c) && Positive(l)
    ensures ArtifactsSound(l, c.Insert(digest, artifact, l.maxArtifacts).0)
  {
    InsertSurvives(c, digest, artifact, l.maxArtifacts);
    hide Artifacts.Insert, Artifacts.Valid, Artifacts.Bounded;
  }

  lemma RemovalsKeepSound(l: Limits, c: Artifacts, digest: Digest, pool: PoolKey)
    requires ArtifactsSound(l, c)
    ensures ArtifactsSound(l, c.RemoveDigest(digest).0) && ArtifactsSound(l, c.RemovePool(pool))
  {
    RemoveDigestKeepsValid(c, digest);
    FewerEntries(c, c.RemoveDigest(digest).0);
    RemovePoolKeepsValid(c, pool);
    FewerEntries(c, c.RemovePool(pool));
    hide Artifacts.Valid;
  }

  lemma ArtifactStepsKeepSound(l: Limits, s: State, e: Event)
    requires CachesSound(l, s) && Positive(l)
    requires e.ArtifactGet? || e.ArtifactInsert? || e.ArtifactRemove? || e.ArtifactRemovePool?
    ensures CachesSound(l, Step(l, s, e))
  {
    assert ArtifactsSound(l, s.artifacts);
    assert ArtifactsSound(l, Step(l, s, e).artifacts) by {
      hide ArtifactsSound, CachesSound;
      match e
      case ArtifactGet(digest) => GetKeepsSound(l, s.artifacts, digest);
      case ArtifactInsert(digest, artifact) => InsertKeepsSound(l, s.artifacts, digest, artifact);
      case ArtifactRemove(digest) => RemovalsKeepSound(l, s.artifacts, digest, PoolKey(0, None));
      case ArtifactRemovePool(pool) => RemovalsKeepSound(l, s.artifacts, 0, pool);
    }
    hide Hosts.Valid, Hosts.Bounded, Artifacts.Valid, Artifacts.Bounded;
  }

  lemma FewerEntries(c: Artifacts, smaller: Artifacts)
    requires smaller.entries.Keys <= c.entries.Keys
    ensures |smaller.entries| <= |c.entries|
  {
    Lru.SubsetSize(smaller.entries.Keys, c.entries.Keys);
    assert |smaller.entries| == |smaller.entries.Keys| && |c.entries| == |c.entries.Keys|;
  }

  lemma LookUpKeepsInv(l: Limits, s: State, t: Thread)
    requires Inv(l, s) && s.Looks(t)
    ensures Inv(l, Step(l, s, LookUp(t)))
  {
    var key, after := s.threads[t].key, Step(l, s, LookUp(t));
    LookUpKeepsValid(s.hosts, key, l.maxReady);
    forall u | after.Builds(u)
      ensures after.threads[u].key in after.hosts.entries
      ensures after.hosts.entries[after.threads[u].key] == Creating(after.threads[u].begun)
    {
      assert u == t || s.Builds(u);
    }
    forall k | after.hosts.IsCreating(k) ensures exists u :: after.Builds(u) && after.threads[u].key == k {
      if s.hosts.IsCreating(k) {
        var u :| s.Builds(u) && s.threads[u].key == k;
        assert after.Builds(u);
      } else {
        assert after.Builds(t);
      }
    }
    forall u, v | after.Builds(u) && after.Builds(v) && after.threads[u].key == after.threads[v].key ensures u == v {
      assert u == t || s.Builds(u);
      assert v == t || s.Builds(v);
    }
    forall u | after.Sleeps(u) ensures after.hosts.IsCreating(after.threads[u].key) {
      assert u == t || s.Sleeps(u);
    }
    forall k | after.hosts.IsReady(k) ensures after.hosts.entries[k].host.begunIn == after.hosts.generation {
      assert s.hosts.IsReady(k);
    }
    forall k | after.hosts.IsCreating(k) ensures after.hosts.entries[k].generation <= after.hosts.generation {
      assert k == key || s.hosts.IsCreating(k);
    }
  }

  /** When a construction ends, its slot goes and everyone who slept will look again. */
  ghost predicate Ended(s: State, t: Thread, after: State) {
    && s.Builds(t) && after.hosts.generation == s.hosts.generation
    && (forall k :: after.hosts.IsCreating(k) <==> s.hosts.IsCreating(k) && k != s.threads[t].key)
    && (forall k | after.hosts.IsCreating(k) :: after.hosts.entries[k] == s.hosts.entries[k])
    && (forall k | after.hosts.IsReady(k) ::
          after.hosts.entries[k].host.begunIn == s.hosts.generation)
    && (forall u :: after.Builds(u) <==> s.Builds(u) && u != t)
    && (forall u | after.Builds(u) :: after.threads[u] == s.threads[u])
    && (forall u :: !after.Sleeps(u))
  }

  lemma EndedKeepsInv(l: Limits, s: State, t: Thread, after: State)
    requires Inv(l, s) && CachesSound(l, after) && Ended(s, t, after)
    ensures Inv(l, after)
  {
    forall u | after.Builds(u)
      ensures after.threads[u].key in after.hosts.entries
      ensures after.hosts.entries[after.threads[u].key] == Creating(after.threads[u].begun)
    {
      assert s.Builds(u) && s.hosts.IsCreating(s.threads[u].key);
      assert after.hosts.IsCreating(s.threads[u].key);
    }
    forall k | after.hosts.IsCreating(k) ensures exists u :: after.Builds(u) && after.threads[u].key == k {
      var u :| s.Builds(u) && s.threads[u].key == k;
      assert after.Builds(u);
    }
    forall u, v | after.Builds(u) && after.Builds(v) && after.threads[u].key == after.threads[v].key ensures u == v {
      assert s.Builds(u) && s.Builds(v);
    }
  }

  lemma SucceedEnds(l: Limits, s: State, t: Thread, serial: nat)
    requires Inv(l, s) && s.Builds(t)
    ensures Ended(s, t, Step(l, s, Succeed(t, serial))) && CachesSound(l, Step(l, s, Succeed(t, serial)))
  {
    var key, begun := s.threads[t].key, s.threads[t].begun;
    var host := Host(serial, begun);
    var after := Step(l, s, Succeed(t, serial));
    assert s.hosts.entries[key] == Creating(begun);
    FinishOkKeepsValid(s.hosts, key, begun, host, l.maxReady);
    if s.hosts.ShouldPublish(key, begun) {
      var grown := Hosts(s.hosts.entries[key := Ready(host)], Lru.Touch(s.hosts.order, key), s.hosts.generation);
      WarmedHosts.TouchKeepsValid(s.hosts, key, grown.entries);
      EvictKeepsBounded(grown, l.maxReady);
      forall k ensures after.hosts.IsCreating(k) <==> s.hosts.IsCreating(k) && k != key {
        assert after.hosts.IsCreating(k) <==> grown.IsCreating(k);
      }
      forall k | after.hosts.IsReady(k) ensures after.hosts.entries[k].host.begunIn == s.hosts.generation {
        assert k == key || s.hosts.IsReady(k);
      }
    } else {
      forall k | after.hosts.IsReady(k) ensures after.hosts.entries[k].host.begunIn == s.hosts.generation {
        assert s.hosts.IsReady(k);
      }
    }
  }

  lemma FailEnds(l: Limits, s: State, t: Thread)
    requires Inv(l, s) && s.Builds(t)
    ensures Ended(s, t, Step(l, s, Fail(t))) && CachesSound(l, Step(l, s, Fail(t)))
  {
    var key, begun := s.threads[t].key, s.threads[t].begun;
    var after := Step(l, s, Fail(t));
    assert s.hosts.entries[key] == Creating(begun);
    FinishErrKeepsValid(s.hosts, key, begun, l.maxReady);
    forall k | after.hosts.IsReady(k) ensures after.hosts.entries[k].host.begunIn == s.hosts.generation {
      assert s.hosts.IsReady(k);
    }
  }

  /** Threads that neither build nor sleep may come, go and wake freely. */
  lemma OtherThreadsKeepInv(l: Limits, s: State, after: State)
    requires Inv(l, s) && CachesSound(l, after) && after.hosts == s.hosts
    requires forall t :: after.Builds(t) <==> s.Builds(t)
    requires forall t | after.Builds(t) :: after.threads[t] == s.threads[t]
    requires forall t | after.Sleeps(t) :: s.Sleeps(t) && after.threads[t] == s.threads[t]
    ensures Inv(l, after)
  {
    forall k | after.hosts.IsCreating(k) ensures exists t :: after.Builds(t) && after.threads[t].key == k {
      var t :| s.Builds(t) && s.threads[t].key == k;
      assert after.Builds(t);
    }
  }

  lemma ClearHostsKeepsInv(l: Limits, s: State, t: Thread)
    requires Inv(l, s) && s.Free(t)
    ensures Inv(l, Step(l, s, ClearHosts(t)))
  {
    var after := Step(l, s, ClearHosts(t));
    FewerReady(s.hosts, after.hosts);
    forall k ensures after.hosts.IsCreating(k) <==> s.hosts.IsCreating(k) {
    }
    forall k | after.hosts.IsCreating(k) ensures exists u :: after.Builds(u) && after.threads[u].key == k {
      assert s.hosts.IsCreating(k);
      var u :| s.Builds(u) && s.threads[u].key == k;
      assert after.Builds(u);
    }
    forall u | after.Builds(u)
      ensures after.threads[u].key in after.hosts.entries
      ensures after.hosts.entries[after.threads[u].key] == Creating(after.threads[u].begun)
    {
      assert s.Builds(u);
    }
    forall u, v | after.Builds(u) && after.Builds(v) && after.threads[u].key == after.threads[v].key ensures u == v {
      assert s.Builds(u) && s.Builds(v);
    }
    forall u | after.Sleeps(u) ensures after.hosts.IsCreating(after.threads[u].key) {
      assert s.Sleeps(u) && s.hosts.IsCreating(s.threads[u].key);
    }
  }

  lemma ReadersKeepInv(l: Limits, s: State, e: Event)
    requires Inv(l, s) && (e.CheckReady? || e.Remove?)
    ensures Inv(l, Step(l, s, e))
  {
    var after := Step(l, s, e);
    match e {
      case CheckReady(key) => ReadyHostKeepsValid(s.hosts, key, l.maxReady);
      case Remove(key) => RemoveReadyKeepsValid(s.hosts, key, l.maxReady);
    }
    KeptCreationsKeepInv(l, s, after);
  }

  lemma EmptySound(l: Limits)
    ensures EMPTY.Valid() && EMPTY.Bounded(l.maxArtifacts)
    ensures NO_HOSTS.Valid() && NO_HOSTS.Bounded(l.maxReady)
  {
    assert NO_HOSTS.ReadyKeys() == {};
  }

  lemma CallKeepsInv(l: Limits, s: State, t: Thread, key: HostKey)
    requires Inv(l, s) && s.Free(t)
    ensures Inv(l, Step(l, s, Call(t, key)))
  {
    OtherThreadsKeepInv(l, s, Step(l, s, Call(t, key)));
  }

  lemma ClearArtifactsKeepsInv(l: Limits, s: State, t: Thread)
    requires Inv(l, s) && s.At(t, HostsCleared)
    ensures Inv(l, Step(l, s, ClearArtifacts(t)))
  {
    EmptySound(l);
    OtherThreadsKeepInv(l, s, Step(l, s, ClearArtifacts(t)));
  }

  lemma ClearNotifyKeepsInv(l: Limits, s: State, t: Thread)
    requires Inv(l, s) && s.At(t, ArtifactsCleared)
    ensures Inv(l, Step(l, s, ClearNotify(t)))
  {
    OtherThreadsKeepInv(l, s, Step(l, s, ClearNotify(t)));
  }

  lemma ArtifactStepsKeepInv(l: Limits, s: State, e: Event)
    requires Inv(l, s) && Positive(l)
    requires e.ArtifactGet? || e.ArtifactInsert? || e.ArtifactRemove? || e.ArtifactRemovePool?
    ensures Inv(l, Step(l, s, e))
  {
    ArtifactStepsKeepSound(l, s, e);
    KeptCreationsKeepInv(l, s, Step(l, s, e));
  }

  lemma SucceedKeepsInv(l: Limits, s: State, t: Thread, serial: nat)
    requires Inv(l, s) && s.Builds(t)
    ensures Inv(l, Step(l, s, Succeed(t, serial)))
  {
    SucceedEnds(l, s, t, serial);
    EndedKeepsInv(l, s, t, Step(l, s, Succeed(t, serial)));
  }

  lemma FailKeepsInv(l: Limits, s: State, t: Thread)
    requires Inv(l, s) && s.Builds(t)
    ensures Inv(l, Step(l, s, Fail(t)))
  {
    FailEnds(l, s, t);
    EndedKeepsInv(l, s, t, Step(l, s, Fail(t)));
  }

  lemma StepKeepsInv(l: Limits, s: State, e: Event)
    requires Inv(l, s) && Positive(l) && Enabled(s, e)
    ensures Inv(l, Step(l, s, e))
  {
    hide Inv, Step;
    match e
    case Call(t, key) => CallKeepsInv(l, s, t, key);
    case LookUp(t) => LookUpKeepsInv(l, s, t);
    case Succeed(t, serial) => SucceedKeepsInv(l, s, t, serial);
    case Fail(t) => FailKeepsInv(l, s, t);
    case CheckReady(_) => ReadersKeepInv(l, s, e);
    case Remove(_) => ReadersKeepInv(l, s, e);
    case ClearHosts(t) => ClearHostsKeepsInv(l, s, t);
    case ClearArtifacts(t) => ClearArtifactsKeepsInv(l, s, t);
    case ClearNotify(t) => ClearNotifyKeepsInv(l, s, t);
    case _ => ArtifactStepsKeepInv(l, s, e);
  }

  /** The invariant holds in every state of every interleaving. */
  lemma {:induction false} ReachableStatesSatisfyInv(l: Limits, states: seq<State>, events: seq<Event>, i: nat)
    requires Execution(l, states, events) && Positive(l) && i < |states|
    ensures Inv(l, states[i])
  {
    if i == 0 {
      EmptySound(l);
    } else {
      ReachableStatesSatisfyInv(l, states, events, i - 1);
      StepKeepsInv(l, states[i - 1], events[i - 1]);
    }
  }
}
