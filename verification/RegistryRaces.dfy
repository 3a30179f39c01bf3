/**
 What several callers can do to the promise for byte-based checks. An artifact and its
 host enter their caches in two critical sections; other calls may come between.
 */
module RegistryRaces {
  import opened Wrappers
  import opened Lru
  import opened WarmedArtifacts
  import opened WarmedHosts
  import opened Registry
  import opened RegistryRuns
  import RegistryLimits
  import opened RegistryProtocol
  import opened RegistryOneHost

  // ---- Callers that warm bundles and check for hosts

  /** The event hands its caller an artifact with this host key. */
  ghost predicate Fetches(t: Template, s: State, e: Event, key: HostKey) {
    && (e.ArtifactInsert? || (e.ArtifactGet? && e.digest in s.artifacts.entries))
    && t.Parses(e.digest) && key == t.KeyOf(e.digest)
  }

  ghost predicate ServesAt(t: Template, states: seq<State>, events: seq<Event>, i: nat)
    requires |states| == |events| + 1 && i < |events|
  {
    match events[i]
    case Call(_, key) => exists j :: 0 <= j < i && Fetches(t, states[j], events[j], key)
    case ArtifactInsert(digest, artifact) => t.parse(digest) == Some(artifact)
    case LookUp(_) => true
    case Succeed(_, _) => true
    case Fail(_) => true
    case CheckReady(_) => true
    case ArtifactGet(_) => true
    case _ => false
  }

  /**
   An execution of calls that ask for hosts by bytes, or check for them, and nothing
   else: a host is asked for after its artifact was fetched, and nobody removes or clears.
   */
  ghost predicate Serves(t: Template, l: Limits, states: seq<State>, events: seq<Event>) {
    && |states| == |events| + 1 && Execution(l, states, events)
    && forall i | 0 <= i < |events| :: ServesAt(t, states, events, i)
  }

  /** In the end every ready host's artifact is cached. */
  ghost predicate EndsCovered(t: Template, states: seq<State>) {
    states != [] ==> Covered(t, Reg(states[|states| - 1].artifacts, states[|states| - 1].hosts))
  }

  predicate HasKey(p: Phase) {
    p.Looking? || p.Asleep? || p.Building?
  }

  /** Every key in the host cache, or in a caller's hands, is that of a cached payload. */
  ghost predicate KnownKeys(t: Template, s: State) {
    && Parsed(t, s.artifacts)
    && (forall k | k in s.hosts.entries :: Known(t, s.artifacts, k))
    && (forall u | u in s.threads && HasKey(s.threads[u]) :: Known(t, s.artifacts, s.threads[u].key))
  }

  lemma KnownStays(t: Template, c: Artifacts, after: Artifacts, key: HostKey)
    requires Known(t, c, key) && c.entries.Keys <= after.entries.Keys
    ensures Known(t, after, key)
  {
  }

  /** Without a limit artifacts only come. */
  lemma ArtifactsOnlyCome(t: Template, l: Limits, s: State, e: Event)
    requires l.maxArtifacts.None? && Parsed(t, s.artifacts) && (e.ArtifactGet? || e.ArtifactInsert?)
    requires e.ArtifactInsert? ==> t.parse(e.digest) == Some(e.artifact)
    ensures var after := Step(l, s, e);
            && Parsed(t, after.artifacts) && s.artifacts.entries.Keys <= after.artifacts.entries.Keys
            && after.hosts == s.hosts && after.threads == s.threads
            && forall key | Fetches(t, s, e, key) :: Known(t, after.artifacts, key)
  {
    var after := Step(l, s, e).artifacts;
    forall key | Fetches(t, s, e, key) ensures Known(t, after, key) {
      assert e.digest in after.entries;
    }
  }

  /** Where a step leaves the artifacts alone, host keys come from callers only, and callers keep theirs. */
  ghost predicate KeysFrom(s: State, e: Event, after: State) {
    && after.artifacts == s.artifacts
    && (forall k | k in after.hosts.entries ::
          k in s.hosts.entries || exists u :: u in s.threads && HasKey(s.threads[u]) && s.threads[u].key == k)
    && (forall u | u in after.threads && HasKey(after.threads[u]) ::
          || (u in s.threads && HasKey(s.threads[u]) && s.threads[u].key == after.threads[u].key)
          || (e.Call? && after.threads[u].key == e.key))
  }

  lemma KeysFromKeepsKnown(t: Template, s: State, e: Event, after: State)
    requires KnownKeys(t, s) && KeysFrom(s, e, after) && (e.Call? ==> Known(t, s.artifacts, e.key))
    ensures KnownKeys(t, after)
  {
    hide Known, Parsed;
  }

  lemma LookUpKeysFrom(l: Limits, s: State, u: Thread)
    requires s.Looks(u)
    ensures KeysFrom(s, LookUp(u), Step(l, s, LookUp(u)))
  {
    assert HasKey(s.threads[u]);
  }

  lemma SucceedKeysFrom(l: Limits, s: State, u: Thread, serial: nat)
    requires Inv(l, s) && s.Builds(u)
    ensures KeysFrom(s, Succeed(u, serial), Step(l, s, Succeed(u, serial)))
  {
    var key, begun := s.threads[u].key, s.threads[u].begun;
    assert HasKey(s.threads[u]);
    var host := Host(serial, begun);
    if s.hosts.ShouldPublish(key, begun) {
      var grown := Hosts(s.hosts.entries[key := Ready(host)], Touch(s.hosts.order, key), s.hosts.generation);
      WarmedHosts.TouchKeepsValid(s.hosts, key, grown.entries);
      EvictKeepsBounded(grown, l.maxReady);
    }
    hide Inv, Hosts.EvictReadyOverLimit;
  }

  lemma OtherKeysFrom(l: Limits, s: State, e: Event)
    requires Enabled(s, e) && (e.Call? || e.Fail? || e.CheckReady?)
    ensures KeysFrom(s, e, Step(l, s, e))
  {
  }

  lemma ServingKeepsKnown(t: Template, l: Limits, s: State, e: Event)
    requires l.maxArtifacts.None? && KnownKeys(t, s) && Inv(l, s) && Enabled(s, e)
    requires e.Call? ==> Known(t, s.artifacts, e.key)
    requires e.ArtifactInsert? ==> t.parse(e.digest) == Some(e.artifact)
    requires e.Call? || e.LookUp? || e.Succeed? || e.Fail? || e.CheckReady? || e.ArtifactGet? || e.ArtifactInsert?
    ensures var after := Step(l, s, e);
            && KnownKeys(t, after) && s.artifacts.entries.Keys <= after.artifacts.entries.Keys
            && forall key | Fetches(t, s, e, key) :: Known(t, after.artifacts, key)
  {
    var after := Step(l, s, e);
    if e.ArtifactGet? || e.ArtifactInsert? {
      ArtifactsOnlyCome(t, l, s, e);
      hide Known, Parsed, Step;
      forall k | Known(t, s.artifacts, k) ensures Known(t, after.artifacts, k) {
        KnownStays(t, s.artifacts, after.artifacts, k);
      }
    } else {
      hide Known, Parsed, Step, KeysFrom, KnownKeys, Inv;
      if e.LookUp? {
        LookUpKeysFrom(l, s, e.t);
      } else if e.Succeed? {
        SucceedKeysFrom(l, s, e.t, e.serial);
      } else {
        OtherKeysFrom(l, s, e);
      }
      SameArtifacts(s, e, after);
      KeysFromKeepsKnown(t, s, e, after);
    }
  }

  lemma SameArtifacts(s: State, e: Event, after: State)
    requires KeysFrom(s, e, after)
    ensures after.artifacts == s.artifacts
  {
  }

  /** What was fetched in the first `i` events is cached. */
  ghost predicate FetchedIsKnown(t: Template, states: seq<State>, events: seq<Event>, i: nat)
    requires i <= |events| && |states| == |events| + 1
  {
    forall j, key | 0 <= j < i && Fetches(t, states[j], events[j], key) :: Known(t, states[i].artifacts, key)
  }

  lemma FetchedStays(t: Template, states: seq<State>, events: seq<Event>, i: nat)
    requires i < |events| && |states| == |events| + 1 && FetchedIsKnown(t, states, events, i)
    requires states[i].artifacts.entries.Keys <= states[i + 1].artifacts.entries.Keys
    requires forall key | Fetches(t, states[i], events[i], key) :: Known(t, states[i + 1].artifacts, key)
    ensures FetchedIsKnown(t, states, events, i + 1)
  {
    hide Fetches, Known;
    forall j, key | 0 <= j < i + 1 && Fetches(t, states[j], events[j], key) ensures Known(t, states[i + 1].artifacts, key) {
      if j < i {
        KnownStays(t, states[i].artifacts, states[i + 1].artifacts, key);
      }
    }
  }

  /** What is known of the i-th event of such an execution. */
  lemma ServedStep(t: Template, l: Limits, states: seq<State>, events: seq<Event>, i: nat)
    requires Serves(t, l, states, events) && i < |events| && FetchedIsKnown(t, states, events, i)
    ensures Enabled(states[i], events[i]) && states[i + 1] == Step(l, states[i], events[i])
    ensures var e := events[i];
            && (e.Call? ==> Known(t, states[i].artifacts, e.key))
            && (e.ArtifactInsert? ==> t.parse(e.digest) == Some(e.artifact))
            && (e.Call? || e.LookUp? || e.Succeed? || e.Fail? || e.CheckReady? || e.ArtifactGet? || e.ArtifactInsert?)
  {
    hide Step, Enabled, Known, Fetches;
    assert ServesAt(t, states, events, i);
  }

  lemma {:induction false} ServedStatesKnown(t: Template, l: Limits, states: seq<State>, events: seq<Event>, i: nat)
    requires Serves(t, l, states, events) && Positive(l) && l.maxArtifacts.None? && i <= |events|
    ensures KnownKeys(t, states[i]) && FetchedIsKnown(t, states, events, i)
  {
    if i > 0 {
      ServedStatesKnown(t, l, states, events, i - 1);
      ReachableStatesSatisfyInv(l, states, events, i - 1);
      ServedStep(t, l, states, events, i - 1);
      hide *;
      ServingKeepsKnown(t, l, states[i - 1], events[i - 1]);
      FetchedStays(t, states, events, i - 1);
    }
  }

  lemma KnownIsCovered(t: Template, s: State)
    requires DistinctKeys(t) && KnownKeys(t, s)
    ensures Covered(t, Reg(s.artifacts, s.hosts))
  {
    forall d | t.Parses(d) && s.hosts.IsReady(t.KeyOf(d)) ensures d in s.artifacts.entries {
      assert Known(t, s.artifacts, t.KeyOf(d));
    }
  }

  lemma ServedIsCovered(t: Template, l: Limits, states: seq<State>, events: seq<Event>)
    requires DistinctKeys(t) && Positive(l) && l.maxArtifacts.None? && Serves(t, l, states, events)
    ensures EndsCovered(t, states)
  {
    ServedStatesKnown(t, l, states, events, |events|);
    KnownIsCovered(t, states[|events|]);
  }

  // ---- One caller that builds

  /** The bundles are numbered; thread 0 asks for the host of bundle 0. */
  const BUNDLES := RegistryLimits.NUMBERED

  const KEY := BUNDLES.KeyOf(0)

  /** Ends with the ready host of bundle 0 without its artifact. */
  ghost predicate LosesIt(l: Limits, states: seq<State>, events: seq<Event>) {
    && |states| == |events| + 1 && Execution(l, states, events)
    && states[|events|].hosts.IsReady(KEY) && 0 !in states[|events|].artifacts.entries
  }

  lemma ExecutionGrows(l: Limits, states: seq<State>, events: seq<Event>, e: Event)
    requires Execution(l, states, events) && Enabled(states[|events|], e)
    ensures Execution(l, states + [Step(l, states[|events|], e)], events + [e])
  {
    var longer, more := states + [Step(l, states[|events|], e)], events + [e];
    forall i | 0 <= i < |more| ensures Enabled(longer[i], more[i]) && longer[i + 1] == Step(l, longer[i], more[i]) {
      assert longer[i] == states[i];
      if i < |events| {
        assert longer[i + 1] == states[i + 1] && more[i] == events[i];
      }
    }
  }

  /** Thread 0 builds the host of bundle 0, and nothing else is in the host cache. */
  ghost predicate BuildingFirst(s: State) {
    && s.hosts == Hosts(map[KEY := Creating(0)], [], 0)
    && s.Builds(0) && s.threads[0] == Building(KEY, 0)
    && s.artifacts.Valid() && Parsed(BUNDLES, s.artifacts)
  }

  lemma FirstInserted(l: Limits)
    requires Positive(l)
    ensures var after := EMPTY.Insert(0, BUNDLES.parse(0).value, l.maxArtifacts).0;
            after.Valid() && Parsed(BUNDLES, after) && after.order == [0]
  {
    InsertedArtifacts(BUNDLES, l, EMPTY, 0);
    assert [] + [0] == [0];
  }

  /** The first artifact is in, and thread 0 is about to look for its host. */
  ghost predicate Asking(s: State) {
    && s.hosts == NO_HOSTS && s.threads == map[0 := Looking(KEY)]
    && s.artifacts.Valid() && Parsed(BUNDLES, s.artifacts) && s.artifacts.order == [0]
  }

  const START := State(NO_HOSTS, EMPTY, map[])

  lemma TwoSteps(l: Limits, a: Event, b: Event)
    requires Enabled(START, a) && Enabled(Step(l, START, a), b)
    ensures Execution(l, [START, Step(l, START, a), Step(l, Step(l, START, a), b)], [a, b])
  {
    hide Step, Enabled;
  }

  lemma AskNext(l: Limits, s: State)
    requires s.hosts == NO_HOSTS && s.threads == map[]
    requires s.artifacts.Valid() && Parsed(BUNDLES, s.artifacts) && s.artifacts.order == [0]
    ensures Enabled(s, Call(0, KEY)) && Asking(Step(l, s, Call(0, KEY)))
  {
    hide Artifacts.Valid, Parsed;
  }

  lemma InsertIs(l: Limits, s: State, d: Digest, artifact: Artifact)
    ensures Enabled(s, ArtifactInsert(d, artifact))
    ensures Step(l, s, ArtifactInsert(d, artifact)) ==
            State(s.hosts, s.artifacts.Insert(d, artifact, l.maxArtifacts).0, s.threads)
  {
    hide Artifacts.Insert;
  }

  lemma AskAfterInsert(l: Limits, artifact: Artifact)
    requires var c := EMPTY.Insert(0, artifact, l.maxArtifacts).0; c.Valid() && Parsed(BUNDLES, c) && c.order == [0]
    ensures var insert := ArtifactInsert(0, artifact);
            && Enabled(START, insert) && Enabled(Step(l, START, insert), Call(0, KEY))
            && Asking(Step(l, Step(l, START, insert), Call(0, KEY)))
  {
    InsertIs(l, START, 0, artifact);
    hide Artifacts.Valid, Parsed, Artifacts.Insert, Step, Asking, Enabled;
    AskNext(l, Step(l, START, ArtifactInsert(0, artifact)));
  }

  lemma AskingBegins(l: Limits) returns (states: seq<State>, events: seq<Event>)
    requires Positive(l)
    ensures |states| == |events| + 1 && Execution(l, states, events) && Asking(states[|events|])
    ensures events == [ArtifactInsert(0, BUNDLES.parse(0).value), Call(0, KEY)]
  {
    var insert, ask := ArtifactInsert(0, BUNDLES.parse(0).value), Call(0, KEY);
    FirstInserted(l);
    AskAfterInsert(l, BUNDLES.parse(0).value);
    hide Step, Asking, Enabled, Execution, Artifacts.Insert, Artifacts.Valid, Parsed;
    TwoSteps(l, insert, ask);
    var one := Step(l, START, insert);
    states, events := [START, one, Step(l, one, ask)], [insert, ask];
  }

  lemma LookBuilds(l: Limits, s: State)
    requires Asking(s)
    ensures Enabled(s, LookUp(0))
    ensures var after := Step(l, s, LookUp(0)); BuildingFirst(after) && after.artifacts == s.artifacts
  {
    assert NO_HOSTS.LookUp(KEY) == (Hosts(map[KEY := Creating(0)], [], 0), MustBuild(0));
    hide Hosts.LookUp, Artifacts.Valid, Parsed;
  }

  lemma AskingBuilds(s: State)
    requires Asking(s)
    ensures s.artifacts.order == [0]
  {
  }

  lemma BuildingBegins(l: Limits) returns (states: seq<State>, events: seq<Event>)
    requires Positive(l)
    ensures |states| == |events| + 1
    ensures Execution(l, states, events) && BuildingFirst(states[|events|]) && states[|events|].artifacts.order == [0]
    ensures events == [ArtifactInsert(0, BUNDLES.parse(0).value), Call(0, KEY), LookUp(0)]
  {
    states, events := AskingBegins(l);
    var s := states[|events|];
    AskingBuilds(s);
    hide Asking, BuildingFirst, Step, Execution;
    LookBuilds(l, s);
    states, events := OneMoreStep(l, states, events, LookUp(0));
  }

  lemma OneMoreStep(l: Limits, before: seq<State>, done: seq<Event>, e: Event) returns (states: seq<State>, events: seq<Event>)
    requires Execution(l, before, done) && Enabled(before[|done|], e)
    ensures |states| == |events| + 1
    ensures Execution(l, states, events) && states[|events|] == Step(l, before[|done|], e) && events == done + [e]
  {
    hide Step, Enabled;
    ExecutionGrows(l, before, done, e);
    states, events := before + [Step(l, before[|done|], e)], done + [e];
  }

  /** When thread 0 publishes, its host is ready, whatever has become of the artifact. */
  lemma Publishes(l: Limits, s: State)
    requires Positive(l) && BuildingFirst(s)
    ensures Enabled(s, Succeed(0, 0)) && Step(l, s, Succeed(0, 0)).hosts.IsReady(KEY)
    ensures Step(l, s, Succeed(0, 0)).artifacts == s.artifacts
  {
    PublishedSurvives(s.hosts, KEY, 0, Host(0, 0), l.maxReady);
    hide Hosts.FinishOk;
  }

  // ---- Bundles warmed meanwhile

  function Upto(n: nat): seq<Digest> {
    seq(n, i requires 0 <= i < n => i)
  }

  lemma UptoInserted(t: Template, l: Limits, c: Artifacts, n: nat)
    requires Positive(l) && l.maxArtifacts.Some? && n <= l.maxArtifacts.value
    requires c.Valid() && Parsed(t, c) && t.Parses(n) && c.order == Upto(n)
    ensures var after := c.Insert(n, t.parse(n).value, l.maxArtifacts).0;
            && after.Valid() && Parsed(t, after)
            && after.order == if n == l.maxArtifacts.value then Upto(n + 1)[1..] else Upto(n + 1)
  {
    UptoGrows(n);
    assert n !in c.entries;
    hide Artifacts.Insert, Artifacts.Valid, Parsed, Upto;
    InsertedArtifacts(t, l, c, n);
  }

  lemma UptoGrows(n: nat)
    ensures n !in Upto(n) && |Upto(n)| == n && Upto(n + 1) == Upto(n) + [n]
  {
  }

  lemma InsertsBeside(l: Limits, s: State, d: Digest, artifact: Artifact)
    requires BuildingFirst(s)
    requires var c := s.artifacts.Insert(d, artifact, l.maxArtifacts).0; c.Valid() && Parsed(BUNDLES, c)
    ensures BuildingFirst(Step(l, s, ArtifactInsert(d, artifact)))
    ensures Step(l, s, ArtifactInsert(d, artifact)).artifacts == s.artifacts.Insert(d, artifact, l.maxArtifacts).0
  {
    InsertIs(l, s, d, artifact);
    hide Artifacts.Insert, Artifacts.Valid, Parsed, Step;
  }

  /** Other callers insert the artifact of bundle `n` while thread 0 builds. */
  lemma InsertNext(l: Limits, s: State, n: nat)
    requires Positive(l) && l.maxArtifacts.Some? && n <= l.maxArtifacts.value
    requires BuildingFirst(s) && s.artifacts.order == Upto(n)
    ensures var after := Step(l, s, ArtifactInsert(n, BUNDLES.parse(n).value));
            && BuildingFirst(after)
            && after.artifacts.order == if n == l.maxArtifacts.value then Upto(n + 1)[1..] else Upto(n + 1)
  {
    assert BUNDLES.Parses(n);
    UptoInserted(BUNDLES, l, s.artifacts, n);
    hide BuildingFirst, Step, Artifacts.Insert, Artifacts.Valid, Parsed, Upto;
    InsertsBeside(l, s, n, BUNDLES.parse(n).value);
  }

  lemma FirstIsUpto()
    ensures Upto(1) == [0]
  {
  }

  /** Bundle 0 is asked for, and from then on bundles are inserted and constructions succeed. */
  ghost predicate Warming(events: seq<Event>) {
    && |events| >= 3 && events[..3] == [ArtifactInsert(0, BUNDLES.parse(0).value), Call(0, KEY), LookUp(0)]
    && forall i | 3 <= i < |events| ::
         events[i].Succeed? || (events[i].ArtifactInsert? && BUNDLES.parse(events[i].digest) == Some(events[i].artifact))
  }

  lemma WarmingGrows(events: seq<Event>, e: Event)
    requires Warming(events)
    requires e.Succeed? || (e.ArtifactInsert? && BUNDLES.parse(e.digest) == Some(e.artifact))
    ensures Warming(events + [e])
  {
    assert (events + [e])[..3] == events[..3];
  }

  lemma WarmingServes(l: Limits, states: seq<State>, events: seq<Event>)
    requires |states| == |events| + 1 && Execution(l, states, events) && Warming(events)
    ensures Serves(BUNDLES, l, states, events)
  {
    hide Execution;
    assert events[0] == events[..3][0] && events[1] == events[..3][1] && events[2] == events[..3][2];
    assert BUNDLES.Parses(0);
    assert Fetches(BUNDLES, states[0], events[0], KEY);
  }

  lemma {:induction false} FilledMeanwhile(l: Limits, n: nat) returns (states: seq<State>, events: seq<Event>)
    requires Positive(l) && l.maxArtifacts.Some? && 1 <= n <= l.maxArtifacts.value
    ensures |states| == |events| + 1
    ensures Execution(l, states, events) && BuildingFirst(states[|events|])
    ensures states[|events|].artifacts.order == Upto(n) && Warming(events)
  {
    hide Step, Execution, BuildingFirst;
    if n == 1 {
      states, events := BuildingBegins(l);
      FirstIsUpto();
      assert events[..3] == events;
    } else {
      states, events := FilledMeanwhile(l, n - 1);
      InsertNext(l, states[|events|], n - 1);
      WarmingGrows(events, ArtifactInsert(n - 1, BUNDLES.parse(n - 1).value));
      states, events := OneMoreStep(l, states, events, ArtifactInsert(n - 1, BUNDLES.parse(n - 1).value));
    }
  }

  /**
   Under every artifact limit, although nobody removes anything and no construction
   fails: while one caller builds its host, others warm bundles until its artifact is
   evicted, and then it publishes the host.
   */
  lemma EvictedWhileBuilding(l: Limits) returns (states: seq<State>, events: seq<Event>)
    requires Positive(l) && l.maxArtifacts.Some?
    ensures LosesIt(l, states, events) && Serves(BUNDLES, l, states, events) && forall e | e in events :: !e.Fail?
  {
    var n := l.maxArtifacts.value;
    states, events := FilledMeanwhile(l, n);
    InsertNext(l, states[|events|], n);
    assert 0 !in Upto(n + 1)[1..];
    WarmingGrows(events, ArtifactInsert(n, BUNDLES.parse(n).value));
    states, events := OneMoreStep(l, states, events, ArtifactInsert(n, BUNDLES.parse(n).value));
    NotCached(states[|events|], 0);
    Publishes(l, states[|events|]);
    hide Step, Execution, BuildingFirst, Enabled, Warming;
    WarmingGrows(events, Succeed(0, 0));
    states, events := OneMoreStep(l, states, events, Succeed(0, 0));
    WarmingServes(l, states, events);
    NeverFails(events);
  }

  lemma NeverFails(events: seq<Event>)
    requires Warming(events)
    ensures forall e | e in events :: !e.Fail?
  {
    forall i | 0 <= i < |events| ensures !events[i].Fail? {
      if i < 3 {
        assert events[i] == events[..3][i];
      }
    }
  }

  lemma NotCached(s: State, d: Digest)
    requires BuildingFirst(s) && d !in s.artifacts.order
    ensures d !in s.artifacts.entries
  {
  }

  lemma LosingIsUncovered(l: Limits, states: seq<State>, events: seq<Event>)
    requires LosesIt(l, states, events)
    ensures !EndsCovered(BUNDLES, states) && DistinctKeys(BUNDLES)
  {
    hide Execution;
    assert BUNDLES.Parses(0);
  }

  /**
   Any number of callers that ask for hosts by bytes and check for them, with nobody
   removing or clearing, keep every ready host's artifact exactly if there is no
   artifact limit: the limit that suffices for one caller does not for several.
   */
  lemma SharedServingExactly(l: Limits)
    requires Positive(l)
    ensures (forall t: Template, states: seq<State>, events: seq<Event> ::
               DistinctKeys(t) && Serves(t, l, states, events) ==> EndsCovered(t, states))
            <==> l.maxArtifacts.None?
  {
    hide Serves, EndsCovered, DistinctKeys, LosesIt;
    if l.maxArtifacts.None? {
      forall t: Template, states: seq<State>, events: seq<Event> | DistinctKeys(t) && Serves(t, l, states, events)
        ensures EndsCovered(t, states)
      {
        ServedIsCovered(t, l, states, events);
      }
    } else {
      var states, events := EvictedWhileBuilding(l);
      LosingIsUncovered(l, states, events);
    }
  }

  // ---- A removal meanwhile

  /** Removal by bytes while thread 0 builds: the artifact goes, and there is no ready host to remove. */
  lemma RemovedMeanwhile(l: Limits, s: State)
    requires BuildingFirst(s)
    ensures var gone := Step(l, s, ArtifactRemove(0));
            BuildingFirst(gone) && 0 !in gone.artifacts.entries && Step(l, gone, Remove(KEY)) == gone
  {
    RemoveDigestKeepsValid(s.artifacts, 0);
  }

  /** Under any limits a removal by bytes that comes between a caller's two sections leaves its host without the artifact. */
  lemma RemovedWhileBuilding(l: Limits) returns (states: seq<State>, events: seq<Event>)
    requires Positive(l)
    ensures LosesIt(l, states, events)
    ensures events == [ArtifactInsert(0, BUNDLES.parse(0).value), Call(0, KEY), LookUp(0),
                       ArtifactRemove(0), Remove(KEY), Succeed(0, 0)]
  {
    states, events := BuildingBegins(l);
    RemovedMeanwhile(l, states[|events|]);
    states, events := OneMoreStep(l, states, events, ArtifactRemove(0));
    Publishes(l, states[|events|]);
    hide Step, Execution, BuildingFirst;
    states, events := OneMoreStep(l, states, events, Remove(KEY));
    states, events := OneMoreStep(l, states, events, Succeed(0, 0));
  }
}
