/**
 `WarmedBundleHostRegistry` driven by one caller at a time: its operations over both
 caches, addressed by bytes or by artifact. The properties of runs are in
 RegistryRuns and, for calls by artifact, in RegistryArtifacts.
 */
module Registry {
  import opened Wrappers
  import opened Lru
  import opened WarmedArtifacts
  import opened WarmedHosts

  datatype Limits = Limits(maxReady: Option<nat>, maxArtifacts: Option<nat>)

  function AtLeast(n: nat, floor: nat): nat {
    if n < floor then floor else n
  }

  /** The limits a registry is created with, from the limits it was asked for. */
  function WithOptions(maxReady: Option<nat>, maxArtifacts: Option<nat>): Limits {
    var ready := match maxReady
      case Some(n) => Some(AtLeast(n, 1))
      case None => None;
    var artifacts := match maxArtifacts
      case Some(n) => Some(if ready.Some? then AtLeast(AtLeast(n, 1), ready.value) else AtLeast(n, 1))
      case None => None;
    Limits(ready, artifacts)
  }

  /** Neither limit is zero. */
  predicate Positive(l: Limits) {
    (l.maxReady.Some? ==> l.maxReady.value >= 1) && (l.maxArtifacts.Some? ==> l.maxArtifacts.value >= 1)
  }

  /**
   What a registry is built around: the descriptor override of its options, and
   the parser, here a function of the digest because the digest stands for the
   payload. `None` is a payload that is not a bundle.
   */
  datatype Template = Template(descriptor: Option<Descriptor>, parse: Digest -> Option<Artifact>) {
    function DescriptorFor(artifact: Artifact): Descriptor {
      var d := if descriptor.Some? then descriptor.value else artifact.descriptor;
      if d.language.Some? then d else d.(language := Some(artifact.language))
    }

    function KeyFor(artifact: Artifact): HostKey {
      HostKey(artifact.pool, DescriptorFor(artifact))
    }

    predicate Parses(digest: Digest) {
      parse(digest).Some?
    }

    function KeyOf(digest: Digest): HostKey
      requires Parses(digest)
    {
      KeyFor(parse(digest).value)
    }
  }

  /** Two artifacts share a host exactly if they share the pool and, override considered, entry point and language. */
  lemma SameKeyExactly(t: Template, a: Artifact, b: Artifact)
    ensures t.KeyFor(a) == t.KeyFor(b) <==>
              && a.pool == b.pool
              && match t.descriptor
                 case Some(d) => d.language.Some? || a.language == b.language
                 case None =>
                   && a.descriptor.entrypoint == b.descriptor.entrypoint
                   && (if a.descriptor.language.Some? then a.descriptor.language.value else a.language) ==
                      (if b.descriptor.language.Some? then b.descriptor.language.value else b.language)
  {
  }

  datatype Reg = Reg(artifacts: Artifacts, hosts: Hosts)

  const FRESH := Reg(EMPTY, NO_HOSTS)

  /**
   `HostFor` also stands for prewarming. `created` is the outcome a construction
   would have: the serial number of the new host, or a failure.
   */
  datatype Op =
    | HostFor(digest: Digest, created: Option<nat>)
    | ReadyFor(digest: Digest)
    | RemoveFor(digest: Digest)
    | Clear

  function ArtifactFor(t: Template, l: Limits, c: Artifacts, digest: Digest): (Artifacts, Option<Artifact>) {
    if digest in c.entries then c.Get(digest)
    else match t.parse(digest)
      case None => (c, None)
      case Some(parsed) =>
        var (after, stored) := c.Insert(digest, parsed, l.maxArtifacts);
        (after, Some(stored))
  }

  /** With no other caller a look never says `MustWait`; that branch would block. */
  function LookOrCreate(l: Limits, h: Hosts, key: HostKey, created: Option<nat>): (Hosts, Option<Host>) {
    var (looked, look) := h.LookUp(key);
    match look
    case Found(host) => (looked, Some(host))
    case MustWait => (looked, None)
    case MustBuild(begun) =>
      match created
      case None => (looked.FinishErr(key, begun), None)
      case Some(serial) =>
        var host := Host(serial, begun);
        (looked.FinishOk(key, begun, host, l.maxReady), Some(host))
  }

  function RemoveHostOf(t: Template, r: Reg, artifact: Artifact): (Reg, Option<Host>) {
    var (hosts, removed) := r.hosts.RemoveReady(t.KeyFor(artifact));
    (Reg(if removed.Some? then r.artifacts.RemovePool(artifact.pool) else r.artifacts, hosts), removed)
  }

  function Apply(t: Template, l: Limits, r: Reg, op: Op): (Reg, Option<Host>) {
    match op
    case HostFor(digest, created) =>
      var (artifacts, artifact) := ArtifactFor(t, l, r.artifacts, digest);
      if artifact.None? then (Reg(artifacts, r.hosts), None)
      else
        var (hosts, host) := LookOrCreate(l, r.hosts, t.KeyFor(artifact.value), created);
        (Reg(artifacts, hosts), host)
    case ReadyFor(digest) =>
      var (artifacts, artifact) := r.artifacts.Get(digest);
      if artifact.None? then (Reg(artifacts, r.hosts), None)
      else
        var (hosts, host) := r.hosts.ReadyHost(t.KeyFor(artifact.value));
        (Reg(artifacts, hosts), host)
    case RemoveFor(digest) =>
      var (artifacts, artifact) := r.artifacts.RemoveDigest(digest);
      if artifact.None? then (Reg(artifacts, r.hosts), None)
      else RemoveHostOf(t, Reg(artifacts, r.hosts), artifact.value)
    case Clear => (Reg(EMPTY, r.hosts.ClearReady()), None)
  }

  /**
   The calls of the registry, the byte-addressed operations among them. A call by
   artifact goes to the host cache alone, unless it removes a host.
   */
  datatype Call =
    | ByBytes(op: Op)
    | HostOf(artifact: Artifact, created: Option<nat>)
    | ReadyOf(artifact: Artifact)
    | RemoveOf(artifact: Artifact)

  function Perform(t: Template, l: Limits, r: Reg, call: Call): (Reg, Option<Host>) {
    match call
    case ByBytes(op) => Apply(t, l, r, op)
    case HostOf(artifact, created) =>
      var (hosts, host) := LookOrCreate(l, r.hosts, t.KeyFor(artifact), created);
      (Reg(r.artifacts, hosts), host)
    case ReadyOf(artifact) =>
      var (hosts, host) := r.hosts.ReadyHost(t.KeyFor(artifact));
      (Reg(r.artifacts, hosts), host)
    case RemoveOf(artifact) => RemoveHostOf(t, r, artifact)
  }

  function Run(t: Template, l: Limits, ops: seq<Op>): Reg {
    if ops == [] then FRESH
    else Apply(t, l, Run(t, l, ops[..|ops| - 1]), ops[|ops| - 1]).0
  }

  // ---- Sound states between calls

  /** Cached artifacts are what their payloads parse to. */
  ghost predicate Parsed(t: Template, c: Artifacts) {
    forall d | d in c.entries :: t.parse(d) == Some(c.entries[d])
  }

  /** No creation is in flight. */
  ghost predicate Quiet(h: Hosts) {
    forall k | k in h.entries :: h.entries[k].Ready?
  }

  lemma KeptParsed(t: Template, c: Artifacts, after: Artifacts)
    requires Parsed(t, c) && forall d | d in after.entries :: d in c.entries && after.entries[d] == c.entries[d]
    ensures Parsed(t, after)
  {
  }

  /** A payload is looked up, or parsed and cached: the answer is its artifact, if it has one. */
  lemma ArtifactForSettles(t: Template, l: Limits, c: Artifacts, digest: Digest)
    requires c.Valid() && Parsed(t, c)
    ensures var (after, found) := ArtifactFor(t, l, c, digest);
            after.Valid() && Parsed(t, after) && found == t.parse(digest)
  {
    GetKeepsValid(c, digest);
    if digest !in c.entries && t.Parses(digest) {
      var grown := Artifacts(c.entries[digest := t.parse(digest).value], Touch(c.order, digest));
      WarmedArtifacts.TouchKeepsValid(c, digest, grown.entries);
      EvictKeepsValid(grown, l.maxArtifacts);
      if l.maxArtifacts.Some? {
        WarmedArtifacts.EvictKeepsNewest(grown, l.maxArtifacts.value);
      }
      KeptParsed(t, grown, grown.EvictOverLimit(l.maxArtifacts));
    }
  }

  /**
   What a call for the host of `key` must answer, from the slots before and after: a
   host that was ready already, or else the one just constructed; in either case the
   host that is ready now. Nothing is answered only after a failed construction.
   */
  ghost predicate AnswersHost(before: Hosts, key: HostKey, created: Option<nat>, after: Hosts, host: Option<Host>) {
    && (before.IsReady(key) ==> host == Some(before.entries[key].host))
    && (!before.IsReady(key) && created.Some? ==> host == Some(Host(created.value, before.generation)))
    && (host.None? <==> !before.IsReady(key) && created.None?)
    && (host.Some? ==> after.IsReady(key) && after.entries[key].host == host.value)
  }

  /** A lone caller gets the host that is ready in the end, and leaves a sound host cache with nothing in flight. */
  lemma LookOrCreateSettles(l: Limits, h: Hosts, key: HostKey, created: Option<nat>)
    requires h.Valid() && Quiet(h) && Positive(l)
    ensures var (after, host) := LookOrCreate(l, h, key, created);
            after.Valid() && Quiet(after) && AnswersHost(h, key, created, after, host)
  {
    var looked := h.LookUp(key).0;
    LookUpKeepsValid(h, key, None);
    if !h.IsReady(key) {
      if created.Some? {
        var host := Host(created.value, h.generation);
        FinishOkKeepsValid(looked, key, h.generation, host, None);
        PublishedSurvives(looked, key, h.generation, host, l.maxReady);
        EvictKeepsBounded(looked.FinishOk(key, h.generation, host, None), l.maxReady);
      } else {
        FinishErrKeepsValid(looked, key, h.generation, None);
      }
    }
  }

  lemma ReadersSettle(h: Hosts, key: HostKey)
    requires h.Valid() && Quiet(h)
    ensures h.ReadyHost(key).0.Valid() && Quiet(h.ReadyHost(key).0)
    ensures h.RemoveReady(key).0.Valid() && Quiet(h.RemoveReady(key).0)
  {
    ReadyHostKeepsValid(h, key, None);
    RemoveReadyKeepsValid(h, key, None);
  }

  // ---- What each call answers

  /** Both caches are sound and no creation is in flight: the caller is alone. */
  ghost predicate Settled(t: Template, r: Reg) {
    r.artifacts.Valid() && Parsed(t, r.artifacts) && r.hosts.Valid() && Quiet(r.hosts)
  }

  /** The host that is ready under a key, if there is one. */
  ghost function ReadyUnder(h: Hosts, key: HostKey): Option<Host> {
    if h.IsReady(key) then Some(h.entries[key].host) else None
  }

  /** Asking for a host by bytes answers nothing for what is no bundle, and else as `AnswersHost` says. */
  lemma HostForAnswers(t: Template, l: Limits, r: Reg, digest: Digest, created: Option<nat>)
    requires Settled(t, r) && Positive(l)
    ensures var (after, host) := Apply(t, l, r, HostFor(digest, created));
            && Settled(t, after)
            && if t.Parses(digest) then AnswersHost(r.hosts, t.KeyOf(digest), created, after.hosts, host)
               else host == None && after.hosts == r.hosts
  {
    ArtifactForSettles(t, l, r.artifacts, digest);
    if t.Parses(digest) {
      LookOrCreateSettles(l, r.hosts, t.KeyOf(digest), created);
    }
  }

  lemma HostOfAnswers(t: Template, l: Limits, r: Reg, artifact: Artifact, created: Option<nat>)
    requires Settled(t, r) && Positive(l)
    ensures var (after, host) := Perform(t, l, r, HostOf(artifact, created));
            && Settled(t, after) && after.artifacts == r.artifacts
            && AnswersHost(r.hosts, t.KeyFor(artifact), created, after.hosts, host)
  {
    LookOrCreateSettles(l, r.hosts, t.KeyFor(artifact), created);
  }

  /** A check answers the host that is ready, by bytes only if the payload is cached; it never parses and changes no entry. */
  lemma ReadyAnswers(t: Template, l: Limits, r: Reg, digest: Digest, artifact: Artifact)
    requires Settled(t, r)
    ensures var (after, host) := Apply(t, l, r, ReadyFor(digest));
            && Settled(t, after) && after.artifacts.entries == r.artifacts.entries && after.hosts.entries == r.hosts.entries
            && host == if digest in r.artifacts.entries then ReadyUnder(r.hosts, t.KeyFor(r.artifacts.entries[digest])) else None
    ensures var (after, host) := Perform(t, l, r, ReadyOf(artifact));
            && Settled(t, after) && after.artifacts == r.artifacts && after.hosts.entries == r.hosts.entries
            && host == ReadyUnder(r.hosts, t.KeyFor(artifact))
  {
    GetKeepsValid(r.artifacts, digest);
    ReadersSettle(r.hosts, t.KeyFor(artifact));
    if digest in r.artifacts.entries {
      ReadersSettle(r.hosts, t.KeyFor(r.artifacts.entries[digest]));
    }
  }

  /** What is left in the two maps when the host of an artifact is removed, and with it the artifacts of its pool. */
  ghost predicate WithoutHostOf(t: Template, cached: map<Digest, Artifact>, before: Hosts, artifact: Artifact, after: Reg) {
    var key := t.KeyFor(artifact);
    && after.hosts.entries == (if before.IsReady(key) then before.entries - {key} else before.entries)
    && forall d :: d in after.artifacts.entries <==>
         d in cached && !(before.IsReady(key) && cached[d].pool == artifact.pool)
  }

  lemma RemoveOfAnswers(t: Template, l: Limits, r: Reg, artifact: Artifact)
    requires Settled(t, r)
    ensures var (after, host) := Perform(t, l, r, RemoveOf(artifact));
            && Settled(t, after) && host == ReadyUnder(r.hosts, t.KeyFor(artifact))
            && WithoutHostOf(t, r.artifacts.entries, r.hosts, artifact, after)
  {
    ReadersSettle(r.hosts, t.KeyFor(artifact));
    RemovePoolKeepsValid(r.artifacts, artifact.pool);
    KeptParsed(t, r.artifacts, r.artifacts.RemovePool(artifact.pool));
    assert forall d :: d in r.artifacts.PoolDigests(artifact.pool) <==>
                       d in r.artifacts.entries && r.artifacts.entries[d].pool == artifact.pool;
  }

  lemma StaysAway(t: Template, cached: map<Digest, Artifact>, before: Hosts, artifact: Artifact, after: Reg, d: Digest)
    requires WithoutHostOf(t, cached, before, artifact, after) && d !in cached
    ensures d !in after.artifacts.entries
  {
  }

  /** Removal by bytes takes the payload's artifact and then does as removal by that artifact. */
  lemma RemoveForAnswers(t: Template, l: Limits, r: Reg, digest: Digest)
    requires Settled(t, r)
    ensures var (after, host) := Apply(t, l, r, RemoveFor(digest));
            && Settled(t, after) && digest !in after.artifacts.entries
            && if digest !in r.artifacts.entries then host == None && after.hosts == r.hosts && after.artifacts.entries == r.artifacts.entries
               else
                 && host == ReadyUnder(r.hosts, t.KeyFor(r.artifacts.entries[digest]))
                 && WithoutHostOf(t, r.artifacts.entries - {digest}, r.hosts, r.artifacts.entries[digest], after)
  {
    var rest := r.artifacts.RemoveDigest(digest).0;
    RemoveDigestKeepsValid(r.artifacts, digest);
    KeptParsed(t, r.artifacts, rest);
    if digest in r.artifacts.entries {
      RemoveOfAnswers(t, l, Reg(rest, r.hosts), r.artifacts.entries[digest]);
      StaysAway(t, rest.entries, r.hosts, r.artifacts.entries[digest], RemoveHostOf(t, Reg(rest, r.hosts), r.artifacts.entries[digest]).0, digest);
      hide RemoveHostOf, WithoutHostOf, Artifacts.Valid, Hosts.Valid, Parsed, Quiet;
    } else {
      assert rest.entries == r.artifacts.entries;
    }
  }

  /** The registry object, for one caller at a time. */
  class WarmedBundleHostRegistry {
    const template: Template
    const limits: Limits
    const artifacts: WarmedArtifactCache
    const hosts: WarmedHostCache

    ghost function Value(): Reg
      reads artifacts, hosts
    {
      Reg(artifacts.Value(), hosts.Value())
    }

    ghost predicate Coherent()
      reads artifacts, hosts
    {
      Settled(template, Value()) && Positive(limits)
    }

    constructor (template: Template, maxReady: Option<nat>, maxArtifacts: Option<nat>)
      ensures Value() == FRESH && Coherent() && fresh(artifacts) && fresh(hosts)
      ensures this.template == template && limits == WithOptions(maxReady, maxArtifacts)
    {
      this.template := template;
      limits := WithOptions(maxReady, maxArtifacts);
      artifacts := new WarmedArtifactCache();
      hosts := new WarmedHostCache();
    }

    method ArtifactForBytes(digest: Digest) returns (found: Option<Artifact>)
      requires Coherent()
      modifies artifacts
      ensures Coherent() && found == template.parse(digest)
      ensures (artifacts.Value(), found) == ArtifactFor(template, limits, old(artifacts.Value()), digest)
    {
      ArtifactForSettles(template, limits, artifacts.Value(), digest);
      found := artifacts.Get(digest);
      if found.None? {
        var parsed := template.parse(digest);
        if parsed.Some? {
          var stored := artifacts.Insert(digest, parsed.value, limits.maxArtifacts);
          found := Some(stored);
        }
      }
    }

    method HostForArtifact(artifact: Artifact, created: Option<nat>) returns (host: Option<Host>)
      requires Coherent()
      modifies hosts
      ensures Coherent()
      ensures (Value(), host) == Perform(template, limits, old(Value()), HostOf(artifact, created))
      ensures AnswersHost(old(hosts.Value()), template.KeyFor(artifact), created, hosts.Value(), host)
    {
      var key := template.KeyFor(artifact);
      HostOfAnswers(template, limits, Value(), artifact, created);
      var look := hosts.LookUp(key);
      match look
      case Found(ready) =>
        host := Some(ready);
      case MustBuild(begun) =>
        if created.Some? {
          var built := Host(created.value, begun);
          hosts.FinishOk(key, begun, built, limits.maxReady);
          host := Some(built);
        } else {
          hosts.FinishErr(key, begun);
          host := None;
        }
    }

    method HostForBytes(digest: Digest, created: Option<nat>) returns (host: Option<Host>)
      requires Coherent()
      modifies artifacts, hosts
      ensures Coherent()
      ensures (Value(), host) == Apply(template, limits, old(Value()), HostFor(digest, created))
      ensures if template.Parses(digest)
              then AnswersHost(old(hosts.Value()), template.KeyOf(digest), created, hosts.Value(), host)
              else host == None
    {
      var artifact := ArtifactForBytes(digest);
      if artifact.None? {
        return None;
      }
      host := HostForArtifact(artifact.value, created);
    }

    method ReadyHostForArtifact(artifact: Artifact) returns (host: Option<Host>)
      requires Coherent()
      modifies hosts
      ensures Coherent()
      ensures (Value(), host) == Perform(template, limits, old(Value()), ReadyOf(artifact))
      ensures host == ReadyUnder(old(hosts.Value()), template.KeyFor(artifact))
    {
      ReadersSettle(hosts.Value(), template.KeyFor(artifact));
      host := hosts.ReadyHost(template.KeyFor(artifact));
    }

    method ReadyHostForBytes(digest: Digest) returns (host: Option<Host>)
      requires Coherent()
      modifies artifacts, hosts
      ensures Coherent()
      ensures (Value(), host) == Apply(template, limits, old(Value()), ReadyFor(digest))
      ensures host == if digest in old(artifacts.Value()).entries && template.Parses(digest)
                      then ReadyUnder(old(hosts.Value()), template.KeyOf(digest)) else None
    {
      GetKeepsValid(artifacts.Value(), digest);
      var artifact := artifacts.Get(digest);
      if artifact.None? {
        return None;
      }
      host := ReadyHostForArtifact(artifact.value);
    }

    method RemoveForArtifact(artifact: Artifact) returns (removed: Option<Host>)
      requires Coherent()
      modifies artifacts, hosts
      ensures Coherent()
      ensures (Value(), removed) == Perform(template, limits, old(Value()), RemoveOf(artifact))
      ensures removed == ReadyUnder(old(hosts.Value()), template.KeyFor(artifact))
      ensures WithoutHostOf(template, old(artifacts.Value()).entries, old(hosts.Value()), artifact, Value())
    {
      RemoveOfAnswers(template, limits, Value(), artifact);
      removed := hosts.RemoveReady(template.KeyFor(artifact));
      if removed.Some? {
        var _ := artifacts.RemovePool(artifact.pool);
      }
    }

    method RemoveForBytes(digest: Digest) returns (removed: Option<Host>)
      requires Coherent()
      modifies artifacts, hosts
      ensures Coherent()
      ensures (Value(), removed) == Apply(template, limits, old(Value()), RemoveFor(digest))
      ensures removed == if digest in old(artifacts.Value()).entries && template.Parses(digest)
                         then ReadyUnder(old(hosts.Value()), template.KeyOf(digest)) else None
      ensures digest !in artifacts.Value().entries
    {
      RemoveForAnswers(template, limits, Value(), digest);
      RemoveDigestKeepsValid(artifacts.Value(), digest);
      KeptParsed(template, artifacts.Value(), artifacts.Value().RemoveDigest(digest).0);
      var artifact := artifacts.RemoveDigest(digest);
      if artifact.None? {
        return None;
      }
      removed := RemoveForArtifact(artifact.value);
    }

    method ClearAll() returns (removed: nat)
      requires Coherent()
      modifies artifacts, hosts
      ensures Coherent()
      ensures Value() == Apply(template, limits, old(Value()), Clear).0
      ensures removed == |old(hosts.Value()).ReadyKeys()|
    {
      removed := hosts.ClearReadyAndInvalidateCreating();
      var _ := artifacts.Clear();
    }
  }
}
