/**
 Calls by artifact among the calls by bytes. A call by artifact uses, creates or
 removes a host without using the artifact, so the two lists drift apart; this module
 says when that costs a ready host its artifact.
 */
module RegistryArtifacts {
  import opened Wrappers
  import opened Lru
  import opened WarmedArtifacts
  import opened WarmedHosts
  import opened Registry
  import opened RegistryRuns
  import opened RegistryLimits
  import opened RegistryFailures
  import opened RegistryOneHost

  // ---- Removal

  lemma {:induction false} WithoutAllOne(order: seq<Digest>, d: Digest)
    ensures WithoutAll(order, {d}) == Without(order, d)
  {
    if order != [] {
      WithoutAllOne(order[1..], d);
    }
  }

  lemma PoolIsOne(t: Template, c: Artifacts, d: Digest)
    requires DistinctPools(t) && Parsed(t, c) && d in c.entries
    ensures c.RemovePool(c.entries[d].pool) == c.RemoveDigest(d).0
  {
    var pool := c.entries[d].pool;
    forall e | e in c.entries && c.entries[e].pool == pool ensures e == d {
      assert t.parse(e) == Some(c.entries[e]) && t.parse(d) == Some(c.entries[d]);
    }
    assert c.PoolDigests(pool) == {d};
    WithoutAllOne(c.order, d);
  }

  /** With distinct pools, removing a host by an artifact is removing it by the payload that has its key. */
  lemma RemovalIsByBytes(t: Template, l: Limits, r: Reg, artifact: Artifact, d: Digest)
    requires DistinctPools(t) && Parsed(t, r.artifacts) && r.hosts.IsReady(t.KeyFor(artifact))
    requires d in r.artifacts.entries && t.Parses(d) && t.KeyOf(d) == t.KeyFor(artifact)
    ensures Perform(t, l, r, RemoveOf(artifact)).0 == Apply(t, l, r, RemoveFor(d)).0
  {
    assert t.parse(d) == Some(r.artifacts.entries[d]);
    PoolIsOne(t, r.artifacts, d);
    RemoveForParts(t, l, r, d);
    hide Apply, Artifacts.RemovePool, Artifacts.RemoveDigest;
  }

  lemma CoupledIsHeld(t: Template, l: Limits, r: Reg)
    requires Coupled(t, l, r)
    ensures Held(t, l, r)
  {
    forall k | k in r.hosts.order ensures Known(t, r.artifacts, k) {
      ReadyOrderMember(t, r.artifacts.order, r.hosts.ReadyKeys(), k);
      var d :| d in r.artifacts.order && t.KeyOf(d) == k;
    }
  }

  /** A ready host's key is that of a cached payload. */
  lemma PayloadOf(t: Template, l: Limits, r: Reg, key: HostKey) returns (d: Digest)
    requires Held(t, l, r) && r.hosts.IsReady(key)
    ensures d in r.artifacts.entries && t.Parses(d) && t.KeyOf(d) == key
  {
    assert key in r.hosts.order;
    d :| d in r.artifacts.entries && t.Parses(d) && t.KeyOf(d) == key;
  }

  /** Removal by artifact keeps the caches coupled, unlike the other calls by artifact. */
  lemma RemoveOfKeepsCoupled(t: Template, l: Limits, r: Reg, artifact: Artifact)
    requires DistinctPools(t) && Coupled(t, l, r)
    ensures Coupled(t, l, Perform(t, l, r, RemoveOf(artifact)).0)
  {
    hide Apply, SameOrder, Quiet;
    var key := t.KeyFor(artifact);
    if r.hosts.IsReady(key) {
      CoupledIsHeld(t, l, r);
      var d := PayloadOf(t, l, r, key);
      RemovalIsByBytes(t, l, r, artifact, d);
      RemoveForKeepsCoupled(t, l, r, d);
    }
  }

  // ---- Creation

  /** What a call that looks for a host, and perhaps creates it, leaves in the host list. */
  lemma ReadyAfterLook(l: Limits, h: Hosts, key: HostKey, created: Option<nat>)
    requires h.Valid() && Quiet(h) && Positive(l)
    ensures var after := LookOrCreate(l, h, key, created).0;
            && after.Valid() && Quiet(after)
            && (forall k | k in after.order :: k in h.order || (k == key && created.Some?))
            && (created.Some? ==> key in after.order)
            && (l.maxReady.Some? && |h.order| <= l.maxReady.value ==> |after.order| <= l.maxReady.value)
  {
    LookOrCreateForms(l, h, key, created);
    if h.IsReady(key) {
      assert key in h.order;
      ReadyHostKeepsValid(h, key, None);
      TouchNoDup(h.order, key);
    } else if created.Some? {
      CreatedOrder(l, h, key, created.value);
      PublishedIs(l, h.order, key);
      hide Published, Hosts.Valid, Quiet, LookOrCreate;
    }
  }

  lemma PublishedIs(l: Limits, order: seq<HostKey>, key: HostKey)
    requires Positive(l)
    ensures key in Published(l, order, key)
    ensures forall k | k in Published(l, order, key) :: k in order || k == key
    ensures l.maxReady.Some? && |order| <= l.maxReady.value ==> |Published(l, order, key)| <= l.maxReady.value
  {
    assert (order + [key])[|order|] == key;
    if l.maxReady.Some? {
      NewestLast(order + [key], l.maxReady.value);
    }
  }

  /** Every payload with this host key is cached. */
  ghost predicate AllCached(t: Template, c: Artifacts, key: HostKey) {
    forall d | t.Parses(d) && t.KeyOf(d) == key :: d in c.entries
  }

  /**
   Asking for a host by artifact makes it ready, and loses nothing exactly if the
   payloads with its key are cached already: the call itself caches none.
   */
  lemma HostOfLosesExactly(t: Template, l: Limits, r: Reg, artifact: Artifact, serial: nat)
    requires Positive(l) && r.hosts.Valid() && Quiet(r.hosts) && Covered(t, r)
    ensures var after := Perform(t, l, r, HostOf(artifact, Some(serial))).0;
            && after.hosts.IsReady(t.KeyFor(artifact))
            && (Covered(t, after) <==> AllCached(t, r.artifacts, t.KeyFor(artifact)))
  {
    var key := t.KeyFor(artifact);
    var after := Perform(t, l, r, HostOf(artifact, Some(serial))).0;
    ReadyAfterLook(l, r.hosts, key, Some(serial));
    hide LookOrCreate;
    if AllCached(t, r.artifacts, key) {
      forall d | t.Parses(d) && after.hosts.IsReady(t.KeyOf(d)) ensures d in after.artifacts.entries {
        assert t.KeyOf(d) in after.hosts.order;
        assert t.KeyOf(d) == key || r.hosts.IsReady(t.KeyOf(d));
      }
    }
  }

  /** With distinct host keys: a host asked for by its artifact is lost exactly if its payload is not cached. */
  lemma OwnHostLostExactly(t: Template, l: Limits, r: Reg, d: Digest, serial: nat)
    requires DistinctKeys(t) && t.Parses(d)
    requires Positive(l) && r.hosts.Valid() && Quiet(r.hosts) && Covered(t, r)
    ensures var after := Perform(t, l, r, HostOf(t.parse(d).value, Some(serial))).0;
            && after.hosts.IsReady(t.KeyOf(d)) && after.artifacts == r.artifacts
            && (Covered(t, after) <==> d in r.artifacts.entries)
  {
    HostOfLosesExactly(t, l, r, t.parse(d).value, serial);
    hide Covered, Perform, LookOrCreate;
  }

  /** Under any limits, prewarming by artifact in an empty registry leaves a host that its bytes do not find. */
  lemma PrewarmedByArtifactIsLost(t: Template, l: Limits, d: Digest, serial: nat)
    requires Positive(l) && t.Parses(d)
    ensures !Covered(t, Perform(t, l, FRESH, HostOf(t.parse(d).value, Some(serial))).0)
  {
    HostOfLosesExactly(t, l, FRESH, t.parse(d).value, serial);
    assert !AllCached(t, EMPTY, t.KeyOf(d));
  }

  // ---- Runs

  function PerformAll(t: Template, l: Limits, r: Reg, calls: seq<Call>): Reg
    decreases |calls|
  {
    if calls == [] then r else PerformAll(t, l, Perform(t, l, r, calls[0]).0, calls[1..])
  }

  /** Constructions by bytes succeed, and hosts are asked for by artifact only where a cached payload has the key. */
  ghost predicate Guarded(t: Template, r: Reg, call: Call) {
    match call
    case ByBytes(op) => Succeeds(op)
    case HostOf(artifact, _) => Known(t, r.artifacts, t.KeyFor(artifact))
    case ReadyOf(_) => true
    case RemoveOf(_) => true
  }

  ghost predicate GuardedRun(t: Template, l: Limits, r: Reg, calls: seq<Call>)
    decreases |calls|
  {
    calls != [] ==> Guarded(t, r, calls[0]) && GuardedRun(t, l, Perform(t, l, r, calls[0]).0, calls[1..])
  }

  /** Every guarded run from here keeps all ready hosts' artifacts. */
  ghost predicate SafeMixed(t: Template, l: Limits, r: Reg) {
    forall calls | GuardedRun(t, l, r, calls) :: Covered(t, PerformAll(t, l, r, calls))
  }

  lemma SafeMixedIsCovered(t: Template, l: Limits, r: Reg)
    requires SafeMixed(t, l, r)
    ensures Covered(t, r)
  {
    assert GuardedRun(t, l, r, []) && PerformAll(t, l, r, []) == r;
  }

  lemma SafeMixedAfter(t: Template, l: Limits, r: Reg, call: Call)
    requires SafeMixed(t, l, r) && Guarded(t, r, call)
    ensures SafeMixed(t, l, Perform(t, l, r, call).0)
  {
    hide Covered, Guarded, Perform;
    var after := Perform(t, l, r, call).0;
    forall calls | GuardedRun(t, l, after, calls) ensures Covered(t, PerformAll(t, l, after, calls)) {
      assert ([call] + calls)[1..] == calls;
      assert GuardedRun(t, l, r, [call] + calls);
    }
  }

  // ---- Without an artifact limit, or with room for one host, nothing is lost

  lemma ReadyOfKeepsHeld(t: Template, l: Limits, r: Reg, artifact: Artifact)
    requires Held(t, l, r)
    ensures Held(t, l, Perform(t, l, r, ReadyOf(artifact)).0)
  {
    var key := t.KeyFor(artifact);
    ReadyHostKeepsValid(r.hosts, key, None);
    if r.hosts.IsReady(key) {
      assert key in r.hosts.order;
      TouchNoDup(r.hosts.order, key);
    }
    hide Known;
  }

  lemma HostOfKeepsHeld(t: Template, l: Limits, r: Reg, artifact: Artifact, created: Option<nat>)
    requires Positive(l) && Held(t, l, r) && Known(t, r.artifacts, t.KeyFor(artifact))
    ensures Held(t, l, Perform(t, l, r, HostOf(artifact, created)).0)
  {
    ReadyAfterLook(l, r.hosts, t.KeyFor(artifact), created);
    hide Known, LookOrCreate, Artifacts.Valid, Hosts.Valid, Quiet, Parsed;
  }

  lemma RemoveForKeepsHeldApart(t: Template, l: Limits, r: Reg, digest: Digest)
    requires DistinctPools(t) && Held(t, l, r)
    ensures Held(t, l, Apply(t, l, r, RemoveFor(digest)).0)
  {
    var rest := r.artifacts.RemoveDigest(digest).0;
    RemoveDigestKeepsValid(r.artifacts, digest);
    ShorterList(r.artifacts, rest);
    if digest in r.artifacts.entries {
      var key := t.KeyOf(digest);
      RemoveForParts(t, l, r, digest);
      var after := r.hosts.RemoveReady(key).0;
      RemoveReadyKeepsValid(r.hosts, key, None);
      WithoutNoDup(r.hosts.order, key);
      forall k | k in after.order ensures Known(t, rest, k) {
        assert after.IsReady(k) && k != key && k in r.hosts.order;
        var e :| e in r.artifacts.entries && t.Parses(e) && t.KeyOf(e) == k;
        assert e in rest.entries;
      }
    } else {
      assert rest.entries == r.artifacts.entries;
    }
  }

  lemma RemoveOfKeepsHeld(t: Template, l: Limits, r: Reg, artifact: Artifact)
    requires DistinctPools(t) && Held(t, l, r)
    ensures Held(t, l, Perform(t, l, r, RemoveOf(artifact)).0)
  {
    hide Apply, Quiet, Known;
    var key := t.KeyFor(artifact);
    if r.hosts.IsReady(key) {
      var d := PayloadOf(t, l, r, key);
      RemovalIsByBytes(t, l, r, artifact, d);
      RemoveForKeepsHeldApart(t, l, r, d);
    }
  }

  /** Looking at a payload evicts no artifact if it is cached or there is room for it. */
  predicate HasRoom(l: Limits, c: Artifacts, digest: Digest) {
    digest in c.entries || (l.maxArtifacts.Some? ==> |c.order| < l.maxArtifacts.value)
  }

  lemma LookedAtKeepsKnown(t: Template, l: Limits, c: Artifacts, digest: Digest, k: HostKey)
    requires c.Valid() && Parsed(t, c) && t.Parses(digest) && Positive(l) && HasRoom(l, c, digest)
    requires l.maxArtifacts.Some? ==> |c.order| <= l.maxArtifacts.value
    requires Known(t, c, k) || k == t.KeyOf(digest)
    ensures Known(t, ArtifactFor(t, l, c, digest).0, k)
  {
    LookedAtIsCached(t, l, c, digest);
    var after := ArtifactFor(t, l, c, digest).0;
    if Known(t, c, k) {
      var e :| e in c.entries && t.Parses(e) && t.KeyOf(e) == k;
      if digest !in c.entries {
        InsertedArtifacts(t, l, c, digest);
        assert e in c.order;
      }
      assert e in after.entries;
    }
  }

  lemma HostForKeepsHeldWithRoom(t: Template, l: Limits, r: Reg, digest: Digest, created: Option<nat>)
    requires Positive(l) && Held(t, l, r) && HasRoom(l, r.artifacts, digest)
    ensures Held(t, l, Apply(t, l, r, HostFor(digest, created)).0)
  {
    if t.Parses(digest) {
      var key, after := t.KeyOf(digest), Apply(t, l, r, HostFor(digest, created)).0;
      LookedAtIsCached(t, l, r.artifacts, digest);
      ReadyAfterLook(l, r.hosts, key, created);
      hide Artifacts.Valid, Hosts.Valid, Quiet, Known, LookOrCreate, ArtifactFor, HasRoom;
      forall k | k in after.hosts.order ensures Known(t, after.artifacts, k) {
        LookedAtKeepsKnown(t, l, r.artifacts, digest, k);
      }
    }
  }

  /** Where no run of calls loses a host, calls by artifact included: nothing pushes artifacts out, or only one host is kept. */
  predicate Unharmed(l: Limits) {
    l.maxArtifacts.None? || l.maxReady == Some(1)
  }

  lemma PoolsThenKeys(t: Template)
    requires DistinctPools(t)
    ensures DistinctKeys(t)
  {
  }

  lemma OpKeepsHeld(t: Template, l: Limits, r: Reg, op: Op)
    requires DistinctPools(t) && Positive(l) && Unharmed(l) && Held(t, l, r) && Succeeds(op)
    ensures Held(t, l, Apply(t, l, r, op).0)
  {
    PoolsThenKeys(t);
    hide Held, Apply, DistinctPools, DistinctKeys;
    if l.maxReady == Some(1) {
      StepKeepsHeld(t, l, r, op);
    } else {
      match op
      case HostFor(digest, created) => HostForKeepsHeldWithRoom(t, l, r, digest, created);
      case ReadyFor(digest) => ReadyForKeepsHeld(t, l, r, digest);
      case RemoveFor(digest) => RemoveForKeepsHeldApart(t, l, r, digest);
      case Clear => ClearKeepsHeld(t, l, r);
    }
  }

  lemma CallKeepsHeld(t: Template, l: Limits, r: Reg, call: Call)
    requires DistinctPools(t) && Positive(l) && Unharmed(l) && Held(t, l, r) && Guarded(t, r, call)
    ensures Held(t, l, Perform(t, l, r, call).0)
  {
    hide Held, Known, Unharmed, DistinctPools, Apply;
    match call
    case ByBytes(op) => OpKeepsHeld(t, l, r, op);
    case HostOf(artifact, created) => HostOfKeepsHeld(t, l, r, artifact, created);
    case ReadyOf(artifact) => ReadyOfKeepsHeld(t, l, r, artifact);
    case RemoveOf(artifact) => RemoveOfKeepsHeld(t, l, r, artifact);
  }

  lemma {:induction false} GuardedRunsStayHeld(t: Template, l: Limits, r: Reg, calls: seq<Call>)
    requires DistinctPools(t) && Positive(l) && Unharmed(l) && Held(t, l, r) && GuardedRun(t, l, r, calls)
    ensures Held(t, l, PerformAll(t, l, r, calls))
    decreases |calls|
  {
    hide Held, Perform, Unharmed, DistinctPools, Guarded;
    if calls != [] {
      CallKeepsHeld(t, l, r, calls[0]);
      GuardedRunsStayHeld(t, l, Perform(t, l, r, calls[0]).0, calls[1..]);
    }
  }

  // ---- Otherwise a host that is checked by artifact outlives its artifact

  lemma HeldFresh(t: Template, l: Limits, r: Reg) returns (d: Digest)
    requires DistinctPools(t) && Inexhaustible(t) && Held(t, l, r)
    ensures t.Parses(d) && d !in r.artifacts.entries && !r.hosts.IsReady(t.KeyOf(d))
  {
    PoolsThenKeys(t);
    HeldCovers(t, l, r);
    assert HasFurther(t, r.artifacts.entries.Keys);
    d :| d !in r.artifacts.entries.Keys && t.Parses(d);
  }

  /** The oldest artifact is that of `d`, and its host is ready. */
  ghost predicate Aging(t: Template, l: Limits, r: Reg, d: Digest) {
    Held(t, l, r) && r.artifacts.order != [] && r.artifacts.order[0] == d && t.Parses(d) && r.hosts.IsReady(t.KeyOf(d))
  }

  /** The host of `d` is checked by artifact. */
  function Checked(t: Template, l: Limits, r: Reg, d: Digest): Reg
    requires t.Parses(d)
  {
    Perform(t, l, r, ReadyOf(t.parse(d).value)).0
  }

  /** And then another bundle is warmed by bytes. */
  function CheckedAndWarmed(t: Template, l: Limits, r: Reg, d: Digest, e: Digest, serial: nat): Reg
    requires t.Parses(d)
  {
    Perform(t, l, Checked(t, l, r, d), ByBytes(HostFor(e, Some(serial)))).0
  }

  lemma SecondNewestStays(l: Limits, order: seq<HostKey>, key: HostKey, last: HostKey)
    requires Positive(l) && l.maxReady != Some(1) && order != [] && order[|order| - 1] == key
    ensures key in Published(l, order, last)
  {
    var grown := order + [last];
    assert grown[|grown| - 2] == key;
    if l.maxReady.Some? && |grown| > l.maxReady.value {
      var kept := Newest(grown, l.maxReady.value);
      assert kept[|kept| - 2] == key;
    }
  }

  lemma CheckedStaysReady(t: Template, l: Limits, r: Reg, d: Digest, e: Digest, serial: nat)
    requires DistinctPools(t) && Positive(l) && l.maxReady != Some(1) && Aging(t, l, r, d)
    requires t.Parses(e) && e !in r.artifacts.entries && !r.hosts.IsReady(t.KeyOf(e))
    ensures CheckedAndWarmed(t, l, r, d, e, serial).hosts.IsReady(t.KeyOf(d))
  {
    var key, h := t.KeyOf(d), Checked(t, l, r, d).hosts;
    ReadyHostKeepsValid(r.hosts, key, None);
    CreatedOrder(l, h, t.KeyOf(e), serial);
    SecondNewestStays(l, h.order, key, t.KeyOf(e));
    WarmedArtifactIs(t, l, r.artifacts, e);
    hide Published, LookOrCreate, ArtifactFor;
  }

  lemma WarmedArtifactIs(t: Template, l: Limits, c: Artifacts, e: Digest)
    requires t.Parses(e) && e !in c.entries
    ensures ArtifactFor(t, l, c, e).1 == t.parse(e)
    ensures ArtifactFor(t, l, c, e).0 == c.Insert(e, t.parse(e).value, l.maxArtifacts).0
  {
  }

  lemma CheckedArtifacts(t: Template, l: Limits, r: Reg, d: Digest, e: Digest, serial: nat)
    requires Positive(l) && Held(t, l, r) && t.Parses(d) && t.Parses(e) && e !in r.artifacts.entries
    ensures var order, after := r.artifacts.order, CheckedAndWarmed(t, l, r, d, e, serial).artifacts;
            && after.Valid() && Parsed(t, after)
            && after.order == (if l.maxArtifacts == Some(|order|) then (order + [e])[1..] else order + [e])
  {
    WarmedArtifactIs(t, l, r.artifacts, e);
    InsertedArtifacts(t, l, r.artifacts, e);
    hide LookOrCreate, ArtifactFor, Artifacts.Valid, Parsed, Artifacts.Insert;
  }

  lemma AgesOn(t: Template, l: Limits, r: Reg, d: Digest, e: Digest, serial: nat)
    requires DistinctPools(t) && Positive(l) && l.maxReady != Some(1) && Aging(t, l, r, d)
    requires t.Parses(e) && e !in r.artifacts.entries && !r.hosts.IsReady(t.KeyOf(e))
    requires l.maxArtifacts.Some? && |r.artifacts.order| < l.maxArtifacts.value
    ensures var after := CheckedAndWarmed(t, l, r, d, e, serial);
            Aging(t, l, after, d) && |after.artifacts.order| == |r.artifacts.order| + 1
  {
    CheckedStaysReady(t, l, r, d, e, serial);
    CheckedArtifacts(t, l, r, d, e, serial);
    ReadyOfKeepsHeld(t, l, r, t.parse(d).value);
    hide Held, Apply;
    HostForKeepsHeldWithRoom(t, l, Checked(t, l, r, d), e, Some(serial));
  }

  /** With a full artifact cache the artifact goes and its host stays. */
  lemma AgedOut(t: Template, l: Limits, r: Reg, d: Digest, e: Digest, serial: nat)
    requires DistinctPools(t) && Positive(l) && l.maxReady != Some(1) && Aging(t, l, r, d)
    requires t.Parses(e) && e !in r.artifacts.entries && !r.hosts.IsReady(t.KeyOf(e))
    requires l.maxArtifacts == Some(|r.artifacts.order|)
    ensures !Covered(t, CheckedAndWarmed(t, l, r, d, e, serial))
  {
    CheckedStaysReady(t, l, r, d, e, serial);
    CheckedArtifacts(t, l, r, d, e, serial);
    PushedOut(r.artifacts.order, e);
    hide CheckedAndWarmed, Checked;
    assert d !in CheckedAndWarmed(t, l, r, d, e, serial).artifacts.order;
  }

  lemma {:induction false} AgingIsLost(t: Template, l: Limits, r: Reg, d: Digest)
    requires DistinctPools(t) && Inexhaustible(t) && Positive(l) && !Unharmed(l) && Aging(t, l, r, d)
    ensures !SafeMixed(t, l, r)
    decreases l.maxArtifacts.value - |r.artifacts.order|
  {
    var e := HeldFresh(t, l, r);
    var check, warm := ReadyOf(t.parse(d).value), ByBytes(HostFor(e, Some(0)));
    var after := CheckedAndWarmed(t, l, r, d, e, 0);
    assert |r.artifacts.order| <= l.maxArtifacts.value;
    hide SafeMixed, Covered, Perform, Held;
    if |r.artifacts.order| == l.maxArtifacts.value {
      AgedOut(t, l, r, d, e, 0);
    } else {
      AgesOn(t, l, r, d, e, 0);
      AgingIsLost(t, l, after, d);
    }
    if SafeMixed(t, l, r) {
      SafeMixedAfter(t, l, r, check);
      SafeMixedAfter(t, l, Checked(t, l, r, d), warm);
      SafeMixedIsCovered(t, l, after);
    }
  }

  /** A registry just cleared, with one bundle warmed: its artifact is the oldest there is. */
  lemma AgingBegins(t: Template, l: Limits, r: Reg, d: Digest)
    requires Positive(l) && Held(t, l, r) && r.artifacts == EMPTY && t.Parses(d)
    ensures Aging(t, l, Apply(t, l, r, HostFor(d, Some(0))).0, d)
  {
    HostForKeepsHeldWithRoom(t, l, r, d, Some(0));
    WarmedArtifactIs(t, l, r.artifacts, d);
    InsertedArtifacts(t, l, r.artifacts, d);
    ReadyAfterLook(l, r.hosts, t.KeyOf(d), Some(0));
    hide Held, LookOrCreate, ArtifactFor, Artifacts.Insert;
  }

  lemma LimitedIsLost(t: Template, l: Limits, r: Reg)
    requires DistinctPools(t) && Inexhaustible(t) && Positive(l) && !Unharmed(l) && Held(t, l, r)
    ensures !SafeMixed(t, l, r)
  {
    var d := HeldFresh(t, l, r);
    var cleared := Perform(t, l, r, ByBytes(Clear)).0;
    ClearKeepsHeld(t, l, r);
    AgingBegins(t, l, cleared, d);
    var warmed := Perform(t, l, cleared, ByBytes(HostFor(d, Some(0)))).0;
    hide SafeMixed, Held, Apply;
    AgingIsLost(t, l, warmed, d);
    if SafeMixed(t, l, r) {
      SafeMixedAfter(t, l, r, ByBytes(Clear));
      SafeMixedAfter(t, l, cleared, ByBytes(HostFor(d, Some(0))));
    }
  }

  /**
   When the promise for byte-based checks survives calls by artifact: from any sound
   state that has lost nothing, no run of successful calls by bytes with checks and
   removals by artifact among them, and prewarming by artifact of cached payloads,
   loses a host exactly if there is no artifact limit or room for one host only.
   */
  lemma MixedRunsExactly(t: Template, l: Limits, r: Reg)
    requires DistinctPools(t) && Inexhaustible(t) && Positive(l) && Held(t, l, r)
    ensures SafeMixed(t, l, r) <==> l.maxArtifacts.None? || l.maxReady == Some(1)
  {
    if Unharmed(l) {
      PoolsThenKeys(t);
      hide Held, Covered, DistinctPools, DistinctKeys;
      forall calls | GuardedRun(t, l, r, calls) ensures Covered(t, PerformAll(t, l, r, calls)) {
        GuardedRunsStayHeld(t, l, r, calls);
        HeldCovers(t, l, PerformAll(t, l, r, calls));
      }
    } else {
      LimitedIsLost(t, l, r);
    }
  }

  /** Warm two bundles by bytes, check the first by artifact, warm a third. */
  const CHECK_BETWEEN :=
    [ByBytes(HostFor(0, Some(0))), ByBytes(HostFor(1, Some(1))),
     ReadyOf(NUMBERED.parse(0).value), ByBytes(HostFor(2, Some(2)))]

  lemma TwoWarmed(r: Reg)
    requires WarmedUp(r, 2) && Coupled(NUMBERED, TWO, r)
    ensures Aging(NUMBERED, TWO, r, 0) && |r.artifacts.order| == 2
    ensures 2 !in r.artifacts.entries && !r.hosts.IsReady(NUMBERED.KeyOf(2))
  {
    CoupledIsHeld(NUMBERED, TWO, r);
    NextNotReady(r, 2);
    hide Held, Coupled;
  }

  lemma PerformFirst(t: Template, l: Limits, r: Reg, call: Call, rest: seq<Call>)
    ensures PerformAll(t, l, r, [call] + rest) == PerformAll(t, l, Perform(t, l, r, call).0, rest)
  {
    assert ([call] + rest)[1..] == rest;
  }

  lemma PerformFour(t: Template, l: Limits, r: Reg, a: Call, b: Call, c: Call, d: Call)
    ensures PerformAll(t, l, r, [a, b, c, d]) ==
            Perform(t, l, Perform(t, l, Perform(t, l, Perform(t, l, r, a).0, b).0, c).0, d).0
  {
    hide Perform;
    var one := Perform(t, l, r, a).0;
    var two := Perform(t, l, one, b).0;
    var three := Perform(t, l, two, c).0;
    assert [a, b, c, d] == [a] + ([b] + ([c] + ([d] + [])));
    PerformFirst(t, l, r, a, [b] + ([c] + ([d] + [])));
    PerformFirst(t, l, one, b, [c] + ([d] + []));
    PerformFirst(t, l, two, c, [d] + []);
    PerformFirst(t, l, three, d, []);
  }

  lemma WarmTwo(t: Template, l: Limits, first: Op, second: Op)
    ensures Run(t, l, [first] + [second]) == Apply(t, l, Apply(t, l, FRESH, first).0, second).0
  {
    hide Apply;
    RunAppend(t, l, [first], second);
    RunAppend(t, l, [], first);
    assert [] + [first] == [first];
  }

  lemma WarmTwoThenCheck(t: Template, l: Limits, first: Op, second: Op, d: Digest, e: Digest, serial: nat)
    requires t.Parses(d)
    ensures PerformAll(t, l, FRESH, [ByBytes(first), ByBytes(second), ReadyOf(t.parse(d).value),
                                     ByBytes(HostFor(e, Some(serial)))]) ==
            CheckedAndWarmed(t, l, Run(t, l, [first] + [second]), d, e, serial)
  {
    WarmTwo(t, l, first, second);
    PerformFour(t, l, FRESH, ByBytes(first), ByBytes(second), ReadyOf(t.parse(d).value), ByBytes(HostFor(e, Some(serial))));
    hide Apply, Run, PerformAll;
  }

  lemma NumberedApart()
    ensures DistinctPools(NUMBERED)
  {
  }

  lemma WarmupsSucceed(n: nat)
    ensures AllSucceed(Warmups(n))
  {
  }

  lemma WarmedAndCoupled(l: Limits, n: nat)
    requires Positive(l) && Sufficient(l)
    requires l.maxReady.Some? ==> n <= l.maxReady.value
    requires l.maxArtifacts.Some? ==> n <= l.maxArtifacts.value
    ensures var r := Run(NUMBERED, l, Warmups(n)); WarmedUp(r, n) && Coupled(NUMBERED, l, r)
  {
    NumberedApart();
    WarmupsSucceed(n);
    hide WarmedUp, Coupled, Run, Warmups, DistinctPools;
    WarmMany(l, n);
    RunsStayCoupled(NUMBERED, l, Warmups(n));
  }

  lemma TwoWarmups()
    ensures Warmups(2) == [HostFor(0, Some(0))] + [HostFor(1, Some(1))]
  {
  }

  /**
   The promise fails although every construction succeeds and no two payloads share a
   pool: with room for two of each, the first host outlives its artifact.
   */
  lemma CheckByArtifactLosesAHost()
    ensures WithOptions(Some(2), Some(2)) == TWO && DistinctPools(NUMBERED)
    ensures !Covered(NUMBERED, PerformAll(NUMBERED, TWO, FRESH, CHECK_BETWEEN))
  {
    NumberedApart();
    TwoWarmups();
    WarmedAndCoupled(TWO, 2);
    WarmTwoThenCheck(NUMBERED, TWO, HostFor(0, Some(0)), HostFor(1, Some(1)), 0, 2, 2);
    hide WarmedUp, Coupled, Covered, PerformAll, CheckedAndWarmed, Run, Warmups;
    var r := Run(NUMBERED, TWO, Warmups(2));
    TwoWarmed(r);
    AgedOut(NUMBERED, TWO, r, 0, 2, 2);
  }
}
