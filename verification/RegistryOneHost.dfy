/**
 Registries in which every ready host's artifact is cached, whatever the order of the
 two lists. With room for a single ready host this asks less of the payloads.
 */
module RegistryOneHost {
  import opened Wrappers
  import opened Lru
  import opened WarmedArtifacts
  import opened WarmedHosts
  import opened Registry
  import opened RegistryRuns
  import opened RegistryLimits
  import opened RegistryFailures

  /** Payloads with different digests never share a host key. */
  ghost predicate DistinctKeys(t: Template) {
    forall d, e | t.Parses(d) && t.Parses(e) && t.KeyOf(d) == t.KeyOf(e) :: d == e
  }

  /** A cached payload has this host key. */
  ghost predicate Known(t: Template, c: Artifacts, key: HostKey) {
    exists d :: d in c.entries && t.Parses(d) && t.KeyOf(d) == key
  }

  /** Both caches sound and within their limits, and every ready host's artifact cached. */
  ghost predicate Held(t: Template, l: Limits, r: Reg) {
    && r.artifacts.Valid() && r.hosts.Valid() && Quiet(r.hosts) && Parsed(t, r.artifacts)
    && (l.maxArtifacts.Some? ==> |r.artifacts.order| <= l.maxArtifacts.value)
    && (l.maxReady.Some? ==> |r.hosts.order| <= l.maxReady.value)
    && forall k | k in r.hosts.order :: Known(t, r.artifacts, k)
  }

  lemma HeldCovers(t: Template, l: Limits, r: Reg)
    requires DistinctKeys(t) && Held(t, l, r)
    ensures Covered(t, r)
  {
    forall d | t.Parses(d) && r.hosts.IsReady(t.KeyOf(d)) ensures d in r.artifacts.entries {
      assert t.KeyOf(d) in r.hosts.order;
      var e :| e in r.artifacts.entries && t.Parses(e) && t.KeyOf(e) == t.KeyOf(d);
    }
  }

  lemma TouchAlone(order: seq<HostKey>, key: HostKey)
    requires |order| <= 1 && key in order
    ensures Touch(order, key) == [key]
  {
    assert order == [key] && order[1..] == [];
    assert Without(order[1..], key) == [];
    assert Without(order, key) == [];
  }

  /** Whoever was ready before, a host that was asked for is the one that is ready. */
  lemma OnlyLatestReady(l: Limits, h: Hosts, key: HostKey, serial: nat)
    requires l.maxReady == Some(1) && h.Valid() && Quiet(h) && |h.order| <= 1
    ensures var after := LookOrCreate(l, h, key, Some(serial)).0;
            after.Valid() && Quiet(after) && after.order == [key]
  {
    LookOrCreateForms(l, h, key, Some(serial));
    if h.IsReady(key) {
      ReadyHostKeepsValid(h, key, None);
      assert key in h.order;
      TouchAlone(h.order, key);
    } else {
      var grown := Hosts(h.entries[key := Ready(Host(serial, h.generation))], Touch(h.order, key), h.generation);
      WarmedHosts.TouchKeepsValid(h, key, grown.entries);
      WarmedHosts.EvictKeepsNewest(grown, 1);
    }
  }

  /** The artifacts after the payload was looked at: it is among them. */
  lemma LookedAtIsCached(t: Template, l: Limits, c: Artifacts, digest: Digest)
    requires c.Valid() && Parsed(t, c) && t.Parses(digest) && Positive(l)
    requires l.maxArtifacts.Some? ==> |c.order| <= l.maxArtifacts.value
    ensures var (after, artifact) := ArtifactFor(t, l, c, digest);
            && after.Valid() && Parsed(t, after) && digest in after.entries && artifact == t.parse(digest)
            && (l.maxArtifacts.Some? ==> |after.order| <= l.maxArtifacts.value)
  {
    if digest in c.entries {
      GetKeepsValid(c, digest);
      TouchNoDup(c.order, digest);
    } else {
      InsertedArtifacts(t, l, c, digest);
      var after := ArtifactFor(t, l, c, digest).0;
      assert after.order[|after.order| - 1] == digest;
    }
  }

  lemma HostForKeepsHeld(t: Template, l: Limits, r: Reg, digest: Digest, serial: nat)
    requires l.maxReady == Some(1) && Positive(l) && Held(t, l, r)
    ensures Held(t, l, Apply(t, l, r, HostFor(digest, Some(serial))).0)
  {
    if t.Parses(digest) {
      hide Artifacts.Valid, Hosts.Valid, Quiet, LookOrCreate, ArtifactFor;
      LookedAtIsCached(t, l, r.artifacts, digest);
      OnlyLatestReady(l, r.hosts, t.KeyOf(digest), serial);
    }
  }

  lemma ReadyForKeepsHeld(t: Template, l: Limits, r: Reg, digest: Digest)
    requires Held(t, l, r)
    ensures Held(t, l, Apply(t, l, r, ReadyFor(digest)).0)
  {
    if digest in r.artifacts.entries {
      GetKeepsValid(r.artifacts, digest);
      TouchNoDup(r.artifacts.order, digest);
      ReadyHostKeepsValid(r.hosts, t.KeyOf(digest), None);
      TouchNoDup(r.hosts.order, t.KeyOf(digest));
      forall k | k in r.hosts.ReadyHost(t.KeyOf(digest)).0.order ensures Known(t, r.artifacts, k) {
        assert k in r.hosts.order;
      }
    }
  }

  lemma RemoveForKeepsHeld(t: Template, l: Limits, r: Reg, digest: Digest)
    requires DistinctKeys(t) && l.maxReady == Some(1) && Held(t, l, r)
    ensures Held(t, l, Apply(t, l, r, RemoveFor(digest)).0)
  {
    var rest := r.artifacts.RemoveDigest(digest).0;
    RemoveDigestKeepsValid(r.artifacts, digest);
    ShorterList(r.artifacts, rest);
    if digest in r.artifacts.entries {
      var artifact := r.artifacts.entries[digest];
      RemoveReadyKeepsValid(r.hosts, t.KeyOf(digest), None);
      if r.hosts.IsReady(t.KeyOf(digest)) {
        RemovePoolKeepsValid(rest, artifact.pool);
        ShorterList(rest, rest.RemovePool(artifact.pool));
        assert r.hosts.order == [t.KeyOf(digest)] by { assert t.KeyOf(digest) in r.hosts.order; }
        assert Without([t.KeyOf(digest)], t.KeyOf(digest)) == [];
      } else {
        OthersStillKnown(t, l, r, digest);
      }
    } else {
      assert rest.entries == r.artifacts.entries;
    }
  }

  lemma OthersStillKnown(t: Template, l: Limits, r: Reg, digest: Digest)
    requires DistinctKeys(t) && Held(t, l, r) && digest in r.artifacts.entries && !r.hosts.IsReady(t.KeyOf(digest))
    ensures Parsed(t, r.artifacts.RemoveDigest(digest).0)
    ensures forall k | k in r.hosts.order :: Known(t, r.artifacts.RemoveDigest(digest).0, k)
  {
    forall k | k in r.hosts.order ensures Known(t, r.artifacts.RemoveDigest(digest).0, k) {
      var d :| d in r.artifacts.entries && t.Parses(d) && t.KeyOf(d) == k;
      assert d in r.artifacts.RemoveDigest(digest).0.entries;
    }
  }

  lemma StepKeepsHeld(t: Template, l: Limits, r: Reg, op: Op)
    requires DistinctKeys(t) && l.maxReady == Some(1) && Positive(l) && Held(t, l, r) && Succeeds(op)
    ensures Held(t, l, Apply(t, l, r, op).0)
  {
    match op
    case HostFor(digest, created) => HostForKeepsHeld(t, l, r, digest, created.value);
    case ReadyFor(digest) => ReadyForKeepsHeld(t, l, r, digest);
    case RemoveFor(digest) => RemoveForKeepsHeld(t, l, r, digest);
    case Clear => ClearKeepsHeld(t, l, r);
  }

  lemma {:induction false} RunsStayHeld(t: Template, l: Limits, r: Reg, ops: seq<Op>)
    requires DistinctKeys(t) && l.maxReady == Some(1) && Positive(l) && Held(t, l, r) && AllSucceed(ops)
    ensures Held(t, l, RunFrom(t, l, r, ops))
  {
    hide Held, Apply;
    if ops != [] {
      RunsStayHeld(t, l, r, ops[..|ops| - 1]);
      StepKeepsHeld(t, l, RunFrom(t, l, r, ops[..|ops| - 1]), ops[|ops| - 1]);
    }
  }

  lemma HeldIsSafe(t: Template, l: Limits, r: Reg)
    requires DistinctKeys(t) && l.maxReady == Some(1) && Positive(l) && Held(t, l, r)
    ensures Safe(t, l, r)
  {
    hide Held, Covered;
    forall ops | AllSucceed(ops) ensures Covered(t, RunFrom(t, l, r, ops)) {
      RunsStayHeld(t, l, r, ops);
      HeldCovers(t, l, RunFrom(t, l, r, ops));
    }
  }

  lemma FreshIsHeld(t: Template, l: Limits)
    ensures Held(t, l, FRESH)
  {
  }

  lemma ClearKeepsHeld(t: Template, l: Limits, r: Reg)
    requires Held(t, l, r)
    ensures Held(t, l, Apply(t, l, r, Clear).0)
  {
  }

  /**
   What the payloads need for every run of successful calls to keep all ready hosts
   findable: distinct pool keys, or, with room for one host only, distinct host keys.
   */
  lemma DistinctnessExactly(t: Template, l: Limits)
    requires Positive(l) && Sufficient(l)
    ensures (forall ops: seq<Op> :: AllSucceed(ops) ==> Covered(t, Run(t, l, ops)))
            <==> if l.maxReady == Some(1) then DistinctKeys(t) else DistinctPools(t)
  {
    hide Run, Covered;
    if l.maxReady != Some(1) {
      DistinctPoolsExactly(t, l);
    } else if DistinctKeys(t) {
      forall ops: seq<Op> | AllSucceed(ops) ensures Covered(t, Run(t, l, ops)) {
        FreshIsHeld(t, l);
        RunsStayHeld(t, l, FRESH, ops);
        RunIsFromFresh(t, l, ops);
        HeldCovers(t, l, Run(t, l, ops));
      }
    } else {
      var d, e :| t.Parses(d) && t.Parses(e) && t.KeyOf(d) == t.KeyOf(e) && d != e;
      SharedKeyLosesAHost(t, l, d, e);
    }
  }

  // ---- Constructions that fail

  /** The failed construction's artifact pushes out the artifact of the ready host. */
  predicate EvictsReady(t: Template, l: Limits, r: Reg, digest: Digest) {
    && digest !in r.artifacts.entries && t.Parses(digest)
    && r.artifacts.order != [] && l.maxArtifacts == Some(|r.artifacts.order|)
    && t.Parses(r.artifacts.order[0]) && r.hosts.IsReady(t.KeyOf(r.artifacts.order[0]))
  }

  lemma KnownFailureKeepsHeld(t: Template, l: Limits, r: Reg, digest: Digest)
    requires Held(t, l, r) && (digest in r.artifacts.entries || !t.Parses(digest))
    ensures Held(t, l, Apply(t, l, r, HostFor(digest, None)).0)
  {
    if digest in r.artifacts.entries {
      KnownFailureIsACheck(t, l, r, digest);
      ReadyForKeepsHeld(t, l, r, digest);
    }
  }

  lemma NewFailureKeepsHeld(t: Template, l: Limits, r: Reg, digest: Digest)
    requires DistinctKeys(t) && Positive(l) && Held(t, l, r) && digest !in r.artifacts.entries && t.Parses(digest)
    requires !EvictsReady(t, l, r, digest)
    ensures Held(t, l, Apply(t, l, r, HostFor(digest, None)).0)
  {
    HeldCovers(t, l, r);
    FailedWarmupArtifacts(t, l, r, digest);
    hide Apply, Known;
    var after := Apply(t, l, r, HostFor(digest, None)).0;
    forall k | k in r.hosts.order ensures Known(t, after.artifacts, k) {
      StillKnown(t, l, r, digest, after.artifacts, k);
    }
  }

  lemma StillKnown(t: Template, l: Limits, r: Reg, digest: Digest, after: Artifacts, k: HostKey)
    requires Held(t, l, r) && !EvictsReady(t, l, r, digest) && k in r.hosts.order
    requires digest !in r.artifacts.entries && t.Parses(digest) && after.Valid() && Parsed(t, after)
    requires var grown := r.artifacts.order + [digest];
             after.order == if l.maxArtifacts == Some(|r.artifacts.order|) then grown[1..] else grown
    ensures Known(t, after, k)
  {
    var order := r.artifacts.order;
    var d :| d in r.artifacts.entries && t.Parses(d) && t.KeyOf(d) == k;
    var i :| 0 <= i < |order| && order[i] == d;
    assert (order + [digest])[i] == d;
    if l.maxArtifacts == Some(|order|) {
      assert i > 0;
      assert (order + [digest])[1..][i - 1] == d;
    }
    assert d in after.order;
  }

  lemma EvictingReadyLoses(t: Template, l: Limits, r: Reg, digest: Digest)
    requires DistinctKeys(t) && Positive(l) && Held(t, l, r) && EvictsReady(t, l, r, digest)
    ensures !Covered(t, Apply(t, l, r, HostFor(digest, None)).0)
  {
    HeldCovers(t, l, r);
    FailedWarmupArtifacts(t, l, r, digest);
    hide Apply;
    var order, after := r.artifacts.order, Apply(t, l, r, HostFor(digest, None)).0;
    assert (order + [digest])[0] == order[0] && order[0] in order && digest !in order;
    assert order[0] !in (order + [digest])[1..];
    assert order[0] !in after.artifacts.order;
  }

  lemma FailureKeepsHeld(t: Template, l: Limits, r: Reg, digest: Digest)
    requires DistinctKeys(t) && Positive(l) && Held(t, l, r) && !EvictsReady(t, l, r, digest)
    ensures Held(t, l, Apply(t, l, r, HostFor(digest, None)).0)
  {
    if digest in r.artifacts.entries || !t.Parses(digest) {
      KnownFailureKeepsHeld(t, l, r, digest);
    } else {
      NewFailureKeepsHeld(t, l, r, digest);
    }
  }

  /**
   With room for one host a failed construction does harm exactly if it pushes out the
   ready host's artifact, and then at once.
   */
  lemma OneHostFailureExactly(t: Template, l: Limits, r: Reg, digest: Digest)
    requires DistinctKeys(t) && l.maxReady == Some(1) && Positive(l) && Held(t, l, r)
    ensures var after := Apply(t, l, r, HostFor(digest, None)).0;
            && (Safe(t, l, after) <==> !EvictsReady(t, l, r, digest))
            && (Covered(t, after) <==> !EvictsReady(t, l, r, digest))
  {
    hide Held, Covered, Apply, Safe;
    var after := Apply(t, l, r, HostFor(digest, None)).0;
    if EvictsReady(t, l, r, digest) {
      EvictingReadyLoses(t, l, r, digest);
      if Safe(t, l, after) {
        SafeIsCovered(t, l, after);
      }
    } else {
      FailureKeepsHeld(t, l, r, digest);
      HeldIsSafe(t, l, after);
      HeldCovers(t, l, after);
    }
  }

  /** After any run, failures included, that has lost no host so far, successful calls lose none. */
  lemma {:induction false} SafeWhileNothingLost(t: Template, l: Limits, ops: seq<Op>)
    requires DistinctKeys(t) && l.maxReady == Some(1) && Positive(l) && LostNothing(t, l, ops)
    ensures Held(t, l, Run(t, l, ops)) && Safe(t, l, Run(t, l, ops))
  {
    if ops == [] {
      FreshIsHeld(t, l);
    } else {
      hide Held, Covered, Apply, Safe;
      var init, op := ops[..|ops| - 1], ops[|ops| - 1];
      forall k | 0 <= k <= |init| ensures Covered(t, Run(t, l, init[..k])) {
        assert init[..k] == ops[..k];
      }
      SafeWhileNothingLost(t, l, init);
      assert ops[..|ops|] == ops;
      var r := Run(t, l, init);
      if Succeeds(op) {
        StepKeepsHeld(t, l, r, op);
      } else {
        OneHostFailureExactly(t, l, r, op.digest);
        FailureKeepsHeld(t, l, r, op.digest);
      }
    }
    HeldIsSafe(t, l, Run(t, l, ops));
  }
}
