/**
 What the coupling of the two limits buys: after any run of successful calls by bytes,
 every ready host can still be found from its payload's bytes, because evictions
 of the two caches stay in lockstep.
 */
module RegistryRuns {
  import opened Wrappers
  import opened Lru
  import opened WarmedArtifacts
  import opened WarmedHosts
  import opened Registry

  /** Payloads with different digests never share a pool key. */
  ghost predicate DistinctPools(t: Template) {
    forall d, e | t.Parses(d) && t.Parses(e) && t.parse(d).value.pool == t.parse(e).value.pool :: d == e
  }

  /** With both limits set, the artifact limit is at least the host limit. */
  predicate Sufficient(l: Limits) {
    l.maxArtifacts.Some? ==> l.maxReady.Some? && l.maxArtifacts.value >= l.maxReady.value
  }

  /** Every construction the operation starts succeeds. */
  predicate Succeeds(op: Op) {
    op.HostFor? ==> op.created.Some?
  }

  /** The ready hosts' artifacts are all cached. */
  ghost predicate Covered(t: Template, r: Reg) {
    forall d | t.Parses(d) && r.hosts.IsReady(t.KeyOf(d)) :: d in r.artifacts.entries
  }

  /** The keys of a list of digests, in order, as far as they are in `ready`. */
  function ReadyOrder(t: Template, order: seq<Digest>, ready: set<HostKey>): (keys: seq<HostKey>)
    requires forall d | d in order :: t.Parses(d)
  {
    if order == [] then []
    else if t.KeyOf(order[0]) in ready then [t.KeyOf(order[0])] + ReadyOrder(t, order[1..], ready)
    else ReadyOrder(t, order[1..], ready)
  }

  /** The host recency list is the artifact recency list restricted to ready keys. */
  ghost predicate SameOrder(t: Template, order: seq<Digest>, h: Hosts) {
    && (forall d | d in order :: t.Parses(d))
    && h.order == ReadyOrder(t, order, h.ReadyKeys())
  }

  /** Slack: artifacts without a ready host never use up the artifacts' head room. */
  ghost predicate WithinSlack(l: Limits, artifacts: nat, hosts: nat) {
    && (l.maxReady.Some? ==> hosts <= l.maxReady.value)
    && (l.maxArtifacts.Some? ==> artifacts <= l.maxArtifacts.value)
    && (l.maxReady.Some? && l.maxArtifacts.Some? ==>
          artifacts - hosts <= l.maxArtifacts.value - l.maxReady.value)
  }

  ghost predicate Coupled(t: Template, l: Limits, r: Reg) {
    && r.artifacts.Valid() && r.hosts.Valid()
    && Quiet(r.hosts) && Parsed(t, r.artifacts)
    && SameOrder(t, r.artifacts.order, r.hosts)
    && WithinSlack(l, |r.artifacts.order|, |r.hosts.order|)
  }

  // ---- The restricted list

  lemma KeyOfInjective(t: Template, d: Digest, e: Digest)
    requires DistinctPools(t) && t.Parses(d) && t.Parses(e)
    ensures t.KeyOf(d) == t.KeyOf(e) <==> d == e
  {
  }

  lemma {:induction false} ReadyOrderConcat(t: Template, a: seq<Digest>, b: seq<Digest>, ready: set<HostKey>)
    requires forall d | d in a + b :: t.Parses(d)
    ensures (forall d | d in a :: t.Parses(d)) && (forall d | d in b :: t.Parses(d))
    ensures ReadyOrder(t, a + b, ready) == ReadyOrder(t, a, ready) + ReadyOrder(t, b, ready)
  {
    forall d | d in a ensures t.Parses(d) { assert d in a + b; }
    forall d | d in b ensures t.Parses(d) { assert d in a + b; }
    if a == [] {
      assert a + b == b;
    } else {
      assert (a + b)[1..] == a[1..] + b;
      ReadyOrderConcat(t, a[1..], b, ready);
    }
  }

  lemma {:induction false} ReadyOrderMember(t: Template, order: seq<Digest>, ready: set<HostKey>, key: HostKey)
    requires forall d | d in order :: t.Parses(d)
    ensures key in ReadyOrder(t, order, ready) <==> key in ready && exists d :: d in order && t.KeyOf(d) == key
  {
    if order == [] {
    } else {
      ReadyOrderMember(t, order[1..], ready, key);
      assert order == [order[0]] + order[1..];
      if key in ready && t.KeyOf(order[0]) != key && exists d :: d in order && t.KeyOf(d) == key {
        var d :| d in order && t.KeyOf(d) == key;
        assert d in order[1..];
      }
    }
  }

  lemma {:induction false} ReadyOrderWithout(t: Template, order: seq<Digest>, digest: Digest, ready: set<HostKey>)
    requires DistinctPools(t) && t.Parses(digest)
    requires forall d | d in order :: t.Parses(d)
    ensures ReadyOrder(t, Without(order, digest), ready) == Without(ReadyOrder(t, order, ready), t.KeyOf(digest))
  {
    if order == [] {
    } else {
      var head, tail := order[0], order[1..];
      ReadyOrderWithout(t, tail, digest, ready);
      KeyOfInjective(t, head, digest);
      if t.KeyOf(head) in ready {
        WithoutConcat([t.KeyOf(head)], ReadyOrder(t, tail, ready), t.KeyOf(digest));
      }
      if head != digest {
        assert Without(order, digest) == [head] + Without(tail, digest);
        assert Without(order, digest)[1..] == Without(tail, digest);
      }
    }
  }

  lemma {:induction false} ReadyOrderShrinks(t: Template, order: seq<Digest>, ready: set<HostKey>, key: HostKey)
    requires forall d | d in order :: t.Parses(d)
    ensures ReadyOrder(t, order, ready - {key}) == Without(ReadyOrder(t, order, ready), key)
  {
    if order == [] {
    } else {
      var head, tail := t.KeyOf(order[0]), order[1..];
      ReadyOrderShrinks(t, tail, ready, key);
      if head in ready {
        WithoutConcat([head], ReadyOrder(t, tail, ready), key);
      }
    }
  }

  // ---- Consequences of the coupling

  lemma CoupledCovers(t: Template, l: Limits, r: Reg)
    requires DistinctPools(t) && Coupled(t, l, r)
    ensures Covered(t, r)
  {
    forall d | t.Parses(d) && r.hosts.IsReady(t.KeyOf(d)) ensures d in r.artifacts.entries {
      var key := t.KeyOf(d);
      assert key in r.hosts.order;
      ReadyOrderMember(t, r.artifacts.order, r.hosts.ReadyKeys(), key);
      var e :| e in r.artifacts.order && t.KeyOf(e) == key;
      KeyOfInjective(t, d, e);
    }
  }

  // ---- Steps of the two lists

  /** Touching a digest touches its key, if that key is ready. */
  lemma ReadyOrderTouch(t: Template, order: seq<Digest>, digest: Digest, ready: set<HostKey>)
    requires DistinctPools(t) && t.Parses(digest)
    requires forall d | d in order :: t.Parses(d)
    ensures forall d | d in Touch(order, digest) :: t.Parses(d)
    ensures ReadyOrder(t, Touch(order, digest), ready) ==
            Without(ReadyOrder(t, order, ready), t.KeyOf(digest))
            + (if t.KeyOf(digest) in ready then [t.KeyOf(digest)] else [])
  {
    ReadyOrderConcat(t, Without(order, digest), [digest], ready);
    ReadyOrderWithout(t, order, digest, ready);
  }

  /** A hit on a digest whose host is ready moves both to the newest end. */
  lemma HitKeepsOrder(t: Template, order: seq<Digest>, h: Hosts, digest: Digest)
    requires DistinctPools(t) && t.Parses(digest) && h.Valid() && SameOrder(t, order, h)
    ensures SameOrder(t, Touch(order, digest), h.ReadyHost(t.KeyOf(digest)).0)
  {
    var key := t.KeyOf(digest);
    ReadyOrderTouch(t, order, digest, h.ReadyKeys());
    var after := h.ReadyHost(key).0;
    assert after.ReadyKeys() == h.ReadyKeys();
    if !h.IsReady(key) {
      WithoutAbsent(h.order, key);
    }
  }

  /** A new host enters both lists at the newest end. */
  lemma PublishKeepsOrder(t: Template, order: seq<Digest>, h: Hosts, digest: Digest, host: Host)
    requires DistinctPools(t) && t.Parses(digest) && h.Valid() && SameOrder(t, order, h)
    requires t.KeyOf(digest) !in h.entries
    ensures var key := t.KeyOf(digest);
            SameOrder(t, Touch(order, digest), Hosts(h.entries[key := Ready(host)], Touch(h.order, key), h.generation))
  {
    var key := t.KeyOf(digest);
    var ready := h.ReadyKeys();
    var grown := Hosts(h.entries[key := Ready(host)], Touch(h.order, key), h.generation);
    assert grown.ReadyKeys() == ready + {key};
    ReadyOrderTouch(t, order, digest, ready + {key});
    ReadyOrderShrinks(t, order, ready + {key}, key);
    assert ready + {key} - {key} == ready;
    assert key !in h.order;
    WithoutAbsent(h.order, key);
  }

  /** Evicting hosts takes the same keys out of the restricted list. */
  lemma {:induction false} EvictHostsKeepsOrder(t: Template, order: seq<Digest>, h: Hosts, limit: nat)
    requires h.Valid() && SameOrder(t, order, h)
    ensures SameOrder(t, order, h.EvictReadyOverLimit(Some(limit)))
    decreases |h.order|
  {
    ReadyCount(h);
    if |h.order| <= limit {
    } else {
      EvictStep(h, limit);
      DropHostKeepsOrder(t, order, h);
      hide SameOrder, Hosts.Valid, Hosts.EvictReadyOverLimit;
      EvictHostsKeepsOrder(t, order, Hosts(h.entries - {h.order[0]}, h.order[1..], h.generation), limit);
    }
  }

  lemma DropHostKeepsOrder(t: Template, order: seq<Digest>, h: Hosts)
    requires h.Valid() && SameOrder(t, order, h) && h.order != []
    ensures SameOrder(t, order, Hosts(h.entries - {h.order[0]}, h.order[1..], h.generation))
  {
    var oldest := h.order[0];
    var next := Hosts(h.entries - {oldest}, h.order[1..], h.generation);
    assert next.ReadyKeys() == h.ReadyKeys() - {oldest};
    ReadyOrderShrinks(t, order, h.ReadyKeys(), oldest);
    WithoutAt(h.order, 0);
  }

  /** One caller's `host_for_artifact`: a hit, a fresh host, or nothing at all. */
  lemma LookOrCreateForms(l: Limits, h: Hosts, key: HostKey, created: Option<nat>)
    requires h.Valid() && Quiet(h)
    ensures var after := LookOrCreate(l, h, key, created).0;
            if h.IsReady(key) then after == h.ReadyHost(key).0
            else key !in h.entries &&
                 if created.None? then after == h
                 else after == Hosts(h.entries[key := Ready(Host(created.value, h.generation))],
                                     Touch(h.order, key), h.generation).EvictReadyOverLimit(l.maxReady)
  {
    if !h.IsReady(key) {
      var looked := h.LookUp(key).0;
      assert key !in h.order;
      WithoutAbsent(h.order, key);
      assert looked.entries - {key} == h.entries;
      if created.Some? {
        var host := Host(created.value, h.generation);
        assert looked.ShouldPublish(key, h.generation);
        assert looked.entries[key := Ready(host)] == h.entries[key := Ready(host)];
      }
    }
  }

  /** The list a publication leaves: the new key last, cut to the limit. */
  function Published(l: Limits, order: seq<HostKey>, key: HostKey): seq<HostKey> {
    if l.maxReady.Some? then Newest(order + [key], l.maxReady.value) else order + [key]
  }

  /** A fresh host goes to the newest end of its list, whatever the artifacts' order. */
  lemma CreatedOrder(l: Limits, h: Hosts, key: HostKey, serial: nat)
    requires h.Valid() && Quiet(h) && !h.IsReady(key)
    ensures var after := LookOrCreate(l, h, key, Some(serial)).0;
            after.Valid() && Quiet(after) && after.order == Published(l, h.order, key)
  {
    LookOrCreateForms(l, h, key, Some(serial));
    var grown := Hosts(h.entries[key := Ready(Host(serial, h.generation))], Touch(h.order, key), h.generation);
    WarmedHosts.TouchKeepsValid(h, key, grown.entries);
    assert key !in h.order;
    WithoutAbsent(h.order, key);
    if l.maxReady.Some? {
      WarmedHosts.EvictKeepsNewest(grown, l.maxReady.value);
    }
  }

  lemma CreatedHosts(t: Template, l: Limits, order: seq<Digest>, h: Hosts, digest: Digest, serial: nat)
    requires DistinctPools(t) && t.Parses(digest)
    requires h.Valid() && Quiet(h) && SameOrder(t, order, h)
    requires !h.IsReady(t.KeyOf(digest))
    ensures var after := LookOrCreate(l, h, t.KeyOf(digest), Some(serial)).0;
            && after.Valid() && Quiet(after)
            && SameOrder(t, Touch(order, digest), after)
            && after.order == Published(l, h.order, t.KeyOf(digest))
  {
    var key := t.KeyOf(digest);
    var host := Host(serial, h.generation);
    CreatedOrder(l, h, key, serial);
    LookOrCreateForms(l, h, key, Some(serial));
    var grown := Hosts(h.entries[key := Ready(host)], Touch(h.order, key), h.generation);
    WarmedHosts.TouchKeepsValid(h, key, grown.entries);
    PublishKeepsOrder(t, order, h, digest, host);
    if l.maxReady.Some? {
      EvictHostsKeepsOrder(t, Touch(order, digest), grown, l.maxReady.value);
    }
  }

  lemma PublishedLength(l: Limits, order: seq<HostKey>, key: HostKey)
    requires l.maxReady.Some? ==> |order| <= l.maxReady.value
    ensures |Published(l, order, key)| ==
            if l.maxReady == Some(|order|) then |order| else |order| + 1
  {
  }

  lemma HostForCachedKeepsCoupled(t: Template, l: Limits, r: Reg, digest: Digest, serial: nat)
    requires DistinctPools(t) && Coupled(t, l, r)
    requires digest in r.artifacts.entries
    ensures Coupled(t, l, Apply(t, l, r, HostFor(digest, Some(serial))).0)
  {
    var key := t.KeyOf(digest);
    var after := LookOrCreate(l, r.hosts, key, Some(serial)).0;
    WarmedArtifacts.TouchKeepsValid(r.artifacts, digest, r.artifacts.entries);
    TouchNoDup(r.artifacts.order, digest);
    if r.hosts.IsReady(key) {
      LookOrCreateForms(l, r.hosts, key, Some(serial));
      HitKeepsOrder(t, r.artifacts.order, r.hosts, digest);
      ReadyHostKeepsValid(r.hosts, key, None);
      TouchNoDup(r.hosts.order, key);
    } else {
      CreatedHosts(t, l, r.artifacts.order, r.hosts, digest, serial);
      PublishedLength(l, r.hosts.order, key);
    }
  }

  /**
   The one step the two limits must agree on. When the artifact cache is full, the
   slack forces the host cache to be full as well, so the artifact that goes is
   either without a ready host or belongs to the very host that goes with it.
   */
  lemma EvictionsInLockstep(t: Template, l: Limits, order: seq<Digest>, h: Hosts, after: Hosts, digest: Digest)
    requires DistinctPools(t) && t.Parses(digest) && digest !in order && order != [] && NoDup(order)
    requires h.Valid() && SameOrder(t, order, h) && !h.IsReady(t.KeyOf(digest))
    requires after.Valid() && after.order == Published(l, h.order, t.KeyOf(digest))
    requires l.maxReady == Some(|h.order|)
    ensures t.Parses(order[0]) && !after.IsReady(t.KeyOf(order[0]))
  {
    assert order[0] in order;
    var victim, key := t.KeyOf(order[0]), t.KeyOf(digest);
    KeyOfInjective(t, order[0], digest);
    var grown := h.order + [key];
    assert after.order == grown[1..];
    assert victim in h.order ==> h.order[0] == victim;
    forall i | 1 <= i < |grown| ensures grown[i] != victim {
    }
    assert victim !in after.order;
  }

  lemma NewestOrRest(order: seq<Digest>, limit: nat)
    requires |order| <= limit + 1
    ensures Newest(order, limit) == if |order| == limit + 1 then order[1..] else order
  {
  }

  lemma EvictedToLimit(t: Template, c: Artifacts, limit: nat)
    requires c.Valid() && Parsed(t, c) && |c.order| <= limit + 1
    ensures var after := c.EvictOverLimit(Some(limit));
            && after.Valid() && Parsed(t, after)
            && after.order == (if |c.order| == limit + 1 then c.order[1..] else c.order)
  {
    WarmedArtifacts.EvictKeepsNewest(c, limit);
    NewestOrRest(c.order, limit);
    KeptParsed(t, c, c.EvictOverLimit(Some(limit)));
    hide *;
  }

  lemma NoLimitKeepsAll(c: Artifacts)
    ensures c.EvictOverLimit(None) == c
  {
  }

  lemma EvictedArtifacts(t: Template, l: Limits, c: Artifacts)
    requires c.Valid() && Parsed(t, c)
    requires l.maxArtifacts.Some? ==> 1 <= l.maxArtifacts.value && |c.order| <= l.maxArtifacts.value + 1
    ensures var after := c.EvictOverLimit(l.maxArtifacts);
            && after.Valid() && Parsed(t, after)
            && after.order == (if l.maxArtifacts == Some(|c.order| - 1) then c.order[1..] else c.order)
  {
    NoLimitKeepsAll(c);
    hide *;
    match l.maxArtifacts
    case None =>
    case Some(limit) => EvictedToLimit(t, c, limit);
  }

  /** An insertion evicts at most one artifact, the oldest, and only from a full cache. */
  lemma InsertedArtifacts(t: Template, l: Limits, c: Artifacts, digest: Digest)
    requires c.Valid() && Parsed(t, c) && t.Parses(digest) && digest !in c.entries
    requires l.maxArtifacts.Some? ==> 1 <= l.maxArtifacts.value && |c.order| <= l.maxArtifacts.value
    ensures var after := c.Insert(digest, t.parse(digest).value, l.maxArtifacts).0;
            var grown := c.order + [digest];
            && after.Valid() && Parsed(t, after)
            && after.order == (if l.maxArtifacts == Some(|c.order|) then grown[1..] else grown)
  {
    WithoutAbsent(c.order, digest);
    var grown := Artifacts(c.entries[digest := t.parse(digest).value], c.order + [digest]);
    assert grown.Valid() by { WarmedArtifacts.TouchKeepsValid(c, digest, grown.entries); }
    EvictedArtifacts(t, l, grown);
    assert |grown.order| == |c.order| + 1;
  }

  lemma NewPairInOrder(t: Template, l: Limits, order: seq<Digest>, h: Hosts, after: Hosts, digest: Digest)
    requires DistinctPools(t) && Sufficient(l) && Positive(l)
    requires t.Parses(digest) && digest !in order && NoDup(order)
    requires h.Valid() && SameOrder(t, order, h) && !h.IsReady(t.KeyOf(digest))
    requires WithinSlack(l, |order|, |h.order|)
    requires after.Valid() && after.order == Published(l, h.order, t.KeyOf(digest))
    requires SameOrder(t, Touch(order, digest), after)
    ensures var grown := order + [digest];
            var kept := if l.maxArtifacts == Some(|order|) then grown[1..] else grown;
            SameOrder(t, kept, after) && WithinSlack(l, |kept|, |after.order|)
  {
    PublishedLength(l, h.order, t.KeyOf(digest));
    WithoutAbsent(order, digest);
    if l.maxArtifacts == Some(|order|) {
      EvictionsInLockstep(t, l, order, h, after, digest);
      RestOfOrder(t, order + [digest], after);
    }
  }

  lemma NewPairCoupled(t: Template, l: Limits, r: Reg, digest: Digest, serial: nat)
    requires DistinctPools(t) && Coupled(t, l, r) && Sufficient(l) && Positive(l)
    requires digest !in r.artifacts.entries && t.Parses(digest) && !r.hosts.IsReady(t.KeyOf(digest))
    ensures Coupled(t, l, Reg(r.artifacts.Insert(digest, t.parse(digest).value, l.maxArtifacts).0,
                              LookOrCreate(l, r.hosts, t.KeyOf(digest), Some(serial)).0))
  {
    var order := r.artifacts.order;
    var after := LookOrCreate(l, r.hosts, t.KeyOf(digest), Some(serial)).0;
    CreatedHosts(t, l, order, r.hosts, digest, serial);
    InsertedArtifacts(t, l, r.artifacts, digest);
    NewPairInOrder(t, l, order, r.hosts, after, digest);
  }

  lemma HostForNewKeepsCoupled(t: Template, l: Limits, r: Reg, digest: Digest, serial: nat)
    requires DistinctPools(t) && Coupled(t, l, r) && Sufficient(l) && Positive(l)
    requires digest !in r.artifacts.entries && t.Parses(digest)
    ensures Coupled(t, l, Apply(t, l, r, HostFor(digest, Some(serial))).0)
  {
    CoupledCovers(t, l, r);
    NewPairCoupled(t, l, r, digest, serial);
  }

  /** An oldest digest without a ready host can leave unnoticed. */
  lemma RestOfOrder(t: Template, order: seq<Digest>, h: Hosts)
    requires order != [] && SameOrder(t, order, h)
    requires t.Parses(order[0]) && !h.IsReady(t.KeyOf(order[0]))
    ensures SameOrder(t, order[1..], h)
  {
  }

  lemma ReadyForKeepsCoupled(t: Template, l: Limits, r: Reg, digest: Digest)
    requires DistinctPools(t) && Coupled(t, l, r)
    ensures Coupled(t, l, Apply(t, l, r, ReadyFor(digest)).0)
  {
    if digest in r.artifacts.entries {
      var key := t.KeyOf(digest);
      WarmedArtifacts.TouchKeepsValid(r.artifacts, digest, r.artifacts.entries);
      TouchNoDup(r.artifacts.order, digest);
      HitKeepsOrder(t, r.artifacts.order, r.hosts, digest);
      ReadyHostKeepsValid(r.hosts, key, None);
      TouchNoDup(r.hosts.order, key);
    }
  }

  /** Removal by bytes leaves no artifact of the removed host's pool behind. */
  lemma RemoveForParts(t: Template, l: Limits, r: Reg, digest: Digest)
    requires DistinctPools(t) && Parsed(t, r.artifacts) && digest in r.artifacts.entries
    ensures Apply(t, l, r, RemoveFor(digest)).0 ==
            Reg(r.artifacts.RemoveDigest(digest).0, r.hosts.RemoveReady(t.KeyOf(digest)).0)
  {
    var artifact := r.artifacts.entries[digest];
    assert t.parse(digest) == Some(artifact);
    var rest := r.artifacts.RemoveDigest(digest).0;
    forall d | d in rest.entries ensures rest.entries[d].pool != artifact.pool {
      assert t.parse(d) == Some(rest.entries[d]);
    }
    assert rest.PoolDigests(artifact.pool) == {};
  }

  lemma RemoveForKeepsCoupled(t: Template, l: Limits, r: Reg, digest: Digest)
    requires DistinctPools(t) && Coupled(t, l, r)
    ensures Coupled(t, l, Apply(t, l, r, RemoveFor(digest)).0)
  {
    var order := r.artifacts.order;
    RemoveDigestKeepsValid(r.artifacts, digest);
    WithoutNoDup(order, digest);
    if digest in r.artifacts.entries {
      var key := t.KeyOf(digest);
      RemoveForParts(t, l, r, digest);
      RemoveReadyKeepsValid(r.hosts, key, None);
      var after := r.hosts.RemoveReady(key).0;
      var ready := r.hosts.ReadyKeys();
      assert after.ReadyKeys() == ready - {key};
      WithoutNoDup(r.hosts.order, key);
      WithoutAbsentTwice(r.hosts.order, key);
      ReadyOrderWithout(t, order, digest, ready - {key});
      ReadyOrderShrinks(t, order, ready, key);
      if !r.hosts.IsReady(key) {
        WithoutAbsent(r.hosts.order, key);
      }
    } else {
      WithoutAbsent(order, digest);
      assert r.artifacts.entries - {digest} == r.artifacts.entries;
    }
  }

  lemma WithoutAbsentTwice(order: seq<HostKey>, key: HostKey)
    ensures Without(Without(order, key), key) == Without(order, key)
  {
    WithoutAbsent(Without(order, key), key);
  }

  lemma StepKeepsCoupled(t: Template, l: Limits, r: Reg, op: Op)
    requires DistinctPools(t) && Coupled(t, l, r) && Sufficient(l) && Positive(l) && Succeeds(op)
    ensures Coupled(t, l, Apply(t, l, r, op).0)
  {
    match op
    case HostFor(digest, created) =>
      if digest in r.artifacts.entries {
        HostForCachedKeepsCoupled(t, l, r, digest, created.value);
      } else if t.Parses(digest) {
        HostForNewKeepsCoupled(t, l, r, digest, created.value);
      }
    case ReadyFor(digest) => ReadyForKeepsCoupled(t, l, r, digest);
    case RemoveFor(digest) => RemoveForKeepsCoupled(t, l, r, digest);
    case Clear =>
  }

  // ---- Runs

  /**
   In every run in which constructions succeed, the ready hosts and their artifacts
   stay coupled: same order, and no more spare artifacts than spare room.
   */
  lemma {:induction false} RunsStayCoupled(t: Template, l: Limits, ops: seq<Op>)
    requires DistinctPools(t) && Sufficient(l) && Positive(l)
    requires forall i | 0 <= i < |ops| :: Succeeds(ops[i])
    ensures Coupled(t, l, Run(t, l, ops))
  {
    if ops == [] {
    } else {
      var n := |ops| - 1;
      RunsStayCoupled(t, l, ops[..n]);
      StepKeepsCoupled(t, l, Run(t, l, ops[..n]), ops[n]);
    }
  }

  /** The coercion of `with_options` gives a sufficient pair exactly when it has two limits to compare. */
  lemma CoercionSuffices(maxReady: Option<nat>, maxArtifacts: Option<nat>)
    ensures Positive(WithOptions(maxReady, maxArtifacts))
    ensures Sufficient(WithOptions(maxReady, maxArtifacts)) <==> maxArtifacts.None? || maxReady.Some?
    ensures maxReady.Some? && maxReady.value >= 1 ==> WithOptions(maxReady, maxArtifacts).maxReady == maxReady
  {
  }

  /** Limits without a zero, the second not below the first, each at least what was asked for. */
  ghost predicate Covers(l: Limits, maxReady: Option<nat>, maxArtifacts: Option<nat>) {
    && Positive(l)
    && l.maxReady.Some? == maxReady.Some? && l.maxArtifacts.Some? == maxArtifacts.Some?
    && (maxReady.Some? ==> l.maxReady.value >= maxReady.value)
    && (maxArtifacts.Some? ==> l.maxArtifacts.value >= maxArtifacts.value)
    && (maxReady.Some? && maxArtifacts.Some? ==> l.maxArtifacts.value >= l.maxReady.value)
  }

  /** The coercion makes the least such limits of those asked for. */
  lemma CoercionIsLeast(maxReady: Option<nat>, maxArtifacts: Option<nat>, l: Limits)
    ensures Covers(WithOptions(maxReady, maxArtifacts), maxReady, maxArtifacts)
    ensures Covers(l, maxReady, maxArtifacts) ==>
              && (maxReady.Some? ==> WithOptions(maxReady, maxArtifacts).maxReady.value <= l.maxReady.value)
              && (maxArtifacts.Some? ==> WithOptions(maxReady, maxArtifacts).maxArtifacts.value <= l.maxArtifacts.value)
  {
  }

  /**
   The promise made for byte-based checks: with both limits set, after any run in
   which constructions succeed, a payload whose host is ready is answered with
   that host, without parsing anything.
   */
  lemma ReadyHostsAnswerByBytes(t: Template, maxReady: nat, maxArtifacts: nat, ops: seq<Op>, digest: Digest)
    requires DistinctPools(t)
    requires forall i | 0 <= i < |ops| :: Succeeds(ops[i])
    requires t.Parses(digest)
    ensures var l := WithOptions(Some(maxReady), Some(maxArtifacts));
            var r := Run(t, l, ops);
            Apply(t, l, r, ReadyFor(digest)).1 ==
            if r.hosts.IsReady(t.KeyOf(digest)) then Some(r.hosts.entries[t.KeyOf(digest)].host) else None
  {
    var l := WithOptions(Some(maxReady), Some(maxArtifacts));
    CoercionSuffices(Some(maxReady), Some(maxArtifacts));
    RunsStayCoupled(t, l, ops);
    CoupledCovers(t, l, Run(t, l, ops));
  }
}
