/**
 How tight the conditions of RegistryRuns are: the limits, the distinct pool keys
 and the successful constructions are each needed, and each failure is located.
 */
module RegistryLimits {
  import opened Wrappers
  import opened Lru
  import opened WarmedArtifacts
  import opened WarmedHosts
  import opened Registry
  import opened RegistryRuns

  ghost predicate AllSucceed(ops: seq<Op>) {
    forall i | 0 <= i < |ops| :: Succeeds(ops[i])
  }

  /**
   How a host is lost: the artifact cache is full, the host cache is not, and the
   oldest artifact's host is ready. Warming one more bundle evicts that artifact only.
   */
  lemma UnevenEvictionLosesAHost(t: Template, l: Limits, r: Reg, digest: Digest, serial: nat)
    requires DistinctPools(t) && Positive(l)
    requires r.artifacts.Valid() && r.hosts.Valid() && Quiet(r.hosts) && Parsed(t, r.artifacts)
    requires SameOrder(t, r.artifacts.order, r.hosts)
    requires l.maxArtifacts == Some(|r.artifacts.order|)
    requires l.maxReady.Some? ==> |r.hosts.order| < l.maxReady.value
    requires r.artifacts.order != [] && t.Parses(r.artifacts.order[0]) && r.hosts.IsReady(t.KeyOf(r.artifacts.order[0]))
    requires t.Parses(digest) && digest !in r.artifacts.entries && !r.hosts.IsReady(t.KeyOf(digest))
    ensures !Covered(t, Apply(t, l, r, HostFor(digest, Some(serial))).0)
  {
    var order, key := r.artifacts.order, t.KeyOf(digest);
    CreatedHosts(t, l, order, r.hosts, digest, serial);
    InsertedArtifacts(t, l, r.artifacts, digest);
    var after := Apply(t, l, r, HostFor(digest, Some(serial))).0;
    assert after.hosts.order == r.hosts.order + [key];
    assert t.KeyOf(order[0]) in after.hosts.order by { assert t.KeyOf(order[0]) in r.hosts.order; }
    assert order[0] !in after.artifacts.order;
  }

  /** One bundle per number. */
  const NUMBERED := Template(None, (d: Digest) => Some(Artifact(PoolKey(d, None), Descriptor("", None), "")))

  function Warmups(n: nat): seq<Op> {
    seq(n, i requires 0 <= i < n => HostFor(i, Some(i)))
  }

  lemma RunAppend(t: Template, l: Limits, ops: seq<Op>, op: Op)
    ensures Run(t, l, ops + [op]) == Apply(t, l, Run(t, l, ops), op).0
  {
    assert (ops + [op])[..|ops|] == ops;
  }

  /** Digests 0 to n-1 were warmed and nothing has been evicted. */
  ghost predicate WarmedUp(r: Reg, n: nat) {
    && r.artifacts.Valid() && r.hosts.Valid() && Quiet(r.hosts) && Parsed(NUMBERED, r.artifacts)
    && SameOrder(NUMBERED, r.artifacts.order, r.hosts)
    && |r.artifacts.order| == n && (forall i | 0 <= i < n :: r.artifacts.order[i] == i)
    && |r.hosts.order| == n
    && forall d: nat | d < n :: r.hosts.IsReady(NUMBERED.KeyOf(d))
  }

  lemma NextNotReady(r: Reg, n: nat)
    requires WarmedUp(r, n)
    ensures n !in r.artifacts.order && n !in r.artifacts.entries && !r.hosts.IsReady(NUMBERED.KeyOf(n))
  {
    var key, order := NUMBERED.KeyOf(n), r.artifacts.order;
    ReadyOrderMember(NUMBERED, order, r.hosts.ReadyKeys(), key);
    assert forall d | d in order :: NUMBERED.KeyOf(d) != key;
    assert key !in r.hosts.order;
  }

  /** Both lists grow at the newest end; a full artifact list also loses its oldest. */
  ghost predicate OneMore(l: Limits, r: Reg, n: nat, after: Reg) {
    && after.artifacts.Valid() && after.hosts.Valid() && Quiet(after.hosts) && Parsed(NUMBERED, after.artifacts)
    && SameOrder(NUMBERED, r.artifacts.order + [n], after.hosts)
    && after.hosts.order == r.hosts.order + [NUMBERED.KeyOf(n)]
    && after.artifacts.order ==
       (if l.maxArtifacts == Some(n) then (r.artifacts.order + [n])[1..] else r.artifacts.order + [n])
  }

  lemma WarmNext(l: Limits, r: Reg, n: nat)
    requires Positive(l) && WarmedUp(r, n)
    requires l.maxReady.Some? ==> n < l.maxReady.value
    requires l.maxArtifacts.Some? ==> n <= l.maxArtifacts.value
    ensures OneMore(l, r, n, Apply(NUMBERED, l, r, HostFor(n, Some(n))).0)
  {
    var order := r.artifacts.order;
    NextNotReady(r, n);
    CreatedHosts(NUMBERED, l, order, r.hosts, n, n);
    InsertedArtifacts(NUMBERED, l, r.artifacts, n);
    assert Touch(order, n) == order + [n] by { WithoutAbsent(order, n); }
    assert Published(l, r.hosts.order, NUMBERED.KeyOf(n)) == r.hosts.order + [NUMBERED.KeyOf(n)];
  }

  lemma StillReady(l: Limits, r: Reg, n: nat, after: Reg, d: nat)
    requires WarmedUp(r, n) && OneMore(l, r, n, after) && d <= n
    ensures after.hosts.IsReady(NUMBERED.KeyOf(d))
  {
    var key := NUMBERED.KeyOf(d);
    if d < n {
      assert r.hosts.IsReady(key);
      assert key in r.hosts.order;
    }
    assert key in after.hosts.order;
  }

  lemma WarmOneMore(l: Limits, r: Reg, n: nat)
    requires Positive(l) && WarmedUp(r, n)
    requires l.maxReady.Some? ==> n < l.maxReady.value
    requires l.maxArtifacts.Some? ==> n < l.maxArtifacts.value
    ensures WarmedUp(Apply(NUMBERED, l, r, HostFor(n, Some(n))).0, n + 1)
  {
    WarmNext(l, r, n);
    var after := Apply(NUMBERED, l, r, HostFor(n, Some(n))).0;
    forall d: nat | d < n + 1 ensures after.hosts.IsReady(NUMBERED.KeyOf(d)) {
      StillReady(l, r, n, after, d);
    }
  }

  lemma WarmOneTooMany(l: Limits, r: Reg, n: nat)
    requires Positive(l) && WarmedUp(r, n)
    requires l.maxReady.Some? ==> n < l.maxReady.value
    requires l.maxArtifacts == Some(n)
    ensures !Covered(NUMBERED, Apply(NUMBERED, l, r, HostFor(n, Some(n))).0)
  {
    NextNotReady(r, n);
    assert r.artifacts.order[0] == 0;
    UnevenEvictionLosesAHost(NUMBERED, l, r, n, n);
  }

  lemma NothingWarmed(l: Limits)
    ensures WarmedUp(Run(NUMBERED, l, Warmups(0)), 0)
  {
    assert Run(NUMBERED, l, []) == FRESH;
  }

  lemma WarmupsAppend(n: nat)
    ensures Warmups(n + 1) == Warmups(n) + [HostFor(n, Some(n))]
  {
  }

  lemma {:induction false} WarmMany(l: Limits, n: nat)
    requires Positive(l)
    requires l.maxReady.Some? ==> n <= l.maxReady.value
    requires l.maxArtifacts.Some? ==> n <= l.maxArtifacts.value
    ensures WarmedUp(Run(NUMBERED, l, Warmups(n)), n)
  {
    hide *;
    if n == 0 {
      NothingWarmed(l);
    } else {
      WarmMany(l, n - 1);
      WarmupsAppend(n - 1);
      RunAppend(NUMBERED, l, Warmups(n - 1), HostFor(n - 1, Some(n - 1)));
      WarmOneMore(l, Run(NUMBERED, l, Warmups(n - 1)), n - 1);
    }
  }

  /** Too small an artifact limit loses the first of enough warmed hosts. */
  lemma InsufficientLimitsLoseAHost(l: Limits)
    requires Positive(l) && !Sufficient(l)
    ensures var n := l.maxArtifacts.value;
            AllSucceed(Warmups(n + 1)) && !Covered(NUMBERED, Run(NUMBERED, l, Warmups(n + 1)))
  {
    hide Run, Apply, WarmedUp, Covered;
    var n := l.maxArtifacts.value;
    WarmMany(l, n);
    WarmupsAppend(n);
    RunAppend(NUMBERED, l, Warmups(n), HostFor(n, Some(n)));
    WarmOneTooMany(l, Run(NUMBERED, l, Warmups(n)), n);
  }

  /**
   The limits for which no run of successful calls, on any bundles with distinct
   pool keys, ever leaves a ready host without its artifact are exactly the
   sufficient ones: what the coercion establishes cannot be weakened.
   */
  lemma LimitsSufficeExactly(l: Limits)
    requires Positive(l)
    ensures (forall t: Template, ops: seq<Op> ::
               DistinctPools(t) && AllSucceed(ops) ==> Covered(t, Run(t, l, ops)))
            <==> Sufficient(l)
  {
    if Sufficient(l) {
      forall t: Template, ops: seq<Op> | DistinctPools(t) && AllSucceed(ops) ensures Covered(t, Run(t, l, ops)) {
        RunsStayCoupled(t, l, ops);
        CoupledCovers(t, l, Run(t, l, ops));
      }
    } else {
      InsufficientLimitsLoseAHost(l);
      assert DistinctPools(NUMBERED);
    }
  }

  // ---- Constructions that fail

  /** A failed construction leaves the hosts alone; only the artifact list may have moved. */
  lemma FailedWarmupArtifacts(t: Template, l: Limits, r: Reg, digest: Digest)
    requires r.artifacts.Valid() && Parsed(t, r.artifacts) && r.hosts.Valid() && Quiet(r.hosts) && Positive(l)
    requires l.maxArtifacts.Some? ==> |r.artifacts.order| <= l.maxArtifacts.value
    requires digest !in r.artifacts.entries && t.Parses(digest) && !r.hosts.IsReady(t.KeyOf(digest))
    ensures var after := Apply(t, l, r, HostFor(digest, None)).0;
            var grown := r.artifacts.order + [digest];
            && after.hosts == r.hosts
            && after.artifacts.Valid() && Parsed(t, after.artifacts)
            && after.artifacts.order == (if l.maxArtifacts == Some(|r.artifacts.order|) then grown[1..] else grown)
  {
    InsertedArtifacts(t, l, r.artifacts, digest);
    LookOrCreateForms(l, r.hosts, t.KeyOf(digest), None);
  }

  /**
   Whether a construction attempt that failed left the coupling intact can be told
   beforehand: the payload was known or is no bundle, or the artifact it pushed out
   had no ready host, or, with nothing to push out, there was spare room to use up.
   */
  predicate HarmlessFailure(t: Template, l: Limits, r: Reg, digest: Digest)
    requires r.artifacts.order != [] ==> t.Parses(r.artifacts.order[0])
  {
    var artifacts, hosts := |r.artifacts.order|, |r.hosts.order|;
    || digest in r.artifacts.entries
    || !t.Parses(digest)
    || (if l.maxArtifacts == Some(artifacts)
        then artifacts > 0 ==> !r.hosts.IsReady(t.KeyOf(r.artifacts.order[0]))
        else l.maxArtifacts.Some? && l.maxReady.Some? ==>
               artifacts - hosts < l.maxArtifacts.value - l.maxReady.value)
  }

  lemma ColdDigestKeepsOrder(t: Template, order: seq<Digest>, h: Hosts, digest: Digest)
    requires SameOrder(t, order, h) && t.Parses(digest) && !h.IsReady(t.KeyOf(digest))
    ensures SameOrder(t, order + [digest], h)
  {
    ReadyOrderConcat(t, order, [digest], h.ReadyKeys());
    assert ReadyOrder(t, [digest], h.ReadyKeys()) == [];
  }

  /** A failure on a known payload is no different from a ready check. */
  lemma KnownFailureIsACheck(t: Template, l: Limits, r: Reg, digest: Digest)
    requires Parsed(t, r.artifacts) && r.hosts.Valid() && Quiet(r.hosts) && digest in r.artifacts.entries
    ensures Apply(t, l, r, HostFor(digest, None)) == Apply(t, l, r, ReadyFor(digest))
  {
    LookOrCreateForms(l, r.hosts, t.KeyOf(digest), None);
  }

  /** The restricted list when the artifact of a cold payload is put in, and the oldest perhaps out. */
  lemma ColdOrder(t: Template, l: Limits, order: seq<Digest>, h: Hosts, digest: Digest)
    requires SameOrder(t, order, h) && t.Parses(digest) && !h.IsReady(t.KeyOf(digest))
    requires l.maxArtifacts == Some(|order|) && order != [] ==> t.Parses(order[0]) && !h.IsReady(t.KeyOf(order[0]))
    ensures var grown := order + [digest];
            SameOrder(t, if l.maxArtifacts == Some(|order|) then grown[1..] else grown, h)
  {
    ColdDigestKeepsOrder(t, order, h, digest);
    hide SameOrder, Hosts.IsReady;
    if l.maxArtifacts == Some(|order|) {
      assert (order + [digest])[0] == if order == [] then digest else order[0];
      RestOfOrder(t, order + [digest], h);
    }
  }

  lemma ColdHarmlessFailure(t: Template, l: Limits, r: Reg, digest: Digest)
    requires Coupled(t, l, r) && Positive(l)
    requires digest !in r.artifacts.entries && t.Parses(digest) && !r.hosts.IsReady(t.KeyOf(digest))
    requires r.artifacts.order != [] ==> t.Parses(r.artifacts.order[0])
    requires HarmlessFailure(t, l, r, digest)
    ensures Coupled(t, l, Apply(t, l, r, HostFor(digest, None)).0)
  {
    hide Apply, SameOrder, Parsed, Quiet, Artifacts.Valid, Hosts.Valid, Hosts.IsReady;
    FailedWarmupArtifacts(t, l, r, digest);
    ColdOrder(t, l, r.artifacts.order, r.hosts, digest);
  }

  lemma HarmlessFailureKeepsCoupled(t: Template, l: Limits, r: Reg, digest: Digest)
    requires DistinctPools(t) && Coupled(t, l, r) && Positive(l)
    requires r.artifacts.order != [] ==> t.Parses(r.artifacts.order[0])
    requires HarmlessFailure(t, l, r, digest)
    ensures Coupled(t, l, Apply(t, l, r, HostFor(digest, None)).0)
  {
    if digest in r.artifacts.entries {
      KnownFailureIsACheck(t, l, r, digest);
      ReadyForKeepsCoupled(t, l, r, digest);
    } else if t.Parses(digest) {
      CoupledCovers(t, l, r);
      ColdHarmlessFailure(t, l, r, digest);
    }
  }

  lemma HarmfulFailureBreaksCoupled(t: Template, l: Limits, r: Reg, digest: Digest)
    requires DistinctPools(t) && Coupled(t, l, r) && Positive(l)
    requires r.artifacts.order != [] ==> t.Parses(r.artifacts.order[0])
    requires !HarmlessFailure(t, l, r, digest)
    ensures !Coupled(t, l, Apply(t, l, r, HostFor(digest, None)).0)
    ensures !Covered(t, Apply(t, l, r, HostFor(digest, None)).0) <==> l.maxArtifacts == Some(|r.artifacts.order|)
  {
    CoupledCovers(t, l, r);
    FailedWarmupArtifacts(t, l, r, digest);
    hide Apply, SameOrder, Parsed, Quiet;
    var order, after := r.artifacts.order, Apply(t, l, r, HostFor(digest, None)).0;
    if l.maxArtifacts == Some(|order|) {
      PushedOut(order, digest);
      assert order[0] !in after.artifacts.order;
      assert !Covered(t, after);
    } else {
      SameHostsCovered(t, r, after, digest);
    }
    if Coupled(t, l, after) {
      CoupledCovers(t, l, after);
    }
  }

  lemma PushedOut(order: seq<Digest>, digest: Digest)
    requires NoDup(order) && order != [] && digest !in order
    ensures order[0] !in (order + [digest])[1..]
  {
    assert (order + [digest])[1..] == order[1..] + [digest];
  }

  /** More artifacts and the same hosts: nothing is lost. */
  lemma SameHostsCovered(t: Template, r: Reg, after: Reg, digest: Digest)
    requires Covered(t, r) && after.hosts == r.hosts && r.artifacts.Valid() && after.artifacts.Valid()
    requires after.artifacts.order == r.artifacts.order + [digest]
    ensures Covered(t, after)
  {
    forall d | t.Parses(d) && after.hosts.IsReady(t.KeyOf(d)) ensures d in after.artifacts.entries {
      assert d in r.artifacts.order;
      assert d in after.artifacts.order;
    }
  }

  /** After a failed construction the coupling holds exactly when the failure was harmless. */
  lemma FailedWarmupKeepsCouplingExactly(t: Template, l: Limits, r: Reg, digest: Digest)
    requires DistinctPools(t) && Coupled(t, l, r) && Positive(l)
    ensures r.artifacts.order != [] ==> t.Parses(r.artifacts.order[0])
    ensures Coupled(t, l, Apply(t, l, r, HostFor(digest, None)).0) <==> HarmlessFailure(t, l, r, digest)
  {
    assert r.artifacts.order != [] ==> r.artifacts.order[0] in r.artifacts.order;
    if HarmlessFailure(t, l, r, digest) {
      HarmlessFailureKeepsCoupled(t, l, r, digest);
    } else {
      HarmfulFailureBreaksCoupled(t, l, r, digest);
    }
  }

  /** Room for two hosts and two artifacts. */
  const TWO := Limits(Some(2), Some(2))

  const WARM_THEN_FAIL := [HostFor(0, Some(0)), HostFor(1, None)]

  lemma FailAfterWarming(r: Reg)
    requires WarmedUp(r, 1)
    ensures var after := Apply(NUMBERED, TWO, r, HostFor(1, None)).0;
            && after.artifacts.Valid() && after.hosts.Valid() && Quiet(after.hosts) && Parsed(NUMBERED, after.artifacts)
            && SameOrder(NUMBERED, [0, 1], after.hosts)
            && after.artifacts.order == [0, 1] && after.hosts.order == [NUMBERED.KeyOf(0)]
  {
    hide Apply, SameOrder, Parsed, Quiet, Artifacts.Valid, Hosts.Valid;
    NextNotReady(r, 1);
    assert r.artifacts.order == [0];
    OnlyHost(r);
    WarmedIsCoupled(r);
    FailedWarmupArtifacts(NUMBERED, TWO, r, 1);
    ColdDigestKeepsOrder(NUMBERED, [0], r.hosts, 1);
    assert [0] + [1] == [0, 1];
  }

  lemma OnlyHost(r: Reg)
    requires WarmedUp(r, 1)
    ensures r.hosts.order == [NUMBERED.KeyOf(0)]
  {
    assert r.hosts.IsReady(NUMBERED.KeyOf(0));
    assert NUMBERED.KeyOf(0) in r.hosts.order;
  }

  lemma WarmedIsCoupled(r: Reg)
    requires WarmedUp(r, 1)
    ensures Coupled(NUMBERED, TWO, r)
  {
  }

  lemma WarmThenFail()
    ensures var r := Run(NUMBERED, TWO, WARM_THEN_FAIL);
            && r.artifacts.Valid() && r.hosts.Valid() && Quiet(r.hosts) && Parsed(NUMBERED, r.artifacts)
            && SameOrder(NUMBERED, [0, 1], r.hosts)
            && r.artifacts.order == [0, 1] && r.hosts.order == [NUMBERED.KeyOf(0)]
  {
    hide Run, Apply, WarmedUp, SameOrder, Parsed, Quiet, Artifacts.Valid, Hosts.Valid;
    WarmMany(TWO, 1);
    assert Warmups(1) == [HostFor(0, Some(0))];
    FailAfterWarming(Run(NUMBERED, TWO, [HostFor(0, Some(0))]));
    RunAppend(NUMBERED, TWO, [HostFor(0, Some(0))], HostFor(1, None));
    assert [HostFor(0, Some(0))] + [HostFor(1, None)] == WARM_THEN_FAIL;
  }

  /**
   One failed construction can lose a host later, although every call after it
   succeeds: with room for two of each, warm one bundle, fail another, warm a third.
   */
  lemma FailedWarmupLosesAHostLater()
    ensures WithOptions(Some(2), Some(2)) == TWO
    ensures !Covered(NUMBERED, Run(NUMBERED, TWO, WARM_THEN_FAIL + [HostFor(2, Some(2))]))
  {
    WarmThenFail();
    var r := Run(NUMBERED, TWO, WARM_THEN_FAIL);
    assert NUMBERED.KeyOf(2) !in r.hosts.order;
    assert 2 !in r.artifacts.order;
    assert NUMBERED.KeyOf(0) in r.hosts.order;
    UnevenEvictionLosesAHost(NUMBERED, TWO, r, 2, 2);
    RunAppend(NUMBERED, TWO, WARM_THEN_FAIL, HostFor(2, Some(2)));
  }

  // ---- Bundles that share a pool key

  /** The registry after warming one bundle, and after warming a second. */
  lemma WarmFirst(t: Template, l: Limits, d: Digest)
    requires Positive(l) && t.Parses(d)
    ensures Run(t, l, [HostFor(d, Some(0))]) ==
            Reg(Artifacts(map[d := t.parse(d).value], [d]),
                Hosts(map[t.KeyOf(d) := Ready(Host(0, 0))], [t.KeyOf(d)], 0))
  {
    var key := t.KeyOf(d);
    assert Run(t, l, []) == FRESH;
    RunAppend(t, l, [], HostFor(d, Some(0)));
    assert [] + [HostFor(d, Some(0))] == [HostFor(d, Some(0))];
    LookOrCreateForms(l, NO_HOSTS, key, Some(0));
    var grown := Hosts(NO_HOSTS.entries[key := Ready(Host(0, 0))], Touch([], key), 0);
    assert grown == Hosts(map[key := Ready(Host(0, 0))], [key], 0);
    assert grown.ReadyKeys() == {key};
    assert grown.EvictReadyOverLimit(l.maxReady) == grown;
    var artifacts := Artifacts(EMPTY.entries[d := t.parse(d).value], Touch([], d));
    assert artifacts == Artifacts(map[d := t.parse(d).value], [d]);
    assert artifacts.EvictOverLimit(l.maxArtifacts) == artifacts;
  }

  lemma WarmSecond(t: Template, l: Limits, d: Digest, e: Digest)
    requires Positive(l) && Sufficient(l) && l.maxReady != Some(1)
    requires t.Parses(d) && t.Parses(e) && d != e && t.KeyOf(d) != t.KeyOf(e)
    ensures Run(t, l, [HostFor(d, Some(0)), HostFor(e, Some(1))]) ==
            Reg(Artifacts(map[d := t.parse(d).value, e := t.parse(e).value], [d, e]),
                Hosts(map[t.KeyOf(d) := Ready(Host(0, 0)), t.KeyOf(e) := Ready(Host(1, 0))],
                      [t.KeyOf(d), t.KeyOf(e)], 0))
  {
    var first := Run(t, l, [HostFor(d, Some(0))]);
    WarmFirst(t, l, d);
    RunAppend(t, l, [HostFor(d, Some(0))], HostFor(e, Some(1)));
    assert [HostFor(d, Some(0))] + [HostFor(e, Some(1))] == [HostFor(d, Some(0)), HostFor(e, Some(1))];
    LookOrCreateForms(l, first.hosts, t.KeyOf(e), Some(1));
    TwoHosts(l, t.KeyOf(d), t.KeyOf(e));
    TwoArtifacts(l, d, e, t.parse(d).value, t.parse(e).value);
  }

  lemma TwoHosts(l: Limits, k: HostKey, m: HostKey)
    requires Positive(l) && l.maxReady != Some(1) && k != m
    ensures var both := map[k := Ready(Host(0, 0)), m := Ready(Host(1, 0))];
            && map[k := Ready(Host(0, 0))][m := Ready(Host(1, 0))] == both
            && Hosts(both, Touch([k], m), 0).EvictReadyOverLimit(l.maxReady) == Hosts(both, [k, m], 0)
  {
    var hosts := Hosts(map[k := Ready(Host(0, 0)), m := Ready(Host(1, 0))], [k, m], 0);
    WithoutAbsent([k], m);
    assert Touch([k], m) == [k, m];
    TwoReady(hosts, k, m);
    hide Hosts.ReadyKeys, Touch, Without;
  }

  lemma TwoReady(h: Hosts, k: HostKey, m: HostKey)
    requires h.entries.Keys == {k, m} && h.IsReady(k) && h.IsReady(m) && k != m
    ensures |h.ReadyKeys()| == 2
  {
    assert h.ReadyKeys() == {k, m};
  }

  lemma TwoArtifacts(l: Limits, d: Digest, e: Digest, a: Artifact, b: Artifact)
    requires Positive(l) && Sufficient(l) && l.maxReady != Some(1) && d != e
    ensures map[d := a][e := b] == map[d := a, e := b]
    ensures Artifacts(map[d := a, e := b], Touch([d], e)).EvictOverLimit(l.maxArtifacts) ==
            Artifacts(map[d := a, e := b], [d, e])
  {
    var artifacts := Artifacts(map[d := a, e := b], Touch([d], e));
    WithoutAbsent([d], e);
    assert artifacts.entries.Keys == {d, e};
    assert |artifacts.entries| == 2;
  }

  /** Two payloads with one host key: warming the first makes the second look ready. */
  lemma SharedKeyLosesAHost(t: Template, l: Limits, d: Digest, e: Digest)
    requires Positive(l) && t.Parses(d) && t.Parses(e) && t.KeyOf(d) == t.KeyOf(e) && d != e
    ensures AllSucceed([HostFor(d, Some(0))]) && !Covered(t, Run(t, l, [HostFor(d, Some(0))]))
  {
    WarmFirst(t, l, d);
    hide Run;
    var r := Run(t, l, [HostFor(d, Some(0))]);
    assert e !in r.artifacts.entries;
    assert r.hosts.IsReady(t.KeyOf(e));
  }

  /** The sweep of a pool with two cached payloads takes both artifacts. */
  lemma SweepTakesBoth(t: Template, l: Limits, r: Reg, d: Digest, e: Digest)
    requires d in r.artifacts.entries && e in r.artifacts.entries && d != e && t.Parses(d) && t.Parses(e)
    requires r.artifacts.entries[d] == t.parse(d).value && r.artifacts.entries[e] == t.parse(e).value
    requires t.parse(d).value.pool == t.parse(e).value.pool && t.KeyOf(d) != t.KeyOf(e)
    requires r.hosts.IsReady(t.KeyOf(d)) && r.hosts.IsReady(t.KeyOf(e))
    ensures !Covered(t, Apply(t, l, r, RemoveFor(d)).0)
  {
    var after := Apply(t, l, r, RemoveFor(d)).0;
    var rest := r.artifacts.RemoveDigest(d).0;
    assert e in rest.PoolDigests(t.parse(d).value.pool);
    assert e !in after.artifacts.entries;
    assert after.hosts.IsReady(t.KeyOf(e));
  }

  lemma SharedPoolSweepLosesAHost(t: Template, l: Limits, d: Digest, e: Digest)
    requires Positive(l) && Sufficient(l) && l.maxReady != Some(1)
    requires t.Parses(d) && t.Parses(e) && d != e && t.parse(d).value.pool == t.parse(e).value.pool
    requires t.KeyOf(d) != t.KeyOf(e)
    ensures !Covered(t, Run(t, l, [HostFor(d, Some(0)), HostFor(e, Some(1))] + [RemoveFor(d)]))
  {
    var warm := [HostFor(d, Some(0)), HostFor(e, Some(1))];
    WarmSecond(t, l, d, e);
    hide Run, Apply, Covered;
    SweepTakesBoth(t, l, Run(t, l, warm), d, e);
    RunAppend(t, l, warm, RemoveFor(d));
  }

  /**
   Two payloads with one pool key: if they also have one host key, warming the
   first makes the second look ready; if not, removing the first host takes the
   second one's artifact with it.
   */
  lemma SharedPoolLosesAHost(t: Template, l: Limits, d: Digest, e: Digest) returns (ops: seq<Op>)
    requires Positive(l) && Sufficient(l) && l.maxReady != Some(1)
    requires t.Parses(d) && t.Parses(e) && d != e && t.parse(d).value.pool == t.parse(e).value.pool
    ensures AllSucceed(ops) && !Covered(t, Run(t, l, ops))
  {
    hide Run, Covered, Template.KeyOf;
    if t.KeyOf(d) == t.KeyOf(e) {
      ops := [HostFor(d, Some(0))];
      SharedKeyLosesAHost(t, l, d, e);
    } else {
      ops := [HostFor(d, Some(0)), HostFor(e, Some(1))] + [RemoveFor(d)];
      SharedPoolSweepLosesAHost(t, l, d, e);
    }
  }

  /** With room for two hosts, distinct pool keys are exactly what every run needs. */
  lemma DistinctPoolsExactly(t: Template, l: Limits)
    requires Positive(l) && Sufficient(l) && l.maxReady != Some(1)
    ensures (forall ops: seq<Op> :: AllSucceed(ops) ==> Covered(t, Run(t, l, ops))) <==> DistinctPools(t)
  {
    if DistinctPools(t) {
      forall ops: seq<Op> | AllSucceed(ops) ensures Covered(t, Run(t, l, ops)) {
        RunsStayCoupled(t, l, ops);
        CoupledCovers(t, l, Run(t, l, ops));
      }
    } else {
      var d, e :| t.Parses(d) && t.Parses(e) && t.parse(d).value.pool == t.parse(e).value.pool && d != e;
      var ops := SharedPoolLosesAHost(t, l, d, e);
    }
  }
}
