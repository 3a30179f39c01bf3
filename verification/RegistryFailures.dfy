/**
 Constructions that fail. What they leave behind is judged by the promise made for
 byte-based checks: whether some later successful calls can lose a ready host.
 */
module RegistryFailures {
  import opened Wrappers
  import opened Lru
  import opened WarmedArtifacts
  import opened WarmedHosts
  import opened Registry
  import opened RegistryRuns
  import opened RegistryLimits

  function RunFrom(t: Template, l: Limits, r: Reg, ops: seq<Op>): Reg {
    if ops == [] then r
    else Apply(t, l, RunFrom(t, l, r, ops[..|ops| - 1]), ops[|ops| - 1]).0
  }

  lemma {:induction false} RunIsFromFresh(t: Template, l: Limits, ops: seq<Op>)
    ensures Run(t, l, ops) == RunFrom(t, l, FRESH, ops)
  {
    if ops != [] {
      RunIsFromFresh(t, l, ops[..|ops| - 1]);
    }
  }

  lemma {:induction false} RunFromFirst(t: Template, l: Limits, r: Reg, op: Op, rest: seq<Op>)
    ensures RunFrom(t, l, r, [op] + rest) == RunFrom(t, l, Apply(t, l, r, op).0, rest)
  {
    var ops := [op] + rest;
    if rest == [] {
      assert ops == [op] && ops[..0] == [];
    } else {
      assert ops[..|ops| - 1] == [op] + rest[..|rest| - 1];
      RunFromFirst(t, l, r, op, rest[..|rest| - 1]);
    }
  }

  /** Every run of successful calls from here keeps all ready hosts' artifacts. */
  ghost predicate Safe(t: Template, l: Limits, r: Reg) {
    forall ops | AllSucceed(ops) :: Covered(t, RunFrom(t, l, r, ops))
  }

  lemma SafeIsCovered(t: Template, l: Limits, r: Reg)
    requires Safe(t, l, r)
    ensures Covered(t, r)
  {
    assert RunFrom(t, l, r, []) == r;
  }

  lemma SafeAfter(t: Template, l: Limits, r: Reg, op: Op)
    requires Safe(t, l, r) && Succeeds(op)
    ensures Safe(t, l, Apply(t, l, r, op).0)
  {
    hide Covered;
    forall ops | AllSucceed(ops) ensures Covered(t, RunFrom(t, l, Apply(t, l, r, op).0, ops)) {
      RunFromFirst(t, l, r, op, ops);
      assert AllSucceed([op] + ops);
    }
  }

  // ---- Sound states, whatever failed before

  /** Both caches sound and within their limits, in one order; there may be too many cold artifacts. */
  ghost predicate InOrder(t: Template, l: Limits, r: Reg) {
    && r.artifacts.Valid() && r.hosts.Valid() && Quiet(r.hosts) && Parsed(t, r.artifacts)
    && SameOrder(t, r.artifacts.order, r.hosts)
    && (l.maxReady.Some? ==> |r.hosts.order| <= l.maxReady.value)
    && (l.maxArtifacts.Some? ==> |r.artifacts.order| <= l.maxArtifacts.value)
  }

  /** Cold artifacts fit into what the artifact limit has over the host limit. */
  predicate Spare(l: Limits, artifacts: nat, hosts: nat) {
    l.maxArtifacts.Some? ==> l.maxReady.Some? && artifacts - hosts <= l.maxArtifacts.value - l.maxReady.value
  }

  lemma {:induction false} ReadyOrderShorter(t: Template, order: seq<Digest>, ready: set<HostKey>)
    requires forall d | d in order :: t.Parses(d)
    ensures |ReadyOrder(t, order, ready)| <= |order|
  {
    if order != [] {
      ReadyOrderShorter(t, order[1..], ready);
    }
  }

  lemma InOrderCounts(t: Template, l: Limits, r: Reg)
    requires InOrder(t, l, r)
    ensures |r.hosts.order| <= |r.artifacts.order|
    ensures Spare(l, |r.artifacts.order|, |r.hosts.order|) ==> Coupled(t, l, r) && Sufficient(l)
    ensures Coupled(t, l, r) && Sufficient(l) ==> Spare(l, |r.artifacts.order|, |r.hosts.order|)
  {
    ReadyOrderShorter(t, r.artifacts.order, r.hosts.ReadyKeys());
  }

  /** The same registry without an artifact limit. */
  function Unlimited(l: Limits): Limits {
    Limits(l.maxReady, None)
  }

  lemma InOrderIsCoupled(t: Template, l: Limits, r: Reg)
    requires InOrder(t, l, r)
    ensures Coupled(t, Unlimited(l), r)
  {
  }

  lemma InOrderCovers(t: Template, l: Limits, r: Reg)
    requires DistinctPools(t) && InOrder(t, l, r)
    ensures Covered(t, r)
  {
    InOrderIsCoupled(t, l, r);
    CoupledCovers(t, Unlimited(l), r);
  }

  // ---- From a sound state with spare room nothing is lost

  lemma {:induction false} RunFromStaysCoupled(t: Template, l: Limits, r: Reg, ops: seq<Op>)
    requires DistinctPools(t) && Sufficient(l) && Positive(l) && Coupled(t, l, r) && AllSucceed(ops)
    ensures Coupled(t, l, RunFrom(t, l, r, ops))
  {
    if ops != [] {
      hide Coupled, Apply;
      RunFromStaysCoupled(t, l, r, ops[..|ops| - 1]);
      StepKeepsCoupled(t, l, RunFrom(t, l, r, ops[..|ops| - 1]), ops[|ops| - 1]);
    }
  }

  lemma SpareIsSafe(t: Template, l: Limits, r: Reg)
    requires DistinctPools(t) && Positive(l) && InOrder(t, l, r)
    requires Spare(l, |r.artifacts.order|, |r.hosts.order|)
    ensures Safe(t, l, r)
  {
    hide InOrder, Coupled, Covered;
    InOrderCounts(t, l, r);
    forall ops | AllSucceed(ops) ensures Covered(t, RunFrom(t, l, r, ops)) {
      RunFromStaysCoupled(t, l, r, ops);
      CoupledCovers(t, l, RunFrom(t, l, r, ops));
    }
  }

  // ---- Without spare room a host can be lost

  /** There are always further bundles to warm. */
  ghost predicate Inexhaustible(t: Template) {
    forall used: set<Digest> :: HasFurther(t, used)
  }

  ghost predicate HasFurther(t: Template, used: set<Digest>) {
    exists d :: d !in used && t.Parses(d)
  }

  lemma FreshPayload(t: Template, l: Limits, r: Reg) returns (d: Digest)
    requires DistinctPools(t) && Inexhaustible(t) && InOrder(t, l, r)
    ensures t.Parses(d) && d !in r.artifacts.entries && !r.hosts.IsReady(t.KeyOf(d))
  {
    assert HasFurther(t, r.artifacts.entries.Keys);
    d :| d !in r.artifacts.entries.Keys && t.Parses(d);
    InOrderCovers(t, l, r);
  }

  /** The oldest artifact's host is ready. */
  ghost predicate OldestIsHot(t: Template, r: Reg) {
    r.artifacts.order != [] && t.Parses(r.artifacts.order[0]) && r.hosts.IsReady(t.KeyOf(r.artifacts.order[0]))
  }

  /** Warming a fresh bundle when both caches have room. */
  lemma WarmInto(t: Template, l: Limits, r: Reg, d: Digest)
    requires DistinctPools(t) && Positive(l) && InOrder(t, l, r)
    requires t.Parses(d) && d !in r.artifacts.entries && !r.hosts.IsReady(t.KeyOf(d))
    requires l.maxReady.Some? ==> |r.hosts.order| < l.maxReady.value
    requires l.maxArtifacts.Some? && |r.artifacts.order| < l.maxArtifacts.value
    ensures var after := Apply(t, l, r, HostFor(d, Some(0))).0;
            && InOrder(t, l, after)
            && after.artifacts.order == r.artifacts.order + [d]
            && after.hosts.order == r.hosts.order + [t.KeyOf(d)]
  {
    CreatedHosts(t, l, r.artifacts.order, r.hosts, d, 0);
    InsertedArtifacts(t, l, r.artifacts, d);
    WithoutAbsent(r.artifacts.order, d);
  }

  lemma StaysHot(t: Template, r: Reg, after: Reg, d: Digest)
    requires OldestIsHot(t, r) && r.hosts.Valid() && after.hosts.Valid() && t.Parses(d)
    requires after.artifacts.order == r.artifacts.order + [d] && after.hosts.order == r.hosts.order + [t.KeyOf(d)]
    ensures OldestIsHot(t, after)
  {
    var key := t.KeyOf(r.artifacts.order[0]);
    assert key in r.hosts.order;
    assert key in after.hosts.order;
  }

  /** With a hot oldest artifact: fill the artifact cache with fresh bundles, then warm one more. */
  lemma {:induction false} HotOldestIsLost(t: Template, l: Limits, r: Reg)
    requires DistinctPools(t) && Inexhaustible(t) && Positive(l) && InOrder(t, l, r) && OldestIsHot(t, r)
    requires !Spare(l, |r.artifacts.order|, |r.hosts.order|)
    ensures !Safe(t, l, r)
    decreases l.maxArtifacts.value - |r.artifacts.order|
  {
    hide Safe, Covered, Apply, OldestIsHot, SameOrder, Parsed, Quiet;
    var d := FreshPayload(t, l, r);
    var after := Apply(t, l, r, HostFor(d, Some(0))).0;
    if |r.artifacts.order| == l.maxArtifacts.value {
      FullAndHot(t, l, r, d);
    } else {
      WarmInto(t, l, r, d);
      StaysHot(t, r, after, d);
      HotOldestIsLost(t, l, after);
    }
    if Safe(t, l, r) {
      SafeAfter(t, l, r, HostFor(d, Some(0)));
      SafeIsCovered(t, l, after);
    }
  }

  lemma FullAndHot(t: Template, l: Limits, r: Reg, d: Digest)
    requires DistinctPools(t) && Positive(l) && InOrder(t, l, r) && OldestIsHot(t, r)
    requires !Spare(l, |r.artifacts.order|, |r.hosts.order|) && |r.artifacts.order| == l.maxArtifacts.value
    requires t.Parses(d) && d !in r.artifacts.entries && !r.hosts.IsReady(t.KeyOf(d))
    ensures !Covered(t, Apply(t, l, r, HostFor(d, Some(0))).0)
  {
    UnevenEvictionLosesAHost(t, l, r, d, 0);
  }

  /** Checking the oldest artifact, which is cold, makes it the newest and changes nothing else. */
  lemma ColdOldestRotates(t: Template, l: Limits, r: Reg)
    requires DistinctPools(t) && InOrder(t, l, r) && r.artifacts.order != []
    requires t.Parses(r.artifacts.order[0]) && !r.hosts.IsReady(t.KeyOf(r.artifacts.order[0]))
    ensures var order, after := r.artifacts.order, Apply(t, l, r, ReadyFor(r.artifacts.order[0])).0;
            && InOrder(t, l, after) && after.hosts == r.hosts && after.artifacts.order == order[1..] + [order[0]]
  {
    var order := r.artifacts.order;
    InOrderIsCoupled(t, l, r);
    ReadyForKeepsCoupled(t, Unlimited(l), r, order[0]);
    CheckedColdOldest(t, l, r);
    hide Coupled, Apply;
    CoupledIsInOrder(t, l, Apply(t, l, r, ReadyFor(order[0])).0);
  }

  lemma CheckedColdOldest(t: Template, l: Limits, r: Reg)
    requires r.artifacts.Valid() && Parsed(t, r.artifacts) && r.artifacts.order != []
    requires t.Parses(r.artifacts.order[0]) && !r.hosts.IsReady(t.KeyOf(r.artifacts.order[0]))
    ensures var order, after := r.artifacts.order, Apply(t, l, r, ReadyFor(r.artifacts.order[0])).0;
            && Apply(t, Unlimited(l), r, ReadyFor(r.artifacts.order[0])).0 == after
            && after.hosts == r.hosts && after.artifacts.order == order[1..] + [order[0]]
  {
    var order := r.artifacts.order;
    assert order[0] in order && t.parse(order[0]) == Some(r.artifacts.entries[order[0]]);
    WithoutAt(order, 0);
  }

  lemma CoupledIsInOrder(t: Template, l: Limits, r: Reg)
    requires Coupled(t, Unlimited(l), r) && (l.maxArtifacts.Some? ==> |r.artifacts.order| <= l.maxArtifacts.value)
    ensures InOrder(t, l, r)
  {
  }

  lemma {:induction false} HotIsLost(t: Template, l: Limits, r: Reg, i: nat)
    requires DistinctPools(t) && Inexhaustible(t) && Positive(l) && InOrder(t, l, r)
    requires !Spare(l, |r.artifacts.order|, |r.hosts.order|)
    requires i < |r.artifacts.order| && t.Parses(r.artifacts.order[i]) && r.hosts.IsReady(t.KeyOf(r.artifacts.order[i]))
    ensures !Safe(t, l, r)
    decreases i
  {
    hide Safe, Covered, Apply, Quiet, Parsed;
    var order := r.artifacts.order;
    if t.Parses(order[0]) && r.hosts.IsReady(t.KeyOf(order[0])) {
      HotOldestIsLost(t, l, r);
    } else {
      assert order[0] in order;
      ColdOldestRotates(t, l, r);
      var after := Apply(t, l, r, ReadyFor(order[0])).0;
      assert after.artifacts.order[i - 1] == order[i];
      HotIsLost(t, l, after, i - 1);
      if Safe(t, l, r) {
        SafeAfter(t, l, r, ReadyFor(order[0]));
      }
    }
  }

  lemma HotPosition(t: Template, l: Limits, r: Reg) returns (i: nat)
    requires InOrder(t, l, r) && r.hosts.order != []
    ensures i < |r.artifacts.order| && t.Parses(r.artifacts.order[i]) && r.hosts.IsReady(t.KeyOf(r.artifacts.order[i]))
  {
    var order, key := r.artifacts.order, r.hosts.order[0];
    assert key in r.hosts.order;
    ReadyOrderMember(t, order, r.hosts.ReadyKeys(), key);
    var d :| d in order && t.KeyOf(d) == key;
    i :| 0 <= i < |order| && order[i] == d;
  }

  /** Warming the first bundle where no host is ready. */
  lemma WarmFirstHost(t: Template, l: Limits, r: Reg, d: Digest)
    requires DistinctPools(t) && Positive(l) && InOrder(t, l, r) && r.hosts.order == []
    requires t.Parses(d) && d !in r.artifacts.entries && !r.hosts.IsReady(t.KeyOf(d)) && l.maxArtifacts.Some?
    ensures var after := Apply(t, l, r, HostFor(d, Some(0))).0;
            && InOrder(t, l, after) && after.hosts.order == [t.KeyOf(d)]
            && |after.artifacts.order| ==
               if |r.artifacts.order| == l.maxArtifacts.value then |r.artifacts.order| else |r.artifacts.order| + 1
  {
    hide SameOrder, Parsed, Quiet, LookOrCreate, Covered, Published, Artifacts.Valid, Hosts.Valid;
    var order, after := r.artifacts.order, Apply(t, l, r, HostFor(d, Some(0))).0;
    FreshIsCold(t, l, r, d);
    CreatedHosts(t, l, order, r.hosts, d, 0);
    InsertedArtifacts(t, l, r.artifacts, d);
    TouchAbsent(order, d);
    FirstPublished(l, t.KeyOf(d));
    OnlyHostCovered(t, after, d);
    KeptInOrder(t, l, r, after, order + [d]);
  }

  lemma FirstPublished(l: Limits, key: HostKey)
    requires Positive(l)
    ensures Published(l, [], key) == [key]
  {
  }

  lemma OnlyHostCovered(t: Template, after: Reg, d: Digest)
    requires DistinctPools(t) && t.Parses(d) && after.hosts.Valid() && after.artifacts.Valid()
    requires after.hosts.order == [t.KeyOf(d)]
    requires after.artifacts.order != [] && after.artifacts.order[|after.artifacts.order| - 1] == d
    ensures Covered(t, after)
  {
    assert d in after.artifacts.order;
    forall e | t.Parses(e) && after.hosts.IsReady(t.KeyOf(e)) ensures e in after.artifacts.entries {
      assert t.KeyOf(e) in after.hosts.order;
      KeyOfInjective(t, e, d);
    }
  }

  /**
   What is left of a sound state, whatever happened before: no continuation of successful
   calls loses a host exactly if the cold artifacts fit into the spare room.
   */
  lemma SafeExactly(t: Template, l: Limits, r: Reg)
    requires DistinctPools(t) && Inexhaustible(t) && Positive(l) && l.maxReady != Some(1) && InOrder(t, l, r)
    ensures Safe(t, l, r) <==> Spare(l, |r.artifacts.order|, |r.hosts.order|)
  {
    hide Safe, Covered, Apply, InOrder;
    if Spare(l, |r.artifacts.order|, |r.hosts.order|) {
      SpareIsSafe(t, l, r);
    } else if r.hosts.order != [] {
      var i := HotPosition(t, l, r);
      HotIsLost(t, l, r, i);
    } else {
      NothingReadyIsLost(t, l, r);
    }
  }

  lemma NothingReadyIsLost(t: Template, l: Limits, r: Reg)
    requires DistinctPools(t) && Inexhaustible(t) && Positive(l) && l.maxReady != Some(1) && InOrder(t, l, r)
    requires r.hosts.order == [] && !Spare(l, |r.artifacts.order|, |r.hosts.order|)
    ensures !Safe(t, l, r)
  {
    hide Safe, Covered, Apply, Quiet, Parsed, SameOrder;
    var d := FreshPayload(t, l, r);
    WarmFirstHost(t, l, r, d);
    var after := Apply(t, l, r, HostFor(d, Some(0))).0;
    var i := HotPosition(t, l, after);
    HotIsLost(t, l, after, i);
    if Safe(t, l, r) {
      SafeAfter(t, l, r, HostFor(d, Some(0)));
    }
  }

  // ---- Runs in which constructions fail

  lemma ShorterList(c: Artifacts, smaller: Artifacts)
    requires c.Valid() && smaller.Valid() && smaller.entries.Keys <= c.entries.Keys
    ensures |smaller.order| <= |c.order|
  {
    ValidCount(c);
    ValidCount(smaller);
    SubsetSize(smaller.entries.Keys, c.entries.Keys);
  }

  /** An operation that puts no new artifact in. */
  predicate InsertsNothing(t: Template, r: Reg, op: Op) {
    op.HostFor? ==> op.digest in r.artifacts.entries || !t.Parses(op.digest)
  }

  lemma LimitUnused(t: Template, l: Limits, r: Reg, op: Op)
    requires InsertsNothing(t, r, op)
    ensures Apply(t, l, r, op) == Apply(t, Unlimited(l), r, op)
    ensures Apply(t, l, r, op).0.artifacts.entries.Keys <= r.artifacts.entries.Keys
  {
    hide LookOrCreate;
    if op.HostFor? {
      SameHosts(l, r.hosts, op.created);
    }
  }

  /** Creating a host does not look at the artifact limit. */
  lemma SameHosts(l: Limits, h: Hosts, created: Option<nat>)
    ensures forall key :: LookOrCreate(l, h, key, created) == LookOrCreate(Unlimited(l), h, key, created)
  {
  }

  lemma QuietStepStaysInOrder(t: Template, l: Limits, r: Reg, op: Op)
    requires DistinctPools(t) && Positive(l) && InOrder(t, l, r) && InsertsNothing(t, r, op)
    ensures InOrder(t, l, Apply(t, l, r, op).0)
  {
    var u, after := Unlimited(l), Apply(t, l, r, op).0;
    InOrderIsCoupled(t, l, r);
    LimitUnused(t, l, r, op);
    assert Coupled(t, u, after) by {
      if op.HostFor? && op.created.None? && op.digest in r.artifacts.entries {
        KnownFailureIsACheck(t, u, r, op.digest);
        ReadyForKeepsCoupled(t, u, r, op.digest);
      } else if Succeeds(op) {
        StepKeepsCoupled(t, u, r, op);
      }
    }
    ShorterList(r.artifacts, after.artifacts);
  }

  /** A list that loses its oldest entry stays in order if the host of that entry is not ready. */
  lemma KeptInOrder(t: Template, l: Limits, r: Reg, after: Reg, grown: seq<Digest>)
    requires DistinctPools(t) && NoDup(grown) && |grown| == |r.artifacts.order| + 1 && SameOrder(t, grown, after.hosts)
    requires after.artifacts.Valid() && Parsed(t, after.artifacts)
    requires after.artifacts.order == if l.maxArtifacts == Some(|r.artifacts.order|) then grown[1..] else grown
    requires l.maxArtifacts.Some? ==> 1 <= l.maxArtifacts.value && |r.artifacts.order| <= l.maxArtifacts.value
    requires Covered(t, after)
    ensures SameOrder(t, after.artifacts.order, after.hosts)
    ensures l.maxArtifacts.Some? ==> |after.artifacts.order| <= l.maxArtifacts.value
  {
    if l.maxArtifacts == Some(|r.artifacts.order|) {
      assert grown[0] in grown && grown[0] !in grown[1..];
      RestOfOrder(t, grown, after.hosts);
    }
  }

  lemma WarmedStaysInOrder(t: Template, l: Limits, r: Reg, d: Digest, serial: nat)
    requires DistinctPools(t) && Positive(l) && InOrder(t, l, r) && d !in r.artifacts.entries && t.Parses(d)
    requires Covered(t, Apply(t, l, r, HostFor(d, Some(serial))).0)
    ensures InOrder(t, l, Apply(t, l, r, HostFor(d, Some(serial))).0)
  {
    hide Covered, SameOrder, Quiet, Parsed, LookOrCreate;
    var order, grown := r.artifacts.order, r.artifacts.order + [d];
    FreshIsCold(t, l, r, d);
    CreatedHosts(t, l, order, r.hosts, d, serial);
    InsertedArtifacts(t, l, r.artifacts, d);
    TouchAbsent(order, d);
    PublishedLength(l, r.hosts.order, t.KeyOf(d));
    KeptInOrder(t, l, r, Apply(t, l, r, HostFor(d, Some(serial))).0, grown);
  }

  lemma TouchAbsent(order: seq<Digest>, d: Digest)
    requires d !in order && NoDup(order)
    ensures Touch(order, d) == order + [d] && NoDup(order + [d])
  {
    WithoutAbsent(order, d);
  }

  lemma FreshIsCold(t: Template, l: Limits, r: Reg, d: Digest)
    requires DistinctPools(t) && InOrder(t, l, r) && t.Parses(d) && d !in r.artifacts.entries
    ensures !r.hosts.IsReady(t.KeyOf(d)) && d !in r.artifacts.order && NoDup(r.artifacts.order)
  {
    InOrderCovers(t, l, r);
  }

  lemma FailedStaysInOrder(t: Template, l: Limits, r: Reg, d: Digest)
    requires DistinctPools(t) && Positive(l) && InOrder(t, l, r) && d !in r.artifacts.entries && t.Parses(d)
    requires Covered(t, Apply(t, l, r, HostFor(d, None)).0)
    ensures InOrder(t, l, Apply(t, l, r, HostFor(d, None)).0)
  {
    hide Covered, SameOrder, Quiet, Parsed, LookOrCreate, Apply;
    var order := r.artifacts.order;
    FreshIsCold(t, l, r, d);
    FailedWarmupArtifacts(t, l, r, d);
    ColdDigestKeepsOrder(t, order, r.hosts, d);
    TouchAbsent(order, d);
    KeptInOrder(t, l, r, Apply(t, l, r, HostFor(d, None)).0, order + [d]);
  }

  /** As long as no host is lost, the state stays sound, whether constructions succeed or fail. */
  lemma StepStaysInOrder(t: Template, l: Limits, r: Reg, op: Op)
    requires DistinctPools(t) && Positive(l) && InOrder(t, l, r) && Covered(t, Apply(t, l, r, op).0)
    ensures InOrder(t, l, Apply(t, l, r, op).0)
  {
    hide InOrder, Covered, Apply;
    if InsertsNothing(t, r, op) {
      QuietStepStaysInOrder(t, l, r, op);
    } else if op.created.Some? {
      WarmedStaysInOrder(t, l, r, op.digest, op.created.value);
    } else {
      FailedStaysInOrder(t, l, r, op.digest);
    }
  }

  /** No host was lost at any time of the run. */
  ghost predicate LostNothing(t: Template, l: Limits, ops: seq<Op>) {
    forall k | 0 <= k <= |ops| :: Covered(t, Run(t, l, ops[..k]))
  }

  lemma {:induction false} RunsStayInOrder(t: Template, l: Limits, ops: seq<Op>)
    requires DistinctPools(t) && Positive(l) && LostNothing(t, l, ops)
    ensures InOrder(t, l, Run(t, l, ops))
  {
    if ops != [] {
      hide InOrder, Covered, Apply;
      var init := ops[..|ops| - 1];
      forall k | 0 <= k <= |init| ensures Covered(t, Run(t, l, init[..k])) {
        assert init[..k] == ops[..k];
      }
      RunsStayInOrder(t, l, init);
      assert ops[..|ops|] == ops;
      StepStaysInOrder(t, l, Run(t, l, init), ops[|ops| - 1]);
    }
  }

  /**
   After any run of byte-addressed calls, failures included, that has lost no host so far:
   the calls to come, if they succeed, will lose none exactly if the cold artifacts fit
   into what the artifact limit has over the host limit.
   */
  lemma SafeAfterFailuresExactly(t: Template, l: Limits, ops: seq<Op>)
    requires DistinctPools(t) && Inexhaustible(t) && Positive(l) && l.maxReady != Some(1) && LostNothing(t, l, ops)
    ensures var r := Run(t, l, ops);
            Safe(t, l, r) <==> Spare(l, |r.artifacts.order|, |r.hosts.order|)
  {
    RunsStayInOrder(t, l, ops);
    SafeExactly(t, l, Run(t, l, ops));
  }

  // ---- Which failures do harm

  /** The step succeeds, or fails without harm in the state it meets. */
  ghost predicate StepIsHarmless(t: Template, l: Limits, r: Reg, op: Op) {
    Succeeds(op) ||
    ((r.artifacts.order != [] ==> t.Parses(r.artifacts.order[0])) && HarmlessFailure(t, l, r, op.digest))
  }

  ghost predicate HarmlessRun(t: Template, l: Limits, ops: seq<Op>) {
    forall k | 0 <= k < |ops| :: StepIsHarmless(t, l, Run(t, l, ops[..k]), ops[k])
  }

  /** Harmless failures may be mixed into a run: the caches stay coupled and no host is lost. */
  lemma {:induction false} HarmlessRunsStayCoupled(t: Template, l: Limits, ops: seq<Op>)
    requires DistinctPools(t) && Sufficient(l) && Positive(l) && HarmlessRun(t, l, ops)
    ensures Coupled(t, l, Run(t, l, ops)) && Covered(t, Run(t, l, ops))
  {
    if ops == [] {
      FreshIsCoupled(t, l);
    } else {
      hide Coupled, Covered, Apply, HarmlessFailure;
      var n := |ops| - 1;
      forall k | 0 <= k < n ensures StepIsHarmless(t, l, Run(t, l, ops[..n][..k]), ops[..n][k]) {
        assert ops[..n][..k] == ops[..k];
      }
      HarmlessRunsStayCoupled(t, l, ops[..n]);
      var r, op := Run(t, l, ops[..n]), ops[n];
      assert StepIsHarmless(t, l, r, op);
      if Succeeds(op) {
        StepKeepsCoupled(t, l, r, op);
      } else {
        HarmlessFailureKeepsCoupled(t, l, r, op.digest);
      }
    }
    CoupledCovers(t, l, Run(t, l, ops));
  }

  lemma FreshIsCoupled(t: Template, l: Limits)
    requires DistinctPools(t) && Sufficient(l) && Positive(l)
    ensures Coupled(t, l, Run(t, l, []))
  {
    RunsStayCoupled(t, l, []);
  }

  /** A failed construction is harmless exactly if no successful calls after it can lose a host. */
  lemma FailureIsHarmlessExactly(t: Template, l: Limits, r: Reg, digest: Digest)
    requires DistinctPools(t) && Inexhaustible(t) && Positive(l) && Sufficient(l) && l.maxReady != Some(1)
    requires Coupled(t, l, r)
    ensures r.artifacts.order != [] ==> t.Parses(r.artifacts.order[0])
    ensures Safe(t, l, Apply(t, l, r, HostFor(digest, None)).0) <==> HarmlessFailure(t, l, r, digest)
  {
    hide Safe, Covered, Apply, HarmlessFailure;
    var after := Apply(t, l, r, HostFor(digest, None)).0;
    FailedWarmupKeepsCouplingExactly(t, l, r, digest);
    CoupledInOrder(t, l, r);
    if Covered(t, after) {
      StepStaysInOrder(t, l, r, HostFor(digest, None));
      InOrderCounts(t, l, after);
      SafeExactly(t, l, after);
    } else {
      if Safe(t, l, after) {
        SafeIsCovered(t, l, after);
      }
      if Coupled(t, l, after) {
        CoupledCovers(t, l, after);
      }
    }
  }

  lemma CoupledInOrder(t: Template, l: Limits, r: Reg)
    requires Coupled(t, l, r)
    ensures InOrder(t, l, r)
  {
  }
}
