/**
 The host cache of the warmed-host registry: one slot per host key, either held
 by a creation in flight or ready, a recency list of the ready keys, and a
 generation that every clear advances.
 */
module WarmedHosts {
  import opened Wrappers
  import opened Lru
  import opened WarmedArtifacts

  datatype HostKey = HostKey(pool: PoolKey, descriptor: Descriptor)

  /**
   A constructed host. `begunIn` is the generation in which its construction
   began; it is bookkeeping of this model, never read by an operation.
   */
  datatype Host = Host(serial: nat, begunIn: nat)

  datatype Slot = Creating(generation: nat) | Ready(host: Host)

  /** What a caller learns from one look at the cache. */
  datatype Look = Found(host: Host) | MustWait | MustBuild(generation: nat)

  function FirstReady(entries: map<HostKey, Slot>, order: seq<HostKey>): (i: nat)
    ensures i <= |order|
    ensures i < |order| ==> order[i] in entries && entries[order[i]].Ready?
    ensures forall j | 0 <= j < i :: !(order[j] in entries && entries[order[j]].Ready?)
  {
    if order == [] || (order[0] in entries && entries[order[0]].Ready?) then 0
    else 1 + FirstReady(entries, order[1..])
  }

  datatype Hosts = Hosts(entries: map<HostKey, Slot>, order: seq<HostKey>, generation: nat) {
    predicate IsReady(key: HostKey) {
      key in entries && entries[key].Ready?
    }

    predicate IsCreating(key: HostKey) {
      key in entries && entries[key].Creating?
    }

    function ReadyKeys(): set<HostKey> {
      set k | k in entries && entries[k].Ready?
    }

    /** The recency list holds each ready key exactly once and nothing else. */
    ghost predicate Valid() {
      NoDup(order) && forall k :: k in order <==> IsReady(k)
    }

    ghost predicate Bounded(limit: Option<nat>) {
      limit.Some? ==> |ReadyKeys()| <= limit.value
    }

    function EvictReadyOverLimit(limit: Option<nat>): Hosts
      decreases |order|
    {
      if limit.None? || |ReadyKeys()| <= limit.value then this
      else
        var i := FirstReady(entries, order);
        if i == |order| then this
        else Hosts(entries - {order[i]}, order[..i] + order[i + 1..], generation).EvictReadyOverLimit(limit)
    }

    /** The locked part of one round of the retry loop in `host_for_artifact`. */
    function LookUp(key: HostKey): (Hosts, Look) {
      if key !in entries then
        (Hosts(entries[key := Creating(generation)], order, generation), MustBuild(generation))
      else match entries[key]
        case Ready(host) => (Hosts(entries, Touch(order, key), generation), Found(host))
        case Creating(_) => (this, MustWait)
    }

    /** Whether a successful creation begun in generation `begun` goes into the cache. */
    predicate ShouldPublish(key: HostKey, begun: nat) {
      key in entries && entries[key] == Creating(begun) && generation == begun
    }

    function FinishOk(key: HostKey, begun: nat, host: Host, limit: Option<nat>): Hosts {
      if ShouldPublish(key, begun)
      then Hosts(entries[key := Ready(host)], Touch(order, key), generation).EvictReadyOverLimit(limit)
      else Hosts(entries - {key}, Without(order, key), generation)
    }

    function FinishErr(key: HostKey, begun: nat): Hosts {
      Hosts(if key in entries && entries[key] == Creating(begun) then entries - {key} else entries,
            Without(order, key), generation)
    }

    function ReadyHost(key: HostKey): (Hosts, Option<Host>) {
      if IsReady(key)
      then (Hosts(entries, Touch(order, key), generation), Some(entries[key].host))
      else (this, None)
    }

    function RemoveReady(key: HostKey): (Hosts, Option<Host>) {
      if IsReady(key)
      then (Hosts(entries - {key}, Without(order, key), generation), Some(entries[key].host))
      else (this, None)
    }

    function ClearReady(): Hosts {
      Hosts(map k | k in entries && entries[k].Creating? :: entries[k], [], generation + 1)
    }
  }

  const NO_HOSTS := Hosts(map[], [], 0)

  lemma ReadyCount(h: Hosts)
    requires h.Valid()
    ensures |h.ReadyKeys()| == |h.order|
  {
    NoDupCardinality(h.order);
    assert Elements(h.order) == h.ReadyKeys();
  }

  lemma DropOldest(h: Hosts)
    requires h.Valid() && h.order != []
    ensures FirstReady(h.entries, h.order) == 0
    ensures h.order[..0] + h.order[1..] == h.order[1..]
    ensures Hosts(h.entries - {h.order[0]}, h.order[1..], h.generation).Valid()
  {
    assert h.order[0] in h.order;
    var next := Hosts(h.entries - {h.order[0]}, h.order[1..], h.generation);
    forall k ensures k in next.order <==> next.IsReady(k) {
      assert h.order == [h.order[0]] + next.order;
      assert k in h.order <==> h.IsReady(k);
    }
  }

  /**
   Eviction keeps the `limit` most recently used ready hosts, every creation in
   flight, and nothing else; the slots it keeps are unchanged. The search for a
   victim never comes back empty.
   */
  ghost predicate KeepsNewest(h: Hosts, e: Hosts, limit: nat) {
    && e.Valid()
    && e.order == Newest(h.order, limit)
    && e.generation == h.generation
    && (forall k :: e.IsCreating(k) <==> h.IsCreating(k))
    && (forall k | k in e.entries :: k in h.entries && e.entries[k] == h.entries[k])
  }

  lemma KeepsNewestStep(h: Hosts, e: Hosts, limit: nat)
    requires h.Valid() && |h.order| > limit
    requires KeepsNewest(Hosts(h.entries - {h.order[0]}, h.order[1..], h.generation), e, limit)
    ensures KeepsNewest(h, e, limit)
  {
    var next := Hosts(h.entries - {h.order[0]}, h.order[1..], h.generation);
    NewestTail(h.order, limit);
    assert h.IsReady(h.order[0]) by { assert h.order[0] in h.order; }
    forall k ensures e.IsCreating(k) <==> h.IsCreating(k) {
      assert e.IsCreating(k) <==> next.IsCreating(k);
    }
  }

  lemma EvictOnce(h: Hosts, limit: nat)
    requires |h.ReadyKeys()| > limit && h.order != [] && FirstReady(h.entries, h.order) == 0
    ensures h.EvictReadyOverLimit(Some(limit)) ==
            Hosts(h.entries - {h.order[0]}, h.order[..0] + h.order[1..], h.generation).EvictReadyOverLimit(Some(limit))
  {
    hide FirstReady, Hosts.ReadyKeys;
  }

  lemma EvictStep(h: Hosts, limit: nat)
    requires h.Valid() && |h.order| > limit
    ensures var next := Hosts(h.entries - {h.order[0]}, h.order[1..], h.generation);
            next.Valid() && h.EvictReadyOverLimit(Some(limit)) == next.EvictReadyOverLimit(Some(limit))
  {
    ReadyCount(h);
    DropOldest(h);
    hide *;
    EvictOnce(h, limit);
  }

  lemma {:induction false} EvictKeepsNewest(h: Hosts, limit: nat)
    requires h.Valid()
    ensures KeepsNewest(h, h.EvictReadyOverLimit(Some(limit)), limit)
    decreases |h.order|
  {
    if |h.order| <= limit {
      ReadyCount(h);
    } else {
      hide KeepsNewest;
      var next := Hosts(h.entries - {h.order[0]}, h.order[1..], h.generation);
      EvictStep(h, limit);
      EvictKeepsNewest(next, limit);
      KeepsNewestStep(h, next.EvictReadyOverLimit(Some(limit)), limit);
    }
  }

  lemma EvictKeepsBounded(h: Hosts, limit: Option<nat>)
    requires h.Valid()
    ensures var e := h.EvictReadyOverLimit(limit);
            && e.Valid() && e.Bounded(limit) && e.generation == h.generation
            && (forall k :: e.IsCreating(k) <==> h.IsCreating(k))
            && (forall k | k in e.entries :: k in h.entries && e.entries[k] == h.entries[k])
  {
    if limit.Some? {
      EvictKeepsNewest(h, limit.value);
      ReadyCount(h.EvictReadyOverLimit(limit));
    }
  }

  lemma TouchKeepsValid(h: Hosts, key: HostKey, entries: map<HostKey, Slot>)
    requires h.Valid()
    requires key in entries && entries[key].Ready?
    requires forall k | k != key :: k in entries <==> k in h.entries
    requires forall k | k != key && k in entries :: entries[k] == h.entries[k]
    ensures Hosts(entries, Touch(h.order, key), h.generation).Valid()
  {
    TouchNoDup(h.order, key);
  }

  lemma WithoutKeepsValid(h: Hosts, key: HostKey)
    requires h.Valid()
    ensures Hosts(h.entries - {key}, Without(h.order, key), h.generation).Valid()
  {
    WithoutNoDup(h.order, key);
  }

  /** A slot only ever changes for the key the operation names, short of eviction. */
  lemma LookUpKeepsValid(h: Hosts, key: HostKey, limit: Option<nat>)
    requires h.Valid() && h.Bounded(limit)
    ensures h.LookUp(key).0.Valid() && h.LookUp(key).0.Bounded(limit)
  {
    if key in h.entries && h.entries[key].Ready? {
      TouchKeepsValid(h, key, h.entries);
    }
    assert h.LookUp(key).0.ReadyKeys() == h.ReadyKeys();
  }

  lemma FinishOkKeepsValid(h: Hosts, key: HostKey, begun: nat, host: Host, limit: Option<nat>)
    requires h.Valid() && h.Bounded(limit)
    ensures h.FinishOk(key, begun, host, limit).Valid()
    ensures h.FinishOk(key, begun, host, limit).Bounded(limit)
  {
    if h.ShouldPublish(key, begun) {
      var entries := h.entries[key := Ready(host)];
      TouchKeepsValid(h, key, entries);
      EvictKeepsBounded(Hosts(entries, Touch(h.order, key), h.generation), limit);
    } else {
      WithoutKeepsValid(h, key);
      FewerReady(h, Hosts(h.entries - {key}, Without(h.order, key), h.generation));
    }
  }

  lemma FewerReady(h: Hosts, smaller: Hosts)
    requires forall k | smaller.IsReady(k) :: h.IsReady(k)
    ensures |smaller.ReadyKeys()| <= |h.ReadyKeys()|
  {
    forall k | k in smaller.ReadyKeys() ensures k in h.ReadyKeys() {
      assert smaller.IsReady(k);
    }
    SubsetSize(smaller.ReadyKeys(), h.ReadyKeys());
  }

  lemma FinishErrKeepsValid(h: Hosts, key: HostKey, begun: nat, limit: Option<nat>)
    requires h.Valid() && h.Bounded(limit)
    requires key in h.entries && h.entries[key] == Creating(begun)
    ensures h.FinishErr(key, begun).Valid() && h.FinishErr(key, begun).Bounded(limit)
  {
    WithoutKeepsValid(h, key);
    FewerReady(h, h.FinishErr(key, begun));
  }

  lemma ReadyHostKeepsValid(h: Hosts, key: HostKey, limit: Option<nat>)
    requires h.Valid() && h.Bounded(limit)
    ensures h.ReadyHost(key).0.Valid() && h.ReadyHost(key).0.Bounded(limit)
  {
    if h.IsReady(key) {
      TouchKeepsValid(h, key, h.entries);
    }
    assert h.ReadyHost(key).0.ReadyKeys() == h.ReadyKeys();
  }

  lemma RemoveReadyKeepsValid(h: Hosts, key: HostKey, limit: Option<nat>)
    requires h.Valid() && h.Bounded(limit)
    ensures h.RemoveReady(key).0.Valid() && h.RemoveReady(key).0.Bounded(limit)
  {
    WithoutKeepsValid(h, key);
    FewerReady(h, h.RemoveReady(key).0);
  }

  /**
   A creation that may publish does: its host is ready afterwards, is the most
   recently used, and cannot be the eviction's victim.
   */
  lemma PublishedSurvives(h: Hosts, key: HostKey, begun: nat, host: Host, limit: Option<nat>)
    requires h.Valid() && h.ShouldPublish(key, begun)
    requires limit.Some? ==> limit.value >= 1
    ensures var after := h.FinishOk(key, begun, host, limit);
            && key in after.entries && after.entries[key] == Ready(host)
            && after.order != [] && after.order[|after.order| - 1] == key
  {
    var entries := h.entries[key := Ready(host)];
    var grown := Hosts(entries, Touch(h.order, key), h.generation);
    TouchKeepsValid(h, key, entries);
    if limit.Some? {
      EvictKeepsNewest(grown, limit.value);
      NewestLast(grown.order, limit.value);
      var order := grown.EvictReadyOverLimit(limit).order;
      assert order[|order| - 1] in order;
    }
  }

  /** `WarmedHostCache`: each method is one critical section of the registry. */
  class WarmedHostCache {
    var entries: map<HostKey, Slot>
    var order: seq<HostKey>
    var generation: nat

    ghost function Value(): Hosts
      reads this
    {
      Hosts(entries, order, generation)
    }

    constructor ()
      ensures Value() == NO_HOSTS
    {
      entries, order, generation := map[], [], 0;
    }

    method ReadyCount() returns (count: nat)
      ensures count == |Value().ReadyKeys()|
    {
      var ready := set k | k in entries && entries[k].Ready?;
      count := |ready|;
    }

    method EvictReadyOverLimit(limit: Option<nat>)
      modifies this
      ensures Value() == old(Value()).EvictReadyOverLimit(limit)
    {
      if limit.None? {
        return;
      }
      var count := ReadyCount();
      while count > limit.value
        invariant count == |Value().ReadyKeys()|
        invariant old(Value()).EvictReadyOverLimit(limit) == Value().EvictReadyOverLimit(limit)
        decreases |order|
      {
        var i := FirstReady(entries, order);
        if i == |order| {
          break;
        }
        entries, order := entries - {order[i]}, order[..i] + order[i + 1..];
        count := ReadyCount();
      }
    }

    method LookUp(key: HostKey) returns (look: Look)
      modifies this
      ensures (Value(), look) == old(Value()).LookUp(key)
    {
      if key !in entries {
        entries := entries[key := Creating(generation)];
        return MustBuild(generation);
      }
      match entries[key]
      case Ready(host) =>
        order := Touch(order, key);
        return Found(host);
      case Creating(_) =>
        return MustWait;
    }

    method FinishOk(key: HostKey, begun: nat, host: Host, limit: Option<nat>)
      modifies this
      ensures Value() == old(Value()).FinishOk(key, begun, host, limit)
    {
      if key in entries && entries[key] == Creating(begun) && generation == begun {
        entries := entries[key := Ready(host)];
        order := Touch(order, key);
        EvictReadyOverLimit(limit);
      } else {
        entries := entries - {key};
        order := Without(order, key);
      }
    }

    method FinishErr(key: HostKey, begun: nat)
      modifies this
      ensures Value() == old(Value()).FinishErr(key, begun)
    {
      if key in entries && entries[key] == Creating(begun) {
        entries := entries - {key};
      }
      order := Without(order, key);
    }

    method ReadyHost(key: HostKey) returns (found: Option<Host>)
      modifies this
      ensures (Value(), found) == old(Value()).ReadyHost(key)
    {
      if key in entries && entries[key].Ready? {
        order := Touch(order, key);
        return Some(entries[key].host);
      }
      return None;
    }

    method RemoveReady(key: HostKey) returns (removed: Option<Host>)
      modifies this
      ensures (Value(), removed) == old(Value()).RemoveReady(key)
    {
      if key !in entries || !entries[key].Ready? {
        return None;
      }
      removed := Some(entries[key].host);
      order := Without(order, key);
      entries := entries - {key};
    }

    method ClearReadyAndInvalidateCreating() returns (count: nat)
      modifies this
      ensures Value() == old(Value()).ClearReady()
      ensures count == |old(Value()).ReadyKeys()|
    {
      count := ReadyCount();
      entries := map k | k in entries && entries[k].Creating? :: entries[k];
      order := [];
      generation := generation + 1;
    }
  }
}
