/**
 A least-recently-used cache with no list in it: every entry carries the time of
 its last use, and a limit keeps the entries with fewer than `limit` more recently
 used ones. Both registry caches are shown to behave like it.
 */
module AgedCache {
  import opened Wrappers
  import opened Lru
  import opened WarmedArtifacts
  import opened WarmedHosts

  datatype Aged<K, V> = Aged(live: map<K, V>, used: map<K, nat>, clock: nat) {
    ghost predicate Valid() {
      && used.Keys == live.Keys
      && (forall k | k in used :: used[k] < clock)
    }

    ghost function Put(key: K, value: V): Aged<K, V> {
      Aged(live[key := value], used[key := clock], clock + 1)
    }

    ghost function Use(key: K): Aged<K, V> {
      if key in live then Put(key, live[key]) else this
    }

    ghost function Drop(keys: set<K>): Aged<K, V> {
      Aged(live - keys, used - keys, clock)
    }

    ghost function MoreRecent(key: K): set<K>
      requires key in used
    {
      set k | k in used && used[k] > used[key]
    }

    ghost function Victims(limit: nat): set<K> {
      set k | k in used && |MoreRecent(k)| >= limit
    }

    ghost function Limit(limit: Option<nat>): Aged<K, V> {
      if limit.None? then this else Drop(Victims(limit.value))
    }
  }

  ghost predicate Ascending<K(!new)>(order: seq<K>, used: map<K, nat>) {
    && (forall k | k in order :: k in used)
    && (forall i, j | 0 <= i < j < |order| :: used[order[i]] < used[order[j]])
  }

  /** `order` lists the entries of `a`, least recently used first. */
  ghost predicate Represents<K(!new), V>(order: seq<K>, live: map<K, V>, a: Aged<K, V>) {
    && a.Valid() && live == a.live
    && NoDup(order) && (forall k :: k in order <==> k in live)
    && Ascending(order, a.used)
  }

  /** Only the times of listed keys matter. */
  lemma AscendingAgrees<K(!new)>(order: seq<K>, used: map<K, nat>, other: map<K, nat>)
    requires Ascending(order, used)
    requires forall k | k in order :: k in other && other[k] == used[k]
    ensures Ascending(order, other)
  {
    forall i, j | 0 <= i < j < |order| ensures other[order[i]] < other[order[j]] {
      assert order[i] in order && order[j] in order;
    }
  }

  lemma {:induction false} AscendingWithoutAll<K(!new)>(order: seq<K>, keys: set<K>, used: map<K, nat>)
    requires Ascending(order, used)
    ensures Ascending(WithoutAll(order, keys), used)
  {
    if order == [] {
    } else {
      AscendingTail(order, used);
      hide Ascending;
      AscendingWithoutAll(order[1..], keys, used);
      AscendingCons(order[0], WithoutAll(order[1..], keys), used);
    }
  }

  lemma AscendingTail<K(!new)>(order: seq<K>, used: map<K, nat>)
    requires Ascending(order, used) && order != []
    ensures Ascending(order[1..], used) && order[0] in used
    ensures forall k | k in order[1..] :: used[order[0]] < used[k]
  {
    forall k | k in order[1..] ensures used[order[0]] < used[k] {
      var i :| 0 <= i < |order| - 1 && order[1..][i] == k;
      assert order[i + 1] == k;
    }
  }

  lemma AscendingCons<K(!new)>(first: K, rest: seq<K>, used: map<K, nat>)
    requires Ascending(rest, used) && first in used && forall k | k in rest :: used[first] < used[k]
    ensures Ascending([first] + rest, used)
  {
    var order := [first] + rest;
    forall i, j | 0 <= i < j < |order| ensures used[order[i]] < used[order[j]] {
      assert order[j] == rest[j - 1];
      assert i > 0 ==> order[i] == rest[i - 1];
    }
  }

  lemma {:induction false} WithoutIsWithoutAll<K(!new)>(order: seq<K>, key: K)
    ensures Without(order, key) == WithoutAll(order, {key})
  {
    if order == [] {
    } else {
      WithoutIsWithoutAll(order[1..], key);
    }
  }

  lemma DropRefines<K(!new), V>(order: seq<K>, live: map<K, V>, a: Aged<K, V>, keys: set<K>)
    requires Represents(order, live, a)
    ensures Represents(WithoutAll(order, keys), live - keys, a.Drop(keys))
  {
    var rest := WithoutAll(order, keys);
    WithoutAllNoDup(order, keys);
    AscendingWithoutAll(order, keys, a.used);
    AscendingAgrees(rest, a.used, a.used - keys);
  }

  lemma AscendingAppend<K(!new)>(order: seq<K>, used: map<K, nat>, key: K)
    requires Ascending(order, used) && key in used
    requires forall k | k in order :: used[k] < used[key]
    ensures Ascending(order + [key], used)
  {
    var grown := order + [key];
    forall i, j | 0 <= i < j < |grown| ensures used[grown[i]] < used[grown[j]] {
      assert grown[i] == order[i] && order[i] in order;
    }
  }

  lemma PutRefines<K(!new), V>(order: seq<K>, live: map<K, V>, a: Aged<K, V>, key: K, value: V)
    requires Represents(order, live, a)
    ensures Represents(Touch(order, key), live[key := value], a.Put(key, value))
  {
    hide NoDup, Ascending, Without;
    TouchNoDup(order, key);
    TouchAscends(order, a.used, key, a.clock);
  }

  lemma TouchAscends<K(!new)>(order: seq<K>, used: map<K, nat>, key: K, clock: nat)
    requires Ascending(order, used) && forall k | k in used :: used[k] < clock
    ensures Ascending(Touch(order, key), used[key := clock])
  {
    var rest := Without(order, key);
    WithoutIsWithoutAll(order, key);
    AscendingWithoutAll(order, {key}, used);
    AscendingAgrees(rest, used, used[key := clock]);
    AscendingAppend(rest, used[key := clock], key);
  }

  lemma UseRefines<K(!new), V>(order: seq<K>, live: map<K, V>, a: Aged<K, V>, key: K)
    requires Represents(order, live, a) && key in live
    ensures Represents(Touch(order, key), live, a.Use(key))
  {
    PutRefines(order, live, a, key, live[key]);
    assert live[key := live[key]] == live;
  }

  /** The keys used more recently than the i-th are the ones behind it. */
  lemma MoreRecentAt<K(!new), V>(order: seq<K>, live: map<K, V>, a: Aged<K, V>, i: nat)
    requires Represents(order, live, a) && i < |order|
    ensures order[i] in a.used && |a.MoreRecent(order[i])| == |order| - i - 1
  {
    assert order[i] in order;
    var behind := order[i + 1..];
    NoDupCardinality(behind);
    forall k | k in behind ensures k in a.MoreRecent(order[i]) {
      var j :| 0 <= j < |behind| && behind[j] == k;
      assert order[i + 1 + j] == k && k in order;
    }
    forall k | k in a.MoreRecent(order[i]) ensures k in behind {
      assert k in order;
      var j :| 0 <= j < |order| && order[j] == k;
      assert behind[j - i - 1] == k;
    }
    assert a.MoreRecent(order[i]) == Elements(behind);
  }

  lemma VictimsAreOldest<K(!new), V>(order: seq<K>, live: map<K, V>, a: Aged<K, V>, limit: nat, key: K)
    requires Represents(order, live, a) && key in order
    ensures key in a.Victims(limit) <==> key !in Newest(order, limit)
  {
    var i :| 0 <= i < |order| && order[i] == key;
    MoreRecentAt(order, live, a, i);
    NewestAt(order, limit, i);
  }

  lemma NewestAt<K(!new)>(order: seq<K>, limit: nat, i: nat)
    requires NoDup(order) && i < |order|
    ensures order[i] in Newest(order, limit) <==> |order| - i <= limit
  {
    var start := |order| - |Newest(order, limit)|;
    assert Newest(order, limit) == order[start..];
    if i >= start {
      assert order[start..][i - start] == order[i];
    }
  }

  lemma AscendingNewest<K(!new)>(order: seq<K>, used: map<K, nat>, limit: nat)
    requires Ascending(order, used)
    ensures Ascending(Newest(order, limit), used)
    ensures NoDup(order) ==> NoDup(Newest(order, limit))
  {
    var start := |order| - |Newest(order, limit)|;
    assert Newest(order, limit) == order[start..];
  }

  /** Keeping the newest `limit` positions is keeping what the limit spares. */
  lemma LimitRefines<K(!new), V>(order: seq<K>, live: map<K, V>, a: Aged<K, V>, limit: nat, kept: map<K, V>)
    requires Represents(order, live, a)
    requires forall k :: k in kept <==> k in Newest(order, limit)
    requires forall k | k in kept :: k in live && kept[k] == live[k]
    ensures Represents(Newest(order, limit), kept, a.Limit(Some(limit)))
  {
    var newest, victims := Newest(order, limit), a.Victims(limit);
    forall k ensures k in kept <==> k in live && k !in victims {
      if k in live {
        VictimsAreOldest(order, live, a, limit, k);
      }
    }
    assert kept == live - victims;
    AscendingNewest(order, a.used, limit);
    AscendingAgrees(newest, a.used, a.used - victims);
  }

  // ---- The two caches

  lemma ArtifactGetRefines(c: Artifacts, a: Aged<Digest, Artifact>, digest: Digest)
    requires Represents(c.order, c.entries, a)
    ensures var after := c.Get(digest).0; Represents(after.order, after.entries, a.Use(digest))
  {
    if digest in c.entries {
      UseRefines(c.order, c.entries, a, digest);
    }
  }

  /** A known digest is used; a new one is put in and the limit applied. */
  lemma ArtifactInsertRefines(c: Artifacts, a: Aged<Digest, Artifact>, digest: Digest, artifact: Artifact, limit: Option<nat>)
    requires Represents(c.order, c.entries, a)
    ensures var after := c.Insert(digest, artifact, limit).0;
            Represents(after.order, after.entries,
                       if digest in a.live then a.Use(digest) else a.Put(digest, artifact).Limit(limit))
  {
    if digest in c.entries {
      UseRefines(c.order, c.entries, a, digest);
    } else {
      var grown := Artifacts(c.entries[digest := artifact], Touch(c.order, digest));
      PutRefines(c.order, c.entries, a, digest, artifact);
      if limit.Some? {
        WarmedArtifacts.EvictKeepsNewest(grown, limit.value);
        var after := grown.EvictOverLimit(limit);
        LimitRefines(grown.order, grown.entries, a.Put(digest, artifact), limit.value, after.entries);
      }
    }
  }

  lemma ArtifactRemoveRefines(c: Artifacts, a: Aged<Digest, Artifact>, digest: Digest)
    requires Represents(c.order, c.entries, a)
    ensures var after := c.RemoveDigest(digest).0; Represents(after.order, after.entries, a.Drop({digest}))
  {
    WithoutIsWithoutAll(c.order, digest);
    DropRefines(c.order, c.entries, a, {digest});
  }

  lemma ArtifactRemovePoolRefines(c: Artifacts, a: Aged<Digest, Artifact>, pool: PoolKey)
    requires Represents(c.order, c.entries, a)
    ensures var after := c.RemovePool(pool);
            Represents(after.order, after.entries, a.Drop(c.PoolDigests(pool)))
  {
    var removed := c.PoolDigests(pool);
    DropRefines(c.order, c.entries, a, removed);
    if removed == {} {
      DropNothing(c, a, removed);
    }
  }

  lemma DropNothing(c: Artifacts, a: Aged<Digest, Artifact>, removed: set<Digest>)
    requires removed == {}
    ensures Artifacts(c.entries - removed, WithoutAll(c.order, removed)) == c
  {
    WithoutAllAbsent(c.order, removed);
    assert c.entries - removed == c.entries;
  }

  /** The ready part of the host cache. */
  function ReadyMap(h: Hosts): map<HostKey, Host> {
    map k | k in h.entries && h.entries[k].Ready? :: h.entries[k].host
  }

  lemma HostUseRefines(h: Hosts, a: Aged<HostKey, Host>, key: HostKey)
    requires Represents(h.order, ReadyMap(h), a)
    ensures var after := h.ReadyHost(key).0; Represents(after.order, ReadyMap(after), a.Use(key))
    ensures var after := h.LookUp(key).0; Represents(after.order, ReadyMap(after), a.Use(key))
  {
    if h.IsReady(key) {
      UseRefines(h.order, ReadyMap(h), a, key);
    }
    assert ReadyMap(h.ReadyHost(key).0) == ReadyMap(h);
    assert ReadyMap(h.LookUp(key).0) == ReadyMap(h);
  }

  lemma HostRemoveRefines(h: Hosts, a: Aged<HostKey, Host>, key: HostKey)
    requires Represents(h.order, ReadyMap(h), a)
    ensures var after := h.RemoveReady(key).0; Represents(after.order, ReadyMap(after), a.Drop({key}))
  {
    var after := h.RemoveReady(key).0;
    assert ReadyMap(after) == ReadyMap(h) - {key};
    assert after.order == WithoutAll(h.order, {key}) by {
      WithoutIsWithoutAll(h.order, key);
      if !h.IsReady(key) {
        WithoutAbsent(h.order, key);
      }
    }
    DropRefines(h.order, ReadyMap(h), a, {key});
  }

  lemma HostLimitRefines(h: Hosts, a: Aged<HostKey, Host>, limit: Option<nat>)
    requires Represents(h.order, ReadyMap(h), a)
    ensures var after := h.EvictReadyOverLimit(limit); Represents(after.order, ReadyMap(after), a.Limit(limit))
  {
    if limit.Some? {
      forall k ensures k in h.order <==> h.IsReady(k) {
        assert k in h.order <==> k in ReadyMap(h);
      }
      WarmedHosts.EvictKeepsNewest(h, limit.value);
      var after := h.EvictReadyOverLimit(limit);
      forall k ensures k in ReadyMap(after) <==> k in after.order {
        assert k in after.order <==> after.IsReady(k);
      }
      LimitRefines(h.order, ReadyMap(h), a, limit.value, ReadyMap(after));
    }
  }

  function Grown(h: Hosts, key: HostKey, host: Host): Hosts {
    Hosts(h.entries[key := Ready(host)], Touch(h.order, key), h.generation)
  }

  lemma HostPutRefines(h: Hosts, a: Aged<HostKey, Host>, key: HostKey, host: Host)
    requires Represents(h.order, ReadyMap(h), a)
    ensures Represents(Grown(h, key, host).order, ReadyMap(Grown(h, key, host)), a.Put(key, host))
  {
    hide Represents, Touch, Aged.Put;
    PutRefines(h.order, ReadyMap(h), a, key, host);
    assert ReadyMap(Grown(h, key, host)) == ReadyMap(h)[key := host];
  }

  /** A published host is put in and the limit applied to the ready hosts alone. */
  lemma HostPublishRefines(h: Hosts, a: Aged<HostKey, Host>, key: HostKey, begun: nat, host: Host, limit: Option<nat>)
    requires Represents(h.order, ReadyMap(h), a) && h.ShouldPublish(key, begun)
    ensures var after := h.FinishOk(key, begun, host, limit);
            Represents(after.order, ReadyMap(after), a.Put(key, host).Limit(limit))
  {
    hide Represents, Touch, ReadyMap, Aged.Put, Aged.Limit, Hosts.EvictReadyOverLimit;
    HostPutRefines(h, a, key, host);
    HostLimitRefines(Grown(h, key, host), a.Put(key, host), limit);
  }
}
