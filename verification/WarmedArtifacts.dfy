/**
 The parse cache of the warmed-host registry: artifacts by bundle digest, with a
 recency list beside the map. Each operation is a function on the value of the
 cache; the class performs it in place.
 */
module WarmedArtifacts {
  import opened Wrappers
  import opened Lru

  /** BLAKE3 digest of a byte payload; only ever compared. */
  type Digest = nat

  datatype PoolKey = PoolKey(fingerprint: nat, profile: Option<string>)

  /** What an invocation targets; `language` may be left open. */
  datatype Descriptor = Descriptor(entrypoint: string, language: Option<string>)

  /** The parts of a parsed bundle the registry looks at. */
  datatype Artifact = Artifact(pool: PoolKey, descriptor: Descriptor, language: string)

  datatype Artifacts = Artifacts(entries: map<Digest, Artifact>, order: seq<Digest>) {
    /** The recency list holds each cached digest exactly once. */
    ghost predicate Valid() {
      NoDup(order) && forall d :: d in order <==> d in entries
    }

    /** Within the limit, when there is one. */
    ghost predicate Bounded(limit: Option<nat>) {
      limit.Some? ==> |entries| <= limit.value
    }

    function Get(digest: Digest): (Artifacts, Option<Artifact>) {
      if digest in entries
      then (Artifacts(entries, Touch(order, digest)), Some(entries[digest]))
      else (this, None)
    }

    function EvictOverLimit(limit: Option<nat>): Artifacts
      decreases |order|
    {
      if limit.None? || |entries| <= limit.value || order == [] then this
      else Artifacts(entries - {order[0]}, order[1..]).EvictOverLimit(limit)
    }

    function Insert(digest: Digest, artifact: Artifact, limit: Option<nat>): (Artifacts, Artifact) {
      if digest in entries
      then (Artifacts(entries, Touch(order, digest)), entries[digest])
      else (Artifacts(entries[digest := artifact], Touch(order, digest)).EvictOverLimit(limit), artifact)
    }

    function RemoveDigest(digest: Digest): (Artifacts, Option<Artifact>) {
      (Artifacts(entries - {digest}, Without(order, digest)),
       if digest in entries then Some(entries[digest]) else None)
    }

    function PoolDigests(pool: PoolKey): set<Digest> {
      set d | d in entries && entries[d].pool == pool
    }

    function RemovePool(pool: PoolKey): Artifacts {
      var removed := PoolDigests(pool);
      if removed == {} then this
      else Artifacts(entries - removed, WithoutAll(order, removed))
    }
  }

  const EMPTY := Artifacts(map[], [])

  lemma ValidCount(c: Artifacts)
    requires c.Valid()
    ensures |c.entries| == |c.order|
  {
    NoDupCardinality(c.order);
    assert Elements(c.order) == c.entries.Keys;
    assert |c.entries| == |c.entries.Keys|;
  }

  lemma DropOldest(c: Artifacts)
    requires c.Valid() && c.order != []
    ensures Artifacts(c.entries - {c.order[0]}, c.order[1..]).Valid()
  {
    assert c.order == [c.order[0]] + c.order[1..];
  }

  /**
   Eviction keeps exactly the newest `limit` digests, each with its artifact. The
   list never runs dry first, so the loop's early exit is never taken.
   */
  lemma {:induction false} EvictKeepsNewest(c: Artifacts, limit: nat)
    requires c.Valid()
    ensures var e := c.EvictOverLimit(Some(limit));
            && e.Valid()
            && e.order == Newest(c.order, limit)
            && (forall d | d in e.entries :: d in c.entries && e.entries[d] == c.entries[d])
            && |e.entries| == (if |c.order| <= limit then |c.order| else limit)
    decreases |c.order|
  {
    ValidCount(c);
    if |c.entries| <= limit {
    } else {
      var next := Artifacts(c.entries - {c.order[0]}, c.order[1..]);
      assert next.Valid() by { DropOldest(c); }
      EvictKeepsNewest(next, limit);
      NewestTail(c.order, limit);
      assert c.EvictOverLimit(Some(limit)) == next.EvictOverLimit(Some(limit));
    }
  }

  lemma EvictKeepsValid(c: Artifacts, limit: Option<nat>)
    requires c.Valid()
    ensures c.EvictOverLimit(limit).Valid() && c.EvictOverLimit(limit).Bounded(limit)
  {
    if limit.Some? {
      EvictKeepsNewest(c, limit.value);
    }
  }

  lemma TouchKeepsValid(c: Artifacts, digest: Digest, entries: map<Digest, Artifact>)
    requires c.Valid() && entries.Keys == c.entries.Keys + {digest}
    ensures Artifacts(entries, Touch(c.order, digest)).Valid()
  {
    TouchNoDup(c.order, digest);
  }

  /** Every operation keeps the list and the map in step. */
  lemma GetKeepsValid(c: Artifacts, digest: Digest)
    requires c.Valid()
    ensures c.Get(digest).0.Valid()
  {
    if digest in c.entries {
      TouchKeepsValid(c, digest, c.entries);
    }
  }

  lemma RemoveDigestKeepsValid(c: Artifacts, digest: Digest)
    requires c.Valid()
    ensures c.RemoveDigest(digest).0.Valid()
  {
    WithoutNoDup(c.order, digest);
  }

  lemma RemovePoolKeepsValid(c: Artifacts, pool: PoolKey)
    requires c.Valid()
    ensures c.RemovePool(pool).Valid()
  {
    var removed := c.PoolDigests(pool);
    WithoutAllNoDup(c.order, removed);
  }

  /** `digest` is cached with `artifact`, is the newest entry, and the limit holds. */
  ghost predicate Survives(c: Artifacts, digest: Digest, artifact: Artifact, limit: Option<nat>) {
    && c.Valid() && c.Bounded(limit)
    && digest in c.entries && c.entries[digest] == artifact
    && c.order != [] && c.order[|c.order| - 1] == digest
  }

  lemma NewestSurvives(c: Artifacts, digest: Digest, limit: Option<nat>)
    requires c.Valid() && c.order != [] && c.order[|c.order| - 1] == digest
    requires limit.Some? ==> limit.value >= 1
    ensures Survives(c.EvictOverLimit(limit), digest, c.entries[digest], limit)
  {
    if limit.Some? {
      EvictKeepsNewest(c, limit.value);
      NewestLast(c.order, limit.value);
      var order := c.EvictOverLimit(limit).order;
      assert order[|order| - 1] in order;
    }
  }

  /**
   An insertion leaves the cache valid and within its limit, and what was just
   inserted or found is the newest entry and survives the eviction.
   */
  lemma InsertSurvives(c: Artifacts, digest: Digest, artifact: Artifact, limit: Option<nat>)
    requires c.Valid() && c.Bounded(limit)
    requires limit.Some? ==> limit.value >= 1
    ensures Survives(c.Insert(digest, artifact, limit).0, digest, c.Insert(digest, artifact, limit).1, limit)
  {
    if digest in c.entries {
      TouchKeepsValid(c, digest, c.entries);
    } else {
      var grown := Artifacts(c.entries[digest := artifact], Touch(c.order, digest));
      TouchKeepsValid(c, digest, grown.entries);
      NewestSurvives(grown, digest, limit);
    }
  }

  /** `WarmedArtifactCache`, updated in place under its mutex. */
  class WarmedArtifactCache {
    var entries: map<Digest, Artifact>
    var order: seq<Digest>

    ghost function Value(): Artifacts
      reads this
    {
      Artifacts(entries, order)
    }

    constructor ()
      ensures Value() == EMPTY
    {
      entries, order := map[], [];
    }

    method Get(digest: Digest) returns (found: Option<Artifact>)
      modifies this
      ensures (Value(), found) == old(Value()).Get(digest)
    {
      if digest !in entries {
        return None;
      }
      order := Touch(order, digest);
      return Some(entries[digest]);
    }

    method EvictOverLimit(limit: Option<nat>)
      modifies this
      ensures Value() == old(Value()).EvictOverLimit(limit)
    {
      if limit.None? {
        return;
      }
      while |entries| > limit.value
        invariant old(Value()).EvictOverLimit(limit) == Value().EvictOverLimit(limit)
        decreases |order|
      {
        if order == [] {
          break;
        }
        entries, order := entries - {order[0]}, order[1..];
      }
    }

    method Insert(digest: Digest, artifact: Artifact, limit: Option<nat>) returns (stored: Artifact)
      modifies this
      ensures (Value(), stored) == old(Value()).Insert(digest, artifact, limit)
    {
      if digest in entries {
        order := Touch(order, digest);
        return entries[digest];
      }
      entries := entries[digest := artifact];
      order := Touch(order, digest);
      EvictOverLimit(limit);
      return artifact;
    }

    method RemoveDigest(digest: Digest) returns (removed: Option<Artifact>)
      modifies this
      ensures (Value(), removed) == old(Value()).RemoveDigest(digest)
    {
      order := Without(order, digest);
      removed := if digest in entries then Some(entries[digest]) else None;
      entries := entries - {digest};
    }

    method RemovePool(pool: PoolKey) returns (count: nat)
      modifies this
      ensures Value() == old(Value()).RemovePool(pool)
      ensures count == |old(Value()).PoolDigests(pool)|
    {
      var removed := set d | d in entries && entries[d].pool == pool;
      if removed == {} {
        return 0;
      }
      entries := entries - removed;
      order := WithoutAll(order, removed);
      return |removed|;
    }

    method Clear() returns (count: nat)
      modifies this
      ensures Value() == EMPTY && count == |old(entries)|
    {
      count := |entries|;
      entries, order := map[], [];
    }
  }
}
