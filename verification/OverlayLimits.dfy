/** What the cache policy leaves behind. */
module OverlayLimits {
  import opened Wrappers
  import opened OverlayCache
  import opened OverlayEviction

  /** Only blobs go, and an expired one stays exactly if it refuses to be removed. */
  lemma OnlyBlobsGo(config: Config, listing: seq<Listed>, now: int, refuses: set<Path>,
                    before: set<Path>, after: set<Path>, stats: Tally)
    requires Swept(config, listing, now, refuses, before, after, stats)
    ensures after <= before
    ensures forall p | p in before && p !in after ::
              p !in refuses && exists f :: f in listing && IsBlob(f) && f.path == p
    ensures forall f | f in listing && IsBlob(f) && Expired(f, now, config.maxAge) && f.path in before ::
              f.path in after <==> f.path in refuses
  {
    hide OnDisk, Sorted, Tracked, Blobs, Attempts;
    var rest := AfterAging(listing, now, config, refuses, before);
    forall p | p in before && p !in after
      ensures p !in refuses && exists f :: f in listing && IsBlob(f) && f.path == p
    {
      if p in rest {
        OversizedIsTracked(listing, now, config, refuses, rest, p);
      }
    }
    forall f | f in listing && IsBlob(f) && Expired(f, now, config.maxAge) && f.path in before
      ensures f.path in after <==> f.path in refuses
    {
    }
  }

  lemma OversizedIsTracked(listing: seq<Listed>, now: int, config: Config, refuses: set<Path>, files: set<Path>, p: Path)
    requires p in Oversized(listing, now, config, refuses, files)
    ensures p !in refuses && exists f :: f in listing && IsBlob(f) && f.path == p
  {
    hide OnDisk, Attempts;
    var s := Candidates(listing, now, config);
    var j :| 0 <= j < |s| && s[j].path == p && p !in refuses;
    assert s[j] in Tracked(listing, now, config.maxAge);
  }

  lemma {:induction false} KeptShrinks(s: seq<CacheEntry>, files: set<Path>, refuses: set<Path>, j: nat, k: nat)
    requires DistinctPaths(s) && AllThere(s, files) && j <= k <= |s|
    ensures Kept(s, files, refuses, k) <= Kept(s, files, refuses, j)
    decreases k - j
  {
    hide Kept;
    if j == k {
    } else {
      KeptNext(s, files, refuses, j);
      KeptShrinks(s, files, refuses, j + 1, k);
    }
  }

  /** After an attempt on everything, what refused is left. */
  lemma AllAttempted(s: seq<CacheEntry>, files: set<Path>, refuses: set<Path>)
    requires AllThere(s, files)
    ensures Kept(s, files, refuses, |s|) == OnDisk(s, refuses).bytes
  {
    var gone := Evicted(s, refuses, |s|);
    forall e | e in s ensures e.path in files - gone <==> e.path in refuses {
      var j :| 0 <= j < |s| && s[j] == e;
    }
    OnDiskAgrees(s, files - gone, refuses);
  }

  /**
   The pass ends within its limit exactly if the tracked files that refuse removal fit
   in it; otherwise they are all that is left.
   */
  lemma EndsWithinLimitExactly(s: seq<CacheEntry>, files: set<Path>, refuses: set<Path>, limit: nat)
    requires DistinctPaths(s) && AllThere(s, files)
    ensures var k := Attempts(s, files, refuses, limit, 0);
            var left := files - Evicted(s, refuses, k);
            && (OnDisk(s, left).bytes <= limit <==> OnDisk(s, refuses).bytes <= limit)
            && (OnDisk(s, left).bytes > limit ==> forall e | e in s && e.path in left :: e.path in refuses)
  {
    hide OnDisk;
    var k := Attempts(s, files, refuses, limit, 0);
    AllAttempted(s, files, refuses);
    KeptShrinks(s, files, refuses, k, |s|);
    if Kept(s, files, refuses, k) > limit {
      forall e | e in s && e.path in files - Evicted(s, refuses, k) ensures e.path in refuses {
        var j :| 0 <= j < |s| && s[j] == e;
      }
    }
  }

  /** A file that goes is not younger than any removable file that stays. */
  lemma OldestGoFirst(s: seq<CacheEntry>, refuses: set<Path>, k: nat, gone: CacheEntry, stays: CacheEntry)
    requires Ordered(s) && DistinctPaths(s) && k <= |s| && gone in s && stays in s
    requires gone.path in Evicted(s, refuses, k)
    requires stays.path !in refuses && stays.path !in Evicted(s, refuses, k)
    ensures gone.modifiedNs <= stays.modifiedNs
  {
    var i :| 0 <= i < |s| && s[i] == gone;
    var j :| 0 <= j < |s| && s[j] == stays;
  }

  lemma {:induction false} TotalSplits(s: seq<CacheEntry>, k: nat)
    requires k <= |s|
    ensures Total(s) == Total(s[..k]) + Total(s[k..])
  {
    if k == |s| {
      assert s[..k] == s;
    } else {
      var init := s[..|s| - 1];
      TotalSplits(init, k);
      assert init[..k] == s[..k] && init[k..] == s[k..][..|s| - k - 1];
    }
  }

  lemma {:induction false} WithoutFailures(s: seq<CacheEntry>, files: set<Path>, refuses: set<Path>, k: nat)
    requires DistinctPaths(s) && AllThere(s, files) && k <= |s| && forall e | e in s :: e.path !in refuses
    ensures Kept(s, files, refuses, k) == Total(s[k..])
  {
    if k == 0 {
      assert files - Evicted(s, refuses, 0) == files && s[0..] == s;
      AllOnDisk(s, files);
    } else {
      WithoutFailures(s, files, refuses, k - 1);
      KeptNext(s, files, refuses, k - 1);
      TotalSplits(s[k - 1..], 1);
      assert s[k - 1] in s && s[k - 1..][..1] == [s[k - 1]] && s[k - 1..][1..] == s[k..];
      assert [s[k - 1]][..0] == [];
    }
  }

  /** With no failures the shortest run of oldest files goes that brings the rest within the limit. */
  lemma ShortestPrefixGoes(s: seq<CacheEntry>, files: set<Path>, refuses: set<Path>, limit: nat)
    requires DistinctPaths(s) && AllThere(s, files) && forall e | e in s :: e.path !in refuses
    ensures var k := Attempts(s, files, refuses, limit, 0);
            && Total(s[k..]) <= limit && (forall j | 0 <= j < k :: Total(s[j..]) > limit)
            && forall e | e in s :: e.path in Evicted(s, refuses, k) <==> e in s[..k]
  {
    hide Kept;
    var k := Attempts(s, files, refuses, limit, 0);
    forall j | 0 <= j <= |s| ensures Kept(s, files, refuses, j) == Total(s[j..]) {
      WithoutFailures(s, files, refuses, j);
    }
    forall e | e in s ensures e.path in Evicted(s, refuses, k) <==> e in s[..k] {
    }
  }
}
