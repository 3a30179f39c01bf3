/** The size pass over the tracked blobs, and the whole policy. */
module OverlayEviction {
  import opened Wrappers
  import opened OverlayCache

  // ---- Oldest first

  ghost predicate Ordered(s: seq<CacheEntry>) {
    forall i, j | 0 <= i < j < |s| :: s[i].modifiedNs <= s[j].modifiedNs
  }

  /** After everything that is not younger. */
  function Insert(s: seq<CacheEntry>, e: CacheEntry): (r: seq<CacheEntry>)
    ensures forall x :: x in r <==> x in s || x == e
  {
    if s == [] || s[|s| - 1].modifiedNs <= e.modifiedNs then s + [e]
    else
      assert s == s[..|s| - 1] + [s[|s| - 1]];
      Insert(s[..|s| - 1], e) + [s[|s| - 1]]
  }

  /** `sort_by_key`, which is stable. */
  function Sorted(s: seq<CacheEntry>): (r: seq<CacheEntry>)
    ensures forall x :: x in r <==> x in s
  {
    if s == [] then []
    else
      assert s == s[..|s| - 1] + [s[|s| - 1]];
      Insert(Sorted(s[..|s| - 1]), s[|s| - 1])
  }

  /** The entries of one age, in their order. */
  function OfAge(s: seq<CacheEntry>, t: nat): seq<CacheEntry> {
    if s == [] then []
    else OfAge(s[..|s| - 1], t) + if s[|s| - 1].modifiedNs == t then [s[|s| - 1]] else []
  }

  ghost predicate Inserted(s: seq<CacheEntry>, e: CacheEntry, r: seq<CacheEntry>) {
    && Ordered(r) && Total(r) == Total(s) + e.size
    && forall t :: OfAge(r, t) == OfAge(s, t) + if e.modifiedNs == t then [e] else []
  }

  lemma AppendedIsInserted(s: seq<CacheEntry>, e: CacheEntry)
    requires Ordered(s) && (s == [] || s[|s| - 1].modifiedNs <= e.modifiedNs)
    ensures Inserted(s, e, s + [e])
  {
    assert (s + [e])[..|s|] == s;
  }

  lemma InsertedBefore(s: seq<CacheEntry>, e: CacheEntry, r: seq<CacheEntry>)
    requires s != [] && Ordered(s) && s[|s| - 1].modifiedNs > e.modifiedNs
    requires Inserted(s[..|s| - 1], e, r) && forall x :: x in r <==> x in s[..|s| - 1] || x == e
    ensures Inserted(s, e, r + [s[|s| - 1]])
  {
    var last := s[|s| - 1];
    assert (r + [last])[..|r|] == r;
    forall i | 0 <= i < |r| ensures r[i].modifiedNs <= last.modifiedNs {
      assert r[i] in r;
    }
    forall t ensures OfAge(r + [last], t) == OfAge(s, t) + if e.modifiedNs == t then [e] else [] {
      assert OfAge(r, t) == OfAge(s[..|s| - 1], t) + if e.modifiedNs == t then [e] else [];
    }
  }

  lemma {:induction false} InsertInserts(s: seq<CacheEntry>, e: CacheEntry)
    requires Ordered(s)
    ensures Inserted(s, e, Insert(s, e))
  {
    if s == [] || s[|s| - 1].modifiedNs <= e.modifiedNs {
      AppendedIsInserted(s, e);
    } else {
      InsertInserts(s[..|s| - 1], e);
      InsertedBefore(s, e, Insert(s[..|s| - 1], e));
    }
  }

  /** The order is by age, and entries of the same age keep theirs; nothing is lost or doubled. */
  lemma {:induction false} SortedIsStable(s: seq<CacheEntry>)
    ensures Ordered(Sorted(s)) && Total(Sorted(s)) == Total(s)
    ensures forall t :: OfAge(Sorted(s), t) == OfAge(s, t)
  {
    if s == [] {
    } else {
      SortedIsStable(s[..|s| - 1]);
      InsertInserts(Sorted(s[..|s| - 1]), s[|s| - 1]);
      hide Insert, Ordered, Total, OfAge, Sorted;
      OneMoreSorted(s);
    }
  }

  lemma OneMoreSorted(s: seq<CacheEntry>)
    requires s != []
    ensures Sorted(s) == Insert(Sorted(s[..|s| - 1]), s[|s| - 1])
    ensures Total(s) == Total(s[..|s| - 1]) + s[|s| - 1].size
    ensures forall t ::
              OfAge(s, t) == OfAge(s[..|s| - 1], t) + if s[|s| - 1].modifiedNs == t then [s[|s| - 1]] else []
  {
    hide Insert;
  }

  lemma {:induction false} InsertDistinct(s: seq<CacheEntry>, e: CacheEntry)
    requires DistinctPaths(s) && forall x | x in s :: x.path != e.path
    ensures DistinctPaths(Insert(s, e))
  {
    if s == [] || s[|s| - 1].modifiedNs <= e.modifiedNs {
    } else {
      var init, last := s[..|s| - 1], s[|s| - 1];
      InsertDistinct(init, e);
      forall x | x in Insert(init, e) ensures x.path != last.path {
        assert last in s;
      }
    }
  }

  lemma {:induction false} SortedDistinct(s: seq<CacheEntry>)
    requires DistinctPaths(s)
    ensures DistinctPaths(Sorted(s))
  {
    if s == [] {
    } else {
      SortedDistinct(s[..|s| - 1]);
      InsertDistinct(Sorted(s[..|s| - 1]), s[|s| - 1]);
    }
  }

  // ---- Evicting

  function SaturatingSub(a: nat, b: nat): (r: nat)
    ensures if b <= a then r + b == a else r == 0
  {
    if b <= a then a - b else 0
  }

  /** What is gone after the first `k` attempts. */
  ghost function Evicted(s: seq<CacheEntry>, refuses: set<Path>, k: nat): set<Path>
    requires k <= |s|
  {
    set j | 0 <= j < k && s[j].path !in refuses :: s[j].path
  }

  /** The tracked bytes left after the first `k` attempts. */
  ghost function Kept(s: seq<CacheEntry>, files: set<Path>, refuses: set<Path>, k: nat): nat
    requires k <= |s|
  {
    OnDisk(s, files - Evicted(s, refuses, k)).bytes
  }

  /** The first number of attempts, from `k` on, after which the rest fits. */
  ghost function Attempts(s: seq<CacheEntry>, files: set<Path>, refuses: set<Path>, limit: nat, k: nat): (r: nat)
    requires k <= |s|
    ensures k <= r <= |s|
    ensures forall j | k <= j < r :: Kept(s, files, refuses, j) > limit
    ensures r < |s| ==> Kept(s, files, refuses, r) <= limit
    decreases |s| - k
  {
    if k == |s| || Kept(s, files, refuses, k) <= limit then k else Attempts(s, files, refuses, limit, k + 1)
  }

  ghost predicate AllThere(s: seq<CacheEntry>, files: set<Path>) {
    forall e | e in s :: e.path in files
  }

  lemma {:induction false} AllOnDisk(s: seq<CacheEntry>, files: set<Path>)
    requires AllThere(s, files)
    ensures OnDisk(s, files) == Tally(|s|, Total(s))
  {
    if s == [] {
    } else {
      AllOnDisk(s[..|s| - 1], files);
    }
  }

  lemma {:induction false} OnDiskAgrees(s: seq<CacheEntry>, a: set<Path>, b: set<Path>)
    requires forall e | e in s :: e.path in a <==> e.path in b
    ensures OnDisk(s, a) == OnDisk(s, b)
  {
    if s == [] {
    } else {
      OnDiskAgrees(s[..|s| - 1], a, b);
    }
  }

  lemma EvictedNext(s: seq<CacheEntry>, refuses: set<Path>, k: nat)
    requires k < |s|
    ensures Evicted(s, refuses, k + 1) ==
            Evicted(s, refuses, k) + if s[k].path in refuses then {} else {s[k].path}
  {
  }

  /** One attempt frees the file's bytes unless the file refuses. */
  lemma KeptNext(s: seq<CacheEntry>, files: set<Path>, refuses: set<Path>, k: nat)
    requires DistinctPaths(s) && AllThere(s, files) && k < |s|
    ensures s[k].path !in Evicted(s, refuses, k)
    ensures Kept(s, files, refuses, k) ==
            Kept(s, files, refuses, k + 1) + if s[k].path in refuses then 0 else s[k].size
  {
    EvictedNext(s, refuses, k);
    if s[k].path !in refuses {
      RemovingFrees(s, files - Evicted(s, refuses, k), s[k]);
      assert files - Evicted(s, refuses, k) - {s[k].path} == files - Evicted(s, refuses, k + 1);
    } else {
      assert files - Evicted(s, refuses, k) == files - Evicted(s, refuses, k + 1);
    }
  }

  lemma {:induction false} AttemptsIs(s: seq<CacheEntry>, files: set<Path>, refuses: set<Path>, limit: nat, from: nat, k: nat)
    requires from <= k <= |s|
    requires forall j | from <= j < k :: Kept(s, files, refuses, j) > limit
    requires k == |s| || Kept(s, files, refuses, k) <= limit
    ensures Attempts(s, files, refuses, limit, from) == k
  {
  }

  /** What a removal frees also leaves the blobs the scan saw. */
  lemma EvictionIsCounted(blobs: seq<CacheEntry>, e: CacheEntry, files: set<Path>, stats: Tally)
    requires DistinctPaths(blobs) && e in blobs && e.path in files
    ensures OnDisk(blobs, files).And(stats) == OnDisk(blobs, files - {e.path}).And(stats.Plus(e.size))
  {
    RemovingFrees(blobs, files, e);
  }

  /**
   The loop over the sorted entries. The subtraction never saturates: what is left
   is always the sum of the tracked files still on disk.
   */
  method EvictOldest(dir: Directory, entries: seq<CacheEntry>, total: nat, limit: nat, before: Tally,
                     ghost blobs: seq<CacheEntry>)
    returns (stats: Tally, left: nat)
    requires DistinctPaths(entries) && AllThere(entries, dir.files) && total == Total(entries)
    requires DistinctPaths(blobs) && forall e | e in entries :: e in blobs
    modifies dir
    ensures var k := Attempts(entries, old(dir.files), dir.refuses, limit, 0);
            && dir.files == old(dir.files) - Evicted(entries, dir.refuses, k)
            && left == OnDisk(entries, dir.files).bytes
    ensures OnDisk(blobs, old(dir.files)).And(before) == OnDisk(blobs, dir.files).And(stats)
  {
    stats, left := before, total;
    AllOnDisk(entries, dir.files);
    var k := 0;
    while k < |entries|
      invariant 0 <= k <= |entries|
      invariant forall j | 0 <= j < k :: Kept(entries, old(dir.files), dir.refuses, j) > limit
      invariant dir.files == old(dir.files) - Evicted(entries, dir.refuses, k)
      invariant left == Kept(entries, old(dir.files), dir.refuses, k)
      invariant OnDisk(blobs, old(dir.files)).And(before) == OnDisk(blobs, dir.files).And(stats)
    {
      if left <= limit {
        break;
      }
      var e := entries[k];
      EvictedNext(entries, dir.refuses, k);
      KeptNext(entries, old(dir.files), dir.refuses, k);
      EvictionIsCounted(blobs, e, dir.files, stats);
      var ok := dir.RemoveFile(e.path);
      if ok {
        stats := stats.Plus(e.size);
        assert e.size <= left;
        left := SaturatingSub(left, e.size);
      }
      k := k + 1;
    }
    AttemptsIs(entries, old(dir.files), dir.refuses, limit, 0, k);
  }

  // ---- The whole policy

  predicate Applies(config: Config, dir: Directory) {
    (config.maxBytes.Some? || config.maxAge.Some?) && dir.present
  }

  /** The blobs the size pass is left with, oldest first. */
  function Candidates(listing: seq<Listed>, now: int, config: Config): seq<CacheEntry> {
    Sorted(Tracked(listing, now, config.maxAge))
  }

  /** What the size pass removes from a directory holding `files`. */
  ghost function Oversized(listing: seq<Listed>, now: int, config: Config, refuses: set<Path>, files: set<Path>): set<Path> {
    var s := Candidates(listing, now, config);
    if config.maxBytes.None? then {}
    else Evicted(s, refuses, Attempts(s, files, refuses, config.maxBytes.value, 0))
  }

  /** What is left after the age pass. */
  ghost function AfterAging(listing: seq<Listed>, now: int, config: Config, refuses: set<Path>, files: set<Path>): set<Path> {
    files - AgedOut(listing, now, config.maxAge, refuses)
  }

  lemma CandidatesAreThere(listing: seq<Listed>, now: int, config: Config, refuses: set<Path>, files: set<Path>)
    requires DistinctNames(listing) && forall f | f in listing && IsBlob(f) :: f.path in files
    ensures var s := Candidates(listing, now, config);
            && DistinctPaths(s) && AllThere(s, AfterAging(listing, now, config, refuses, files))
            && forall e | e in s :: e in Blobs(listing)
  {
    TrackedAreDistinct(listing, now, config.maxAge);
    SortedDistinct(Tracked(listing, now, config.maxAge));
  }

  /** What there is to know once the scan is over. */
  lemma ScannedCandidates(listing: seq<Listed>, now: int, config: Config, files: set<Path>)
    requires AllThere(Candidates(listing, now, config), files)
    ensures Total(Candidates(listing, now, config)) == Total(Tracked(listing, now, config.maxAge))
    ensures Kept(Candidates(listing, now, config), files, {}, 0) == Total(Tracked(listing, now, config.maxAge))
  {
    SortedIsStable(Tracked(listing, now, config.maxAge));
    AllOnDisk(Candidates(listing, now, config), files);
    assert files - Evicted(Candidates(listing, now, config), {}, 0) == files;
  }

  /** Without a limit, or within it, nothing is evicted. */
  lemma NothingOversized(listing: seq<Listed>, now: int, config: Config, refuses: set<Path>, files: set<Path>)
    requires AllThere(Candidates(listing, now, config), files)
    requires config.maxBytes.Some? ==> Total(Tracked(listing, now, config.maxAge)) <= config.maxBytes.value
    ensures Oversized(listing, now, config, refuses, files) == {}
  {
    var s := Candidates(listing, now, config);
    ScannedCandidates(listing, now, config, files);
    assert Evicted(s, refuses, 0) == Evicted(s, {}, 0) == {};
  }

  /** The directory has lost what the policy takes, and the statistics count just that. */
  ghost predicate Swept(config: Config, listing: seq<Listed>, now: int, refuses: set<Path>,
                        before: set<Path>, after: set<Path>, stats: Tally) {
    var rest := AfterAging(listing, now, config, refuses, before);
    && after == rest - Oversized(listing, now, config, refuses, rest)
    && OnDisk(Blobs(listing), before) == OnDisk(Blobs(listing), after).And(stats)
  }

  /** The size pass, if there is a limit and it is exceeded. */
  method Shrink(dir: Directory, config: Config, now: int, listing: seq<Listed>, entries: seq<CacheEntry>,
                total: nat, before: Tally)
    returns (stats: Tally)
    requires DistinctPaths(Candidates(listing, now, config)) && AllThere(Candidates(listing, now, config), dir.files)
    requires DistinctPaths(Blobs(listing)) && forall e | e in Candidates(listing, now, config) :: e in Blobs(listing)
    requires entries == Tracked(listing, now, config.maxAge) && total == Total(entries)
    modifies dir
    ensures dir.files == old(dir.files) - Oversized(listing, now, config, dir.refuses, old(dir.files))
    ensures OnDisk(Blobs(listing), old(dir.files)).And(before) == OnDisk(Blobs(listing), dir.files).And(stats)
  {
    hide Sorted, Tracked, Blobs, OnDisk, Attempts, Evicted, Total, DistinctPaths, AllThere;
    stats := before;
    ScannedCandidates(listing, now, config, dir.files);
    if config.maxBytes.Some? && total > config.maxBytes.value {
      var left;
      stats, left := EvictOldest(dir, Sorted(entries), total, config.maxBytes.value, stats, Blobs(listing));
    } else {
      NothingOversized(listing, now, config, dir.refuses, dir.files);
    }
  }

  /**
   `enforce_overlay_cache_policy`. Nothing but expired and oversized blobs goes, and
   what goes is what the statistics say.
   */
  method EnforceOverlayCachePolicy(config: Config, dir: Directory, now: int) returns (r: Result<Tally>)
    requires dir.Valid()
    modifies dir
    ensures r.Err? <==> (config.maxBytes.Some? || config.maxAge.Some?) && dir.present && dir.listing.None?
    ensures !Applies(config, dir) ==> r == Ok(Tally(0, 0))
    ensures !Applies(config, dir) || dir.listing.None? ==> dir.files == old(dir.files)
    ensures Applies(config, dir) && dir.listing.Some? ==>
              Swept(config, dir.listing.value, now, dir.refuses, old(dir.files), dir.files, r.value)
  {
    hide AgedOut, Sorted, Tracked, Blobs, OnDisk, Oversized, Candidates, Total, DistinctPaths, AllThere, DistinctNames;
    if config.maxBytes.None? && config.maxAge.None? {
      return Ok(Tally(0, 0));
    }
    if !dir.present {
      return Ok(Tally(0, 0));
    }
    if dir.listing.None? {
      return Err;
    }
    var listing := dir.listing.value;
    CandidatesAreThere(listing, now, config, dir.refuses, dir.files);
    BlobsAreDistinct(listing);
    var entries, total, stats := Scan(dir, listing, now, config.maxAge);
    stats := Shrink(dir, config, now, listing, entries, total, stats);
    return Ok(stats);
  }
}
