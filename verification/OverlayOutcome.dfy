/** What the cache policy amounts to, from the names, the metadata and the clock alone. */
module OverlayOutcome {
  import opened Wrappers
  import opened OverlayCache
  import opened OverlayEviction
  import opened OverlayLimits

  /** A stem, a dot and `tar` in any case. */
  ghost predicate NamedTar(path: Path) {
    exists stem: Path, t: char, a: char, r: char ::
      path == stem + ['.', t, a, r] && stem != "" && t in {'t', 'T'} && a in {'a', 'A'} && r in {'r', 'R'}
  }

  ghost predicate Archive(f: Listed) {
    f.Item? && f.isFile && f.metadata.Some? && NamedTar(f.path)
  }

  lemma NamedTarIsTar(path: Path)
    ensures NamedTar(path) <==> IsTar(path)
  {
    if IsTar(path) {
      var n := |path|;
      assert path == path[..n - 4] + ['.', path[n - 3], path[n - 2], path[n - 1]];
    }
  }

  /** When a file was last written; at the epoch if that cannot be read. */
  function Written(f: Listed): int
    requires f.Item? && f.metadata.Some?
  {
    match f.metadata.value.modified
    case Some(time) => time
    case None => 0
  }

  ghost predicate TooOld(f: Listed, now: int, maxAge: Option<nat>)
    requires f.Item? && f.metadata.Some?
  {
    maxAge.Some? && now - Written(f) > maxAge.value
  }

  /** A directory whose listing names no file twice and whose archives are all there. */
  ghost predicate Sound(listing: seq<Listed>, files: set<Path>) {
    DistinctNames(listing) && forall f | f in listing && Archive(f) :: f.path in files
  }

  // ---- The age pass

  /**
   An archive older than the limit is left exactly if it refuses removal; without a
   limit on the size every other archive stays.
   */
  lemma TooOldGoes(config: Config, listing: seq<Listed>, now: int, refuses: set<Path>,
                   before: set<Path>, after: set<Path>, stats: Tally, f: Listed)
    requires Swept(config, listing, now, refuses, before, after, stats) && Sound(listing, before)
    requires f in listing && Archive(f)
    ensures TooOld(f, now, config.maxAge) ==> (f.path in after <==> f.path in refuses)
    ensures !TooOld(f, now, config.maxAge) && config.maxBytes.None? ==> f.path in after
  {
    hide OnDisk, Candidates, Blobs, Attempts, NamedTar, IsTar;
    NamedTarIsTar(f.path);
    OnlyBlobsGo(config, listing, now, refuses, before, after, stats);
  }

  /** With a limit on the age only, what goes was written before anything removable that stays. */
  lemma YoungerStays(config: Config, listing: seq<Listed>, now: int, refuses: set<Path>,
                     before: set<Path>, after: set<Path>, stats: Tally, gone: Listed, stays: Listed)
    requires Swept(config, listing, now, refuses, before, after, stats) && Sound(listing, before)
    requires config.maxBytes.None?
    requires gone in listing && Archive(gone) && stays in listing && Archive(stays)
    requires gone.path !in after && stays.path in after && stays.path !in refuses
    ensures Written(gone) < Written(stays)
  {
    hide Swept, Archive, DistinctNames;
    TooOldGoes(config, listing, now, refuses, before, after, stats, gone);
    TooOldGoes(config, listing, now, refuses, before, after, stats, stays);
  }

  // ---- The size pass

  /** The bytes of the archives among `files` that are not too old. */
  ghost function Young(listing: seq<Listed>, now: int, maxAge: Option<nat>, files: set<Path>): nat {
    if listing == [] then 0
    else
      var f, rest := listing[|listing| - 1], Young(listing[..|listing| - 1], now, maxAge, files);
      if Archive(f) && !TooOld(f, now, maxAge) && f.path in files then rest + f.metadata.value.size else rest
  }

  lemma BlobIsArchive(f: Listed, now: int, maxAge: Option<nat>)
    ensures Archive(f) <==> IsBlob(f)
    ensures IsBlob(f) ==> AsEntry(f).size == f.metadata.value.size && AsEntry(f).path == f.path
    ensures IsBlob(f) ==> (TooOld(f, now, maxAge) <==> Expired(f, now, maxAge))
  {
    hide NamedTar, IsTar;
    if f.Item? {
      NamedTarIsTar(f.path);
    }
  }

  lemma OnDiskAppend(s: seq<CacheEntry>, e: CacheEntry, files: set<Path>)
    ensures OnDisk(s + [e], files) == if e.path in files then OnDisk(s, files).Plus(e.size) else OnDisk(s, files)
  {
    assert (s + [e])[..|s|] == s;
  }

  lemma {:induction false} YoungIsTracked(listing: seq<Listed>, now: int, maxAge: Option<nat>, files: set<Path>)
    ensures Young(listing, now, maxAge, files) == OnDisk(Tracked(listing, now, maxAge), files).bytes
  {
    if listing == [] {
    } else {
      var f, init := listing[|listing| - 1], listing[..|listing| - 1];
      YoungIsTracked(init, now, maxAge, files);
      BlobIsArchive(f, now, maxAge);
      var tracked := Tracked(init, now, maxAge);
      assert Tracked(listing, now, maxAge) ==
             if IsBlob(f) && !Expired(f, now, maxAge) then tracked + [AsEntry(f)] else tracked;
      if IsBlob(f) && !Expired(f, now, maxAge) {
        OnDiskAppend(tracked, AsEntry(f), files);
      }
      hide Tracked, IsBlob, Archive, Expired, TooOld, AsEntry, OnDisk;
    }
  }

  lemma {:induction false} InsertOnDisk(s: seq<CacheEntry>, e: CacheEntry, files: set<Path>)
    ensures OnDisk(Insert(s, e), files) == OnDisk(s + [e], files)
  {
    assert (s + [e])[..|s|] == s;
    if s == [] || s[|s| - 1].modifiedNs <= e.modifiedNs {
    } else {
      var init, last := s[..|s| - 1], s[|s| - 1];
      InsertOnDisk(init, e, files);
      assert (init + [e])[..|init|] == init;
      assert (Insert(init, e) + [last])[..|Insert(init, e)|] == Insert(init, e);
    }
  }

  lemma {:induction false} SortedOnDisk(s: seq<CacheEntry>, files: set<Path>)
    ensures OnDisk(Sorted(s), files) == OnDisk(s, files)
  {
    if s == [] {
    } else {
      var init, last := s[..|s| - 1], s[|s| - 1];
      SortedOnDisk(init, files);
      InsertOnDisk(Sorted(init), last, files);
      assert (Sorted(init) + [last])[..|Sorted(init)|] == Sorted(init);
    }
  }

  lemma YoungIsCandidates(listing: seq<Listed>, now: int, config: Config, files: set<Path>)
    ensures Young(listing, now, config.maxAge, files) == OnDisk(Candidates(listing, now, config), files).bytes
  {
    YoungIsTracked(listing, now, config.maxAge, files);
    SortedOnDisk(Tracked(listing, now, config.maxAge), files);
  }

  /** The age pass leaves every young archive as it is, and the size pass then works on those. */
  lemma YoungIsCandidate(config: Config, listing: seq<Listed>, now: int, refuses: set<Path>, before: set<Path>, f: Listed)
    requires Sound(listing, before) && f in listing && Archive(f) && !TooOld(f, now, config.maxAge)
    ensures IsBlob(f) && AsEntry(f) in Candidates(listing, now, config)
    ensures f.path in AfterAging(listing, now, config, refuses, before)
  {
    hide NamedTar, IsTar;
    NamedTarIsTar(f.path);
  }

  lemma CandidateIsYoung(config: Config, listing: seq<Listed>, now: int, e: CacheEntry) returns (f: Listed)
    requires e in Candidates(listing, now, config)
    ensures f in listing && Archive(f) && !TooOld(f, now, config.maxAge) && f.path == e.path
  {
    hide NamedTar, IsTar;
    f :| f in listing && IsBlob(f) && !Expired(f, now, config.maxAge) && AsEntry(f) == e;
    NamedTarIsTar(f.path);
  }

  lemma CandidatesAreSound(config: Config, listing: seq<Listed>, now: int, refuses: set<Path>, before: set<Path>)
    requires Sound(listing, before)
    ensures var s := Candidates(listing, now, config);
            DistinctPaths(s) && AllThere(s, AfterAging(listing, now, config, refuses, before))
  {
    hide NamedTar, IsTar, Candidates, AfterAging;
    forall f | f in listing && IsBlob(f) ensures f.path in before {
      NamedTarIsTar(f.path);
    }
    CandidatesAreThere(listing, now, config, refuses, before);
  }

  /**
   The policy ends with its archives within the limit on the size exactly if those that
   refuse removal fit in it; otherwise nothing else is left of them.
   */
  lemma FitsExactly(config: Config, listing: seq<Listed>, now: int, refuses: set<Path>,
                    before: set<Path>, after: set<Path>, stats: Tally)
    requires Swept(config, listing, now, refuses, before, after, stats) && Sound(listing, before)
    requires config.maxBytes.Some?
    ensures var limit := config.maxBytes.value;
            && (Young(listing, now, config.maxAge, after) <= limit <==>
                Young(listing, now, config.maxAge, refuses) <= limit)
            && (Young(listing, now, config.maxAge, after) > limit ==>
                forall f | f in listing && Archive(f) && !TooOld(f, now, config.maxAge) && f.path in after ::
                  f.path in refuses)
  {
    var s, rest := Candidates(listing, now, config), AfterAging(listing, now, config, refuses, before);
    YoungIsCandidates(listing, now, config, after);
    YoungIsCandidates(listing, now, config, refuses);
    CandidatesAreSound(config, listing, now, refuses, before);
    EndsWithinLimitExactly(s, rest, refuses, config.maxBytes.value);
    hide OnDisk, Candidates, AfterAging, Young, Archive, TooOld, Sound, Blobs;
    forall f | f in listing && Archive(f) && !TooOld(f, now, config.maxAge) && f.path in after
      ensures Young(listing, now, config.maxAge, after) > config.maxBytes.value ==> f.path in refuses
    {
      YoungIsCandidate(config, listing, now, refuses, before, f);
    }
  }

  /** A time before the epoch counts as the epoch. */
  function Stamp(f: Listed): nat
    requires f.Item? && f.metadata.Some?
  {
    if Written(f) < 0 then 0 else Written(f)
  }

  /** No archive within the age limit goes while a removable one written before it stays. */
  lemma OlderGoesFirst(config: Config, listing: seq<Listed>, now: int, refuses: set<Path>,
                       before: set<Path>, after: set<Path>, stats: Tally, gone: Listed, stays: Listed)
    requires Swept(config, listing, now, refuses, before, after, stats) && Sound(listing, before)
    requires gone in listing && Archive(gone) && !TooOld(gone, now, config.maxAge) && gone.path !in after
    requires stays in listing && Archive(stays) && !TooOld(stays, now, config.maxAge)
    requires stays.path in after && stays.path !in refuses
    ensures Stamp(gone) <= Stamp(stays)
  {
    hide OnDisk, Blobs, NamedTar, IsTar, DistinctNames, Sound, Tracked, AfterAging, Attempts, DistinctPaths, AllThere;
    var s := Candidates(listing, now, config);
    YoungIsCandidate(config, listing, now, refuses, before, gone);
    YoungIsCandidate(config, listing, now, refuses, before, stays);
    CandidatesAreSound(config, listing, now, refuses, before);
    SortedIsStable(Tracked(listing, now, config.maxAge));
    var rest := AfterAging(listing, now, config, refuses, before);
    OldestGoFirst(s, refuses, Attempts(s, rest, refuses, config.maxBytes.value, 0), AsEntry(gone), AsEntry(stays));
  }

  lemma {:induction false} LastTaken(s: seq<CacheEntry>, refuses: set<Path>, k: nat) returns (j: nat)
    requires k <= |s| && Evicted(s, refuses, k) != {}
    ensures j < k && s[j].path !in refuses && Evicted(s, refuses, k) == Evicted(s, refuses, j) + {s[j].path}
  {
    EvictedNext(s, refuses, k - 1);
    if s[k - 1].path in refuses {
      j := LastTaken(s, refuses, k - 1);
    } else {
      j := k - 1;
    }
  }

  lemma PutBack(files: set<Path>, gone: set<Path>, path: Path)
    requires path in files && path !in gone
    ensures files - (gone + {path}) + {path} == files - gone
  {
  }

  /** If an archive within the age limit goes, one of those that went would not have fitted. */
  lemma NoneTooMany(config: Config, listing: seq<Listed>, now: int, refuses: set<Path>,
                    before: set<Path>, after: set<Path>, stats: Tally, gone: Listed)
    returns (last: Listed)
    requires Swept(config, listing, now, refuses, before, after, stats) && Sound(listing, before)
    requires gone in listing && Archive(gone) && !TooOld(gone, now, config.maxAge) && gone.path !in after
    ensures last in listing && Archive(last) && !TooOld(last, now, config.maxAge) && last.path !in after
    ensures config.maxBytes.Some?
    ensures Young(listing, now, config.maxAge, after + {last.path}) > config.maxBytes.value
  {
    var s, rest := Candidates(listing, now, config), AfterAging(listing, now, config, refuses, before);
    CandidatesAreSound(config, listing, now, refuses, before);
    YoungIsCandidate(config, listing, now, refuses, before, gone);
    hide OnDisk, Candidates, AfterAging, Young, Archive, TooOld, Sound, Blobs, Tracked, Sorted;
    var k := Attempts(s, rest, refuses, config.maxBytes.value, 0);
    var j := LastTaken(s, refuses, k);
    last := CandidateIsYoung(config, listing, now, s[j]);
    KeptNext(s, rest, refuses, j);
    YoungIsCandidates(listing, now, config, after + {last.path});
    PutBack(rest, Evicted(s, refuses, j), last.path);
  }

  // ---- The statistics

  ghost function Archives(listing: seq<Listed>, files: set<Path>): set<Path> {
    set f | f in listing && Archive(f) && f.path in files :: f.path
  }

  lemma {:induction false} FilesAreCounted(listing: seq<Listed>, files: set<Path>)
    requires DistinctNames(listing)
    ensures OnDisk(Blobs(listing), files) == Tally(|Archives(listing, files)|, Young(listing, 0, None, files))
  {
    if listing == [] {
    } else {
      var f, init := listing[|listing| - 1], listing[..|listing| - 1];
      FilesAreCounted(init, files);
      BlobIsArchive(f, 0, None);
      OneMoreArchive(listing, files);
      var blobs := Blobs(init);
      assert Blobs(listing) == if IsBlob(f) then blobs + [AsEntry(f)] else blobs;
      if IsBlob(f) {
        OnDiskAppend(blobs, AsEntry(f), files);
      }
      hide Blobs, Archives, IsBlob, Archive, AsEntry, DistinctNames, OnDisk;
    }
  }

  lemma OneMoreArchive(listing: seq<Listed>, files: set<Path>)
    requires DistinctNames(listing) && listing != []
    ensures var f, init := listing[|listing| - 1], listing[..|listing| - 1];
            |Archives(listing, files)| ==
            |Archives(init, files)| + if Archive(f) && f.path in files then 1 else 0
  {
    var f, init := listing[|listing| - 1], listing[..|listing| - 1];
    hide Archive;
    if Archive(f) && f.path in files {
      assert Archives(listing, files) == Archives(init, files) + {f.path};
      assert f.path !in Archives(init, files);
    } else {
      assert Archives(listing, files) == Archives(init, files);
    }
  }

  lemma {:induction false} OnDiskSplits(s: seq<CacheEntry>, a: set<Path>, b: set<Path>)
    requires a !! b
    ensures OnDisk(s, a + b) == OnDisk(s, a).And(OnDisk(s, b))
  {
    if s == [] {
    } else {
      OnDiskSplits(s[..|s| - 1], a, b);
    }
  }

  lemma OnlyArchivesGo(config: Config, listing: seq<Listed>, now: int, refuses: set<Path>,
                       before: set<Path>, after: set<Path>, stats: Tally)
    requires Swept(config, listing, now, refuses, before, after, stats)
    ensures after <= before && Archives(listing, before - after) == before - after
  {
    OnlyBlobsGo(config, listing, now, refuses, before, after, stats);
    hide AfterAging, Oversized, Blobs, OnDisk, NamedTar, IsTar;
    forall p | p in before && p !in after ensures p in Archives(listing, before - after) {
      var f :| f in listing && IsBlob(f) && f.path == p;
      NamedTarIsTar(f.path);
    }
  }

  lemma StatisticsAreOnDisk(s: seq<CacheEntry>, before: set<Path>, after: set<Path>, stats: Tally)
    requires after <= before && OnDisk(s, before) == OnDisk(s, after).And(stats)
    ensures stats == OnDisk(s, before - after)
  {
    hide OnDisk;
    OnDiskSplits(s, after, before - after);
    assert after + (before - after) == before;
  }

  lemma SweptIsCounted(config: Config, listing: seq<Listed>, now: int, refuses: set<Path>,
                       before: set<Path>, after: set<Path>, stats: Tally)
    requires Swept(config, listing, now, refuses, before, after, stats)
    ensures OnDisk(Blobs(listing), before) == OnDisk(Blobs(listing), after).And(stats)
  {
    hide OnDisk, Blobs, AfterAging, Oversized;
  }

  /** The statistics count the files that went and their bytes. */
  lemma StatisticsAreExact(config: Config, listing: seq<Listed>, now: int, refuses: set<Path>,
                           before: set<Path>, after: set<Path>, stats: Tally)
    requires Swept(config, listing, now, refuses, before, after, stats) && DistinctNames(listing)
    ensures stats.files == |before - after|
    ensures stats.bytes == Young(listing, 0, None, before - after)
  {
    hide *;
    SweptIsCounted(config, listing, now, refuses, before, after, stats);
    OnlyArchivesGo(config, listing, now, refuses, before, after, stats);
    StatisticsAreOnDisk(Blobs(listing), before, after, stats);
    FilesAreCounted(listing, before - after);
  }
}
