/**
 Keeping the overlay cache directory within its limits: expired blobs go first,
 then the oldest ones until the rest fits.
 */
module OverlayCache {
  import opened Wrappers

  /** A file's name in the cache directory. */
  type Path = string

  /** The limits of `OverlayCacheConfig`; ages and times are in nanoseconds. */
  datatype Config = Config(maxBytes: Option<U64>, maxAge: Option<nat>)

  /** A time before the epoch is negative; `None` is a time that cannot be read. */
  datatype Metadata = Metadata(size: U64, modified: Option<int>)

  /** What the iteration over the directory yields. */
  datatype Listed = Unreadable | Item(path: Path, isFile: bool, metadata: Option<Metadata>)

  datatype CacheEntry = CacheEntry(path: Path, size: U64, modifiedNs: nat)

  /** A number of files and their bytes: what is on disk, or `OverlayEvictionStats`. */
  datatype Tally = Tally(files: nat, bytes: nat) {
    function Plus(size: nat): Tally {
      Tally(files + 1, bytes + size)
    }

    function And(other: Tally): Tally {
      Tally(files + other.files, bytes + other.bytes)
    }
  }

  /** The extension is `tar` in any case; a name with nothing before its only dot has none. */
  predicate IsTar(path: Path) {
    var n := |path|;
    n > 4 && path[n - 4] == '.' && path[n - 3] in "tT" && path[n - 2] in "aA" && path[n - 1] in "rR"
  }

  /** What the pass looks at: archive files whose metadata can be read. */
  predicate IsBlob(f: Listed) {
    f.Item? && f.isFile && IsTar(f.path) && f.metadata.Some?
  }

  function Modified(f: Listed): int
    requires IsBlob(f)
  {
    if f.metadata.value.modified.Some? then f.metadata.value.modified.value else 0
  }

  function AsEntry(f: Listed): CacheEntry
    requires IsBlob(f)
  {
    CacheEntry(f.path, f.metadata.value.size, if Modified(f) < 0 then 0 else Modified(f))
  }

  /** A blob from the future has no age. */
  predicate Expired(f: Listed, now: int, maxAge: Option<nat>)
    requires IsBlob(f)
  {
    maxAge.Some? && Modified(f) <= now && now - Modified(f) > maxAge.value
  }

  /** The directory as the pass sees it; some files may refuse to be removed. */
  class Directory {
    const listing: Option<seq<Listed>>
    const refuses: set<Path>
    const present: bool
    var files: set<Path>

    constructor (present: bool, listing: Option<seq<Listed>>, refuses: set<Path>, files: set<Path>)
      ensures this.present == present && this.listing == listing && this.refuses == refuses && this.files == files
    {
      this.present, this.listing, this.refuses, this.files := present, listing, refuses, files;
    }

    /** No name is listed twice, and every blob is there. */
    ghost predicate Valid()
      reads this
    {
      listing.Some? ==>
        && DistinctNames(listing.value)
        && forall f | f in listing.value && IsBlob(f) :: f.path in files
    }

    method RemoveFile(path: Path) returns (ok: bool)
      modifies this
      ensures ok <==> path in old(files) && path !in refuses
      ensures files == if ok then old(files) - {path} else old(files)
    {
      ok := path in files && path !in refuses;
      if ok {
        files := files - {path};
      }
    }
  }

  ghost predicate DistinctNames(listing: seq<Listed>) {
    forall i, j | 0 <= i < j < |listing| && listing[i].Item? && listing[j].Item? :: listing[i].path != listing[j].path
  }

  ghost predicate DistinctPaths(s: seq<CacheEntry>) {
    forall i, j | 0 <= i < j < |s| :: s[i].path != s[j].path
  }

  // ---- Bytes and files on disk

  /** How many of these files are there, and how many bytes they hold. */
  function OnDisk(s: seq<CacheEntry>, files: set<Path>): Tally {
    if s == [] then Tally(0, 0)
    else
      var e, rest := s[|s| - 1], OnDisk(s[..|s| - 1], files);
      if e.path in files then rest.Plus(e.size) else rest
  }

  lemma {:induction false} OnDiskIgnores(s: seq<CacheEntry>, files: set<Path>, path: Path)
    requires forall e | e in s :: e.path != path
    ensures OnDisk(s, files - {path}) == OnDisk(s, files)
  {
    if s == [] {
    } else {
      OnDiskIgnores(s[..|s| - 1], files, path);
    }
  }

  /** Removing one file takes exactly its bytes away. */
  lemma {:induction false} RemovingFrees(s: seq<CacheEntry>, files: set<Path>, e: CacheEntry)
    requires DistinctPaths(s) && e in s && e.path in files
    ensures OnDisk(s, files) == OnDisk(s, files - {e.path}).Plus(e.size)
  {
    var last, init := s[|s| - 1], s[..|s| - 1];
    if e == last {
      OnDiskIgnores(init, files, e.path);
    } else {
      RemovingFrees(init, files, e);
    }
  }

  // ---- The scan

  function Blobs(listing: seq<Listed>): (s: seq<CacheEntry>)
    ensures forall e :: e in s <==> exists f :: f in listing && IsBlob(f) && AsEntry(f) == e
  {
    if listing == [] then []
    else
      var f, rest := listing[|listing| - 1], Blobs(listing[..|listing| - 1]);
      assert forall g :: g in listing <==> g in listing[..|listing| - 1] || g == f;
      if IsBlob(f) then rest + [AsEntry(f)] else rest
  }

  /** The blobs the scan keeps for the size pass. */
  function Tracked(listing: seq<Listed>, now: int, maxAge: Option<nat>): (s: seq<CacheEntry>)
    ensures forall e :: e in s <==>
                        exists f :: f in listing && IsBlob(f) && !Expired(f, now, maxAge) && AsEntry(f) == e
  {
    if listing == [] then []
    else
      var f, rest := listing[|listing| - 1], Tracked(listing[..|listing| - 1], now, maxAge);
      assert forall g :: g in listing <==> g in listing[..|listing| - 1] || g == f;
      if IsBlob(f) && !Expired(f, now, maxAge) then rest + [AsEntry(f)] else rest
  }

  /** Expired blobs that let themselves be removed. */
  ghost function AgedOut(listing: seq<Listed>, now: int, maxAge: Option<nat>, refuses: set<Path>): set<Path> {
    set f | f in listing && IsBlob(f) && Expired(f, now, maxAge) && f.path !in refuses :: f.path
  }

  ghost predicate Removable(f: Listed, now: int, maxAge: Option<nat>, refuses: set<Path>) {
    IsBlob(f) && Expired(f, now, maxAge) && f.path !in refuses
  }

  lemma AgedOutNext(listing: seq<Listed>, i: nat, now: int, maxAge: Option<nat>, refuses: set<Path>)
    requires i < |listing|
    ensures AgedOut(listing[..i + 1], now, maxAge, refuses) ==
            AgedOut(listing[..i], now, maxAge, refuses) +
            if Removable(listing[i], now, maxAge, refuses) then {listing[i].path} else {}
  {
    assert listing[..i + 1] == listing[..i] + [listing[i]];
  }

  lemma NotYetAgedOut(listing: seq<Listed>, i: nat, now: int, maxAge: Option<nat>, refuses: set<Path>)
    requires DistinctNames(listing) && i < |listing| && IsBlob(listing[i])
    ensures listing[i].path !in AgedOut(listing[..i], now, maxAge, refuses)
  {
  }

  lemma {:induction false} BlobsAreDistinct(listing: seq<Listed>)
    requires DistinctNames(listing)
    ensures DistinctPaths(Blobs(listing))
  {
    if listing == [] {
    } else {
      var init := listing[..|listing| - 1];
      BlobsAreDistinct(init);
      forall e | e in Blobs(init) ensures listing[|listing| - 1].Item? ==> e.path != listing[|listing| - 1].path {
      }
    }
  }

  lemma {:induction false} TrackedAreDistinct(listing: seq<Listed>, now: int, maxAge: Option<nat>)
    requires DistinctNames(listing)
    ensures DistinctPaths(Tracked(listing, now, maxAge))
  {
    if listing == [] {
    } else {
      var init := listing[..|listing| - 1];
      TrackedAreDistinct(init, now, maxAge);
      forall e | e in Tracked(init, now, maxAge)
        ensures listing[|listing| - 1].Item? ==> e.path != listing[|listing| - 1].path
      {
      }
    }
  }

  function Total(s: seq<CacheEntry>): nat {
    if s == [] then 0 else Total(s[..|s| - 1]) + s[|s| - 1].size
  }

  /** A scanned blob, expired and removed, moves from the disk into the statistics. */
  lemma RemovalIsCounted(listing: seq<Listed>, f: Listed, files: set<Path>, stats: Tally)
    requires DistinctNames(listing) && f in listing && IsBlob(f) && f.path in files
    ensures OnDisk(Blobs(listing), files).And(stats) ==
            OnDisk(Blobs(listing), files - {f.path}).And(stats.Plus(f.metadata.value.size))
  {
    BlobsAreDistinct(listing);
    RemovingFrees(Blobs(listing), files, AsEntry(f));
  }

  /** The scan with its age pass; a blob that is expired but cannot be removed is not tracked. */
  method Scan(dir: Directory, listing: seq<Listed>, now: int, maxAge: Option<nat>)
    returns (entries: seq<CacheEntry>, total: nat, stats: Tally)
    requires dir.Valid() && dir.listing == Some(listing)
    modifies dir
    ensures dir.files == old(dir.files) - AgedOut(listing, now, maxAge, dir.refuses)
    ensures entries == Tracked(listing, now, maxAge) && total == Total(entries)
    ensures OnDisk(Blobs(listing), old(dir.files)) == OnDisk(Blobs(listing), dir.files).And(stats)
  {
    entries, total, stats := [], 0, Tally(0, 0);
    assert listing[..|listing|] == listing;
    for i := 0 to |listing|
      invariant dir.files == old(dir.files) - AgedOut(listing[..i], now, maxAge, dir.refuses)
      invariant entries == Tracked(listing[..i], now, maxAge) && total == Total(entries)
      invariant OnDisk(Blobs(listing), old(dir.files)) == OnDisk(Blobs(listing), dir.files).And(stats)
    {
      var f := listing[i];
      AgedOutNext(listing, i, now, maxAge, dir.refuses);
      assert listing[..i + 1][..i] == listing[..i];
      if IsBlob(f) {
        NotYetAgedOut(listing, i, now, maxAge, dir.refuses);
        if Expired(f, now, maxAge) {
          RemovalIsCounted(listing, f, dir.files, stats);
          var ok := dir.RemoveFile(f.path);
          if ok {
            stats := stats.Plus(f.metadata.value.size);
          }
        } else {
          total := total + f.metadata.value.size;
          entries := entries + [AsEntry(f)];
        }
      }
    }
  }
}
