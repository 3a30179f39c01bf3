/** Reading a bundle archive within limits, whatever sizes the archive declares. */
module BundleReader {
  import opened Wrappers
  import opened BundlePaths
  import opened Paths

  /** The bytes of one file; a vector cannot be longer than half the address space. */
  type Payload = d: seq<Byte> | |d| <= 0x7fff_ffff_ffff_ffff

  datatype Limits = Limits(maxEntries: U64, maxEntryBytes: U64, maxTotalBytes: U64)

  /**
   A record of the archive: whether it can be opened, what it claims and what its
   stream yields, possibly followed by a read error.
   */
  datatype Record = Record(readable: bool, isDir: bool, name: Option<string>, declared: U64, data: Payload, fails: bool)

  datatype Entry = Entry(path: string, data: Payload)

  function Min(a: nat, b: nat): nat {
    if a < b then a else b
  }

  function SaturatingAdd(a: U64, b: U64): U64 {
    Min(a + b, U64_MAX)
  }

  /** The bytes kept once the first `n` records are read. */
  function Total(records: seq<Record>, n: nat): nat
    requires n <= |records|
  {
    if n == 0 then 0
    else Total(records, n - 1) + if records[n - 1].isDir then 0 else |records[n - 1].data|
  }

  /**
   A file that is kept when `total` bytes were kept before it. The sum with the declared
   size saturates, so no declared size exceeds the greatest total limit.
   */
  ghost predicate Fits(l: Limits, total: nat, r: Record) {
    && r.name.Some? && Resolved(r.name.value).Some?
    && r.declared <= l.maxEntryBytes
    && (total + r.declared <= l.maxTotalBytes || l.maxTotalBytes == U64_MAX)
    && !r.fails && |r.data| <= l.maxEntryBytes && total + |r.data| <= l.maxTotalBytes
  }

  ghost predicate AllFit(l: Limits, records: seq<Record>, n: nat)
    requires n <= |records|
  {
    forall i | 0 <= i < n :: records[i].readable && (records[i].isDir || Fits(l, Total(records, i), records[i]))
  }

  /** The files among the first `n` records, under their normalised names. */
  ghost function Files(records: seq<Record>, n: nat): seq<Entry>
    requires n <= |records|
  {
    if n == 0 then []
    else
      var r := records[n - 1];
      Files(records, n - 1) +
      if !r.isDir && r.name.Some? && Resolved(r.name.value).Some?
      then [Entry(Resolved(r.name.value).value, r.data)]
      else []
  }

  /** `read_zip_file`: at most one byte past the limit is read, and that one is an error. */
  method ReadZipFile(r: Record, limit: U64) returns (data: Option<Payload>)
    ensures data == if !r.fails && |r.data| <= limit then Some(r.data) else None
  {
    var readLimit := SaturatingAdd(limit, 1);
    var buffer := if |r.data| < readLimit then r.data else r.data[..readLimit];
    if |r.data| < readLimit && r.fails {
      return None;
    }
    if |buffer| > limit {
      return None;
    }
    return Some(buffer);
  }

  method EnsureLimit(actual: U64, limit: U64) returns (ok: bool)
    ensures ok <==> actual <= limit
  {
    return actual <= limit;
  }

  /** One file of the archive, once `total` bytes are kept. */
  method ReadEntry(file: Record, total: U64, l: Limits) returns (entry: Option<Entry>)
    requires total <= l.maxTotalBytes
    ensures entry.Some? <==> Fits(l, total, file)
    ensures entry.Some? ==> entry.value == Entry(Resolved(file.name.value).value, file.data)
  {
    hide Resolved;
    if file.name.None? {
      return None;
    }
    var path := NormalizeEntryPath(file.name.value);
    if path.Refused? {
      return None;
    }
    var entryFits := EnsureLimit(file.declared, l.maxEntryBytes);
    if !entryFits {
      return None;
    }
    var prospective := SaturatingAdd(total, Min(file.declared, l.maxEntryBytes));
    var totalFits := EnsureLimit(prospective, l.maxTotalBytes);
    if !totalFits {
      return None;
    }
    var remaining := if total <= l.maxTotalBytes then l.maxTotalBytes - total else 0;
    var data := ReadZipFile(file, Min(l.maxEntryBytes, remaining));
    if data.None? {
      return None;
    }
    return Some(Entry(path.path, data.value));
  }

  /**
   `from_reader_with_limits`: accepted exactly if there are not too many records,
   every one can be opened, every file fits, and there is at least one file; the
   bundle then holds all the files.
   */
  method FromReader(records: seq<Record>, l: Limits) returns (r: Result<seq<Entry>>)
    requires |records| <= U64_MAX
    ensures r.Ok? <==>
            |records| <= l.maxEntries && AllFit(l, records, |records|) && Files(records, |records|) != []
    ensures r.Ok? ==> r.value == Files(records, |records|)
  {
    hide Resolved;
    var fewEnough := EnsureLimit(|records|, l.maxEntries);
    if !fewEnough {
      return Err;
    }
    var entries: seq<Entry> := [];
    var total: U64 := 0;
    for i := 0 to |records|
      invariant AllFit(l, records, i)
      invariant total == Total(records, i) && total <= l.maxTotalBytes
      invariant entries == Files(records, i)
    {
      if !records[i].readable {
        return Err;
      }
      if !records[i].isDir {
        var entry := ReadEntry(records[i], total, l);
        if entry.None? {
          return Err;
        }
        total := SaturatingAdd(total, |entry.value.data|);
        entries := entries + [entry.value];
      }
    }
    if entries == [] {
      return Err;
    }
    return Ok(entries);
  }

  // ---- What an accepted bundle is

  function Size(entries: seq<Entry>): nat {
    if entries == [] then 0 else Size(entries[..|entries| - 1]) + |entries[|entries| - 1].data|
  }

  /** A path that is its own normal form. */
  ghost predicate IsNormal(path: string) {
    Clean(Split(path)) && Resolved(path) == Some(path)
  }

  ghost predicate Bounded(l: Limits, entries: seq<Entry>, total: nat) {
    && Size(entries) == total && total <= l.maxTotalBytes
    && forall e | e in entries :: IsNormal(e.path) && |e.data| <= l.maxEntryBytes
  }

  lemma FittingIsNormal(l: Limits, total: nat, r: Record)
    requires Fits(l, total, r)
    ensures IsNormal(Resolved(r.name.value).value)
  {
    hide Resolved, Clean, Split;
    NormalizedIsFixed(r.name.value);
  }

  lemma SizeAppend(entries: seq<Entry>, e: Entry)
    ensures Size(entries + [e]) == Size(entries) + |e.data|
  {
    assert (entries + [e])[..|entries|] == entries;
  }

  lemma OneMoreFile(l: Limits, entries: seq<Entry>, total: nat, r: Record)
    requires Bounded(l, entries, total) && Fits(l, total, r)
    ensures Bounded(l, entries + [Entry(Resolved(r.name.value).value, r.data)], total + |r.data|)
  {
    hide Resolved, IsNormal, Size;
    FittingIsNormal(l, total, r);
    SizeAppend(entries, Entry(Resolved(r.name.value).value, r.data));
  }

  lemma FilesStep(l: Limits, records: seq<Record>, n: nat)
    requires 0 < n <= |records| && AllFit(l, records, n)
    requires Bounded(l, Files(records, n - 1), Total(records, n - 1))
    ensures Bounded(l, Files(records, n), Total(records, n))
    ensures |Files(records, n)| <= |Files(records, n - 1)| + 1
  {
    hide Resolved, IsNormal, Bounded, Size;
    var r, before := records[n - 1], Files(records, n - 1);
    if r.isDir {
      assert Files(records, n) == before;
    } else {
      OneMoreFile(l, before, Total(records, n - 1), r);
    }
  }

  lemma FitsBefore(l: Limits, records: seq<Record>, n: nat)
    requires 0 < n <= |records| && AllFit(l, records, n)
    ensures AllFit(l, records, n - 1)
  {
  }

  lemma {:induction false} FilesAreWithinLimits(l: Limits, records: seq<Record>, n: nat)
    requires n <= |records| && AllFit(l, records, n)
    ensures Bounded(l, Files(records, n), Total(records, n)) && |Files(records, n)| <= n
  {
    if n == 0 {
      NothingIsBounded(l);
    } else {
      FitsBefore(l, records, n);
      hide *;
      FilesAreWithinLimits(l, records, n - 1);
      FilesStep(l, records, n);
    }
  }

  lemma NothingIsBounded(l: Limits)
    ensures Bounded(l, [], 0)
  {
  }

  /**
   Every accepted bundle has normalised names, each file within the entry limit and
   all of them together within the total limit.
   */
  lemma AcceptedBundleIsBounded(l: Limits, records: seq<Record>)
    requires |records| <= l.maxEntries && AllFit(l, records, |records|) && Files(records, |records|) != []
    ensures var entries := Files(records, |records|);
            && |entries| <= l.maxEntries && Size(entries) <= l.maxTotalBytes
            && forall e | e in entries :: IsNormal(e.path) && |e.data| <= l.maxEntryBytes
  {
    FilesAreWithinLimits(l, records, |records|);
  }
}
