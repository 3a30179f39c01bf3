/** Resolving and compiling ES modules out of the asset store. */
module EsModules {
  import opened Wrappers
  import opened Paths

  type Specifier = string

  // ---- Specifiers

  /** `starts_with`. */
  predicate StartsWith(s: string, prefix: string) {
    |prefix| <= |s| && s[..|prefix|] == prefix
  }

  predicate IsRelative(request: string) {
    StartsWith(request, "./") || StartsWith(request, "../")
  }

  /** `trim_start_matches("./")`. */
  function TrimDotSlash(s: string): string {
    if StartsWith(s, "./") then TrimDotSlash(s[2..]) else s
  }

  /** The directory part of a base specifier, as segments. */
  function Directory(base: Specifier): seq<string> {
    if base == "" then []
    else match RsplitOnce(base)
      case None => []
      case Some((prefix, _)) => Split(prefix)
  }

  /** One segment of a request: `.` and the empty segment stay, `..` goes up unless at the top. */
  function Walk(parts: seq<string>, segment: string): seq<string> {
    if Ignored(segment) then parts
    else if segment == ".." then (if parts == [] then [] else parts[..|parts| - 1])
    else parts + [segment]
  }

  function WalkAll(parts: seq<string>, segments: seq<string>): seq<string> {
    if segments == [] then parts
    else Walk(WalkAll(parts, segments[..|segments| - 1]), segments[|segments| - 1])
  }

  function Resolve(base: Specifier, request: string): Specifier {
    if IsRelative(request) then Join(WalkAll(Directory(base), Split(request))) else request
  }

  /** `resolve_specifier`. */
  method ResolveSpecifier(base: Specifier, request: string) returns (resolved: Specifier)
    ensures resolved == Resolve(base, request)
  {
    if IsRelative(request) {
      var parts := Directory(base);
      var segments := Split(request);
      var i := 0;
      while i < |segments|
        invariant 0 <= i <= |segments|
        invariant parts == WalkAll(Directory(base), segments[..i])
      {
        assert segments[..i + 1][..i] == segments[..i];
        var segment := segments[i];
        if segment == "." || segment == "" {
        } else if segment == ".." {
          if parts != [] {
            parts := parts[..|parts| - 1];
          }
        } else {
          parts := parts + [segment];
        }
        i := i + 1;
      }
      assert segments[..i] == segments;
      return Join(parts);
    }
    // The trim never finds anything: a request that starts with "./" is relative.
    return TrimDotSlash(request);
  }

  /** The directory is everything but the last segment. */
  lemma DirectoryIsAllButLast(base: Specifier)
    ensures Directory(base) == Split(base)[..|Split(base)| - 1]
  {
    if base != "" {
      RsplitOnceJoins(base);
      match RsplitOnce(base)
      case None => SplitWhole(base);
      case Some((a, b)) => SplitAtLastSlash(a, b);
    }
  }

  /** How often a walk from the top would have gone above it. */
  function Climbs(segments: seq<string>): nat {
    if segments == [] then 0
    else
      var before := segments[..|segments| - 1];
      Climbs(before) + if segments[|segments| - 1] == ".." && WalkAll([], before) == [] then 1 else 0
  }

  /**
   A walk takes away at the end of its start as many segments as it climbs above the
   top, all of them at most, and then adds what it would reach from the top.
   */
  lemma {:induction false} WalkIsRelative(parts: seq<string>, segments: seq<string>)
    ensures WalkAll(parts, segments) ==
            parts[..if Climbs(segments) <= |parts| then |parts| - Climbs(segments) else 0] + WalkAll([], segments)
  {
    if segments == [] {
      assert parts[..|parts|] + [] == parts;
    } else {
      WalkIsRelative(parts, segments[..|segments| - 1]);
    }
  }

  lemma OneStepIsClean(parts: seq<string>, segment: string)
    requires Clean(parts) && '/' !in segment
    ensures Clean(Walk(parts, segment))
  {
  }

  lemma {:induction false} WalkIsClean(parts: seq<string>, segments: seq<string>)
    requires Clean(parts) && forall s | s in segments :: '/' !in s
    ensures Clean(WalkAll(parts, segments))
  {
    hide Clean, Walk;
    if segments == [] {
    } else {
      assert segments[|segments| - 1] in segments;
      WalkIsClean(parts, segments[..|segments| - 1]);
      OneStepIsClean(WalkAll(parts, segments[..|segments| - 1]), segments[|segments| - 1]);
    }
  }

  /**
   Imports stay clean: from a base whose directory has no `.`, `..` or empty segment,
   a relative request leads to a specifier made of clean segments.
   */
  lemma ResolvedIsClean(base: Specifier, request: string)
    requires IsRelative(request) && Clean(Directory(base))
    ensures exists parts :: Clean(parts) && Resolve(base, request) == Join(parts)
  {
    WalkIsClean(Directory(base), Split(request));
  }

  // ---- Assets

  datatype Asset = Text(source: string) | Binary

  /** Exact name, then without a leading `./`, then by the last segment. */
  function Get(assets: map<string, Asset>, name: string): Option<Asset> {
    if name in assets then Some(assets[name])
    else if StartsWith(name, "./") && name[2..] in assets then Some(assets[name[2..]])
    else
      var last := Split(name)[|Split(name)| - 1];
      if last in assets then Some(assets[last]) else None
  }

  /** A compiled module: its identity hash and the specifiers it imports. */
  datatype Module = Module(hash: int, requests: seq<string>)

  /** The assets and the compiler, which may reject a source. */
  datatype Program = Program(assets: map<string, Asset>, compile: (Specifier, string) -> Option<Module>) {
    function Load(s: Specifier): Option<Module> {
      match Get(assets, s)
      case Some(Text(source)) => compile(s, source)
      case _ => None
    }

    /** The specifiers a module's imports resolve to. */
    function Imports(s: Specifier): set<Specifier> {
      if Load(s).None? then {}
      else set r | r in Load(s).value.requests :: Resolve(s, r)
    }
  }

  type Cache = map<Specifier, Module>

  /** Cached modules are what their assets compile to. */
  ghost predicate Faithful(p: Program, c: Cache) {
    forall s | s in c :: p.Load(s) == Some(c[s])
  }

  ghost predicate Grows(c: Cache, after: Cache) {
    forall s | s in c :: s in after && after[s] == c[s]
  }

  /** Everything the cached modules import is cached. */
  ghost predicate Complete(p: Program, c: Cache) {
    forall s | s in c :: p.Imports(s) <= c.Keys
  }

  /** Everything imported by what is new in the cache is cached. */
  ghost predicate CompleteSince(p: Program, c: Cache, after: Cache) {
    forall s | s in after && s !in c :: p.Imports(s) <= after.Keys
  }

  /** A set, finite or not, that has with each uncached specifier its imports. */
  ghost predicate ImportClosed(p: Program, c: Cache, s: iset<Specifier>) {
    forall x, r | x in s && x !in c && r in p.Imports(x) :: r in s
  }

  /** Reached from `start` through modules that were not yet cached. */
  ghost predicate Reached(p: Program, c: Cache, start: Specifier, x: Specifier) {
    forall s: iset<Specifier> | ImportClosed(p, c, s) && start in s :: x in s
  }

  /** All new modules are reached from `start`. */
  ghost predicate NewAreReached(p: Program, c: Cache, start: Specifier, after: Cache) {
    forall s: iset<Specifier>, x | ImportClosed(p, c, s) && start in s && x in after && x !in c :: x in s
  }
}
