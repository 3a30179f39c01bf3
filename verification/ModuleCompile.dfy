/** Compiling a module with everything it imports, into a cache. */
module ModuleCompile {
  import opened Wrappers
  import Lru
  import opened Paths
  import opened EsModules

  /** How many specifiers of the universe are not cached: what bounds the recursion. */
  ghost function Uncached(u: set<Specifier>, c: Cache): nat {
    |u - c.Keys|
  }

  lemma CachingOne(u: set<Specifier>, c: Cache, s: Specifier, m: Module)
    requires s in u && s !in c
    ensures Uncached(u, c[s := m]) < Uncached(u, c)
  {
    assert u - c.Keys == u - c[s := m].Keys + {s};
  }

  lemma CachingMore(u: set<Specifier>, c: Cache, after: Cache)
    requires Grows(c, after)
    ensures Uncached(u, after) <= Uncached(u, c)
  {
    Lru.SubsetSize(u - after.Keys, u - c.Keys);
  }

  /** A specifier that has no asset, a binary one, or one that does not compile, is reached. */
  ghost predicate Blocked(p: Program, c: Cache, start: Specifier, bad: Specifier) {
    p.Load(bad).None? && bad !in c && Reached(p, c, start, bad)
  }

  ghost predicate Compiled(p: Program, c: Cache, start: Specifier, after: Cache, ok: bool) {
    && Faithful(p, after) && Grows(c, after) && NewAreReached(p, c, start, after)
    && (ok ==> start in after && CompleteSince(p, c, after))
    && (!ok ==> exists bad :: Blocked(p, c, start, bad))
    && (p.Load(start).Some? || start in c ==> start in after)
  }

  /** Every cached module's hash leads to some cached module of that hash. */
  ghost predicate Hashed(c: Cache, byHash: map<int, Specifier>) {
    && (forall s | s in c :: c[s].hash in byHash)
    && (forall h | h in byHash :: byHash[h] in c && c[byHash[h]].hash == h)
  }

  /** In the midst of compiling `start`: its first `n` imports are compiled. */
  ghost predicate Importing(p: Program, c: Cache, start: Specifier, now: Cache, n: nat) {
    && start !in c && start in now && p.Load(start).Some? && n <= |p.Load(start).value.requests|
    && Faithful(p, now) && Grows(c, now) && NewAreReached(p, c, start, now)
    && (forall x | x in now && x !in c && x != start :: p.Imports(x) <= now.Keys)
    && (forall j | 0 <= j < n :: Resolve(start, p.Load(start).value.requests[j]) in now)
  }

  lemma ImportOf(p: Program, start: Specifier, k: nat)
    requires p.Load(start).Some? && k < |p.Load(start).value.requests|
    ensures Resolve(start, p.Load(start).value.requests[k]) in p.Imports(start)
  {
    assert p.Load(start).value.requests[k] in p.Load(start).value.requests;
  }

  lemma ImportingStarts(p: Program, c: Cache, start: Specifier)
    requires Faithful(p, c) && start !in c && p.Load(start).Some?
    ensures Importing(p, c, start, c[start := p.Load(start).value], 0)
    ensures Faithful(p, c[start := p.Load(start).value])
  {
  }

  lemma ReachedThroughImport(p: Program, c: Cache, start: Specifier, now: Cache, k: nat, x: Specifier)
    requires start !in c && Grows(c, now) && p.Load(start).Some? && k < |p.Load(start).value.requests|
    requires Reached(p, now, Resolve(start, p.Load(start).value.requests[k]), x)
    ensures Reached(p, c, start, x)
  {
    ImportOf(p, start, k);
    forall s: iset<Specifier> | ImportClosed(p, c, s) && start in s ensures x in s {
      assert ImportClosed(p, now, s);
    }
  }

  lemma ImportingNext(p: Program, c: Cache, start: Specifier, now: Cache, n: nat, after: Cache)
    requires Importing(p, c, start, now, n) && n < |p.Load(start).value.requests|
    requires Compiled(p, now, Resolve(start, p.Load(start).value.requests[n]), after, true)
    ensures Importing(p, c, start, after, n + 1)
  {
    ImportOf(p, start, n);
    forall s: iset<Specifier>, x | ImportClosed(p, c, s) && start in s && x in after && x !in c ensures x in s {
      assert ImportClosed(p, now, s);
    }
  }

  lemma ImportingFails(p: Program, c: Cache, start: Specifier, now: Cache, n: nat, after: Cache)
    requires Importing(p, c, start, now, n) && n < |p.Load(start).value.requests|
    requires Compiled(p, now, Resolve(start, p.Load(start).value.requests[n]), after, false)
    ensures Compiled(p, c, start, after, false)
  {
    ImportOf(p, start, n);
    forall s: iset<Specifier>, x | ImportClosed(p, c, s) && start in s && x in after && x !in c ensures x in s {
      assert ImportClosed(p, now, s);
    }
    var bad :| Blocked(p, now, Resolve(start, p.Load(start).value.requests[n]), bad);
    ReachedThroughImport(p, c, start, now, n, bad);
    assert Blocked(p, c, start, bad);
  }

  lemma ImportingDone(p: Program, c: Cache, start: Specifier, now: Cache)
    requires p.Load(start).Some? && Importing(p, c, start, now, |p.Load(start).value.requests|)
    ensures Compiled(p, c, start, now, true)
  {
    forall r | r in p.Imports(start) ensures r in now {
      var q :| q in p.Load(start).value.requests && Resolve(start, q) == r;
      var j :| 0 <= j < |p.Load(start).value.requests| && p.Load(start).value.requests[j] == q;
    }
  }

  lemma AlreadyCompiled(p: Program, c: Cache, start: Specifier)
    requires Faithful(p, c) && start in c
    ensures Compiled(p, c, start, c, true)
  {
  }

  lemma CannotLoad(p: Program, c: Cache, start: Specifier)
    requires Faithful(p, c) && start !in c && p.Load(start).None?
    ensures Compiled(p, c, start, c, false)
  {
    assert Blocked(p, c, start, start);
  }

  // ---- The recursion

  /** One compilation, with at most `depth` nested ones; `None` if that is not enough. */
  function CompileAt(depth: nat, p: Program, c: Cache, start: Specifier): Option<(Cache, bool)>
    decreases depth, 0
  {
    if start in c then Some((c, true))
    else match p.Load(start)
      case None => Some((c, false))
      case Some(m) =>
        if depth == 0 then None else CompileAll(depth - 1, p, c[start := m], start, m.requests)
  }

  function CompileAll(depth: nat, p: Program, c: Cache, base: Specifier, requests: seq<string>): Option<(Cache, bool)>
    decreases depth, 1, |requests|
  {
    if requests == [] then Some((c, true))
    else match CompileAt(depth, p, c, Resolve(base, requests[0]))
      case None => None
      case Some((after, ok)) => if ok then CompileAll(depth, p, after, base, requests[1..]) else Some((after, false))
  }

  ghost predicate Ends(p: Program, c: Cache, start: Specifier) {
    exists depth: nat :: CompileAt(depth, p, c, start).Some?
  }

  lemma {:induction false} CompileAtMeets(depth: nat, p: Program, c: Cache, start: Specifier)
    requires Faithful(p, c) && CompileAt(depth, p, c, start).Some?
    ensures var (after, ok) := CompileAt(depth, p, c, start).value; Compiled(p, c, start, after, ok)
    decreases depth, 0
  {
    hide Compiled, Importing, Faithful, Resolve;
    if start in c {
      AlreadyCompiled(p, c, start);
    } else if p.Load(start).None? {
      CannotLoad(p, c, start);
    } else {
      ImportingStarts(p, c, start);
      var requests := p.Load(start).value.requests;
      assert requests[0..] == requests;
      CompileAllMeets(depth - 1, p, c, start, c[start := p.Load(start).value], 0);
    }
  }

  lemma {:induction false} CompileAllMeets(depth: nat, p: Program, c: Cache, start: Specifier, now: Cache, n: nat)
    requires p.Load(start).Some? && Importing(p, c, start, now, n) && n <= |p.Load(start).value.requests|
    requires CompileAll(depth, p, now, start, p.Load(start).value.requests[n..]).Some?
    ensures var (after, ok) := CompileAll(depth, p, now, start, p.Load(start).value.requests[n..]).value;
            Compiled(p, c, start, after, ok)
    decreases depth, 1, |p.Load(start).value.requests| - n
  {
    hide Compiled, Importing, Faithful, Resolve, Program.Load;
    var requests := p.Load(start).value.requests;
    if n == |requests| {
      ImportingDone(p, c, start, now);
    } else {
      ImportingFaithful(p, c, start, now, n);
      assert requests[n..][0] == requests[n] && requests[n..][1..] == requests[n + 1..];
      CompileAtMeets(depth, p, now, Resolve(start, requests[n]));
      var (after, ok) := CompileAt(depth, p, now, Resolve(start, requests[n])).value;
      if ok {
        ImportingNext(p, c, start, now, n, after);
        CompileAllMeets(depth, p, c, start, after, n + 1);
      } else {
        ImportingFails(p, c, start, now, n, after);
      }
    }
  }

  lemma ImportingFaithful(p: Program, c: Cache, start: Specifier, now: Cache, n: nat)
    requires Importing(p, c, start, now, n)
    ensures Faithful(p, now)
  {
  }

  /** The module part of the runtime context. */
  class ModuleGraph {
    const program: Program
    var modules: Cache
    var moduleByHash: map<int, Specifier>

    constructor (program: Program)
      ensures this.program == program && modules == map[] && moduleByHash == map[]
    {
      this.program := program;
      modules, moduleByHash := map[], map[];
    }

    /**
     `compile_module_from_assets`, on whatever it returns: a module is cached before
     its imports, so cycles do not trap it.
     */
    method Compile(specifier: Specifier, ghost depth: nat) returns (ok: bool)
      requires CompileAt(depth, program, modules, specifier).Some?
      requires Faithful(program, modules) && Hashed(modules, moduleByHash)
      modifies this
      ensures Some((modules, ok)) == CompileAt(depth, program, old(modules), specifier)
      ensures Compiled(program, old(modules), specifier, modules, ok)
      ensures Hashed(modules, moduleByHash) && Faithful(program, modules)
      decreases depth
    {
      hide Compiled, Importing, Faithful, Hashed, Resolve;
      CompileAtMeets(depth, program, modules, specifier);
      ghost var c := modules;
      if specifier in modules {
        return true;
      }
      var loaded := program.Load(specifier);
      if loaded.None? {
        return false;
      }
      ImportingStarts(program, c, specifier);
      HashOne(c, moduleByHash, specifier, loaded.value);
      modules := modules[specifier := loaded.value];
      moduleByHash := moduleByHash[loaded.value.hash := specifier];
      var requests := loaded.value.requests;
      assert requests[0..] == requests;
      var i := 0;
      while i < |requests|
        invariant 0 <= i <= |requests|
        invariant CompileAll(depth - 1, program, modules, specifier, requests[i..]) == CompileAt(depth, program, c, specifier)
        invariant Hashed(modules, moduleByHash) && Faithful(program, modules)
      {
        assert requests[i..][0] == requests[i] && requests[i..][1..] == requests[i + 1..];
        var resolved := ResolveSpecifier(specifier, requests[i]);
        ok := Compile(resolved, depth - 1);
        if !ok {
          CompiledFaithful(program, c, specifier, modules, ok);
          return false;
        }
        i := i + 1;
      }
      CompiledFaithful(program, c, specifier, modules, true);
      return true;
    }
  }

  lemma HashOne(c: Cache, byHash: map<int, Specifier>, s: Specifier, m: Module)
    requires Hashed(c, byHash) && s !in c
    ensures Hashed(c[s := m], byHash[m.hash := s])
  {
  }

  lemma CompiledFaithful(p: Program, c: Cache, start: Specifier, after: Cache, ok: bool)
    requires Compiled(p, c, start, after, ok)
    ensures Faithful(p, after)
  {
  }

  lemma CompiledGrows(p: Program, c: Cache, start: Specifier, after: Cache, ok: bool)
    requires Compiled(p, c, start, after, ok)
    ensures Grows(c, after)
  {
  }

  ghost function CachedSet(c: Cache): iset<Specifier> {
    iset s | s in c
  }

  // ---- What compilation achieves

  /** A successful compilation keeps a complete cache complete. */
  lemma SuccessKeepsComplete(p: Program, c: Cache, start: Specifier, after: Cache)
    requires Compiled(p, c, start, after, true) && Complete(p, c)
    ensures Complete(p, after) && start in after
  {
    forall s | s in after ensures p.Imports(s) <= after.Keys {
      if s in c {
        assert p.Imports(s) <= c.Keys;
      }
    }
  }

  /** Compilation succeeds exactly if everything it reaches can be loaded. */
  lemma SucceedsExactly(p: Program, c: Cache, start: Specifier, after: Cache, ok: bool)
    requires Compiled(p, c, start, after, ok)
    ensures ok <==> forall x :: Reached(p, c, start, x) && x !in c ==> p.Load(x).Some?
  {
    if ok {
      forall x | Reached(p, c, start, x) && x !in c ensures p.Load(x).Some? {
        assert ImportClosed(p, c, CachedSet(after));
        assert x in CachedSet(after);
      }
    } else {
      var bad :| Blocked(p, c, start, bad);
    }
  }

  /** On success the new modules are exactly the uncached specifiers it reaches. */
  lemma CachesExactlyReached(p: Program, c: Cache, start: Specifier, after: Cache, x: Specifier)
    requires Compiled(p, c, start, after, true)
    ensures x in after && x !in c <==> Reached(p, c, start, x) && x !in c
  {
    if x in after && x !in c {
      forall s: iset<Specifier> | ImportClosed(p, c, s) && start in s ensures x in s {
      }
    }
    if Reached(p, c, start, x) && x !in c {
      assert ImportClosed(p, c, CachedSet(after));
      assert x in CachedSet(after);
    }
  }

  /**
   A failed compilation may leave modules behind whose imports are missing. From a
   complete cache it leaves a complete one exactly if the module asked for could
   not itself be loaded; otherwise it is cached now, and asking again succeeds.
   */
  lemma FailureKeepsCompleteExactly(p: Program, c: Cache, start: Specifier, after: Cache)
    requires Compiled(p, c, start, after, false) && Complete(p, c) && Faithful(p, c)
    ensures Complete(p, after) <==> p.Load(start).None?
    ensures p.Load(start).Some? ==> start in after
  {
    var bad :| Blocked(p, c, start, bad);
    assert bad !in after;
    assert Complete(p, after) ==> ImportClosed(p, c, CachedSet(after));
    if p.Load(start).None? {
      OnlyUnloadable(p, c, start, after);
    }
  }

  lemma OnlyUnloadable(p: Program, c: Cache, start: Specifier, after: Cache)
    requires Faithful(p, c) && Faithful(p, after) && Grows(c, after) && NewAreReached(p, c, start, after)
    requires p.Load(start).None?
    ensures after == c
  {
    assert ImportClosed(p, c, iset{start});
    assert after.Keys == c.Keys;
  }

  // ---- The resolver callback

  /** `resolve_module_callback`: a lookup by the referrer's hash and the request. */
  function Callback(c: Cache, byHash: map<int, Specifier>, referrer: int, request: string): Option<Module> {
    var base := if referrer in byHash then byHash[referrer] else "";
    var resolved := Resolve(base, request);
    if resolved in c then Some(c[resolved]) else None
  }

  ghost predicate DistinctHashes(c: Cache) {
    forall s, t | s in c && t in c && c[s].hash == c[t].hash :: s == t
  }

  /** In a complete cache whose modules have distinct hashes, no import is ever unresolved. */
  lemma CallbackResolves(p: Program, c: Cache, byHash: map<int, Specifier>, s: Specifier, request: string)
    requires Faithful(p, c) && Complete(p, c) && Hashed(c, byHash) && DistinctHashes(c)
    requires s in c && request in c[s].requests
    ensures Resolve(s, request) in c
    ensures Callback(c, byHash, c[s].hash, request) == Some(c[Resolve(s, request)])
  {
    assert p.Load(s) == Some(c[s]);
    assert Resolve(s, request) in p.Imports(s);
    assert byHash[c[s].hash] == s;
  }

  // ---- When compilation ends

  /** Everything uncached that is reached lies in `u`. */
  ghost predicate Bounds(p: Program, c: Cache, start: Specifier, u: set<Specifier>) {
    forall x | Reached(p, c, start, x) && x !in c :: x in u
  }

  lemma ImportBounded(p: Program, c: Cache, start: Specifier, now: Cache, k: nat, u: set<Specifier>)
    requires start !in c && Grows(c, now) && p.Load(start).Some? && k < |p.Load(start).value.requests|
    requires Bounds(p, c, start, u)
    ensures Bounds(p, now, Resolve(start, p.Load(start).value.requests[k]), u)
  {
    hide Reached, Resolve;
    var imported := Resolve(start, p.Load(start).value.requests[k]);
    forall x | Reached(p, now, imported, x) && x !in now ensures x in u {
      ReachedThroughImport(p, c, start, now, k, x);
    }
  }

  lemma {:induction false} FiniteReachEnds(depth: nat, p: Program, c: Cache, start: Specifier, u: set<Specifier>)
    requires Faithful(p, c) && Bounds(p, c, start, u) && depth >= Uncached(u, c)
    ensures CompileAt(depth, p, c, start).Some?
    decreases depth, 0
  {
    if start !in c && p.Load(start).Some? {
      hide Importing, Faithful, Resolve, Uncached;
      assert Reached(p, c, start, start);
      var now := c[start := p.Load(start).value];
      CachingOne(u, c, start, p.Load(start).value);
      ImportingStarts(p, c, start);
      assert p.Load(start).value.requests[0..] == p.Load(start).value.requests;
      FiniteReachEndsAll(depth - 1, p, c, start, now, 0, u);
    }
  }

  lemma {:induction false} FiniteReachEndsAll(depth: nat, p: Program, c: Cache, start: Specifier, now: Cache, n: nat,
                                              u: set<Specifier>)
    requires p.Load(start).Some? && Importing(p, c, start, now, n) && n <= |p.Load(start).value.requests|
    requires Bounds(p, c, start, u) && depth >= Uncached(u, now)
    ensures CompileAll(depth, p, now, start, p.Load(start).value.requests[n..]).Some?
    decreases depth, 1, |p.Load(start).value.requests| - n
  {
    hide Compiled, Faithful, Resolve, Uncached, Bounds, Program.Load;
    var requests := p.Load(start).value.requests;
    if n < |requests| {
      var imported := Resolve(start, requests[n]);
      assert requests[n..][0] == requests[n] && requests[n..][1..] == requests[n + 1..];
      ImportBounded(p, c, start, now, n, u);
      FiniteReachEnds(depth, p, now, imported, u);
      CompileAtMeets(depth, p, now, imported);
      var (after, ok) := CompileAt(depth, p, now, imported).value;
      CompiledGrows(p, now, imported, after, ok);
      CachingMore(u, now, after);
      if ok {
        ImportingNext(p, c, start, now, n, after);
        FiniteReachEndsAll(depth, p, c, start, after, n + 1, u);
      }
    }
  }

  /** Where everything reached can be loaded, compilation ends exactly if only finitely much of it is uncached. */
  lemma EndsExactly(p: Program, c: Cache, start: Specifier)
    requires Faithful(p, c) && forall x | Reached(p, c, start, x) && x !in c :: p.Load(x).Some?
    ensures Ends(p, c, start) <==> exists u :: Bounds(p, c, start, u)
  {
    hide Reached, Faithful, Compiled;
    if Ends(p, c, start) {
      var depth: nat :| CompileAt(depth, p, c, start).Some?;
      var (after, ok) := CompileAt(depth, p, c, start).value;
      CompileAtMeets(depth, p, c, start);
      SucceedsExactly(p, c, start, after, ok);
      forall x | Reached(p, c, start, x) && x !in c ensures x in after.Keys {
        CachesExactlyReached(p, c, start, after, x);
      }
      assert Bounds(p, c, start, after.Keys);
    }
    if u :| Bounds(p, c, start, u) {
      FiniteReachEnds(Uncached(u, c), p, c, start, u);
    }
  }
}
