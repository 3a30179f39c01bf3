/** Where the overlay catalog and the benchmark host list the same packages. */
module PackageClosures {
  import opened Wrappers
  import opened PackageNames
  import Lru
  import Lockfile
  import opened HostPackages

  /** Both forms of the name are the same. */
  ghost predicate Agreed(name: string) {
    HostCanonical(name) == Canonicalize(name)
  }

  /** Keys are canonical, a package's own name is a spelling of its key, and every dependency is a string. */
  ghost predicate WellNamed(lock: HostLock) {
    && lock.Valid()
    && (forall k | k in lock.packages :: IsCanonical(k))
    && (forall k | k in lock.packages && lock.packages[k].name.Some? :: HostCanonical(lock.packages[k].name.value) == k)
    && (forall k, d | k in lock.packages && d in lock.packages[k].depends :: d.Some?)
  }

  function Strings(depends: seq<Option<string>>): (r: seq<string>)
    requires forall d | d in depends :: d.Some?
    ensures |r| == |depends| && forall i | 0 <= i < |r| :: Some(r[i]) == depends[i]
  {
    assert forall i | 0 <= i < |depends| :: depends[i] in depends;
    seq(|depends|, i requires 0 <= i < |depends| => depends[i].value)
  }

  /** The lockfile as the overlay catalog reads it. */
  ghost function Overlay(lock: HostLock): Lockfile.Lock
    requires WellNamed(lock)
  {
    map k | k in lock.packages :: Strings(lock.packages[k].depends)
  }

  lemma OverlayDepends(lock: HostLock, a: string)
    requires WellNamed(lock)
    ensures lock.Valid() && forall k :: k in Overlay(lock) <==> k in lock.packages
    ensures a in lock.packages ==>
      && |Overlay(lock)[a]| == |lock.packages[a].depends|
      && forall i | 0 <= i < |Overlay(lock)[a]| :: Some(Overlay(lock)[a][i]) == lock.packages[a].depends[i]
  {
    hide Canonicalize, HostCanonical, Strings;
  }

  lemma CanonicalKeyIsFixed(k: string)
    requires IsCanonical(k)
    ensures HostCanonical(k) == k && Canonicalize(k) == k
  {
    CanonicalizeIsIdempotent(k);
    FormsAgreeExactly(k);
  }

  /** The host finds a package exactly where the host's form of the name is a key. */
  lemma LookupByForm(lock: HostLock, name: string)
    requires WellNamed(lock)
    ensures lock.Valid()
    ensures lock.KeyFor(name) == if HostCanonical(name) in lock.packages then Some(HostCanonical(name)) else None
  {
    var c := HostCanonical(name);
    if name in lock.packages {
      CanonicalKeyIsFixed(name);
    } else {
      forall k | k in lock.packages ensures lock.Matches(k, c) <==> k == c {
        CanonicalKeyIsFixed(k);
      }
      if c in lock.packages {
        assert c in lock.order && lock.Matches(c, c);
      }
    }
  }

  /** Where the forms agree, both lookups find the same package or neither finds one. */
  lemma LookupsAgree(lock: HostLock, name: string)
    requires WellNamed(lock) && Agreed(name)
    ensures lock.Valid()
    ensures lock.KeyFor(name) == if Canonicalize(name) in lock.packages then Some(Canonicalize(name)) else None
  {
    LookupByForm(lock, name);
  }

  lemma WellNamedIsUnique(lock: HostLock)
    requires WellNamed(lock)
    ensures UniqueKeys(lock)
  {
    forall a, b | a in lock.packages && b in lock.packages && HostCanonical(a) == HostCanonical(b) ensures a == b {
      CanonicalKeyIsFixed(a);
      CanonicalKeyIsFixed(b);
    }
  }

  // ---- What is reached

  /** The packages that the overlay's walk over the names reaches. */
  ghost function OverlayReach(lock: HostLock, names: seq<string>): set<string>
    requires WellNamed(lock)
  {
    set k | k in lock.packages && Lockfile.Reachable(Overlay(lock), names, k)
  }

  /** All names in use, requested or needed by a package reached, have two forms that agree, but for these. */
  ghost predicate AgreedBut(lock: HostLock, names: seq<string>, odd: set<string>)
    requires WellNamed(lock)
  {
    && (forall n | n in names :: n in odd || Agreed(n))
    && forall k, d | k in OverlayReach(lock, names) && d in Overlay(lock)[k] :: d in odd || Agreed(d)
  }

  lemma ReachableIsReach(lock: HostLock, names: seq<string>, k: string)
    requires WellNamed(lock)
    ensures k in OverlayReach(lock, names) <==> Lockfile.Reachable(Overlay(lock), names, k)
  {
    hide WellNamed, Strings;
    OverlayDepends(lock, k);
    var all := lock.packages.Keys;
    assert Lockfile.Closed(Overlay(lock), all) && Lockfile.Roots(Overlay(lock), names, all);
    if Lockfile.Reachable(Overlay(lock), names, k) {
      assert k in all;
    }
  }

  /** The reach has the known names and is closed. */
  lemma ReachIsClosed(lock: HostLock, names: seq<string>)
    requires WellNamed(lock)
    ensures Lockfile.Closed(Overlay(lock), OverlayReach(lock, names))
    ensures Lockfile.Roots(Overlay(lock), names, OverlayReach(lock, names))
  {
    hide WellNamed, Overlay, OverlayReach, Canonicalize;
    var reach, o := OverlayReach(lock, names), Overlay(lock);
    forall a, b | a in reach && Lockfile.DependsOn(o, a, b) ensures b in reach {
      ReachableIsReach(lock, names, a);
      ReachableIsReach(lock, names, b);
    }
    forall n | n in names && Canonicalize(n) in o ensures Canonicalize(n) in reach {
      ReachableIsReach(lock, names, Canonicalize(n));
    }
  }

  lemma HostEdge(lock: HostLock, names: seq<string>, a: string, b: string)
    requires WellNamed(lock) && AgreedBut(lock, names, {}) && a in OverlayReach(lock, names) && lock.Requires(a, b)
    ensures Lockfile.DependsOn(Overlay(lock), a, b)
  {
    hide WellNamed, Overlay, OverlayReach, Agreed, Canonicalize, HostLock.KeyFor;
    OverlayDepends(lock, a);
    var depends := lock.packages[a].depends;
    var d: string :| Some(d) in depends && lock.KeyFor(d) == Some(b);
    var i :| 0 <= i < |depends| && depends[i] == Some(d);
    assert Overlay(lock)[a][i] == d;
    LookupsAgree(lock, d);
  }

  lemma ReachIsKnown(lock: HostLock, names: seq<string>, a: string)
    requires WellNamed(lock) && a in OverlayReach(lock, names)
    ensures a in lock.packages
  {
  }

  lemma OverlayEdge(lock: HostLock, names: seq<string>, a: string, b: string)
    requires WellNamed(lock) && AgreedBut(lock, names, {}) && a in OverlayReach(lock, names)
    requires Lockfile.DependsOn(Overlay(lock), a, b)
    ensures lock.Valid() && lock.Requires(a, b)
  {
    hide WellNamed, Overlay, OverlayReach, Agreed, Canonicalize, HostLock.KeyFor;
    OverlayDepends(lock, a);
    var strings := Overlay(lock)[a];
    var d :| d in strings && Canonicalize(d) == b;
    var i :| 0 <= i < |strings| && strings[i] == d;
    LookupsAgree(lock, d);
    assert lock.packages[a].depends[i] in lock.packages[a].depends;
  }

  /** Within the overlay's reach, a set closed for one walk is closed for the other. */
  lemma SameClosedWithin(lock: HostLock, names: seq<string>, s: set<string>)
    requires WellNamed(lock) && AgreedBut(lock, names, {}) && s <= OverlayReach(lock, names)
    ensures lock.Valid() && (Closed(lock, [], s) <==> Lockfile.Closed(Overlay(lock), s))
  {
    assert lock.Valid();
    hide WellNamed, Overlay, AgreedBut, OverlayReach, HostLock.Requires, Lockfile.DependsOn;
    forall a, b | a in s ensures lock.Requires(a, b) <==> Lockfile.DependsOn(Overlay(lock), a, b) {
      if lock.Requires(a, b) {
        HostEdge(lock, names, a, b);
      }
      if Lockfile.DependsOn(Overlay(lock), a, b) {
        OverlayEdge(lock, names, a, b);
      }
    }
  }

  lemma SameRoots(lock: HostLock, names: seq<string>, s: set<string>)
    requires WellNamed(lock) && forall n | n in names :: Agreed(n)
    ensures lock.Valid() && (HoldsRoots(lock, names, s) <==> Lockfile.Roots(Overlay(lock), names, s))
  {
    OverlayDepends(lock, "");
    hide WellNamed, Overlay, Agreed, HostLock.KeyFor, Canonicalize;
    forall n | n in names
      ensures lock.KeyFor(n) == if Canonicalize(n) in lock.packages then Some(Canonicalize(n)) else None
    {
      LookupsAgree(lock, n);
    }
  }

  /** A set that is closed for the host and holds its roots, cut down to the overlay's reach, is so for the overlay. */
  lemma CutForOverlay(lock: HostLock, names: seq<string>, s: set<string>)
    requires WellNamed(lock) && AgreedBut(lock, names, {}) && Closed(lock, [], s) && HoldsRoots(lock, names, s)
    ensures var cut := s * OverlayReach(lock, names);
            Lockfile.Closed(Overlay(lock), cut) && Lockfile.Roots(Overlay(lock), names, cut)
  {
    SameRoots(lock, names, s);
    ReachIsClosed(lock, names);
    hide WellNamed, Overlay, AgreedBut, OverlayReach, HostLock.Requires, Lockfile.DependsOn, HoldsRoots;
    var reach := OverlayReach(lock, names);
    forall a, b | a in s * reach && Lockfile.DependsOn(Overlay(lock), a, b) ensures b in s * reach {
      OverlayEdge(lock, names, a, b);
    }
  }

  lemma CutForHost(lock: HostLock, names: seq<string>, s: set<string>)
    requires WellNamed(lock) && AgreedBut(lock, names, {})
    requires Lockfile.Closed(Overlay(lock), s) && Lockfile.Roots(Overlay(lock), names, s)
    ensures var cut := s * OverlayReach(lock, names);
            lock.Valid() && Closed(lock, [], cut) && HoldsRoots(lock, names, cut)
  {
    var cut := s * OverlayReach(lock, names);
    ReachIsClosed(lock, names);
    assert Lockfile.Roots(Overlay(lock), names, cut);
    SameRoots(lock, names, cut);
    SameClosedWithin(lock, names, cut);
    hide WellNamed, Overlay, AgreedBut, OverlayReach, HostLock.Requires, Lockfile.DependsOn, HoldsRoots, Lockfile.Roots;
    assert Lockfile.Closed(Overlay(lock), cut);
  }

  lemma SameReach(lock: HostLock, names: seq<string>, k: string)
    requires WellNamed(lock) && AgreedBut(lock, names, {})
    ensures lock.Valid() && (ReachedFrom(lock, [], names, k) <==> Lockfile.Reachable(Overlay(lock), names, k))
  {
    assert lock.Valid();
    hide WellNamed, Overlay, AgreedBut, OverlayReach, Closed, HoldsRoots, Lockfile.Closed, Lockfile.Roots;
    if ReachedFrom(lock, [], names, k) {
      forall s: set<string> | Lockfile.Closed(Overlay(lock), s) && Lockfile.Roots(Overlay(lock), names, s) ensures k in s {
        CutForHost(lock, names, s);
      }
    }
    if Lockfile.Reachable(Overlay(lock), names, k) {
      forall s: set<string> | Closed(lock, [], s) && HoldsRoots(lock, names, s) ensures k in s {
        CutForOverlay(lock, names, s);
      }
    }
  }

  // ---- Success and contents, in the overlay's terms

  /** A package that has a version and whose dependencies the overlay knows. */
  ghost predicate Complete(lock: HostLock, k: string)
    requires WellNamed(lock)
  {
    && k in lock.packages && lock.packages[k].version.Some?
    && forall d | d in Overlay(lock)[k] :: Canonicalize(d) in lock.packages
  }

  lemma SoundIsComplete(lock: HostLock, names: seq<string>, k: string)
    requires WellNamed(lock) && AgreedBut(lock, names, {}) && k in OverlayReach(lock, names)
    ensures lock.Valid() && (lock.Sound(k) <==> Complete(lock, k))
  {
    OverlayDepends(lock, k);
    ReachIsKnown(lock, names, k);
    hide WellNamed, Overlay, OverlayReach, Agreed, Canonicalize, HostLock.KeyFor;
    var depends, strings := lock.packages[k].depends, Overlay(lock)[k];
    forall i | 0 <= i < |depends|
      ensures depends[i].Some? && (lock.KeyFor(depends[i].value).Some? <==> Canonicalize(strings[i]) in lock.packages)
    {
      assert strings[i] in strings && Some(strings[i]) == depends[i];
      LookupsAgree(lock, strings[i]);
    }
    if lock.Sound(k) {
      forall d | d in strings ensures Canonicalize(d) in lock.packages {
        var i :| 0 <= i < |strings| && strings[i] == d;
        assert depends[i] in depends;
      }
    }
    if Complete(lock, k) {
      forall d | d in depends ensures d.Some? && lock.KeyFor(d.value).Some? {
        var i :| 0 <= i < |depends| && depends[i] == d;
        assert strings[i] in strings;
      }
    }
  }

  /** By `HostPackages.SucceedsExactly`, that the host's walk over the names succeeds. */
  ghost predicate HostSucceeds(lock: HostLock, names: seq<string>)
    requires lock.Valid()
  {
    && (forall n | n in names :: lock.KeyFor(n).Some?)
    && forall k :: ReachedFrom(lock, [], names, k) ==> lock.Sound(k)
  }

  /** Every requested name is known to the overlay and everything it reaches is complete. */
  ghost predicate AllComplete(lock: HostLock, names: seq<string>)
    requires WellNamed(lock)
  {
    && (forall n | n in names :: Canonicalize(n) in lock.packages)
    && forall k | k in OverlayReach(lock, names) :: Complete(lock, k)
  }

  /** The host's walk succeeds exactly on what is complete for the overlay, and both reach the same packages. */
  ghost predicate WalksAgree(lock: HostLock, names: seq<string>)
    requires WellNamed(lock)
  {
    && (HostSucceeds(lock, names) <==> AllComplete(lock, names))
    && forall k :: ReachedFrom(lock, [], names, k) <==> Lockfile.Reachable(Overlay(lock), names, k)
  }

  lemma AgreedWalksAgree(lock: HostLock, names: seq<string>)
    requires WellNamed(lock) && AgreedBut(lock, names, {})
    ensures WalksAgree(lock, names)
  {
    assert lock.Valid();
    hide WellNamed, Overlay, OverlayReach, Agreed, Canonicalize, HostLock.KeyFor, HostLock.Sound, Complete,
         ReachedFrom, Lockfile.Reachable;
    forall n | n in names ensures lock.KeyFor(n).Some? <==> Canonicalize(n) in lock.packages {
      LookupsAgree(lock, n);
    }
    hide AgreedBut;
    forall k
      ensures ReachedFrom(lock, [], names, k) <==> Lockfile.Reachable(Overlay(lock), names, k)
      ensures ReachedFrom(lock, [], names, k) <==> k in OverlayReach(lock, names)
      ensures ReachedFrom(lock, [], names, k) ==> (lock.Sound(k) <==> Complete(lock, k))
    {
      SameReach(lock, names, k);
      ReachableIsReach(lock, names, k);
      if k in OverlayReach(lock, names) {
        SoundIsComplete(lock, names, k);
      }
    }
  }

  /**
   On a well-named acyclic lockfile on which the forms of all names in use agree, the
   requested names have the same packages in the overlay's list and in the host's.
   */
  lemma SamePackages(lock: HostLock, names: seq<string>, depth: nat, listed: seq<string>,
                     visited: set<string>, lines: seq<(string, string)>)
    requires WellNamed(lock) && AgreedBut(lock, names, {})
    requires Lockfile.VisitAll(depth, Overlay(lock), names, []).Some?
    requires Consistent(lock, listed, visited, lines) && CollectedAll(lock, names, [], listed, true)
    ensures forall k :: k in listed <==> k in Lockfile.VisitAll(depth, Overlay(lock), names, []).value
  {
    hide WellNamed, Overlay, AgreedBut, Consistent, CollectedAll, ReachedFrom, Lockfile.Reachable, Lockfile.VisitAll;
    Lockfile.ListedExactly(depth, Overlay(lock), names);
    ListsExactly(lock, names, listed, visited, lines);
    forall k ensures k in listed <==> k in Lockfile.VisitAll(depth, Overlay(lock), names, []).value {
      SameReach(lock, names, k);
    }
  }

  /** Both walks one after the other, on a lockfile on which the first ends. */
  method BothClosures(lock: HostLock, overlay: Lockfile.Lock, names: seq<string>)
    returns (ordered: seq<string>, closure: Closure, ok: bool)
    requires WellNamed(lock) && overlay == Overlay(lock) && AgreedBut(lock, names, {})
    requires Lockfile.Acyclic(overlay, names)
    ensures ok <==> (forall n | n in names :: Canonicalize(n) in lock.packages) && forall k | k in ordered :: Complete(lock, k)
    ensures ok ==> forall k :: k in ordered <==> k in closure.keys
  {
    WellNamedIsUnique(lock);
    AgreedWalksAgree(lock, names);
    assert lock.Valid();
    hide WellNamed, Overlay, AgreedBut, Complete, ReachedFrom, Lockfile.Reachable, HostLock.KeyFor, OverlayReach,
         Canonicalize, HostLock.Sound, CollectedAll, Consistent;
    ordered := Lockfile.ResolveLockfileRequirements(names, overlay);
    closure := new Closure(lock);
    ok := closure.CollectAll(names, lock);
    SucceedsExactly(lock, names, closure.keys, ok);
    forall k ensures k in ordered <==> k in OverlayReach(lock, names) {
      ReachableIsReach(lock, names, k);
    }
    if ok {
      ListsExactly(lock, names, closure.keys, closure.visited, closure.packages);
    }
  }

  // ---- A name whose forms differ

  /** A one-letter name that is neither of two others. */
  function Other(a: string, b: string): (r: string)
    ensures r != a && r != b && |r| == 1 && IsPlain(r[0])
  {
    if a != "a" && b != "a" then "a" else if a != "b" && b != "b" then "b" else "c"
  }

  lemma LetterIsCanonical(r: string)
    requires |r| == 1 && IsPlain(r[0])
    ensures IsCanonical(r)
  {
  }

  /** One package that needs `n`, and the package that the overlay takes `n` for. */
  function Pair(root: string, n: string): HostLock {
    HostLock([root, Canonicalize(n)],
             map[root := Package(None, Some("1"), [Some(n)]), Canonicalize(n) := Package(None, Some("1"), [])])
  }

  lemma PairIsWellNamed(root: string, n: string)
    requires IsCanonical(root) && root != Canonicalize(n)
    ensures WellNamed(Pair(root, n))
    ensures Overlay(Pair(root, n)).Keys == {root, Canonicalize(n)}
    ensures Overlay(Pair(root, n))[root] == [n] && Overlay(Pair(root, n))[Canonicalize(n)] == []
  {
    CanonicalizeIsIdempotent(n);
    hide IsCanonical, HostCanonical, Canonicalize;
    assert WellNamed(Pair(root, n));
    OverlayDepends(Pair(root, n), root);
    OverlayDepends(Pair(root, n), Canonicalize(n));
    assert Overlay(Pair(root, n)).Keys == {root, Canonicalize(n)};
  }

  /** A lockfile with the one dependency. */
  ghost predicate OneEdge(o: Lockfile.Lock, root: string, n: string) {
    && IsCanonical(root) && root != Canonicalize(n)
    && o.Keys == {root, Canonicalize(n)} && o[root] == [n] && o[Canonicalize(n)] == []
  }

  lemma EdgeIs(o: Lockfile.Lock, root: string, n: string, a: string, b: string)
    requires OneEdge(o, root, n) && Lockfile.DependsOn(o, a, b)
    ensures a == root && b == Canonicalize(n)
  {
    hide Canonicalize, IsCanonical;
  }

  lemma OneEdgeIsAcyclic(o: Lockfile.Lock, root: string, n: string)
    requires OneEdge(o, root, n)
    ensures Lockfile.Acyclic(o, [root])
  {
    hide Canonicalize, IsCanonical, Lockfile.DependsOn;
    forall chain | Lockfile.Chain(o, [root], chain) ensures Lru.NoDup(chain) {
      forall i, j | 0 <= i < j < |chain| ensures chain[i] != chain[j] {
        assert Lockfile.DependsOn(o, chain[i], chain[i + 1]);
        assert j - 1 >= 0 && Lockfile.DependsOn(o, chain[j - 1], chain[j - 1 + 1]);
        EdgeIs(o, root, n, chain[i], chain[i + 1]);
        EdgeIs(o, root, n, chain[j - 1], chain[j]);
      }
    }
  }

  lemma OneEdgeReach(o: Lockfile.Lock, root: string, n: string)
    requires OneEdge(o, root, n)
    ensures Lockfile.Reachable(o, [root], root) && Lockfile.Reachable(o, [root], Canonicalize(n))
  {
    CanonicalKeyIsFixed(root);
    hide Canonicalize, IsCanonical, HostCanonical;
    assert root in [root] && n in [n];
    forall s: set<string> | Lockfile.Closed(o, s) && Lockfile.Roots(o, [root], s) ensures root in s && Canonicalize(n) in s {
      assert Lockfile.DependsOn(o, root, Canonicalize(n));
    }
  }

  /** The host finds no package for a name whose forms differ. */
  lemma NotFound(root: string, n: string)
    requires IsCanonical(root) && root != Canonicalize(n) && root != HostCanonical(n) && !Agreed(n)
    ensures WellNamed(Pair(root, n)) && Pair(root, n).KeyFor(n) == None && Pair(root, n).KeyFor(root) == Some(root)
  {
    PairIsWellNamed(root, n);
    CanonicalKeyIsFixed(root);
    LookupByForm(Pair(root, n), n);
    LookupByForm(Pair(root, n), root);
  }

  lemma HostReachesRootOnly(lock: HostLock, root: string, n: string)
    requires lock.Valid() && root in lock.packages && lock.packages[root].depends == [Some(n)]
    requires lock.KeyFor(n) == None && lock.KeyFor(root) == Some(root)
    ensures ReachedFrom(lock, [], [root], root) && !lock.Sound(root)
    ensures forall k | ReachedFrom(lock, [], [root], k) :: k == root
  {
    hide HostLock.KeyFor;
    assert root in [root] && Some(n) in [Some(n)];
    assert Closed(lock, [], {root}) && HoldsRoots(lock, [root], {root});
    assert Some(n) in lock.packages[root].depends;
  }

  lemma PairReach(root: string, n: string)
    requires IsCanonical(root) && root != Canonicalize(n)
    ensures WellNamed(Pair(root, n)) && Lockfile.Acyclic(Overlay(Pair(root, n)), [root])
    ensures OverlayReach(Pair(root, n), [root]) == {root, Canonicalize(n)}
  {
    var lock := Pair(root, n);
    PairIsWellNamed(root, n);
    OneEdgeIsAcyclic(Overlay(lock), root, n);
    OneEdgeReach(Overlay(lock), root, n);
    OverlayDepends(lock, root);
    ReachableIsReach(lock, [root], root);
    ReachableIsReach(lock, [root], Canonicalize(n));
    hide *;
    forall k | k in OverlayReach(lock, [root]) ensures k == root || k == Canonicalize(n) {
      ReachIsKnown(lock, [root], k);
      assert k in Overlay(lock).Keys;
    }
  }

  lemma OneName(o: Lockfile.Lock, root: string, n: string, k: string, d: string)
    requires OneEdge(o, root, n) && k in o && d in o[k]
    ensures d == n && Canonicalize(d) in o
  {
    hide Canonicalize, IsCanonical;
    assert k == root || k == Canonicalize(n);
  }

  lemma OneEdgeAgreesBut(lock: HostLock, root: string, n: string)
    requires WellNamed(lock) && OneEdge(Overlay(lock), root, n)
    ensures AgreedBut(lock, [root], {n})
  {
    CanonicalKeyIsFixed(root);
    assert Agreed(root);
    hide WellNamed, Overlay, OverlayReach, Agreed, OneEdge;
    forall k, d | k in OverlayReach(lock, [root]) && d in Overlay(lock)[k] ensures d in {n} {
      OneName(Overlay(lock), root, n, k, d);
    }
  }

  lemma OneEdgeComplete(lock: HostLock, root: string, n: string)
    requires WellNamed(lock) && OneEdge(Overlay(lock), root, n)
    requires forall k | k in lock.packages :: lock.packages[k].version.Some?
    ensures AllComplete(lock, [root])
  {
    CanonicalKeyIsFixed(root);
    OverlayDepends(lock, root);
    assert Canonicalize(root) in lock.packages;
    hide WellNamed, Overlay, OverlayReach, OneEdge, Canonicalize, HostCanonical, IsCanonical;
    forall k | k in OverlayReach(lock, [root]) ensures Complete(lock, k) {
      ReachIsKnown(lock, [root], k);
      OverlayDepends(lock, k);
      forall d | d in Overlay(lock)[k] ensures Canonicalize(d) in lock.packages {
        OneName(Overlay(lock), root, n, k, d);
        OverlayDepends(lock, Canonicalize(d));
      }
    }
  }

  lemma PairAgreesBut(root: string, n: string)
    requires IsCanonical(root) && root != Canonicalize(n)
    ensures WellNamed(Pair(root, n)) && AgreedBut(Pair(root, n), [root], {n}) && AllComplete(Pair(root, n), [root])
  {
    PairIsWellNamed(root, n);
    PairReach(root, n);
    hide WellNamed, Overlay, OverlayReach, Canonicalize, HostCanonical, IsCanonical, AgreedBut, AllComplete;
    OneEdgeAgreesBut(Pair(root, n), root, n);
    OneEdgeComplete(Pair(root, n), root, n);
  }

  /**
   On the pair the overlay lists both packages, all of them complete, while the host's
   walk fails, having reached the first only.
   */
  lemma PairDisagrees(root: string, n: string)
    requires IsCanonical(root) && root != Canonicalize(n) && root != HostCanonical(n) && !Agreed(n)
    ensures WellNamed(Pair(root, n)) && Lockfile.Acyclic(Overlay(Pair(root, n)), [root])
    ensures AgreedBut(Pair(root, n), [root], {n})
    ensures OverlayReach(Pair(root, n), [root]) == {root, Canonicalize(n)} && AllComplete(Pair(root, n), [root])
    ensures !HostSucceeds(Pair(root, n), [root])
    ensures forall k | ReachedFrom(Pair(root, n), [], [root], k) :: k == root
  {
    PairReach(root, n);
    PairAgreesBut(root, n);
    NotFound(root, n);
    HostReachesRootOnly(Pair(root, n), root, n);
    HostFails(Pair(root, n), [root], root);
    hide *;
  }

  lemma HostFails(lock: HostLock, names: seq<string>, k: string)
    requires lock.Valid() && ReachedFrom(lock, [], names, k) && !lock.Sound(k)
    ensures !HostSucceeds(lock, names)
  {
  }

  /**
   A spelling decides: the two walks agree on all well-named acyclic lockfiles whose
   other names in use have agreeing forms exactly if its own two forms agree.
   */
  lemma WalksAgreeExactly(n: string)
    ensures (forall lock: HostLock, names: seq<string> ::
               WellNamed(lock) && AgreedBut(lock, names, {n}) && Lockfile.Acyclic(Overlay(lock), names) ==>
               WalksAgree(lock, names))
            <==> Agreed(n)
  {
    hide WalksAgree, WellNamed, Overlay, Lockfile.Acyclic, Canonicalize, HostCanonical, IsCanonical;
    if Agreed(n) {
      forall lock: HostLock, names: seq<string> | WellNamed(lock) && AgreedBut(lock, names, {n})
        ensures WalksAgree(lock, names)
      {
        OddIsAgreed(lock, names, n);
        AgreedWalksAgree(lock, names);
      }
    } else {
      var root := Other(Canonicalize(n), HostCanonical(n));
      LetterIsCanonical(root);
      PairDisagrees(root, n);
      DisagreeingPair(Pair(root, n), [root]);
    }
  }

  lemma OddIsAgreed(lock: HostLock, names: seq<string>, n: string)
    requires WellNamed(lock) && AgreedBut(lock, names, {n}) && Agreed(n)
    ensures AgreedBut(lock, names, {})
  {
    hide WellNamed, Overlay, OverlayReach, Agreed;
  }

  lemma DisagreeingPair(lock: HostLock, names: seq<string>)
    requires WellNamed(lock) && AllComplete(lock, names) && !HostSucceeds(lock, names)
    ensures !WalksAgree(lock, names)
  {
  }

  // ---- Lists that differ though both walks succeed

  const DEPENDS: map<string, seq<string>> := map["a" := ["b_"], "b" := [], "b-" := []]

  const DIFFERING := HostLock(["a", "b", "b-"],
                              map["a" := Package(None, Some("1"), [Some("b_")]),
                                  "b" := Package(None, Some("1"), []),
                                  "b-" := Package(None, Some("1"), [])])

  lemma FormsOfNames()
    ensures Canonicalize("b_") == "b" && Canonicalize("a") == "a"
    ensures HostCanonical("b_") == "b-" && HostCanonical("b-") == "b-" && HostCanonical("b") == "b" && HostCanonical("a") == "a"
  {
    assert "b_"[..1] == "b" && "b"[..0] == "" && "a"[..0] == "" && "b-"[..1] == "b";
    assert Scan("b") == "b" && Scan("b_") == "b-" && Scan("a") == "a";
    assert HostCanonical("b") == "b" && HostCanonical("a") == "a";
  }

  lemma OverlayOrder()
    ensures Lockfile.VisitAll(2, DEPENDS, ["a"], []) == Some(["b", "a"])
  {
    hide Canonicalize;
    FormsOfNames();
    assert ["b_"][..0] == [] && ["a"][..0] == [];
    assert Lockfile.VisitAll(0, DEPENDS, DEPENDS["b"], []) == Some([]);
    var none: seq<string> := [];
    assert none + ["b"] == ["b"];
    assert Lockfile.Visit(1, DEPENDS, "b_", []) == Some(["b"]);
    assert Lockfile.VisitAll(1, DEPENDS, ["b_"], []) == Some(["b"]);
    assert Lockfile.Visit(2, DEPENDS, "a", []) == Some(["b"] + ["a"]);
    assert ["b"] + ["a"] == ["b", "a"];
  }

  lemma DifferingMatches()
    ensures DIFFERING.FirstMatch(["a", "b", "b-"], "b-") == Some("b-")
  {
    hide HostCanonical, HostLock.FirstMatch;
    FormsOfNames();
    assert "b"[0] == 'b' && "a"[0] == 'a';
    ThirdMatches(DIFFERING, "a", "b", "b-", "b-");
  }

  lemma ThirdMatches(lock: HostLock, a: string, b: string, c: string, canonical: string)
    requires a in lock.packages && b in lock.packages && c in lock.packages
    requires !lock.Matches(a, canonical) && !lock.Matches(b, canonical) && lock.Matches(c, canonical)
    ensures lock.FirstMatch([a, b, c], canonical) == Some(c)
  {
    hide HostLock.Matches;
    assert [a, b, c][1..] == [b, c] && [b, c][1..] == [c];
    assert lock.FirstMatch([c], canonical) == Some(c);
    assert lock.FirstMatch([b, c], canonical) == Some(c);
  }

  lemma NotAKey()
    ensures "b_" !in DIFFERING.packages
  {
    assert "b_"[1] == '_' && "b-"[1] == '-';
  }

  lemma DifferingUnique()
    ensures DIFFERING.Valid() && UniqueKeys(DIFFERING)
  {
    hide HostCanonical;
    FormsOfNames();
  }

  lemma DifferingKeys()
    ensures DIFFERING.Valid() && UniqueKeys(DIFFERING)
    ensures DIFFERING.KeyFor("a") == Some("a") && DIFFERING.KeyFor("b_") == Some("b-")
  {
    hide HostCanonical, HostLock.FirstMatch, UniqueKeys, HostLock.Valid;
    FormsOfNames();
    DifferingUnique();
    DifferingMatches();
    NotAKey();
  }

  /** The preorder walk from a package with one dependency that has none. */
  lemma PreorderOfTwo(lock: HostLock, name: string, d: string, a: string, b: string)
    requires lock.Valid() && lock.KeyFor(name) == Some(a) && lock.KeyFor(d) == Some(b)
    requires lock.packages[a].version.Some? && lock.packages[b].version.Some? && HostCanonical(a) != HostCanonical(b)
    requires lock.packages[a].depends == [Some(d)] && lock.packages[b].depends == []
    ensures Preorder(2, lock, name, []) == Some([a, b])
  {
    hide HostCanonical, HostLock.KeyFor;
    assert [] + [a] == [a] && [a] + [b] == [a, b];
    assert !Represented([], a) && !Represented([a], b);
    assert PreorderAll(0, lock, [], [a, b]) == Some([a, b]);
    assert Preorder(1, lock, d, [a]) == Some([a, b]);
    assert [Some(d)][1..] == [];
    assert PreorderAll(1, lock, [], [a, b]) == Some([a, b]);
    assert PreorderAll(1, lock, [Some(d)], [a]) == Some([a, b]);
  }

  lemma HostOrder()
    ensures DIFFERING.Valid() && Preorder(2, DIFFERING, "a", []) == Some(["a", "b-"])
  {
    FormsOfNames();
    DifferingKeys();
    assert "a"[0] != "b-"[0];
    hide HostCanonical, HostLock.KeyFor, Preorder, HostLock.Valid;
    PreorderOfTwo(DIFFERING, "a", "b_", "a", "b-");
  }

  /**
   A dependency that ends in a separator leads the two walks to different packages: each
   list has one that the other lacks.
   */
  lemma ListsDiffer()
    ensures forall k | k in DEPENDS :: k in DIFFERING.packages && Strings(DIFFERING.packages[k].depends) == DEPENDS[k]
    ensures DIFFERING.Valid() && UniqueKeys(DIFFERING)
    ensures Lockfile.VisitAll(2, DEPENDS, ["a"], []) == Some(["b", "a"])
    ensures Preorder(2, DIFFERING, "a", []) == Some(["a", "b-"])
  {
    hide Lockfile.VisitAll, Preorder, HostCanonical;
    OverlayOrder();
    DifferingKeys();
    HostOrder();
    assert Strings([Some("b_")]) == ["b_"];
  }
}
