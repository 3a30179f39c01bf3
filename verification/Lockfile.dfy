/**
 Resolving requested packages against a lockfile: a depth-first walk that lists a
 package after its dependencies and marks it only then.
 */
module Lockfile {
  import opened Wrappers
  import Lru
  import opened PackageNames

  type Name = string

  /** The dependencies of each package of the lockfile, by key. */
  type Lock = map<Name, seq<string>>

  ghost predicate DependsOn(lock: Lock, a: Name, b: Name) {
    a in lock && b in lock && exists d :: d in lock[a] && Canonicalize(d) == b
  }

  // ---- The walk

  /** One visit, with at most `depth` nested ones; `None` if that is not enough. */
  function Visit(depth: nat, lock: Lock, name: string, ordered: seq<Name>): Option<seq<Name>>
    decreases depth, 0, 1
  {
    var c := Canonicalize(name);
    if c in ordered || c !in lock then Some(ordered)
    else if depth == 0 then None
    else match VisitAll(depth - 1, lock, lock[c], ordered)
      case None => None
      case Some(after) => if c in after then Some(after) else Some(after + [c])
  }

  function VisitAll(depth: nat, lock: Lock, names: seq<string>, ordered: seq<Name>): Option<seq<Name>>
    decreases depth, 1, |names|
  {
    if names == [] then Some(ordered)
    else match VisitAll(depth, lock, names[..|names| - 1], ordered)
      case None => None
      case Some(after) => Visit(depth, lock, names[|names| - 1], after)
  }

  /** The walk ends: some bound on the nesting is enough. */
  ghost predicate Terminates(lock: Lock, requested: seq<string>) {
    exists depth: nat :: VisitAll(depth, lock, requested, []).Some?
  }

  /** The mutable arguments of the walk. */
  class Walk {
    var seen: set<Name>
    var ordered: seq<Name>

    constructor ()
      ensures seen == {} && ordered == []
    {
      seen, ordered := {}, [];
    }

    ghost predicate Consistent()
      reads this
    {
      seen == set c | c in ordered
    }

    method VisitPackage(name: string, lock: Lock, ghost depth: nat)
      requires Consistent() && Visit(depth, lock, name, ordered).Some?
      modifies this
      ensures Consistent() && ordered == Visit(depth, lock, name, old(ordered)).value
      decreases depth
    {
      var canonical := CanonicalizePackageName(name);
      if canonical in seen {
        return;
      }
      if canonical !in lock {
        return;
      }
      var depends := lock[canonical];
      ghost var before := ordered;
      var i := 0;
      while i < |depends|
        invariant 0 <= i <= |depends| && Consistent()
        invariant VisitAll(depth - 1, lock, depends[..i], before) == Some(ordered)
      {
        PrefixVisited(depth - 1, lock, depends, before, i);
        VisitPackage(depends[i], lock, depth - 1);
        i := i + 1;
      }
      assert depends[..i] == depends;
      if canonical !in seen {
        seen := seen + {canonical};
        ordered := ordered + [canonical];
      }
    }
  }

  lemma {:induction false} PrefixVisited(depth: nat, lock: Lock, names: seq<string>, ordered: seq<Name>, i: nat)
    requires VisitAll(depth, lock, names, ordered).Some? && i < |names|
    ensures VisitAll(depth, lock, names[..i], ordered).Some?
    ensures VisitAll(depth, lock, names[..i + 1], ordered).Some?
    ensures VisitAll(depth, lock, names[..i + 1], ordered) ==
            Visit(depth, lock, names[i], VisitAll(depth, lock, names[..i], ordered).value)
    decreases |names|
  {
    var n := |names| - 1;
    assert names[..i + 1][..i] == names[..i];
    if i < n {
      PrefixVisited(depth, lock, names[..n], ordered, i);
      assert names[..n][..i] == names[..i] && names[..n][..i + 1] == names[..i + 1];
    } else {
      assert names[..i + 1] == names;
    }
  }

  // ---- What the list is

  /** No duplicates, known packages only, each after all its known dependencies. */
  ghost predicate InOrder(lock: Lock, ordered: seq<Name>) {
    && (forall i, j | 0 <= i < j < |ordered| :: ordered[i] != ordered[j])
    && (forall i | 0 <= i < |ordered| :: ordered[i] in lock)
    && (forall i, b | 0 <= i < |ordered| && DependsOn(lock, ordered[i], b) :: b in ordered[..i])
  }

  /** A set that has with each known package its known dependencies. */
  ghost predicate Closed(lock: Lock, s: set<Name>) {
    forall a, b | a in s && DependsOn(lock, a, b) :: b in s
  }

  ghost predicate Roots(lock: Lock, names: seq<string>, s: set<Name>) {
    forall n | n in names && Canonicalize(n) in lock :: Canonicalize(n) in s
  }

  /** Reachable from the requested names through known packages. */
  ghost predicate Reachable(lock: Lock, requested: seq<string>, c: Name) {
    forall s: set<Name> | Closed(lock, s) && Roots(lock, requested, s) :: c in s
  }

  /** What a walk over `names` adds: an ordered extension that holds them, and nothing else. */
  ghost predicate Added(lock: Lock, names: seq<string>, ordered: seq<Name>, after: seq<Name>) {
    && InOrder(lock, after) && ordered <= after
    && (forall n | n in names && Canonicalize(n) in lock :: Canonicalize(n) in after)
    && (forall s: set<Name>, c | Closed(lock, s) && Roots(lock, names, s) && c in after && c !in ordered :: c in s)
  }

  lemma AddedAppend(lock: Lock, c: Name, ordered: seq<Name>, after: seq<Name>)
    requires InOrder(lock, ordered) && c in lock && c !in ordered
    requires Added(lock, lock[c], ordered, after) && c !in after
    ensures InOrder(lock, after + [c])
  {
    var longer := after + [c];
    forall i, b | 0 <= i < |longer| && DependsOn(lock, longer[i], b) ensures b in longer[..i] {
      if i < |after| {
        assert longer[..i] == after[..i];
      } else {
        assert longer[..i] == after;
        var d :| d in lock[c] && Canonicalize(d) == b;
      }
    }
  }

  lemma RootsOfDependencies(lock: Lock, name: string, s: set<Name>)
    requires Canonicalize(name) in lock && Closed(lock, s) && Roots(lock, [name], s)
    ensures Canonicalize(name) in s && Roots(lock, lock[Canonicalize(name)], s)
  {
    var c := Canonicalize(name);
    assert name in [name];
    forall n | n in lock[c] && Canonicalize(n) in lock ensures Canonicalize(n) in s {
      assert DependsOn(lock, c, Canonicalize(n));
    }
  }

  lemma {:induction false} VisitAdds(depth: nat, lock: Lock, name: string, ordered: seq<Name>)
    requires InOrder(lock, ordered) && Visit(depth, lock, name, ordered).Some?
    ensures Added(lock, [name], ordered, Visit(depth, lock, name, ordered).value)
    decreases depth, 0, 1
  {
    var c := Canonicalize(name);
    if c !in ordered && c in lock {
      VisitAllAdds(depth - 1, lock, lock[c], ordered);
      var after := VisitAll(depth - 1, lock, lock[c], ordered).value;
      var result := Visit(depth, lock, name, ordered).value;
      if c !in after {
        AddedAppend(lock, c, ordered, after);
      }
      forall s: set<Name>, x | Closed(lock, s) && Roots(lock, [name], s) && x in result && x !in ordered ensures x in s {
        RootsOfDependencies(lock, name, s);
      }
    }
  }

  lemma {:induction false} VisitAllAdds(depth: nat, lock: Lock, names: seq<string>, ordered: seq<Name>)
    requires InOrder(lock, ordered) && VisitAll(depth, lock, names, ordered).Some?
    ensures Added(lock, names, ordered, VisitAll(depth, lock, names, ordered).value)
    decreases depth, 1, |names|
  {
    if names == [] {
    } else {
      var init, last := names[..|names| - 1], names[|names| - 1];
      VisitAllAdds(depth, lock, init, ordered);
      var between := VisitAll(depth, lock, init, ordered).value;
      VisitAdds(depth, lock, last, between);
      AddedTwice(lock, init, last, ordered, between, VisitAll(depth, lock, names, ordered).value);
      assert names == init + [last];
    }
  }

  lemma AddedTwice(lock: Lock, init: seq<string>, last: string, ordered: seq<Name>, between: seq<Name>, after: seq<Name>)
    requires Added(lock, init, ordered, between) && Added(lock, [last], between, after)
    ensures Added(lock, init + [last], ordered, after)
  {
    forall n | n in init + [last] && Canonicalize(n) in lock ensures Canonicalize(n) in after {
      if n in init {
        assert Canonicalize(n) in between;
      }
    }
    forall s: set<Name>, c | Closed(lock, s) && Roots(lock, init + [last], s) && c in after && c !in ordered ensures c in s {
      assert Roots(lock, init, s);
      assert Roots(lock, [last], s);
    }
  }

  /**
   Whatever the walk lists is duplicate-free, has each package after its known
   dependencies, and is exactly what can be reached through known packages.
   */
  lemma ListedExactly(depth: nat, lock: Lock, requested: seq<string>)
    requires VisitAll(depth, lock, requested, []).Some?
    ensures var ordered := VisitAll(depth, lock, requested, []).value;
            InOrder(lock, ordered) && forall c :: c in ordered <==> Reachable(lock, requested, c)
  {
    VisitAllAdds(depth, lock, requested, []);
    var ordered := VisitAll(depth, lock, requested, []).value;
    var listed := set c | c in ordered;
    forall a, b | a in listed && DependsOn(lock, a, b) ensures b in listed {
      var i :| 0 <= i < |ordered| && ordered[i] == a;
      assert b in ordered[..i];
    }
    forall c ensures c in ordered <==> Reachable(lock, requested, c) {
      if Reachable(lock, requested, c) {
        assert Closed(lock, listed) && Roots(lock, requested, listed);
      }
    }
  }

  // ---- When the walk ends

  /** A chain of known dependencies that starts at a requested package. */
  ghost predicate Chain(lock: Lock, requested: seq<string>, chain: seq<Name>) {
    && (chain != [] ==> chain[0] in lock && exists n :: n in requested && Canonicalize(n) == chain[0])
    && forall i | 0 <= i < |chain| - 1 :: DependsOn(lock, chain[i], chain[i + 1])
  }

  /** No chain from the request visits a package twice. */
  ghost predicate Acyclic(lock: Lock, requested: seq<string>) {
    forall chain :: Chain(lock, requested, chain) ==> Lru.NoDup(chain)
  }

  lemma DistinctFits(lock: Lock, chain: seq<Name>)
    requires Lru.NoDup(chain) && forall c | c in chain :: c in lock
    ensures |chain| <= |lock|
  {
    Lru.NoDupCardinality(chain);
    Lru.SubsetSize(Lru.Elements(chain), lock.Keys);
    assert |lock| == |lock.Keys|;
  }

  lemma ChainKnown(lock: Lock, requested: seq<string>, chain: seq<Name>)
    requires Chain(lock, requested, chain)
    ensures forall c | c in chain :: c in lock
  {
    forall i | 0 <= i < |chain| ensures chain[i] in lock {
      if i > 0 {
        assert DependsOn(lock, chain[i - 1], chain[i]);
      }
    }
  }

  /** `name` comes next after the packages whose visits are under way. */
  ghost predicate Next(lock: Lock, requested: seq<string>, stack: seq<Name>, name: string) {
    && Chain(lock, requested, stack)
    && if stack == [] then name in requested
       else stack[|stack| - 1] in lock && name in lock[stack[|stack| - 1]]
  }

  lemma NextExtends(lock: Lock, requested: seq<string>, stack: seq<Name>, name: string)
    requires Next(lock, requested, stack, name) && Canonicalize(name) in lock
    ensures Chain(lock, requested, stack + [Canonicalize(name)])
  {
    var longer := stack + [Canonicalize(name)];
    forall i | 0 <= i < |longer| - 1 ensures DependsOn(lock, longer[i], longer[i + 1]) {
      if i < |stack| - 1 {
        assert longer[i] == stack[i] && longer[i + 1] == stack[i + 1];
      } else {
        assert name in lock[longer[i]];
      }
    }
  }

  lemma {:induction false} VisitFinishes(depth: nat, lock: Lock, requested: seq<string>, name: string,
                                         ordered: seq<Name>, stack: seq<Name>)
    requires Acyclic(lock, requested) && Next(lock, requested, stack, name)
    requires depth + |stack| >= |lock|
    ensures Visit(depth, lock, name, ordered).Some?
    decreases depth, 0, 1
  {
    var c := Canonicalize(name);
    if c !in ordered && c in lock {
      NextExtends(lock, requested, stack, name);
      ChainKnown(lock, requested, stack + [c]);
      DistinctFits(lock, stack + [c]);
      VisitAllFinishes(depth - 1, lock, requested, lock[c], ordered, stack + [c]);
    }
  }

  lemma {:induction false} VisitAllFinishes(depth: nat, lock: Lock, requested: seq<string>, names: seq<string>,
                                            ordered: seq<Name>, stack: seq<Name>)
    requires Acyclic(lock, requested) && forall n | n in names :: Next(lock, requested, stack, n)
    requires depth + |stack| >= |lock|
    ensures VisitAll(depth, lock, names, ordered).Some?
    decreases depth, 1, |names|
  {
    if names == [] {
    } else {
      VisitAllFinishes(depth, lock, requested, names[..|names| - 1], ordered, stack);
      VisitFinishes(depth, lock, requested, names[|names| - 1],
                    VisitAll(depth, lock, names[..|names| - 1], ordered).value, stack);
    }
  }

  /** Along a chain the list is walked backwards. */
  lemma {:induction false} ChainDescends(lock: Lock, requested: seq<string>, ordered: seq<Name>, chain: seq<Name>,
                                         i: nat, j: nat, at: nat)
    returns (later: nat)
    requires InOrder(lock, ordered) && Chain(lock, requested, chain)
    requires i <= j < |chain| && at < |ordered| && ordered[at] == chain[i]
    ensures later < |ordered| && ordered[later] == chain[j] && (if i == j then later == at else later < at)
    decreases j - i
  {
    if i == j {
      later := at;
    } else {
      assert DependsOn(lock, chain[i], chain[i + 1]);
      var next :| 0 <= next < at && ordered[..at][next] == chain[i + 1];
      later := ChainDescends(lock, requested, ordered, chain, i + 1, j, next);
    }
  }

  lemma {:induction false} ChainListed(lock: Lock, requested: seq<string>, ordered: seq<Name>, chain: seq<Name>, i: nat)
    returns (at: nat)
    requires InOrder(lock, ordered) && Chain(lock, requested, chain) && i < |chain|
    requires forall n | n in requested && Canonicalize(n) in lock :: Canonicalize(n) in ordered
    ensures at < |ordered| && ordered[at] == chain[i]
  {
    var start :| 0 <= start < |ordered| && ordered[start] == chain[0];
    at := ChainDescends(lock, requested, ordered, chain, 0, i, start);
  }

  lemma EndingIsAcyclic(depth: nat, lock: Lock, requested: seq<string>)
    requires VisitAll(depth, lock, requested, []).Some?
    ensures Acyclic(lock, requested)
  {
    VisitAllAdds(depth, lock, requested, []);
    var ordered := VisitAll(depth, lock, requested, []).value;
    forall chain | Chain(lock, requested, chain) ensures Lru.NoDup(chain) {
      forall i, j | 0 <= i < j < |chain| ensures chain[i] != chain[j] {
        var at := ChainListed(lock, requested, ordered, chain, i);
        var later := ChainDescends(lock, requested, ordered, chain, i, j, at);
      }
    }
  }

  /**
   The walk marks a package only after its dependencies, so it ends exactly if no
   chain of known dependencies from the request comes back to itself.
   */
  lemma TerminatesExactlyIfAcyclic(lock: Lock, requested: seq<string>)
    ensures Terminates(lock, requested) <==> Acyclic(lock, requested)
  {
    if Acyclic(lock, requested) {
      VisitAllFinishes(|lock|, lock, requested, requested, [], []);
    } else {
      forall depth: nat ensures VisitAll(depth, lock, requested, []).None? {
        if VisitAll(depth, lock, requested, []).Some? {
          EndingIsAcyclic(depth, lock, requested);
        }
      }
    }
  }

  /** The list of a walk that ends. */
  ghost function Listing(lock: Lock, requested: seq<string>): seq<Name>
    requires Acyclic(lock, requested)
  {
    VisitAllFinishes(|lock|, lock, requested, requested, [], []);
    VisitAll(|lock|, lock, requested, []).value
  }

  /** `resolve_lockfile_requirements`, on the lockfiles on which it ends. */
  method ResolveLockfileRequirements(requested: seq<string>, lock: Lock) returns (ordered: seq<Name>)
    requires Acyclic(lock, requested)
    ensures ordered == Listing(lock, requested) && InOrder(lock, ordered)
    ensures forall c :: c in ordered <==> Reachable(lock, requested, c)
  {
    VisitAllFinishes(|lock|, lock, requested, requested, [], []);
    ghost var depth := |lock|;
    var walk := new Walk();
    var i := 0;
    while i < |requested|
      invariant 0 <= i <= |requested| && walk.Consistent()
      invariant VisitAll(depth, lock, requested[..i], []) == Some(walk.ordered)
    {
      PrefixVisited(depth, lock, requested, [], i);
      walk.VisitPackage(requested[i], lock, depth);
      i := i + 1;
    }
    assert requested[..i] == requested;
    ListedExactly(depth, lock, requested);
    return walk.ordered;
  }
}
