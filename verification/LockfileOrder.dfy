/** The order of the overlay's list: what it is for several names, from what it is for each. */
module LockfileOrder {
  import opened Wrappers
  import Lru
  import opened PackageNames
  import opened Lockfile

  /** The members of `s` that are not in `t`, in their order. */
  function Without(s: seq<Name>, t: seq<Name>): seq<Name> {
    if s == [] then []
    else Without(s[..|s| - 1], t) + if s[|s| - 1] in t then [] else [s[|s| - 1]]
  }

  lemma {:induction false} WithoutMembers(s: seq<Name>, t: seq<Name>)
    ensures forall c :: c in Without(s, t) <==> c in s && c !in t
  {
    if s == [] {
    } else {
      WithoutMembers(s[..|s| - 1], t);
      assert s == s[..|s| - 1] + [s[|s| - 1]];
    }
  }

  lemma {:induction false} WithoutAppend(a: seq<Name>, b: seq<Name>, t: seq<Name>)
    ensures Without(a + b, t) == Without(a, t) + Without(b, t)
  {
    if b == [] {
      assert a + b == a;
    } else {
      var n := |b| - 1;
      assert (a + b)[..|a| + n] == a + b[..n];
      WithoutAppend(a, b[..n], t);
    }
  }

  lemma {:induction false} WithoutTwice(s: seq<Name>, a: seq<Name>, b: seq<Name>, both: seq<Name>)
    requires forall c :: c in both <==> c in a || c in b
    ensures Without(Without(s, a), b) == Without(s, both)
  {
    if s == [] {
    } else {
      var init, c := s[..|s| - 1], s[|s| - 1];
      WithoutTwice(init, a, b, both);
      if c in a {
        assert Without(init, a) + [] == Without(init, a);
      } else {
        assert Without(s, a) == Without(init, a) + [c];
        WithoutAppend(Without(init, a), [c], b);
        WithoutOne(c, b);
      }
    }
  }

  lemma WithoutOne(c: Name, t: seq<Name>)
    ensures Without([c], t) == if c in t then [] else [c]
  {
    assert [c][..0] == [];
  }

  lemma {:induction false} NothingWithout(s: seq<Name>, t: seq<Name>)
    requires forall c | c in s :: c in t
    ensures Without(s, t) == []
  {
    if s == [] {
    } else {
      NothingWithout(s[..|s| - 1], t);
    }
  }

  /** What is listed has its dependencies listed. */
  lemma ListedIsClosed(lock: Lock, ordered: seq<Name>)
    requires InOrder(lock, ordered)
    ensures Closed(lock, set c | c in ordered)
  {
    forall a, b | a in ordered && DependsOn(lock, a, b) ensures b in ordered {
      var i :| 0 <= i < |ordered| && ordered[i] == a;
      assert b in ordered[..i];
    }
  }

  lemma AlreadyListed(depth: nat, lock: Lock, name: string, ordered: seq<Name>)
    requires InOrder(lock, ordered) && Canonicalize(name) in ordered && Visit(depth, lock, name, []).Some?
    ensures forall c | c in Visit(depth, lock, name, []).value :: c in ordered
  {
    VisitAdds(depth, lock, name, []);
    ListedIsClosed(lock, ordered);
    var listed := set c | c in ordered;
    assert Roots(lock, [name], listed);
  }

  lemma VisitKnown(depth: nat, lock: Lock, name: string, ordered: seq<Name>)
    requires depth > 0 && Canonicalize(name) in lock && Canonicalize(name) !in ordered
    requires VisitAll(depth - 1, lock, lock[Canonicalize(name)], ordered).Some?
    ensures var c := Canonicalize(name);
            var after := VisitAll(depth - 1, lock, lock[c], ordered).value;
            Visit(depth, lock, name, ordered) == Some(if c in after then after else after + [c])
  {
  }

  lemma LastOwn(alone: seq<Name>, ordered: seq<Name>, c: Name)
    requires c !in ordered
    ensures var after := ordered + Without(alone, ordered);
            (if c in after then after else after + [c]) ==
            ordered + Without(if c in alone then alone else alone + [c], ordered)
  {
    WithoutMembers(alone, ordered);
    WithoutAppend(alone, [c], ordered);
    WithoutOne(c, ordered);
    hide Without;
  }

  // ---- A walk adds what it would list alone, less what is listed

  lemma {:induction false} VisitAddsOwn(depth: nat, lock: Lock, requested: seq<string>, name: string,
                                        ordered: seq<Name>, stack: seq<Name>)
    requires Acyclic(lock, requested) && Next(lock, requested, stack, name) && depth + |stack| >= |lock|
    requires InOrder(lock, ordered)
    ensures Visit(depth, lock, name, ordered).Some? && Visit(depth, lock, name, []).Some?
    ensures Visit(depth, lock, name, ordered).value == ordered + Without(Visit(depth, lock, name, []).value, ordered)
    decreases depth, 0, 1
  {
    hide *;
    var c := Canonicalize(name);
    VisitFinishes(depth, lock, requested, name, ordered, stack);
    VisitFinishes(depth, lock, requested, name, [], stack);
    if c in ordered {
      AlreadyListed(depth, lock, name, ordered);
      NothingWithout(Visit(depth, lock, name, []).value, ordered);
      VisitSkips(depth, lock, name, ordered);
    } else if c in lock {
      NextDependencies(depth, lock, requested, name, stack);
      VisitAllAddsOwn(depth - 1, lock, requested, lock[c], ordered, stack + [c]);
      VisitKnown(depth, lock, name, ordered);
      VisitKnown(depth, lock, name, []);
      LastOwn(VisitAll(depth - 1, lock, lock[c], []).value, ordered, c);
    } else {
      VisitSkips(depth, lock, name, ordered);
      VisitSkips(depth, lock, name, []);
      NothingWithout([], ordered);
    }
  }

  lemma VisitSkips(depth: nat, lock: Lock, name: string, ordered: seq<Name>)
    requires Canonicalize(name) in ordered || Canonicalize(name) !in lock
    ensures Visit(depth, lock, name, ordered) == Some(ordered)
    ensures ordered + [] == ordered
  {
  }

  lemma NextDependencies(depth: nat, lock: Lock, requested: seq<string>, name: string, stack: seq<Name>)
    requires Acyclic(lock, requested) && Next(lock, requested, stack, name) && depth + |stack| >= |lock|
    requires Canonicalize(name) in lock
    ensures var deeper := stack + [Canonicalize(name)];
            && depth - 1 + |deeper| >= |lock| && depth > 0
            && forall n | n in lock[Canonicalize(name)] :: Next(lock, requested, deeper, n)
  {
    var deeper := stack + [Canonicalize(name)];
    NextExtends(lock, requested, stack, name);
    ChainKnown(lock, requested, deeper);
    DistinctFits(lock, deeper);
  }

  lemma {:induction false} VisitAllAddsOwn(depth: nat, lock: Lock, requested: seq<string>, names: seq<string>,
                                           ordered: seq<Name>, stack: seq<Name>)
    requires Acyclic(lock, requested) && (forall n | n in names :: Next(lock, requested, stack, n))
    requires depth + |stack| >= |lock| && InOrder(lock, ordered)
    ensures VisitAll(depth, lock, names, ordered).Some? && VisitAll(depth, lock, names, []).Some?
    ensures VisitAll(depth, lock, names, ordered).value ==
            ordered + Without(VisitAll(depth, lock, names, []).value, ordered)
    decreases depth, 1, |names|
  {
    if names == [] {
    } else {
      var init, last := names[..|names| - 1], names[|names| - 1];
      VisitAllAddsOwn(depth, lock, requested, init, ordered, stack);
      var alone, now := VisitAll(depth, lock, init, []).value, VisitAll(depth, lock, init, ordered).value;
      VisitAllAdds(depth, lock, init, []);
      VisitAllAdds(depth, lock, init, ordered);
      VisitAddsOwn(depth, lock, requested, last, alone, stack);
      VisitAddsOwn(depth, lock, requested, last, now, stack);
      OwnTwice(Visit(depth, lock, last, []).value, ordered, alone);
    }
  }

  lemma OwnTwice(own: seq<Name>, ordered: seq<Name>, alone: seq<Name>)
    ensures var now := ordered + Without(alone, ordered);
            now + Without(own, now) == ordered + Without(alone + Without(own, alone), ordered)
  {
    var now := ordered + Without(alone, ordered);
    WithoutMembers(alone, ordered);
    WithoutTwice(own, alone, ordered, now);
    WithoutAppend(alone, Without(own, alone), ordered);
  }

  // ---- The order of the list

  lemma FewerNames(lock: Lock, requested: seq<string>, fewer: seq<string>)
    requires Acyclic(lock, requested) && forall n | n in fewer :: n in requested
    ensures Acyclic(lock, fewer)
  {
    forall chain | Chain(lock, fewer, chain) ensures Chain(lock, requested, chain) {
    }
  }

  lemma ListingNext(lock: Lock, requested: seq<string>, name: string)
    requires Acyclic(lock, requested + [name]) && Acyclic(lock, requested)
    ensures InOrder(lock, Listing(lock, requested))
    ensures Some(Listing(lock, requested + [name])) == Visit(|lock|, lock, name, Listing(lock, requested))
  {
    var all := requested + [name];
    VisitAllFinishes(|lock|, lock, all, all, [], []);
    VisitAllFinishes(|lock|, lock, requested, requested, [], []);
    VisitAllAdds(|lock|, lock, requested, []);
    assert all[..|all| - 1] == requested;
    hide Visit, Acyclic, InOrder;
  }

  /** The list for one name more is the list so far and then what that name alone would list, less what is there. */
  lemma ListsInTurn(lock: Lock, requested: seq<string>, name: string)
    requires Acyclic(lock, requested + [name])
    ensures Acyclic(lock, requested) && Acyclic(lock, [name])
    ensures Listing(lock, requested + [name]) ==
            Listing(lock, requested) + Without(Listing(lock, [name]), Listing(lock, requested))
  {
    var all := requested + [name];
    FewerNames(lock, all, requested);
    FewerNames(lock, all, [name]);
    FewerNames(lock, all, []);
    assert [] + [name] == [name] && name in all;
    ListingNext(lock, requested, name);
    ListingNext(lock, [], name);
    assert Listing(lock, []) == [];
    VisitAddsOwn(|lock|, lock, all, name, Listing(lock, requested), []);
    hide *;
  }

  lemma {:induction false} DeeperVisit(depth: nat, lock: Lock, name: string, ordered: seq<Name>)
    requires Visit(depth, lock, name, ordered).Some?
    ensures Visit(depth + 1, lock, name, ordered) == Visit(depth, lock, name, ordered)
    decreases depth, 0, 1
  {
    var c := Canonicalize(name);
    if c !in ordered && c in lock {
      DeeperVisitAll(depth - 1, lock, lock[c], ordered);
    }
  }

  lemma {:induction false} DeeperVisitAll(depth: nat, lock: Lock, names: seq<string>, ordered: seq<Name>)
    requires VisitAll(depth, lock, names, ordered).Some?
    ensures VisitAll(depth + 1, lock, names, ordered) == VisitAll(depth, lock, names, ordered)
    decreases depth, 1, |names|
  {
    if names == [] {
    } else {
      var init := names[..|names| - 1];
      DeeperVisitAll(depth, lock, init, ordered);
      DeeperVisit(depth, lock, names[|names| - 1], VisitAll(depth, lock, init, ordered).value);
    }
  }

  /** A package is never listed among its own dependencies, so the second look at the marks always finds it missing. */
  lemma NotAmongItsOwn(depth: nat, lock: Lock, c: Name)
    requires c in lock && VisitAll(depth, lock, lock[c], []).Some?
    ensures c !in VisitAll(depth, lock, lock[c], []).value
  {
    VisitAllAdds(depth, lock, lock[c], []);
    var after := VisitAll(depth, lock, lock[c], []).value;
    if c in after {
      var i :| 0 <= i < |after| && after[i] == c;
      assert c !in after[..i];
      var below := set b | b in after[..i];
      forall a, b | a in below && DependsOn(lock, a, b) ensures b in below {
        var j :| 0 <= j < i && after[..i][j] == a;
        assert b in after[..j];
      }
      forall n | n in lock[c] && Canonicalize(n) in lock ensures Canonicalize(n) in below {
        assert DependsOn(lock, after[i], Canonicalize(n));
      }
      assert Closed(lock, below) && Roots(lock, lock[c], below);
    }
  }

  lemma DependenciesAcyclic(lock: Lock, name: string)
    requires Acyclic(lock, [name]) && Canonicalize(name) in lock
    ensures Acyclic(lock, lock[Canonicalize(name)])
  {
    var c := Canonicalize(name);
    forall chain | Chain(lock, lock[c], chain) ensures Lru.NoDup(chain) {
      DependencyChain(lock, name, chain);
      var longer := [c] + chain;
      forall i, j | 0 <= i < j < |chain| ensures chain[i] != chain[j] {
        assert longer[i + 1] == chain[i] && longer[j + 1] == chain[j];
      }
    }
  }

  lemma DependencyChain(lock: Lock, name: string, chain: seq<Name>)
    requires Canonicalize(name) in lock && Chain(lock, lock[Canonicalize(name)], chain)
    ensures Chain(lock, [name], [Canonicalize(name)] + chain)
  {
    var longer := [Canonicalize(name)] + chain;
    assert name in [name];
    forall i | 0 <= i < |longer| - 1 ensures DependsOn(lock, longer[i], longer[i + 1]) {
      assert longer[i + 1] == chain[i] && (i > 0 ==> longer[i] == chain[i - 1]);
    }
  }

  /** What one known name lists: what its dependencies list, in turn, and then the package itself. */
  lemma ListsDependenciesFirst(lock: Lock, name: string)
    requires Acyclic(lock, [name])
    ensures Canonicalize(name) !in lock ==> Listing(lock, [name]) == []
    ensures Canonicalize(name) in lock ==>
              && Acyclic(lock, lock[Canonicalize(name)])
              && Listing(lock, [name]) == Listing(lock, lock[Canonicalize(name)]) + [Canonicalize(name)]
  {
    var c := Canonicalize(name);
    VisitAllFinishes(|lock|, lock, [name], [name], [], []);
    assert [name][..0] == [];
    if c in lock {
      DependenciesAcyclic(lock, name);
      NotAmongItsOwn(|lock| - 1, lock, c);
      DeeperVisitAll(|lock| - 1, lock, lock[c], []);
    }
  }
}
