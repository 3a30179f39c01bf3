/** What the benchmark host's list of packages is, whatever spellings its keys have. */
module HostListing {
  import opened Wrappers
  import opened PackageNames
  import opened HostPackages

  // ---- Why a key is listed

  ghost predicate Resolves(lock: HostLock, depends: seq<Option<string>>, key: Key)
    requires lock.Valid()
  {
    exists d: string :: Some(d) in depends && lock.KeyFor(d) == Some(key)
  }

  ghost predicate RequiredEarlier(lock: HostLock, keys: seq<Key>, i: nat)
    requires lock.Valid() && i < |keys|
  {
    exists j :: 0 <= j < i && lock.Requires(keys[j], keys[i])
  }

  /** Every new key is what one of the names resolves to, or is required by a key listed before it. */
  ghost predicate Justified(lock: HostLock, names: seq<Option<string>>, before: seq<Key>, after: seq<Key>)
    requires lock.Valid()
  {
    && before <= after
    && forall i | |before| <= i < |after| :: Resolves(lock, names, after[i]) || RequiredEarlier(lock, after, i)
  }

  lemma JustifiedByFirst(lock: HostLock, name: string, key: Key, before: seq<Key>, after: seq<Key>)
    requires lock.Valid() && lock.KeyFor(name) == Some(key)
    requires Justified(lock, lock.packages[key].depends, before + [key], after)
    ensures Justified(lock, [Some(name)], before, after)
  {
    hide HostLock.KeyFor;
    assert after[|before|] == (before + [key])[|before|];
    forall i | |before| <= i < |after| ensures Resolves(lock, [Some(name)], after[i]) || RequiredEarlier(lock, after, i) {
      if i == |before| {
        assert Some(name) in [Some(name)];
      } else if Resolves(lock, lock.packages[key].depends, after[i]) {
        assert lock.Requires(after[|before|], after[i]);
      }
    }
  }

  lemma JustifiedTwice(lock: HostLock, names: seq<Option<string>>, before: seq<Key>, now: seq<Key>, after: seq<Key>)
    requires lock.Valid() && names != []
    requires Justified(lock, [names[0]], before, now) && Justified(lock, names[1..], now, after)
    ensures Justified(lock, names, before, after)
  {
    hide HostLock.KeyFor, HostLock.Requires;
    forall i | |before| <= i < |after| ensures Resolves(lock, names, after[i]) || RequiredEarlier(lock, after, i) {
      if i < |now| {
        assert after[i] == now[i];
        if RequiredEarlier(lock, now, i) {
          var j :| 0 <= j < i && lock.Requires(now[j], now[i]);
          assert after[j] == now[j];
        }
      }
    }
  }

  lemma {:induction false} PreorderJustified(depth: nat, lock: HostLock, name: string, listed: seq<Key>)
    requires lock.Valid() && Preorder(depth, lock, name, listed).Some?
    ensures Justified(lock, [Some(name)], listed, Preorder(depth, lock, name, listed).value)
    decreases depth, 0
  {
    hide HostLock.KeyFor, Justified, Represented;
    var key := lock.KeyFor(name).value;
    if Represented(listed, key) {
      NothingToJustify(lock, [Some(name)], listed);
    } else {
      PreorderAllJustified(depth - 1, lock, lock.packages[key].depends, listed + [key]);
      JustifiedByFirst(lock, name, key, listed, Preorder(depth, lock, name, listed).value);
    }
  }

  lemma NothingToJustify(lock: HostLock, names: seq<Option<string>>, listed: seq<Key>)
    requires lock.Valid()
    ensures Justified(lock, names, listed, listed)
  {
  }

  lemma {:induction false} PreorderAllJustified(depth: nat, lock: HostLock, depends: seq<Option<string>>, listed: seq<Key>)
    requires lock.Valid() && PreorderAll(depth, lock, depends, listed).Some?
    ensures Justified(lock, depends, listed, PreorderAll(depth, lock, depends, listed).value)
    decreases depth, 1, |depends|
  {
    hide Justified, Preorder;
    if depends == [] {
      NothingToJustify(lock, depends, listed);
    } else {
      var now := Preorder(depth, lock, depends[0].value, listed).value;
      PreorderJustified(depth, lock, depends[0].value, listed);
      PreorderAllJustified(depth, lock, depends[1..], now);
      JustifiedTwice(lock, depends, listed, now, PreorderAll(depth, lock, depends, listed).value);
    }
  }

  // ---- What a listed key can rely on

  /** The new keys have a version, and what they depend on resolves and is listed, in some spelling. */
  ghost predicate Served(lock: HostLock, before: seq<Key>, after: seq<Key>)
    requires lock.Valid()
  {
    && before <= after
    && forall i | |before| <= i < |after| ::
         && after[i] in lock.packages && lock.packages[after[i]].version.Some?
         && AllServed(lock, lock.packages[after[i]].depends, after)
  }

  /** Every name resolves, and its package is listed, in some spelling. */
  ghost predicate AllServed(lock: HostLock, names: seq<Option<string>>, keys: seq<Key>)
    requires lock.Valid()
  {
    forall n | n in names :: n.Some? && lock.KeyFor(n.value).Some? && Represented(keys, lock.KeyFor(n.value).value)
  }

  lemma ServedLater(lock: HostLock, names: seq<Option<string>>, now: seq<Key>, after: seq<Key>)
    requires lock.Valid() && AllServed(lock, names, now) && now <= after
    ensures AllServed(lock, names, after)
  {
    hide HostLock.KeyFor, HostCanonical;
    PrefixMembers(now, after);
    forall n | n in names ensures n.Some? && lock.KeyFor(n.value).Some? && Represented(after, lock.KeyFor(n.value).value) {
      var k :| k in now && HostCanonical(k) == HostCanonical(lock.KeyFor(n.value).value);
    }
  }

  lemma ServedTwice(lock: HostLock, before: seq<Key>, now: seq<Key>, after: seq<Key>)
    requires lock.Valid() && Served(lock, before, now) && Served(lock, now, after)
    ensures Served(lock, before, after)
  {
    hide HostLock.KeyFor, AllServed;
    forall i | |before| <= i < |now| ensures AllServed(lock, lock.packages[after[i]].depends, after) {
      assert after[i] == now[i];
      ServedLater(lock, lock.packages[now[i]].depends, now, after);
    }
  }

  lemma ServedFirst(lock: HostLock, name: string, key: Key, before: seq<Key>, after: seq<Key>)
    requires lock.Valid() && lock.KeyFor(name) == Some(key) && lock.packages[key].version.Some?
    requires Served(lock, before + [key], after) && AllServed(lock, lock.packages[key].depends, after)
    ensures Served(lock, before, after) && AllServed(lock, [Some(name)], after)
  {
    assert after[|before|] == (before + [key])[|before|];
    assert key in after;
    assert Represented(after, key);
    hide HostLock.KeyFor, AllServed, Represented;
    assert AllServed(lock, [Some(name)], after) by {
      OnlyName(lock, name, key, after);
    }
  }

  lemma OnlyName(lock: HostLock, name: string, key: Key, keys: seq<Key>)
    requires lock.Valid() && lock.KeyFor(name) == Some(key) && Represented(keys, key)
    ensures AllServed(lock, [Some(name)], keys)
  {
    hide HostLock.KeyFor, Represented;
  }

  lemma {:induction false} PreorderServes(depth: nat, lock: HostLock, name: string, listed: seq<Key>)
    requires lock.Valid() && Preorder(depth, lock, name, listed).Some?
    ensures Served(lock, listed, Preorder(depth, lock, name, listed).value)
    ensures AllServed(lock, [Some(name)], Preorder(depth, lock, name, listed).value)
    decreases depth, 0
  {
    hide HostLock.KeyFor, Served, AllServed, Represented;
    var key := lock.KeyFor(name).value;
    if Represented(listed, key) {
      NothingToServe(lock, listed);
      OnlyName(lock, name, key, listed);
    } else {
      PreorderAllServes(depth - 1, lock, lock.packages[key].depends, listed + [key]);
      ServedFirst(lock, name, key, listed, Preorder(depth, lock, name, listed).value);
    }
  }

  lemma NothingToServe(lock: HostLock, listed: seq<Key>)
    requires lock.Valid()
    ensures Served(lock, listed, listed) && AllServed(lock, [], listed)
  {
  }

  lemma BothServed(lock: HostLock, names: seq<Option<string>>, keys: seq<Key>)
    requires lock.Valid() && names != [] && AllServed(lock, [names[0]], keys) && AllServed(lock, names[1..], keys)
    ensures AllServed(lock, names, keys)
  {
    hide HostLock.KeyFor, Represented;
    assert names[0] in [names[0]];
    forall n | n in names ensures n == names[0] || n in names[1..] {
      var i :| 0 <= i < |names| && names[i] == n;
      assert i > 0 ==> names[1..][i - 1] == n;
    }
  }

  lemma {:induction false} PreorderAllServes(depth: nat, lock: HostLock, depends: seq<Option<string>>, listed: seq<Key>)
    requires lock.Valid() && PreorderAll(depth, lock, depends, listed).Some?
    ensures Served(lock, listed, PreorderAll(depth, lock, depends, listed).value)
    ensures AllServed(lock, depends, PreorderAll(depth, lock, depends, listed).value)
    decreases depth, 1, |depends|
  {
    hide Preorder, AllServed;
    NothingToServe(lock, listed);
    if depends != [] {
      var now := Preorder(depth, lock, depends[0].value, listed).value;
      var after := PreorderAll(depth, lock, depends, listed).value;
      PreorderServes(depth, lock, depends[0].value, listed);
      PreorderAllServes(depth, lock, depends[1..], now);
      ServedTwice(lock, listed, now, after);
      hide Served, PreorderAll;
      ServedIsLonger(lock, now, after);
      ServedLater(lock, [depends[0]], now, after);
      BothServed(lock, depends, after);
    }
  }

  lemma ServedIsLonger(lock: HostLock, before: seq<Key>, after: seq<Key>)
    requires lock.Valid() && Served(lock, before, after)
    ensures before <= after
  {
  }

  lemma {:induction false} SomesMember(names: seq<string>, n: Option<string>)
    ensures n in Somes(names) <==> n.Some? && n.value in names
  {
    if names != [] {
      SomesMember(names[1..], n);
      assert Somes(names) == [Some(names[0])] + Somes(names[1..]);
      assert names == [names[0]] + names[1..];
    }
  }

  /**
   What a collection that succeeds has listed, on any lockfile: each key is what some
   name resolves to or is required by a key listed earlier; and the names, and all
   dependencies of what is listed, resolve to packages that are listed in some spelling.
   */
  lemma ListedUpToSpelling(lock: HostLock, names: seq<string>, after: seq<Key>)
    requires lock.Valid() && AllInPreorder(lock, names, [], Some(after))
    ensures forall i | 0 <= i < |after| ::
              || (exists n :: n in names && lock.KeyFor(n) == Some(after[i]))
              || exists j :: 0 <= j < i && lock.Requires(after[j], after[i])
    ensures forall n | n in names :: lock.KeyFor(n).Some? && Represented(after, lock.KeyFor(n).value)
    ensures forall k | k in after :: lock.Sound(k)
    ensures forall a, b | a in after && lock.Requires(a, b) :: Represented(after, b)
  {
    var depth := Unlisted(lock, []) + 1;
    assert PreorderAll(depth, lock, Somes(names), []) == Some(after);
    PreorderAllJustified(depth, lock, Somes(names), []);
    PreorderAllServes(depth, lock, Somes(names), []);
    hide PreorderAll, AllInPreorder, HostLock.KeyFor, Represented, Unlisted;
    forall n: Option<string> ensures n in Somes(names) <==> n.Some? && n.value in names {
      SomesMember(names, n);
    }
    forall n | n in names ensures lock.KeyFor(n).Some? && Represented(after, lock.KeyFor(n).value) {
      assert Some(n) in Somes(names);
    }
    forall i | 0 <= i < |after|
      ensures (exists n :: n in names && lock.KeyFor(n) == Some(after[i])) || exists j :: 0 <= j < i && lock.Requires(after[j], after[i])
    {
      if !RequiredEarlier(lock, after, i) {
        var n: string :| Some(n) in Somes(names) && lock.KeyFor(n) == Some(after[i]);
      }
    }
  }
}
