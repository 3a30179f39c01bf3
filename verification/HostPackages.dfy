/**
 The benchmark host's package closure over the same lockfile: a depth-first walk
 that marks and lists a package before its dependencies, so cycles do not trap it.
 */
module HostPackages {
  import opened Wrappers
  import Lru
  import opened PackageNames

  type Key = string

  /** A package as the lockfile declares it; a dependency that is not a string is `None`. */
  datatype Package = Package(name: Option<string>, version: Option<string>, depends: seq<Option<string>>)

  /** The packages and the order in which their keys are iterated. */
  datatype HostLock = HostLock(order: seq<Key>, packages: map<Key, Package>) {
    ghost predicate Valid() {
      forall k :: k in order <==> k in packages
    }

    predicate Matches(key: Key, canonical: string)
      requires key in packages
    {
      || HostCanonical(key) == canonical
      || (packages[key].name.Some? && HostCanonical(packages[key].name.value) == canonical)
    }

    function FirstMatch(keys: seq<Key>, canonical: string): (r: Option<Key>)
      requires forall k | k in keys :: k in packages
      ensures r.Some? ==> r.value in keys && Matches(r.value, canonical)
      ensures r.None? ==> forall k | k in keys :: !Matches(k, canonical)
    {
      if keys == [] then None
      else if Matches(keys[0], canonical) then Some(keys[0])
      else FirstMatch(keys[1..], canonical)
    }

    /** `pyodide_package_key`. */
    function KeyFor(requested: string): (r: Option<Key>)
      requires Valid()
      ensures r.Some? ==> r.value in packages
    {
      if requested in packages then Some(requested) else FirstMatch(order, HostCanonical(requested))
    }

    /** The line a package is listed as. */
    function Line(key: Key): (string, string)
      requires key in packages && packages[key].version.Some?
    {
      (if packages[key].name.Some? then packages[key].name.value else key, packages[key].version.value)
    }

    /** `b` is what some dependency of `a` resolves to. */
    ghost predicate Requires(a: Key, b: Key)
      requires Valid()
    {
      a in packages && exists d: string :: Some(d) in packages[a].depends && KeyFor(d) == Some(b)
    }

    /** Nothing about the package stops the walk. */
    ghost predicate Sound(key: Key)
      requires Valid()
    {
      && key in packages && packages[key].version.Some?
      && forall d | d in packages[key].depends :: d.Some? && KeyFor(d.value).Some?
    }
  }

  /** The form of the key, or of the name declared under it, is the requested one. */
  ghost predicate Answers(lock: HostLock, key: Key, canonical: string) {
    && key in lock.packages
    && (HostCanonical(key) == canonical ||
        exists name: string :: lock.packages[key].name == Some(name) && HostCanonical(name) == canonical)
  }

  lemma {:induction false} FirstMatchIsFirst(lock: HostLock, keys: seq<Key>, canonical: string)
    requires forall k | k in keys :: k in lock.packages
    ensures lock.FirstMatch(keys, canonical).None? <==> forall k | k in keys :: !Answers(lock, k, canonical)
    ensures lock.FirstMatch(keys, canonical).Some? ==>
              exists i :: 0 <= i < |keys| && lock.FirstMatch(keys, canonical).value == keys[i] &&
                          Answers(lock, keys[i], canonical) && forall j | 0 <= j < i :: !Answers(lock, keys[j], canonical)
  {
    if keys != [] && !lock.Matches(keys[0], canonical) {
      FirstMatchIsFirst(lock, keys[1..], canonical);
      if lock.FirstMatch(keys, canonical).Some? {
        var i :| 0 <= i < |keys[1..]| && lock.FirstMatch(keys, canonical).value == keys[1..][i] &&
          Answers(lock, keys[1..][i], canonical) && forall j | 0 <= j < i :: !Answers(lock, keys[1..][j], canonical);
        assert keys[i + 1] == keys[1..][i];
        forall j | 0 <= j < i + 1 ensures !Answers(lock, keys[j], canonical) {
          assert j > 0 ==> keys[j] == keys[1..][j - 1];
        }
      }
    }
  }

  /**
   A request that is a key resolves to itself; any other to the first key in order whose
   form, or whose declared name's form, is that of the request, and to nothing without one.
   */
  lemma ResolvesToFirst(lock: HostLock, requested: string)
    requires lock.Valid()
    ensures requested in lock.packages ==> lock.KeyFor(requested) == Some(requested)
    ensures requested !in lock.packages && lock.KeyFor(requested).None? ==>
              forall k | k in lock.packages :: !Answers(lock, k, HostCanonical(requested))
    ensures requested !in lock.packages && lock.KeyFor(requested).Some? ==>
              exists i :: 0 <= i < |lock.order| && lock.KeyFor(requested).value == lock.order[i] &&
                          Answers(lock, lock.order[i], HostCanonical(requested)) &&
                          forall j | 0 <= j < i :: !Answers(lock, lock.order[j], HostCanonical(requested))
  {
    hide HostCanonical, HostLock.FirstMatch;
    FirstMatchIsFirst(lock, lock.order, HostCanonical(requested));
  }

  /** Keys that only differ in case and separators do not occur together. */
  ghost predicate UniqueKeys(lock: HostLock) {
    forall a, b | a in lock.packages && b in lock.packages && HostCanonical(a) == HostCanonical(b) :: a == b
  }

  ghost predicate DistinctForms(keys: seq<Key>) {
    forall i, j | 0 <= i < j < |keys| :: HostCanonical(keys[i]) != HostCanonical(keys[j])
  }

  /** The key, or another spelling of it, is listed. */
  predicate Represented(keys: seq<Key>, key: Key) {
    exists k | k in keys :: HostCanonical(k) == HostCanonical(key)
  }

  /** A set that has with each key not yet listed what it requires. */
  ghost predicate Closed(lock: HostLock, listed: seq<Key>, s: set<Key>)
    requires lock.Valid()
  {
    forall a, b | a in s && a !in listed && lock.Requires(a, b) :: b in s
  }

  /** Reached from the requirement `name` through keys not yet listed. */
  ghost predicate Reached(lock: HostLock, listed: seq<Key>, name: string, k: Key)
    requires lock.Valid()
  {
    && lock.KeyFor(name).Some?
    && forall s: set<Key> | Closed(lock, listed, s) && lock.KeyFor(name).value in s :: k in s
  }

  /** Why a walk may fail: the name resolves to nothing, or something unsound is reached. */
  ghost predicate Blocked(lock: HostLock, listed: seq<Key>, name: string)
    requires lock.Valid()
  {
    || lock.KeyFor(name).None?
    || exists k :: Reached(lock, listed, name, k) && k !in listed && !lock.Sound(k)
  }

  /** The listed keys, the marks and the lines tell the same story. */
  ghost predicate Consistent(lock: HostLock, keys: seq<Key>, visited: set<string>, lines: seq<(string, string)>) {
    && lock.Valid() && DistinctForms(keys) && MarksFit(keys, visited) && LinesFit(lock, keys, lines)
  }

  /** The marks are the canonical forms of the listed keys. */
  ghost predicate MarksFit(keys: seq<Key>, visited: set<string>) {
    forall c :: c in visited <==> exists k :: k in keys && HostCanonical(k) == c
  }

  /** A line is the declared name, or the key without one, and the declared version. */
  ghost predicate Listed(lock: HostLock, key: Key, line: (string, string)) {
    && key in lock.packages && lock.packages[key].version == Some(line.1)
    && (lock.packages[key].name == Some(line.0) || (lock.packages[key].name == None && line.0 == key))
  }

  ghost predicate LinesFit(lock: HostLock, keys: seq<Key>, lines: seq<(string, string)>) {
    && (forall k | k in keys :: k in lock.packages && lock.packages[k].version.Some?)
    && |lines| == |keys|
    && (forall i | 0 <= i < |keys| :: Listed(lock, keys[i], lines[i]))
  }

  /** Everything required by what was listed since is listed. */
  ghost predicate CompleteSince(lock: HostLock, before: seq<Key>, after: seq<Key>)
    requires lock.Valid()
  {
    forall a, b | a in after && a !in before && lock.Requires(a, b) :: b in after
  }

  ghost predicate SoundSince(lock: HostLock, before: seq<Key>, after: seq<Key>)
    requires lock.Valid()
  {
    forall a | a in after && a !in before :: lock.Sound(a)
  }

  ghost predicate NewAreReached(lock: HostLock, before: seq<Key>, name: string, after: seq<Key>)
    requires lock.Valid()
  {
    forall s: set<Key>, k |
      Closed(lock, before, s) && (lock.KeyFor(name).Some? ==> lock.KeyFor(name).value in s) && k in after && k !in before ::
      k in s
  }

  ghost predicate Collected(lock: HostLock, name: string, before: seq<Key>, after: seq<Key>, ok: bool)
    requires lock.Valid()
  {
    && before <= after && NewAreReached(lock, before, name, after)
    && (ok ==> lock.KeyFor(name).Some? && lock.KeyFor(name).value in after)
    && (ok ==> CompleteSince(lock, before, after) && SoundSince(lock, before, after))
    && (!ok ==> Blocked(lock, before, name))
    // In preorder: a package that is new comes before everything its dependencies add.
    && (ok && lock.KeyFor(name).value !in before ==> before + [lock.KeyFor(name).value] <= after)
  }

  // ---- Several names in turn

  /** A set that holds what the names resolve to. */
  ghost predicate HoldsRoots(lock: HostLock, names: seq<string>, s: set<Key>)
    requires lock.Valid()
  {
    forall n | n in names && lock.KeyFor(n).Some? :: lock.KeyFor(n).value in s
  }

  /** Reached from one of the names through keys not yet listed. */
  ghost predicate ReachedFrom(lock: HostLock, listed: seq<Key>, names: seq<string>, k: Key)
    requires lock.Valid()
  {
    forall s: set<Key> | Closed(lock, listed, s) && HoldsRoots(lock, names, s) :: k in s
  }

  ghost predicate BlockedFrom(lock: HostLock, listed: seq<Key>, names: seq<string>)
    requires lock.Valid()
  {
    || (exists n :: n in names && lock.KeyFor(n).None?)
    || exists k :: ReachedFrom(lock, listed, names, k) && k !in listed && !lock.Sound(k)
  }

  ghost predicate CollectedAll(lock: HostLock, names: seq<string>, before: seq<Key>, after: seq<Key>, ok: bool)
    requires lock.Valid()
  {
    && before <= after && (names == [] ==> after == before)
    && (forall k | k in after && k !in before :: ReachedFrom(lock, before, names, k))
    && (ok ==> forall n | n in names :: lock.KeyFor(n).Some? && lock.KeyFor(n).value in after)
    && (ok ==> CompleteSince(lock, before, after) && SoundSince(lock, before, after))
    && (!ok ==> BlockedFrom(lock, before, names))
    && (ok && names != [] && lock.KeyFor(names[0]).value !in before ==> before + [lock.KeyFor(names[0]).value] <= after)
  }

  lemma AllCollectedNone(lock: HostLock, keys: seq<Key>)
    requires lock.Valid()
    ensures CollectedAll(lock, [], keys, keys, true)
  {
  }

  /** A key reached from the next name was reached from the names so far and this one. */
  lemma ReachedNext(lock: HostLock, names: seq<string>, i: nat, before: seq<Key>, now: seq<Key>, k: Key)
    requires lock.Valid() && i < |names| && before <= now
    requires ReachedFrom(lock, before, names[..i], k) || Reached(lock, now, names[i], k)
    ensures ReachedFrom(lock, before, names[..i + 1], k)
  {
    PrefixMembers(before, now);
    assert names[i] in names[..i + 1];
    forall s: set<Key> | Closed(lock, before, s) && HoldsRoots(lock, names[..i + 1], s) ensures k in s {
      assert Closed(lock, now, s) && HoldsRoots(lock, names[..i], s);
    }
  }

  lemma NewIsReached(lock: HostLock, name: string, now: seq<Key>, after: seq<Key>, k: Key)
    requires lock.Valid() && NewAreReached(lock, now, name, after) && k in after && k !in now && lock.KeyFor(name).Some?
    ensures Reached(lock, now, name, k)
  {
  }

  /** A name that resolves to nothing lists nothing. */
  lemma NothingNew(lock: HostLock, name: string, now: seq<Key>, after: seq<Key>, k: Key)
    requires lock.Valid() && NewAreReached(lock, now, name, after) && k in after && lock.KeyFor(name).None?
    ensures k in now
  {
    assert Closed(lock, now, {});
  }

  lemma AllCollectedNext(lock: HostLock, names: seq<string>, i: nat, before: seq<Key>, now: seq<Key>, after: seq<Key>, ok: bool)
    requires lock.Valid() && i < |names| && CollectedAll(lock, names[..i], before, now, true)
    requires Collected(lock, names[i], now, after, ok)
    ensures CollectedAll(lock, names[..i + 1], before, after, ok)
    ensures !ok ==> CollectedAll(lock, names, before, after, false)
  {
    hide Closed, Reached, ReachedFrom, NewAreReached, CompleteSince, SoundSince, HostLock.KeyFor, HostLock.Sound;
    PrefixMembers(now, after);
    forall k | k in after && k !in before ensures ReachedFrom(lock, before, names[..i + 1], k) {
      if k !in now {
        if lock.KeyFor(names[i]).None? {
          NothingNew(lock, names[i], now, after, k);
        } else {
          NewIsReached(lock, names[i], now, after, k);
        }
      }
      ReachedNext(lock, names, i, before, now, k);
    }
    if ok {
      SinceTwice(lock, before, now, after);
    } else {
      BlockedNext(lock, names, i, before, now);
      MoreNames(lock, names, i, before, after);
    }
  }

  lemma SinceTwice(lock: HostLock, before: seq<Key>, now: seq<Key>, after: seq<Key>)
    requires lock.Valid() && before <= now <= after
    requires CompleteSince(lock, before, now) && SoundSince(lock, before, now)
    requires CompleteSince(lock, now, after) && SoundSince(lock, now, after)
    ensures CompleteSince(lock, before, after) && SoundSince(lock, before, after)
  {
    PrefixMembers(now, after);
    PrefixMembers(before, now);
  }

  lemma BlockedNext(lock: HostLock, names: seq<string>, i: nat, before: seq<Key>, now: seq<Key>)
    requires lock.Valid() && i < |names| && before <= now && Blocked(lock, now, names[i])
    ensures BlockedFrom(lock, before, names[..i + 1])
  {
    hide Closed, Reached, ReachedFrom, HostLock.Sound;
    PrefixMembers(before, now);
    if lock.KeyFor(names[i]).None? {
      assert names[i] in names[..i + 1];
    } else {
      var k :| Reached(lock, now, names[i], k) && k !in now && !lock.Sound(k);
      ReachedNext(lock, names, i, before, now, k);
    }
  }

  /** A failure at one of the first names is one for all of them. */
  lemma MoreNames(lock: HostLock, names: seq<string>, i: nat, before: seq<Key>, after: seq<Key>)
    requires lock.Valid() && i < |names| && before <= after && BlockedFrom(lock, before, names[..i + 1])
    requires forall k | k in after && k !in before :: ReachedFrom(lock, before, names[..i + 1], k)
    ensures CollectedAll(lock, names, before, after, false)
  {
    forall k | ReachedFrom(lock, before, names[..i + 1], k) ensures ReachedFrom(lock, before, names, k) {
      forall s: set<Key> | Closed(lock, before, s) && HoldsRoots(lock, names, s) ensures k in s {
        assert HoldsRoots(lock, names[..i + 1], s);
      }
    }
  }

  // ---- The steps of one call

  ghost function Unlisted(lock: HostLock, keys: seq<Key>): nat {
    |lock.packages.Keys - (set k | k in keys)|
  }

  lemma ListingOne(lock: HostLock, keys: seq<Key>, key: Key)
    requires key in lock.packages && key !in keys
    ensures Unlisted(lock, keys + [key]) < Unlisted(lock, keys)
  {
    var all := lock.packages.Keys;
    assert (set k | k in keys + [key]) == (set k | k in keys) + {key};
    assert all - (set k | k in keys) == all - (set k | k in keys + [key]) + {key};
  }

  lemma ListingMore(lock: HostLock, keys: seq<Key>, after: seq<Key>)
    requires keys <= after
    ensures Unlisted(lock, after) <= Unlisted(lock, keys)
  {
    assert forall k | k in keys :: k in after;
    Lru.SubsetSize(lock.packages.Keys - (set k | k in after), lock.packages.Keys - (set k | k in keys));
  }

  /** `key` is listed and the first `n` of its dependencies are collected. */
  ghost predicate Collecting(lock: HostLock, name: string, key: Key, before: seq<Key>, now: seq<Key>, n: nat)
    requires lock.Valid()
  {
    && lock.KeyFor(name) == Some(key) && key !in before && before + [key] <= now
    && lock.packages[key].version.Some? && n <= |lock.packages[key].depends|
    && NewAreReached(lock, before, name, now)
    && (forall j | 0 <= j < n ::
          var d := lock.packages[key].depends[j];
          d.Some? && lock.KeyFor(d.value).Some? && lock.KeyFor(d.value).value in now)
    && (forall a | a in now && a !in before && a != key :: lock.Sound(a))
    && (forall a, b | a in now && a !in before && a != key && lock.Requires(a, b) :: b in now)
  }

  lemma CollectingStarts(lock: HostLock, name: string, key: Key, keys: seq<Key>)
    requires lock.Valid() && lock.KeyFor(name) == Some(key) && key !in keys && lock.packages[key].version.Some?
    ensures Collecting(lock, name, key, keys, keys + [key], 0)
  {
  }

  lemma DependencyRequired(lock: HostLock, key: Key, k: nat)
    requires lock.Valid() && key in lock.packages && k < |lock.packages[key].depends|
    requires lock.packages[key].depends[k].Some? && lock.KeyFor(lock.packages[key].depends[k].value).Some?
    ensures lock.Requires(key, lock.KeyFor(lock.packages[key].depends[k].value).value)
  {
    assert Some(lock.packages[key].depends[k].value) in lock.packages[key].depends;
  }

  lemma PrefixMembers(a: seq<Key>, b: seq<Key>)
    requires a <= b
    ensures forall x | x in a :: x in b
  {
    forall x | x in a ensures x in b {
      var i :| 0 <= i < |a| && a[i] == x;
      assert b[i] == x;
    }
  }

  lemma ListedSoFar(before: seq<Key>, key: Key, now: seq<Key>)
    requires before + [key] <= now
    ensures key in now && before <= now && forall x | x in before :: x in now
  {
    PrefixMembers(before + [key], now);
    assert key in before + [key];
    assert before <= before + [key];
  }

  lemma CollectingReaches(lock: HostLock, name: string, key: Key, before: seq<Key>, now: seq<Key>, n: nat, after: seq<Key>)
    requires lock.Valid() && Collecting(lock, name, key, before, now, n) && n < |lock.packages[key].depends|
    requires lock.packages[key].depends[n].Some? && now <= after
    requires NewAreReached(lock, now, lock.packages[key].depends[n].value, after)
    ensures NewAreReached(lock, before, name, after)
  {
    var d := lock.packages[key].depends[n].value;
    forall s: set<Key>, k | Closed(lock, before, s) && key in s && k in after && k !in before ensures k in s {
      ListedSoFar(before, key, now);
      assert Closed(lock, now, s);
      if lock.KeyFor(d).Some? {
        DependencyRequired(lock, key, n);
      }
    }
  }

  lemma CollectingNext(lock: HostLock, name: string, key: Key, before: seq<Key>, now: seq<Key>, n: nat, after: seq<Key>)
    requires lock.Valid() && Collecting(lock, name, key, before, now, n) && n < |lock.packages[key].depends|
    requires lock.packages[key].depends[n].Some?
    requires Collected(lock, lock.packages[key].depends[n].value, now, after, true)
    ensures Collecting(lock, name, key, before, after, n + 1)
  {
    CollectingReaches(lock, name, key, before, now, n, after);
    PrefixMembers(now, after);
    ListedSoFar(before, key, now);
  }

  lemma UnsoundBlocks(lock: HostLock, name: string, key: Key, before: seq<Key>)
    requires lock.Valid() && lock.KeyFor(name) == Some(key) && key !in before && !lock.Sound(key)
    ensures Blocked(lock, before, name)
  {
    assert Reached(lock, before, name, key);
  }

  lemma CollectingFails(lock: HostLock, name: string, key: Key, before: seq<Key>, now: seq<Key>, n: nat, after: seq<Key>)
    requires lock.Valid() && Collecting(lock, name, key, before, now, n) && n < |lock.packages[key].depends|
    requires lock.packages[key].depends[n].Some?
    requires Collected(lock, lock.packages[key].depends[n].value, now, after, false)
    ensures Collected(lock, name, before, after, false)
  {
    var d := lock.packages[key].depends[n].value;
    CollectingReaches(lock, name, key, before, now, n, after);
    if lock.KeyFor(d).None? {
      assert lock.packages[key].depends[n] in lock.packages[key].depends;
      UnsoundBlocks(lock, name, key, before);
    } else {
      var k :| Reached(lock, now, d, k) && k !in now && !lock.Sound(k);
      ListedSoFar(before, key, now);
      DependencyRequired(lock, key, n);
      forall s: set<Key> | Closed(lock, before, s) && key in s ensures k in s {
        assert Closed(lock, now, s);
      }
      assert Reached(lock, before, name, k);
    }
  }

  lemma CollectingBreaks(lock: HostLock, name: string, key: Key, before: seq<Key>, now: seq<Key>, n: nat)
    requires lock.Valid() && Collecting(lock, name, key, before, now, n) && n < |lock.packages[key].depends|
    requires lock.packages[key].depends[n].None?
    ensures Collected(lock, name, before, now, false)
  {
    assert lock.packages[key].depends[n] in lock.packages[key].depends;
    UnsoundBlocks(lock, name, key, before);
  }

  lemma CollectingDone(lock: HostLock, name: string, key: Key, before: seq<Key>, now: seq<Key>)
    requires lock.Valid() && key in lock.packages
    requires Collecting(lock, name, key, before, now, |lock.packages[key].depends|)
    ensures Collected(lock, name, before, now, true)
  {
    var depends := lock.packages[key].depends;
    forall d | d in depends ensures d.Some? && lock.KeyFor(d.value).Some? && lock.KeyFor(d.value).value in now {
      var j :| 0 <= j < |depends| && depends[j] == d;
    }
    assert lock.Sound(key);
    ListedSoFar(before, key, now);
  }

  lemma AlreadyListed(lock: HostLock, name: string, keys: seq<Key>)
    requires lock.Valid() && lock.KeyFor(name).Some? && lock.KeyFor(name).value in keys
    ensures Collected(lock, name, keys, keys, true)
  {
  }

  lemma NotDeclared(lock: HostLock, name: string, keys: seq<Key>)
    requires lock.Valid() && lock.KeyFor(name).None?
    ensures Collected(lock, name, keys, keys, false)
  {
  }

  lemma NoVersion(lock: HostLock, name: string, key: Key, keys: seq<Key>)
    requires lock.Valid() && lock.KeyFor(name) == Some(key) && key !in keys && lock.packages[key].version.None?
    ensures Collected(lock, name, keys, keys, false)
  {
    UnsoundBlocks(lock, name, key, keys);
  }

  lemma MarkIsListing(lock: HostLock, keys: seq<Key>, visited: set<string>, lines: seq<(string, string)>, key: Key)
    requires Consistent(lock, keys, visited, lines) && key in lock.packages
    ensures HostCanonical(key) in visited <==> Represented(keys, key)
    ensures UniqueKeys(lock) ==> (Represented(keys, key) <==> key in keys)
  {
  }

  lemma ListedConsistent(lock: HostLock, keys: seq<Key>, visited: set<string>, lines: seq<(string, string)>, key: Key)
    requires Consistent(lock, keys, visited, lines) && key in lock.packages && !Represented(keys, key)
    requires lock.packages[key].version.Some?
    ensures Consistent(lock, keys + [key], visited + {HostCanonical(key)}, lines + [lock.Line(key)])
  {
    hide HostCanonical, HostLock.Line, DistinctForms, MarksFit, LinesFit, Represented;
    MarksAgree(keys, visited, key);
    FormsStayDistinct(keys, key);
    LinesAgree(lock, keys, lines, key);
  }

  lemma LinesAgree(lock: HostLock, keys: seq<Key>, lines: seq<(string, string)>, key: Key)
    requires LinesFit(lock, keys, lines) && key in lock.packages && lock.packages[key].version.Some?
    ensures LinesFit(lock, keys + [key], lines + [lock.Line(key)])
  {
    assert Listed(lock, key, lock.Line(key));
    hide HostLock.Line, Listed;
  }

  lemma MarksAgree(keys: seq<Key>, visited: set<string>, key: Key)
    requires MarksFit(keys, visited)
    ensures MarksFit(keys + [key], visited + {HostCanonical(key)})
  {
    hide HostCanonical;
    var more := keys + [key];
    forall c ensures c in visited + {HostCanonical(key)} <==> exists k :: k in more && HostCanonical(k) == c {
      if c in visited {
        var k :| k in keys && HostCanonical(k) == c;
        assert k in more;
      }
      if c == HostCanonical(key) {
        assert key in more;
      }
    }
  }

  lemma FormsStayDistinct(keys: seq<Key>, key: Key)
    requires DistinctForms(keys) && !Represented(keys, key)
    ensures DistinctForms(keys + [key])
  {
    hide HostCanonical;
    forall i | 0 <= i < |keys| ensures HostCanonical(keys[i]) != HostCanonical(key) {
      assert keys[i] in keys;
    }
  }

  // ---- Preorder

  /**
   Depth first, each package before its dependencies and these from left to right; a
   package already listed, under this or another spelling, is passed over. `None` is a failure, or too small a depth.
   */
  ghost function Preorder(depth: nat, lock: HostLock, name: string, listed: seq<Key>): Option<seq<Key>>
    requires lock.Valid()
    decreases depth, 0
  {
    var found := lock.KeyFor(name);
    if found.None? then None
    else if Represented(listed, found.value) then Some(listed)
    else if lock.packages[found.value].version.None? || depth == 0 then None
    else PreorderAll(depth - 1, lock, lock.packages[found.value].depends, listed + [found.value])
  }

  ghost function PreorderAll(depth: nat, lock: HostLock, depends: seq<Option<string>>, listed: seq<Key>): Option<seq<Key>>
    requires lock.Valid()
    decreases depth, 1, |depends|
  {
    if depends == [] then Some(listed)
    else if depends[0].None? then None
    else match Preorder(depth, lock, depends[0].value, listed)
      case None => None
      case Some(more) => PreorderAll(depth, lock, depends[1..], more)
  }

  /** The outcome of the preorder walk, at any depth that suffices for the packages left. */
  ghost predicate InPreorder(lock: HostLock, name: string, listed: seq<Key>, r: Option<seq<Key>>)
    requires lock.Valid()
  {
    forall depth: nat | depth >= Unlisted(lock, listed) + 1 :: Preorder(depth, lock, name, listed) == r
  }

  function Somes(names: seq<string>): seq<Option<string>> {
    if names == [] then [] else [Some(names[0])] + Somes(names[1..])
  }

  /** The outcome of the preorder walk over several names in turn. */
  ghost predicate AllInPreorder(lock: HostLock, names: seq<string>, listed: seq<Key>, r: Option<seq<Key>>)
    requires lock.Valid()
  {
    forall depth: nat | depth >= Unlisted(lock, listed) + 1 :: PreorderAll(depth, lock, Somes(names), listed) == r
  }

  /** What is left of the walk over the names is those from the `i`-th on. */
  ghost predicate NamesRemain(lock: HostLock, names: seq<string>, listed: seq<Key>, i: nat, now: seq<Key>)
    requires lock.Valid()
  {
    && i <= |names| && Unlisted(lock, now) <= Unlisted(lock, listed)
    && forall depth: nat | depth >= Unlisted(lock, listed) + 1 ::
         PreorderAll(depth, lock, Somes(names), listed) == PreorderAll(depth, lock, Somes(names[i..]), now)
  }

  lemma AllRemain(lock: HostLock, names: seq<string>, listed: seq<Key>)
    requires lock.Valid()
    ensures NamesRemain(lock, names, listed, 0, listed)
  {
    assert names[0..] == names;
  }

  lemma NamesRemainNext(lock: HostLock, names: seq<string>, listed: seq<Key>, i: nat, now: seq<Key>, after: seq<Key>, ok: bool)
    requires lock.Valid() && NamesRemain(lock, names, listed, i, now) && i < |names| && now <= after
    requires InPreorder(lock, names[i], now, if ok then Some(after) else None)
    ensures if ok then NamesRemain(lock, names, listed, i + 1, after) else AllInPreorder(lock, names, listed, None)
  {
    hide Unlisted, Preorder;
    ListingMore(lock, now, after);
    var rest := names[i..];
    assert rest[0] == names[i] && rest[1..] == names[i + 1..];
    assert Somes(rest)[0] == Some(names[i]) && Somes(rest)[1..] == Somes(rest[1..]);
    forall depth: nat | depth >= Unlisted(lock, listed) + 1
      ensures PreorderAll(depth, lock, Somes(names), listed) ==
              if ok then PreorderAll(depth, lock, Somes(rest[1..]), after) else None
    {
      assert Preorder(depth, lock, names[i], now) == if ok then Some(after) else None;
    }
  }

  lemma NamesRemainNone(lock: HostLock, names: seq<string>, listed: seq<Key>, now: seq<Key>)
    requires lock.Valid() && NamesRemain(lock, names, listed, |names|, now)
    ensures AllInPreorder(lock, names, listed, Some(now))
  {
    hide Unlisted, Preorder;
  }

  /** What is left of the walk from `name` is the dependencies of `key` from the `i`-th on. */
  ghost predicate Remains(lock: HostLock, name: string, listed: seq<Key>, key: Key, i: nat, now: seq<Key>)
    requires lock.Valid()
  {
    && key in lock.packages && i <= |lock.packages[key].depends|
    && forall depth: nat | depth >= Unlisted(lock, listed) + 1 ::
         Preorder(depth, lock, name, listed) == PreorderAll(depth - 1, lock, lock.packages[key].depends[i..], now)
  }

  lemma PreorderStops(lock: HostLock, name: string, listed: seq<Key>)
    requires lock.Valid()
    ensures lock.KeyFor(name).None? ==> InPreorder(lock, name, listed, None)
    ensures lock.KeyFor(name).Some? && Represented(listed, lock.KeyFor(name).value) ==> InPreorder(lock, name, listed, Some(listed))
    ensures lock.KeyFor(name).Some? && !Represented(listed, lock.KeyFor(name).value) ==>
              lock.packages[lock.KeyFor(name).value].version.None? ==> InPreorder(lock, name, listed, None)
  {
    hide Unlisted;
  }

  lemma RemainsStarts(lock: HostLock, name: string, key: Key, listed: seq<Key>)
    requires lock.Valid() && lock.KeyFor(name) == Some(key) && !Represented(listed, key)
    requires lock.packages[key].version.Some?
    ensures Remains(lock, name, listed, key, 0, listed + [key])
  {
    hide Unlisted;
    assert lock.packages[key].depends[0..] == lock.packages[key].depends;
  }

  /** One dependency is walked, with success or not. */
  lemma RemainsNext(lock: HostLock, name: string, listed: seq<Key>, key: Key, i: nat, now: seq<Key>, r: Option<seq<Key>>)
    requires lock.Valid() && Remains(lock, name, listed, key, i, now) && i < |lock.packages[key].depends|
    requires lock.packages[key].depends[i].Some? && Unlisted(lock, now) < Unlisted(lock, listed)
    requires InPreorder(lock, lock.packages[key].depends[i].value, now, r)
    ensures r.None? ==> InPreorder(lock, name, listed, None)
    ensures r.Some? ==> Remains(lock, name, listed, key, i + 1, r.value)
  {
    hide Unlisted, Preorder;
    var rest := lock.packages[key].depends[i..];
    assert rest[0] == lock.packages[key].depends[i] && rest[1..] == lock.packages[key].depends[i + 1..];
    forall depth: nat | depth >= Unlisted(lock, listed) + 1
      ensures Preorder(depth, lock, name, listed) ==
              if r.None? then None else PreorderAll(depth - 1, lock, rest[1..], r.value)
    {
      assert Preorder(depth - 1, lock, rest[0].value, now) == r;
    }
  }

  lemma RemainsBreaks(lock: HostLock, name: string, listed: seq<Key>, key: Key, i: nat, now: seq<Key>)
    requires lock.Valid() && Remains(lock, name, listed, key, i, now) && i < |lock.packages[key].depends|
    requires lock.packages[key].depends[i].None?
    ensures InPreorder(lock, name, listed, None)
  {
    hide Unlisted, Preorder;
  }

  lemma RemainsNothing(lock: HostLock, name: string, listed: seq<Key>, key: Key, now: seq<Key>)
    requires lock.Valid() && key in lock.packages
    requires Remains(lock, name, listed, key, |lock.packages[key].depends|, now)
    ensures InPreorder(lock, name, listed, Some(now))
  {
    hide Unlisted, Preorder;
  }

  /** The mutable arguments of the walk; `keys` are the keys behind the lines. */
  class Closure {
    var visited: set<string>
    var packages: seq<(string, string)>
    ghost var keys: seq<Key>

    constructor (lock: HostLock)
      requires lock.Valid()
      ensures keys == [] && packages == [] && Consistent(lock, keys, visited, packages)
    {
      visited, packages, keys := {}, [], [];
    }

    /**
     `collect_host_package`. It returns on every dependency graph, having done what
     the preorder walk does. After a failure only the result counts; the marks may be
     ahead of the lines.
     */
    method Collect(name: string, lock: HostLock) returns (ok: bool)
      requires Consistent(lock, keys, visited, packages)
      modifies this
      ensures UniqueKeys(lock) ==> Collected(lock, name, old(keys), keys, ok)
      ensures ok ==> Consistent(lock, keys, visited, packages)
      ensures old(keys) <= keys
      ensures InPreorder(lock, name, old(keys), if ok then Some(keys) else None)
      decreases Unlisted(lock, keys)
    {
      hide *;
      ConsistentLock(lock, keys, visited, packages);
      PreorderStops(lock, name, keys);
      var found := lock.KeyFor(name);
      if found.None? {
        NotDeclared(lock, name, keys);
        return false;
      }
      var key := found.value;
      var canonical := CanonicalPackageName(key);
      MarkIsListing(lock, keys, visited, packages, key);
      if canonical in visited {
        if UniqueKeys(lock) {
          AlreadyListed(lock, name, keys);
        }
        return true;
      }
      NotRepresented(keys, key);
      var package := lock.packages[key];
      if package.version.None? {
        visited := visited + {canonical};
        NoVersion(lock, name, key, keys);
        return false;
      }
      ghost var before := keys;
      ListedConsistent(lock, keys, visited, packages, key);
      CollectingStarts(lock, name, key, keys);
      RemainsStarts(lock, name, key, keys);
      ListingOne(lock, keys, key);
      visited := visited + {canonical};
      packages := packages + [lock.Line(key)];
      keys := keys + [key];
      var i := 0;
      while i < |package.depends|
        invariant 0 <= i <= |package.depends|
        invariant UniqueKeys(lock) ==> Collecting(lock, name, key, before, keys, i)
        invariant Remains(lock, name, before, key, i, keys)
        invariant Consistent(lock, keys, visited, packages) && before <= keys
        invariant Unlisted(lock, keys) < Unlisted(lock, before)
      {
        if package.depends[i].None? {
          RemainsBreaks(lock, name, before, key, i, keys);
          if UniqueKeys(lock) {
            CollectingBreaks(lock, name, key, before, keys, i);
          }
          return false;
        }
        ghost var now := keys;
        ok := Collect(package.depends[i].value, lock);
        RemainsNext(lock, name, before, key, i, now, if ok then Some(keys) else None);
        if !ok {
          if UniqueKeys(lock) {
            CollectingFails(lock, name, key, before, now, i, keys);
          }
          return false;
        }
        if UniqueKeys(lock) {
          CollectingNext(lock, name, key, before, now, i, keys);
        }
        ListingMore(lock, now, keys);
        i := i + 1;
      }
      RemainsNothing(lock, name, before, key, keys);
      if UniqueKeys(lock) {
        CollectingDone(lock, name, key, before, keys);
      }
      return true;
    }

    /** The loop over the requested names. */
    method CollectAll(names: seq<string>, lock: HostLock) returns (ok: bool)
      requires Consistent(lock, keys, visited, packages)
      modifies this
      ensures UniqueKeys(lock) ==> CollectedAll(lock, names, old(keys), keys, ok)
      ensures ok ==> Consistent(lock, keys, visited, packages)
      ensures AllInPreorder(lock, names, old(keys), if ok then Some(keys) else None)
    {
      hide *;
      ConsistentLock(lock, keys, visited, packages);
      AllCollectedNone(lock, keys);
      AllRemain(lock, names, keys);
      assert names[..0] == [];
      var i := 0;
      while i < |names|
        invariant 0 <= i <= |names|
        invariant UniqueKeys(lock) ==> CollectedAll(lock, names[..i], old(keys), keys, true)
        invariant Consistent(lock, keys, visited, packages)
        invariant NamesRemain(lock, names, old(keys), i, keys)
      {
        ghost var now := keys;
        ok := Collect(names[i], lock);
        NamesRemainNext(lock, names, old(keys), i, now, keys, ok);
        if UniqueKeys(lock) {
          AllCollectedNext(lock, names, i, old(keys), now, keys, ok);
        }
        if !ok {
          return false;
        }
        i := i + 1;
      }
      assert names[..i] == names;
      NamesRemainNone(lock, names, old(keys), keys);
      return true;
    }
  }

  lemma NotRepresented(keys: seq<Key>, key: Key)
    requires !Represented(keys, key)
    ensures key !in keys
  {
  }

  lemma ConsistentLock(lock: HostLock, keys: seq<Key>, visited: set<string>, lines: seq<(string, string)>)
    requires Consistent(lock, keys, visited, lines)
    ensures lock.Valid()
  {
  }

  // ---- What a whole collection achieves

  lemma AllListed(lock: HostLock, names: seq<string>, after: seq<Key>, k: Key)
    requires lock.Valid() && CollectedAll(lock, names, [], after, true) && ReachedFrom(lock, [], names, k)
    ensures k in after
  {
    var listed := set x | x in after;
    assert Closed(lock, [], listed) && HoldsRoots(lock, names, listed);
    assert k in listed;
  }

  /** From an empty list: success exactly if every name resolves and everything reached is sound. */
  lemma SucceedsExactly(lock: HostLock, names: seq<string>, after: seq<Key>, ok: bool)
    requires lock.Valid() && CollectedAll(lock, names, [], after, ok)
    ensures ok <==> (forall n | n in names :: lock.KeyFor(n).Some?)
                    && forall k :: ReachedFrom(lock, [], names, k) ==> lock.Sound(k)
  {
    if ok {
      forall k | ReachedFrom(lock, [], names, k) ensures lock.Sound(k) {
        AllListed(lock, names, after, k);
      }
    }
  }

  /** And then the list holds exactly the closure, each key once, and the lines are theirs. */
  lemma ListsExactly(lock: HostLock, names: seq<string>, after: seq<Key>, visited: set<string>, lines: seq<(string, string)>)
    requires Consistent(lock, after, visited, lines) && CollectedAll(lock, names, [], after, true)
    ensures forall k :: k in after <==> ReachedFrom(lock, [], names, k)
    ensures names != [] ==> after != [] && Some(after[0]) == lock.KeyFor(names[0])
    ensures Lru.NoDup(after) && |lines| == |after|
    ensures forall i | 0 <= i < |after| :: Listed(lock, after[i], lines[i])
  {
    hide ReachedFrom, CompleteSince, SoundSince;
    forall k | ReachedFrom(lock, [], names, k) ensures k in after {
      AllListed(lock, names, after, k);
    }
  }
}
