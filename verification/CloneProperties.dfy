/** What a caller of `structuredClone` can rely on. */
module CloneProperties {
  import opened Wrappers
  import opened ObjectGraph
  import opened LeafCopies
  import opened StructuredClone

  /** A whole clone: the outcome of `cloneValue` on an empty memo. */
  ghost predicate CloneOf(source: Heap, h: Heap, next: Ref, seen: map<Ref, Ref>, v: Value, w: Value) {
    In(v, source) && Returned(source, source, map[], h, next, seen, v, w) && Apart(source, h)
  }

  /** `structuredClone`: the new memory, the memo and the copy. */
  method Clone(source: Heap, next: Ref, v: Value)
    returns (h: Heap, after: Ref, seen: map<Ref, Ref>, w: Value)
    requires WellFormed(source) && In(v, source) && forall r | r in source :: r < next
    ensures CloneOf(source, h, after, seen, v, w)
  {
    var cloner := new Cloner(source, next);
    NothingPlaced(source);
    w := cloner.CloneValue(v);
    h, after, seen := cloner.heap, cloner.next, cloner.seen;
  }

  /** The source is untouched. */
  lemma SourceUnchanged(source: Heap, h: Heap, next: Ref, seen: map<Ref, Ref>, v: Value, w: Value)
    requires CloneOf(source, h, next, seen, v, w)
    ensures forall r | r in source :: r in h && h[r] == source[r]
  {
  }

  // ---- The memo holds what can be reached

  ghost function SeenAndLeaves(source: Heap, seen: map<Ref, Ref>): set<Ref> {
    seen.Keys + set r | r in source && source[r].kind.Leaf?
  }

  lemma SeenIsClosed(source: Heap, h: Heap, next: Ref, seen: map<Ref, Ref>, v: Value, w: Value)
    requires CloneOf(source, h, next, seen, v, w)
    ensures Closed(source, SeenAndLeaves(source, seen)) && Rooted(v, SeenAndLeaves(source, seen))
  {
    var s := SeenAndLeaves(source, seen);
    forall r, i | r in s && r in source && 0 <= i < |source[r].kids|
      ensures source[r].kids[i].Object? ==> source[r].kids[i].ref in s
    {
      var kid := source[r].kids[i];
      if r in seen {
        assert Copied(source, h, seen, r);
        assert Cloned(source, h, seen, kid, h[seen[r]].kids[i]);
      }
    }
  }

  /** Exactly the containers reachable from the argument are copied, each to one new object. */
  lemma CopiedIffReachable(source: Heap, h: Heap, next: Ref, seen: map<Ref, Ref>, v: Value, w: Value, r: Ref)
    requires CloneOf(source, h, next, seen, v, w)
    ensures r in seen <==> IsContainer(source, r) && Reachable(source, v, r)
    ensures r in seen ==> seen[r] in h && seen[r] !in source && Copied(source, h, seen, r)
  {
    if r in seen {
      forall s: set<Ref> | Closed(source, s) && Rooted(v, s) ensures r in s {
        assert Within(source, map[], seen, v);
      }
    }
    if IsContainer(source, r) && Reachable(source, v, r) {
      SeenIsClosed(source, h, next, seen, v, w);
      assert r in SeenAndLeaves(source, seen);
    }
  }

  // ---- The copy is fresh

  lemma NewObjectsClosed(source: Heap, h: Heap, next: Ref, seen: map<Ref, Ref>, v: Value, w: Value)
    requires CloneOf(source, h, next, seen, v, w)
    ensures Closed(h, h.Keys - source.Keys) && Rooted(w, h.Keys - source.Keys)
  {
    var added := h.Keys - source.Keys;
    forall x, i | x in added && x in h && 0 <= i < |h[x].kids| ensures h[x].kids[i].Object? ==> h[x].kids[i].ref in added {
      assert x in seen.Values;
      var r :| r in seen && seen[r] == x;
      assert Copied(source, h, seen, r);
      assert Cloned(source, h, seen, source[r].kids[i], h[x].kids[i]);
    }
  }

  /** Nothing that can be reached from the copy belongs to the source. */
  lemma CopySharesNothing(source: Heap, h: Heap, next: Ref, seen: map<Ref, Ref>, v: Value, w: Value, x: Ref)
    requires CloneOf(source, h, next, seen, v, w) && Reachable(h, w, x)
    ensures x in h && x !in source
  {
    NewObjectsClosed(source, h, next, seen, v, w);
    assert x in h.Keys - source.Keys;
  }

  // ---- The copy has the same shape

  /** The value at the end of a path of positions, if the path exists. */
  function Follow(h: Heap, v: Value, path: seq<nat>): Option<Value>
    decreases |path|
  {
    if path == [] then Some(v)
    else if v.Object? && v.ref in h && path[0] < |h[v.ref].kids| then Follow(h, h[v.ref].kids[path[0]], path[1..])
    else None
  }

  /** Same kind, same keys, same number of values. */
  ghost predicate Alike(source: Heap, h: Heap, v: Value, w: Value) {
    if v.Primitive? then w == v
    else
      && w.Object? && v.ref in source && w.ref in h
      && h[w.ref].kind == source[v.ref].kind && h[w.ref].keys == source[v.ref].keys
      && |h[w.ref].kids| == |source[v.ref].kids|
  }

  /** The copy of every value the clone met, and the copies of the values inside it. */
  lemma ClonedAlike(source: Heap, h: Heap, next: Ref, seen: map<Ref, Ref>, v: Value, w: Value, a: Value, b: Value)
    requires CloneOf(source, h, next, seen, v, w)
    requires Cloned(source, h, seen, a, b)
    ensures Alike(source, h, a, b)
    ensures a.Object? ==> forall i | 0 <= i < |source[a.ref].kids| ::
              Cloned(source, h, seen, source[a.ref].kids[i], h[b.ref].kids[i])
  {
    if a.Object? {
      if IsContainer(source, a.ref) {
        assert Copied(source, h, seen, a.ref);
      } else {
        assert WellFormedNode(source[a.ref]);
      }
    }
  }

  lemma {:induction false} FollowCloned(source: Heap, h: Heap, next: Ref, seen: map<Ref, Ref>, v: Value, w: Value,
                                        a: Value, b: Value, path: seq<nat>)
    requires CloneOf(source, h, next, seen, v, w) && Cloned(source, h, seen, a, b)
    ensures Follow(source, a, path).Some? <==> Follow(h, b, path).Some?
    ensures Follow(source, a, path).Some? ==>
              Cloned(source, h, seen, Follow(source, a, path).value, Follow(h, b, path).value)
    decreases |path|
  {
    ClonedAlike(source, h, next, seen, v, w, a, b);
    if path != [] && a.Object? && path[0] < |source[a.ref].kids| {
      FollowCloned(source, h, next, seen, v, w, source[a.ref].kids[path[0]], h[b.ref].kids[path[0]], path[1..]);
    }
  }

  /** Every path leads somewhere in the copy exactly if it does in the source, and to something alike. */
  lemma PathsCorrespond(source: Heap, h: Heap, next: Ref, seen: map<Ref, Ref>, v: Value, w: Value, path: seq<nat>)
    requires CloneOf(source, h, next, seen, v, w)
    ensures Follow(source, v, path).Some? <==> Follow(h, w, path).Some?
    ensures Follow(source, v, path).Some? ==>
              Alike(source, h, Follow(source, v, path).value, Follow(h, w, path).value)
  {
    FollowCloned(source, h, next, seen, v, w, v, w, path);
    if Follow(source, v, path).Some? {
      ClonedAlike(source, h, next, seen, v, w, Follow(source, v, path).value, Follow(h, w, path).value);
    }
  }

  lemma ClonesAgree(source: Heap, h: Heap, next: Ref, seen: map<Ref, Ref>, v: Value, w: Value,
                    a: Value, wa: Value, b: Value, wb: Value)
    requires CloneOf(source, h, next, seen, v, w) && !IsLeaf(source, a)
    requires Cloned(source, h, seen, a, wa) && Cloned(source, h, seen, b, wb)
    ensures wa == wb <==> a == b
  {
    if a.Object? && b.Object? && !IsContainer(source, b.ref) {
      assert h[wa.ref].kind != h[wb.ref].kind;
    }
  }

  /**
   Sharing and cycles: two paths meet in the copy exactly if they meet in the source,
   wherever they lead except to a leaf.
   */
  lemma SharingPreserved(source: Heap, h: Heap, next: Ref, seen: map<Ref, Ref>, v: Value, w: Value,
                         p: seq<nat>, q: seq<nat>)
    requires CloneOf(source, h, next, seen, v, w)
    requires Follow(source, v, p).Some? && Follow(source, v, q).Some? && !IsLeaf(source, Follow(source, v, p).value)
    ensures Follow(h, w, p) == Follow(h, w, q) <==> Follow(source, v, p) == Follow(source, v, q)
  {
    FollowCloned(source, h, next, seen, v, w, v, w, p);
    FollowCloned(source, h, next, seen, v, w, v, w, q);
    ClonesAgree(source, h, next, seen, v, w, Follow(source, v, p).value, Follow(h, w, p).value,
                Follow(source, v, q).value, Follow(h, w, q).value);
  }

  // ---- Leaves are copied once for every place

  lemma {:induction false} FollowAppend(h: Heap, v: Value, path: seq<nat>, i: nat)
    ensures Follow(h, v, path + [i]) ==
            if Follow(h, v, path).None? then None else Follow(h, Follow(h, v, path).value, [i])
    decreases |path|
  {
    if path == [] {
      assert path + [i] == [i];
    } else if v.Object? && v.ref in h && path[0] < |h[v.ref].kids| {
      assert (path + [i])[1..] == path[1..] + [i];
      FollowAppend(h, h[v.ref].kids[path[0]], path[1..], i);
    }
  }

  /** The same container and the same position in it, or the argument itself. */
  ghost predicate SamePlace(source: Heap, v: Value, p: seq<nat>, q: seq<nat>) {
    || p == q
    || (p != [] && q != [] && p[|p| - 1] == q[|q| - 1]
        && Follow(source, v, p[..|p| - 1]) == Follow(source, v, q[..|q| - 1]))
  }

  /** A path that ends in something goes through a container, whose copy is a new object. */
  lemma LastStep(source: Heap, h: Heap, next: Ref, seen: map<Ref, Ref>, v: Value, w: Value, p: seq<nat>)
    returns (parent: Value, copy: Value)
    requires CloneOf(source, h, next, seen, v, w) && p != [] && Follow(source, v, p).Some?
    ensures Follow(source, v, p[..|p| - 1]) == Some(parent) && Follow(h, w, p[..|p| - 1]) == Some(copy)
    ensures !IsLeaf(source, parent) && Cloned(source, h, seen, parent, copy)
    ensures copy.Object? && Follow(h, w, p).Some?
    ensures StandsAt(source, h, copy.ref, p[|p| - 1], Follow(h, w, p).value)
  {
    var init, i := p[..|p| - 1], p[|p| - 1];
    assert p == init + [i];
    FollowAppend(source, v, init, i);
    FollowAppend(h, w, init, i);
    FollowCloned(source, h, next, seen, v, w, v, w, init);
    FollowCloned(source, h, next, seen, v, w, v, w, p);
    parent, copy := Follow(source, v, init).value, Follow(h, w, init).value;
    FollowOne(source, parent, i);
    FollowOne(h, copy, i);
    hide Follow, Copied;
    assert WellFormedNode(source[parent.ref]);
  }

  lemma FollowOne(h: Heap, v: Value, i: nat)
    ensures Follow(h, v, [i]) ==
            if v.Object? && v.ref in h && i < |h[v.ref].kids| then Some(h[v.ref].kids[i]) else None
  {
  }

  lemma RootCloned(source: Heap, h: Heap, next: Ref, seen: map<Ref, Ref>, v: Value, w: Value)
    requires CloneOf(source, h, next, seen, v, w)
    ensures Cloned(source, h, seen, v, w)
  {
  }

  /** Where the copies of two leaves meet, the paths end in one place. */
  lemma LeavesMeet(source: Heap, h: Heap, next: Ref, seen: map<Ref, Ref>, v: Value, w: Value, p: seq<nat>, q: seq<nat>)
    requires CloneOf(source, h, next, seen, v, w) && p != [] && q != []
    requires Follow(source, v, p).Some? && Follow(source, v, q).Some?
    requires IsLeaf(source, Follow(source, v, p).value)
    ensures Follow(h, w, p) == Follow(h, w, q) <==> SamePlace(source, v, p, q)
  {
    hide Follow, Apart;
    RootCloned(source, h, next, seen, v, w);
    hide Returned;
    var parent, copy := LastStep(source, h, next, seen, v, w, p);
    var other, otherCopy := LastStep(source, h, next, seen, v, w, q);
    FollowCloned(source, h, next, seen, v, w, v, w, p);
    ClonesAgree(source, h, next, seen, v, w, parent, copy, other, otherCopy);
    if Follow(h, w, p) == Follow(h, w, q) {
      OnePlace(source, h, copy.ref, p[|p| - 1], otherCopy.ref, q[|q| - 1], Follow(h, w, p).value);
    }
  }

  lemma OnePlace(source: Heap, h: Heap, x: Ref, i: nat, y: Ref, j: nat, w: Value)
    requires Apart(source, h) && IsLeafIn(h, w) && StandsAt(source, h, x, i, w) && StandsAt(source, h, y, j, w)
    ensures x == y && i == j
  {
  }

  lemma LeafEndsPath(source: Heap, h: Heap, next: Ref, seen: map<Ref, Ref>, v: Value, w: Value, path: seq<nat>)
    requires CloneOf(source, h, next, seen, v, w) && IsLeaf(source, v) && Follow(source, v, path).Some?
    ensures path == []
  {
    assert WellFormedNode(source[v.ref]);
  }

  /**
   Sharing of leaves is lost: two paths meet in the copy exactly if they meet in the
   source and do not end in a leaf, or end in one and the same place of it.
   */
  lemma PathsMeetExactly(source: Heap, h: Heap, next: Ref, seen: map<Ref, Ref>, v: Value, w: Value,
                         p: seq<nat>, q: seq<nat>)
    requires CloneOf(source, h, next, seen, v, w)
    requires Follow(source, v, p).Some? && Follow(source, v, q).Some?
    ensures Follow(h, w, p) == Follow(h, w, q) <==>
              Follow(source, v, p) == Follow(source, v, q) &&
              (IsLeaf(source, Follow(source, v, p).value) ==> SamePlace(source, v, p, q))
  {
    hide CloneOf;
    if !IsLeaf(source, Follow(source, v, p).value) {
      SharingPreserved(source, h, next, seen, v, w, p, q);
    } else if p == [] {
      LeafEndsPath(source, h, next, seen, v, w, q);
    } else if q == [] {
      QuietRoot(source, h, next, seen, v, w, p);
    } else {
      LeavesMeet(source, h, next, seen, v, w, p, q);
      if SamePlace(source, v, p, q) {
        SamePlaceMeets(source, v, p, q);
      }
    }
  }

  lemma SamePlaceMeets(source: Heap, v: Value, p: seq<nat>, q: seq<nat>)
    requires SamePlace(source, v, p, q)
    ensures Follow(source, v, p) == Follow(source, v, q)
  {
    if p != [] && q != [] {
      FollowAppend(source, v, p[..|p| - 1], p[|p| - 1]);
      FollowAppend(source, v, q[..|q| - 1], q[|q| - 1]);
      assert p == p[..|p| - 1] + [p[|p| - 1]] && q == q[..|q| - 1] + [q[|q| - 1]];
    }
  }

  /** A path that leads to a leaf leads elsewhere than the argument, which is a container. */
  lemma QuietRoot(source: Heap, h: Heap, next: Ref, seen: map<Ref, Ref>, v: Value, w: Value, p: seq<nat>)
    requires CloneOf(source, h, next, seen, v, w) && p != []
    requires Follow(source, v, p).Some? && IsLeaf(source, Follow(source, v, p).value)
    ensures Follow(source, v, p) != Some(v) && Follow(h, w, p) != Some(w)
  {
    FollowCloned(source, h, next, seen, v, w, v, w, p);
    if IsLeaf(source, v) {
      LeafEndsPath(source, h, next, seen, v, w, p);
    } else {
      ClonesAgree(source, h, next, seen, v, w, v, w, Follow(source, v, p).value, Follow(h, w, p).value);
    }
  }

  /**
   In one container: two positions that hold the same object hold the same copy
   afterwards exactly if the object is no date, regular expression or buffer.
   */
  lemma LeafSharingLost(source: Heap, h: Heap, next: Ref, seen: map<Ref, Ref>, v: Value, w: Value,
                        r: Ref, i: nat, j: nat)
    requires CloneOf(source, h, next, seen, v, w) && IsContainer(source, r) && Reachable(source, v, r)
    requires i < j < |source[r].kids| && source[r].kids[i] == source[r].kids[j]
    ensures r in seen && seen[r] in h && |h[seen[r]].kids| == |source[r].kids|
    ensures h[seen[r]].kids[i] == h[seen[r]].kids[j] <==> !IsLeaf(source, source[r].kids[i])
  {
    CopiedIffReachable(source, h, next, seen, v, w, r);
    assert Cloned(source, h, seen, source[r].kids[i], h[seen[r]].kids[i]);
    assert Cloned(source, h, seen, source[r].kids[j], h[seen[r]].kids[j]);
  }

  /** `{a: {d}, b: {d}}`, with one date under both. */
  const ONE_DATE: Heap :=
    map[0 := Node(PlainKind, ["a", "b"], [Object(1), Object(2)]),
        1 := Node(PlainKind, ["d"], [Object(3)]),
        2 := Node(PlainKind, ["d"], [Object(3)]),
        3 := Node(Leaf(0), [], [])]

  lemma FollowTwo(h: Heap, r: Ref, i: nat, m: Ref, j: nat, v: Value)
    requires r in h && i < |h[r].kids| && h[r].kids[i] == Object(m)
    requires m in h && j < |h[m].kids| && h[m].kids[j] == v
    ensures Follow(h, Object(r), [i, j]) == Some(v) && Follow(h, Object(r), [i]) == Some(Object(m))
  {
    assert [i, j][1..] == [j] && [j][1..] == [] && [i][1..] == [];
    assert Follow(h, v, []) == Some(v) && Follow(h, Object(m), []) == Some(Object(m));
    assert Follow(h, Object(m), [j]) == Some(v);
  }

  lemma OneDateIsWellFormed()
    ensures WellFormed(ONE_DATE) && In(Object(0), ONE_DATE) && forall r | r in ONE_DATE :: r < 4
    ensures IsLeaf(ONE_DATE, Object(3))
  {
    assert "a" != "b" by { assert "a"[0] != "b"[0]; }
    assert forall r | r in ONE_DATE :: WellFormedNode(ONE_DATE[r]);
  }

  lemma DifferentPlaces()
    ensures !SamePlace(ONE_DATE, Object(0), [0, 0], [1, 0])
  {
    FollowTwo(ONE_DATE, 0, 0, 1, 0, Object(3));
    FollowTwo(ONE_DATE, 0, 1, 2, 0, Object(3));
    hide Follow;
    var p: seq<nat>, q: seq<nat> := [0, 0], [1, 0];
    assert p[..|p| - 1] == [0] && q[..|q| - 1] == [1] && p[0] != q[0];
  }

  /** Whoever clones it, both paths lead to one date in the source and to two in the copy. */
  lemma OneDateBecomesTwo(h: Heap, next: Ref, seen: map<Ref, Ref>, w: Value)
    requires CloneOf(ONE_DATE, h, next, seen, Object(0), w)
    ensures Follow(ONE_DATE, Object(0), [0, 0]) == Follow(ONE_DATE, Object(0), [1, 0]) == Some(Object(3))
    ensures Follow(h, w, [0, 0]).Some? && Follow(h, w, [1, 0]).Some? && Follow(h, w, [0, 0]) != Follow(h, w, [1, 0])
  {
    FollowTwo(ONE_DATE, 0, 0, 1, 0, Object(3));
    FollowTwo(ONE_DATE, 0, 1, 2, 0, Object(3));
    OneDateIsWellFormed();
    DifferentPlaces();
    hide CloneOf, Follow, SamePlace, IsLeaf;
    PathsCorrespond(ONE_DATE, h, next, seen, Object(0), w, [0, 0]);
    PathsCorrespond(ONE_DATE, h, next, seen, Object(0), w, [1, 0]);
    PathsMeetExactly(ONE_DATE, h, next, seen, Object(0), w, [0, 0], [1, 0]);
  }

  /** And the clone is made: sharing of a date is lost on an input. */
  method CloneOneDate() returns (h: Heap, w: Value)
    ensures Follow(ONE_DATE, Object(0), [0, 0]) == Follow(ONE_DATE, Object(0), [1, 0]) == Some(Object(3))
    ensures Follow(h, w, [0, 0]).Some? && Follow(h, w, [1, 0]).Some? && Follow(h, w, [0, 0]) != Follow(h, w, [1, 0])
  {
    hide WellFormed, CloneOf, Follow;
    OneDateIsWellFormed();
    var next, seen;
    h, next, seen, w := Clone(ONE_DATE, 4, Object(0));
    OneDateBecomesTwo(h, next, seen, w);
  }
}
