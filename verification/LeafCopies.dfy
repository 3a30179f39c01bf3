/** Copies of dates, regular expressions and buffers: each stands in one place only. */
module LeafCopies {
  import opened ObjectGraph

  ghost predicate IsLeafIn(h: Heap, w: Value) {
    w.Object? && w.ref in h && h[w.ref].kind.Leaf?
  }

  /** `w` is the `i`-th value of the new object `x`. */
  ghost predicate StandsAt(source: Heap, h: Heap, x: Ref, i: nat, w: Value) {
    x in h && x !in source && i < |h[x].kids| && h[x].kids[i] == w
  }

  /** New objects refer to what is there, and no two places in them hold the same leaf. */
  ghost predicate Apart(source: Heap, h: Heap) {
    && (forall x, i, w | StandsAt(source, h, x, i, w) :: In(w, h))
    && (forall x, i, y, j, w | StandsAt(source, h, x, i, w) && StandsAt(source, h, y, j, w) && IsLeafIn(h, w) ::
          x == y && i == j)
  }

  /** If `w` is a leaf, no new object holds it yet. */
  ghost predicate Unplaced(source: Heap, h: Heap, w: Value) {
    IsLeafIn(h, w) ==> forall x, i :: !StandsAt(source, h, x, i, w)
  }

  /** Objects stay, and leaves that stand nowhere still stand nowhere. */
  ghost predicate KeepsUnplaced(source: Heap, h: Heap, h': Heap) {
    && (forall r | r in h :: r in h')
    && (forall w | IsLeafIn(h, w) && Unplaced(source, h, w) :: IsLeafIn(h', w) && Unplaced(source, h', w))
  }

  lemma NothingPlaced(source: Heap)
    ensures Apart(source, source)
  {
  }

  lemma KeepsSelf(source: Heap, h: Heap)
    ensures KeepsUnplaced(source, h, h)
  {
  }

  lemma KeepsTwice(source: Heap, a: Heap, b: Heap, c: Heap)
    requires KeepsUnplaced(source, a, b) && KeepsUnplaced(source, b, c)
    ensures KeepsUnplaced(source, a, c)
  {
  }

  /** A new object without values, a leaf or an empty container, changes nothing and is nowhere. */
  lemma AllocatedApart(source: Heap, h: Heap, x: Ref, n: Node)
    requires Apart(source, h) && x !in h && n.kids == []
    ensures Apart(source, h[x := n]) && KeepsUnplaced(source, h, h[x := n]) && Unplaced(source, h[x := n], Object(x))
  {
    var h' := h[x := n];
    forall y, i, w | StandsAt(source, h', y, i, w) ensures StandsAt(source, h, y, i, w) {
      assert y != x;
    }
  }

  /** Appending a value to a container under construction. */
  lemma AppendedApart(source: Heap, before: Heap, h: Heap, x: Ref, node: Node, w: Value)
    requires Apart(source, h) && x in h && x !in source && !h[x].kind.Leaf?
    requires node.kind == h[x].kind && node.kids == h[x].kids + [w] && In(w, h) && Unplaced(source, h, w)
    requires KeepsUnplaced(source, before, h) && (IsLeafIn(h, w) ==> w.ref !in before)
    ensures Apart(source, h[x := node]) && KeepsUnplaced(source, before, h[x := node])
  {
    var h' := h[x := node];
    forall y, i, u | StandsAt(source, h', y, i, u)
      ensures StandsAt(source, h, y, i, u) || (y == x && i == |h[x].kids| && u == w)
    {
    }
    forall u ensures IsLeafIn(h', u) == IsLeafIn(h, u) {
    }
  }

  lemma StillUnplaced(source: Heap, h: Heap, x: Ref, node: Node, w: Value, other: Value)
    requires x in h && x !in source && !h[x].kind.Leaf? && node.kind == h[x].kind && node.kids == h[x].kids + [w]
    requires Unplaced(source, h, other) && (IsLeafIn(h, other) ==> other != w)
    ensures Unplaced(source, h[x := node], other)
  {
    var h' := h[x := node];
    forall y, i, u | StandsAt(source, h', y, i, u)
      ensures StandsAt(source, h, y, i, u) || (y == x && u == w)
    {
    }
  }

  /** Appending a key and its entry. */
  lemma PairApart(source: Heap, before: Heap, h: Heap, x: Ref, node: Node, key: Value, entry: Value)
    requires Apart(source, h) && x in h && x !in source && !h[x].kind.Leaf?
    requires node.kind == h[x].kind && node.kids == h[x].kids + [key, entry]
    requires In(key, h) && Unplaced(source, h, key) && In(entry, h) && Unplaced(source, h, entry)
    requires IsLeafIn(h, entry) ==> key != entry
    requires KeepsUnplaced(source, before, h)
    requires (IsLeafIn(h, key) ==> key.ref !in before) && (IsLeafIn(h, entry) ==> entry.ref !in before)
    ensures Apart(source, h[x := node]) && KeepsUnplaced(source, before, h[x := node])
  {
    hide Apart, Unplaced, KeepsUnplaced;
    var half := h[x].(kids := h[x].kids + [key]);
    AppendedApart(source, before, h, x, half, key);
    StillUnplaced(source, h, x, half, key, entry);
    var h1 := h[x := half];
    assert node.kids == h1[x].kids + [entry];
    assert h1[x := node] == h[x := node];
    AppendedApart(source, before, h1, x, node, entry);
  }

  /** The same after a call that brought the value about. */
  lemma AppendedSince(source: Heap, before: Heap, h: Heap, h': Heap, x: Ref, node: Node, w: Value)
    requires KeepsUnplaced(source, before, h) && KeepsUnplaced(source, h, h') && Apart(source, h')
    requires x in h' && x !in source && !h'[x].kind.Leaf?
    requires node.kind == h'[x].kind && node.kids == h'[x].kids + [w] && In(w, h') && Unplaced(source, h', w)
    requires IsLeafIn(h', w) ==> w.ref !in h
    ensures Apart(source, h'[x := node]) && KeepsUnplaced(source, before, h'[x := node])
  {
    KeepsTwice(source, before, h, h');
    hide Apart, Unplaced;
    AppendedApart(source, before, h', x, node, w);
  }

  lemma PairSince(source: Heap, before: Heap, h: Heap, h': Heap, x: Ref, node: Node, key: Value, entry: Value)
    requires KeepsUnplaced(source, before, h) && KeepsUnplaced(source, h, h') && Apart(source, h')
    requires x in h' && x !in source && !h'[x].kind.Leaf?
    requires node.kind == h'[x].kind && node.kids == h'[x].kids + [key, entry]
    requires In(key, h') && Unplaced(source, h', key) && In(entry, h') && Unplaced(source, h', entry)
    requires (IsLeafIn(h', key) ==> key.ref !in before) && (IsLeafIn(h', entry) ==> entry.ref !in h && key != entry)
    ensures Apart(source, h'[x := node]) && KeepsUnplaced(source, before, h'[x := node])
  {
    KeepsTwice(source, before, h, h');
    hide Apart, Unplaced;
    PairApart(source, before, h', x, node, key, entry);
  }

  /** A value that was unplaced before a call is unplaced after it. */
  lemma UnplacedStands(source: Heap, h: Heap, h': Heap, w: Value)
    requires KeepsUnplaced(source, h, h') && Extends(source, h) && In(w, h) && Unplaced(source, h, w)
    requires w.Object? ==> w.ref in h' && h'[w.ref].kind.Leaf? == h[w.ref].kind.Leaf?
    ensures Unplaced(source, h', w)
  {
  }
}
