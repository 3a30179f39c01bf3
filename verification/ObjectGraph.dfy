/** Graphs of JavaScript values, and what it means for one to be a copy of another. */
module ObjectGraph {
  import Lru

  type Ref = nat

  /** Anything that is not an object, functions included, is compared by identity. */
  datatype Value = Primitive(id: nat) | Object(ref: Ref)

  /** `Leaf` stands for dates, regular expressions and buffers, with their contents. */
  datatype Kind = ArrayKind | PlainKind | MapKind | SetKind | Leaf(content: nat)

  /**
   An object. Arrays and plain objects have one key per value, maps hold key and
   value in turn, sets hold their items; all in iteration order.
   */
  datatype Node = Node(kind: Kind, keys: seq<string>, kids: seq<Value>)

  type Heap = map<Ref, Node>

  ghost predicate WellFormedNode(n: Node) {
    match n.kind
    case ArrayKind => |n.keys| == |n.kids| && Lru.NoDup(n.keys)
    case PlainKind => |n.keys| == |n.kids| && Lru.NoDup(n.keys)
    case MapKind => n.keys == [] && |n.kids| % 2 == 0 && DistinctMapKeys(n.kids)
    case SetKind => n.keys == [] && Lru.NoDup(n.kids)
    case Leaf(_) => n.keys == [] && n.kids == []
  }

  ghost predicate DistinctMapKeys(kids: seq<Value>) {
    forall i, j | 0 <= i < j < |kids| && i % 2 == 0 && j % 2 == 0 :: kids[i] != kids[j]
  }

  ghost predicate In(v: Value, h: Heap) {
    v.Object? ==> v.ref in h
  }

  ghost predicate WellFormed(h: Heap) {
    && (forall r | r in h :: WellFormedNode(h[r]))
    && (forall r, i | r in h && 0 <= i < |h[r].kids| :: In(h[r].kids[i], h))
  }

  predicate IsContainer(h: Heap, r: Ref) {
    r in h && !h[r].kind.Leaf?
  }

  predicate IsLeaf(h: Heap, v: Value) {
    v.Object? && !IsContainer(h, v.ref)
  }

  /** A set of objects that contains the objects its containers refer to. */
  ghost predicate Closed(h: Heap, s: set<Ref>) {
    forall r, i | r in s && r in h && 0 <= i < |h[r].kids| :: h[r].kids[i].Object? ==> h[r].kids[i].ref in s
  }

  ghost predicate Rooted(v: Value, s: set<Ref>) {
    v.Object? ==> v.ref in s
  }

  /** `r` belongs to every closed set around `v`, that is, can be reached from it. */
  ghost predicate Reachable(h: Heap, v: Value, r: Ref) {
    forall s: set<Ref> | Closed(h, s) && Rooted(v, s) :: r in s
  }

  // ---- Copies

  /** Nothing that was there has changed. */
  ghost predicate Extends<K(!new), V>(before: map<K, V>, after: map<K, V>) {
    forall k | k in before :: k in after && after[k] == before[k]
  }

  /** `w` is what `v` becomes: itself, the one copy of a container, or a copy of a leaf. */
  ghost predicate Cloned(source: Heap, h: Heap, seen: map<Ref, Ref>, v: Value, w: Value) {
    if v.Primitive? then w == v
    else if IsContainer(source, v.ref) then v.ref in seen && w == Object(seen[v.ref])
    else w.Object? && v.ref in source && w.ref in h && w.ref !in source && h[w.ref] == source[v.ref]
  }

  /**
   The first `n` values, with their keys if they have any, are copied into `copy`;
   leaves are copied once for every position.
   */
  ghost predicate CopiedUpTo(source: Heap, h: Heap, seen: map<Ref, Ref>, node: Node, copy: Node, n: nat) {
    && n <= |node.kids| && |copy.kids| == n
    && copy.kind == node.kind
    && copy.keys == (if |node.keys| <= n then node.keys else node.keys[..n])
    && (forall i | 0 <= i < n :: Cloned(source, h, seen, node.kids[i], copy.kids[i]))
    && (forall i, j | 0 <= i < j < n && IsLeaf(source, node.kids[j]) :: copy.kids[i] != copy.kids[j])
  }

  ghost predicate Copied(source: Heap, h: Heap, seen: map<Ref, Ref>, r: Ref) {
    && r in source && r in seen && seen[r] in h
    && CopiedUpTo(source, h, seen, source[r], h[seen[r]], |source[r].kids|)
  }

  lemma ClonedGrows(source: Heap, h: Heap, seen: map<Ref, Ref>, h': Heap, seen': map<Ref, Ref>, v: Value, w: Value)
    requires Cloned(source, h, seen, v, w) && Extends(h, h') && Extends(seen, seen')
    ensures Cloned(source, h', seen', v, w)
  {
  }

  lemma CopiedUpToGrows(source: Heap, h: Heap, seen: map<Ref, Ref>, h': Heap, seen': map<Ref, Ref>,
                        node: Node, copy: Node, n: nat)
    requires CopiedUpTo(source, h, seen, node, copy, n) && Extends(h, h') && Extends(seen, seen')
    ensures CopiedUpTo(source, h', seen', node, copy, n)
  {
    forall i | 0 <= i < n ensures Cloned(source, h', seen', node.kids[i], copy.kids[i]) {
      ClonedGrows(source, h, seen, h', seen', node.kids[i], copy.kids[i]);
    }
  }

  lemma CopiedGrows(source: Heap, h: Heap, seen: map<Ref, Ref>, h': Heap, seen': map<Ref, Ref>, r: Ref)
    requires Copied(source, h, seen, r) && Extends(h, h') && Extends(seen, seen')
    ensures Copied(source, h', seen', r)
  {
    CopiedUpToGrows(source, h, seen, h', seen', source[r], h[seen[r]], |source[r].kids|);
  }

  // ---- The memo

  /** The memo maps containers, one to one, to new objects of the same kind. */
  ghost predicate Memo(source: Heap, h: Heap, seen: map<Ref, Ref>) {
    && (forall r | r in seen ::
          IsContainer(source, r) && seen[r] in h && seen[r] !in source && h[seen[r]].kind == source[r].kind)
    && (forall r, q | r in seen && q in seen && seen[r] == seen[q] :: r == q)
  }

  /** Different values have different copies, given that each leaf copy is new when made. */
  lemma ClonesDiffer(source: Heap, before: Heap, h: Heap, seen: map<Ref, Ref>, a: Value, wa: Value, b: Value, wb: Value)
    requires Memo(source, h, seen) && a != b
    requires Cloned(source, h, seen, a, wa) && Cloned(source, h, seen, b, wb)
    requires In(wa, before)
    requires IsLeaf(source, b) ==> wb.Object? && wb.ref !in before
    ensures wa != wb
  {
    if a.Object? && b.Object? && IsContainer(source, a.ref) != IsContainer(source, b.ref) {
      assert h[wa.ref].kind != h[wb.ref].kind;
    }
  }

  /** Storing into a container disturbs no copy made so far. */
  lemma ClonedKept(source: Heap, h: Heap, seen: map<Ref, Ref>, x: Ref, n: Node, v: Value, w: Value)
    requires Cloned(source, h, seen, v, w) && WellFormed(source)
    requires x in h && !h[x].kind.Leaf?
    ensures Cloned(source, h[x := n], seen, v, w)
  {
  }

  lemma CopiedUpToKept(source: Heap, h: Heap, seen: map<Ref, Ref>, x: Ref, n: Node, node: Node, copy: Node, k: nat)
    requires CopiedUpTo(source, h, seen, node, copy, k) && WellFormed(source)
    requires x in h && !h[x].kind.Leaf?
    ensures CopiedUpTo(source, h[x := n], seen, node, copy, k)
  {
    forall i | 0 <= i < k ensures Cloned(source, h[x := n], seen, node.kids[i], copy.kids[i]) {
      ClonedKept(source, h, seen, x, n, node.kids[i], copy.kids[i]);
    }
  }

  predicate LeafNode(n: Node) {
    n.kind.Leaf? && n.kids == []
  }

  /** What a stretch of cloning may do: add objects, and finish whatever it adds to the memo. */
  ghost predicate Progress(source: Heap, h0: Heap, s0: map<Ref, Ref>, h: Heap, seen: map<Ref, Ref>) {
    && Extends(h0, h) && Extends(s0, seen)
    && (forall r | r in seen && r !in s0 :: Copied(source, h, seen, r))
    && (forall x | x in h && x !in h0 :: LeafNode(h[x]) || x in seen.Values)
  }

  /** Everything newly in the memo lies in every closed set around the roots. */
  ghost predicate Within(source: Heap, s0: map<Ref, Ref>, seen: map<Ref, Ref>, v: Value) {
    forall s: set<Ref>, r | Closed(source, s) && Rooted(v, s) && r in seen && r !in s0 :: r in s
  }

  /** Like `Progress`, while container `r` is being filled into `x` and holds `n` values. */
  ghost predicate Filling(source: Heap, h0: Heap, s0: map<Ref, Ref>, h: Heap, seen: map<Ref, Ref>,
                          r: Ref, x: Ref, n: nat) {
    && IsContainer(source, r) && r !in s0 && x !in h0
    && Extends(h0, h) && Extends(s0, seen)
    && r in seen && seen[r] == x && x in h && !h[x].kind.Leaf?
    && CopiedUpTo(source, h, seen, source[r], h[x], n)
    && (forall q | q in seen && q !in s0 && q != r :: Copied(source, h, seen, q))
    && (forall y | y in h && y !in h0 :: LeafNode(h[y]) || y in seen.Values)
    && Within(source, s0, seen, Object(r))
  }

  /** A recursive call leaves the object being filled alone and adds only finished ones. */
  lemma FillingRecurses(source: Heap, h0: Heap, s0: map<Ref, Ref>, h: Heap, seen: map<Ref, Ref>,
                        r: Ref, x: Ref, n: nat, k: nat, h': Heap, seen': map<Ref, Ref>)
    requires Filling(source, h0, s0, h, seen, r, x, n) && k < |source[r].kids|
    requires Progress(source, h, seen, h', seen') && Within(source, seen, seen', source[r].kids[k])
    ensures Filling(source, h0, s0, h', seen', r, x, n)
  {
    CopiedUpToGrows(source, h, seen, h', seen', source[r], h[x], n);
    forall q | q in seen' && q !in s0 && q != r ensures Copied(source, h', seen', q) {
      if q in seen {
        CopiedGrows(source, h, seen, h', seen', q);
      }
    }
    forall y | y in h' && y !in h0 ensures LeafNode(h'[y]) || y in seen'.Values {
      if y in h && y in seen.Values {
        var q :| q in seen && seen[q] == y;
        assert seen'[q] == y;
      }
    }
    WithinRecurses(source, s0, seen, seen', r, k);
  }

  lemma WithinRecurses(source: Heap, s0: map<Ref, Ref>, seen: map<Ref, Ref>, seen': map<Ref, Ref>, r: Ref, k: nat)
    requires IsContainer(source, r) && k < |source[r].kids|
    requires Within(source, s0, seen, Object(r)) && Within(source, seen, seen', source[r].kids[k])
    ensures Within(source, s0, seen', Object(r))
  {
    forall s: set<Ref>, q | Closed(source, s) && Rooted(Object(r), s) && q in seen' && q !in s0 ensures q in s {
      assert Rooted(source[r].kids[k], s);
    }
  }

  /** Storing further copied values fills on. */
  lemma FillingStores(source: Heap, h0: Heap, s0: map<Ref, Ref>, h: Heap, seen: map<Ref, Ref>,
                      r: Ref, x: Ref, n: nat, node: Node, m: nat)
    requires WellFormed(source) && Memo(source, h, seen)
    requires Filling(source, h0, s0, h, seen, r, x, n)
    requires CopiedUpTo(source, h, seen, source[r], node, m)
    ensures Filling(source, h0, s0, h[x := node], seen, r, x, m)
    ensures Memo(source, h[x := node], seen)
  {
    CopiedUpToKept(source, h, seen, x, node, source[r], node, m);
    KindStored(source, h0, s0, h, seen, r, x, n, node, m);
    hide CopiedUpTo, Cloned, Within, WellFormed, Copied, Memo, IsContainer;
    forall q | q in seen && q !in s0 && q != r ensures Copied(source, h[x := node], seen, q) {
      CopiedStays(source, h, seen, r, node, q);
    }
  }

  /** What the new node keeps of the old one. */
  lemma KindStored(source: Heap, h0: Heap, s0: map<Ref, Ref>, h: Heap, seen: map<Ref, Ref>,
                   r: Ref, x: Ref, n: nat, node: Node, m: nat)
    requires Memo(source, h, seen) && Filling(source, h0, s0, h, seen, r, x, n)
    requires CopiedUpTo(source, h, seen, source[r], node, m)
    ensures !node.kind.Leaf? && Memo(source, h[x := node], seen) && x !in source
  {
    hide Cloned, Copied, Within, Extends;
  }

  /** Storing into the copy of `r` leaves the copies of other containers alone. */
  lemma CopiedStays(source: Heap, h: Heap, seen: map<Ref, Ref>, r: Ref, node: Node, q: Ref)
    requires WellFormed(source) && Memo(source, h, seen) && Copied(source, h, seen, q) && q != r
    requires r in seen && seen[r] in h && !h[seen[r]].kind.Leaf?
    ensures Copied(source, h[seen[r] := node], seen, q)
  {
    hide Cloned, CopiedUpTo, WellFormed;
    CopiedUpToKept(source, h, seen, seen[r], node, source[q], h[seen[q]], |source[q].kids|);
  }

  lemma FilledIsProgress(source: Heap, h0: Heap, s0: map<Ref, Ref>, h: Heap, seen: map<Ref, Ref>, r: Ref, x: Ref)
    requires IsContainer(source, r)
    requires Filling(source, h0, s0, h, seen, r, x, |source[r].kids|)
    ensures Progress(source, h0, s0, h, seen) && Within(source, s0, seen, Object(r))
  {
  }

  /** Starting to fill: an empty object of the same kind, already in the memo. */
  lemma FillingStarts(source: Heap, h0: Heap, s0: map<Ref, Ref>, r: Ref, x: Ref)
    requires Memo(source, h0, s0) && IsContainer(source, r) && Extends(source, h0) && r !in s0 && x !in h0
    ensures var empty := Node(source[r].kind, [], []);
            && Filling(source, h0, s0, h0[x := empty], s0[r := x], r, x, 0)
            && Memo(source, h0[x := empty], s0[r := x])
  {
    var seen := s0[r := x];
    assert seen[r] == x;
  }

  /** The state of a clone between two steps: `next` is above every object. */
  ghost predicate Sound(source: Heap, h: Heap, next: Ref, seen: map<Ref, Ref>) {
    && WellFormed(source) && Extends(source, h) && Memo(source, h, seen)
    && forall r | r in h :: r < next
  }
}
