/** The `structuredClone` polyfill: a recursive copy with a memo of finished and pending objects. */
module StructuredClone {
  import Lru
  import opened ObjectGraph
  import opened LeafCopies

  // ---- Filling a result

  /** `Map.prototype.set` on alternating keys and values. */
  function MapSet(kids: seq<Value>, key: Value, value: Value): seq<Value> {
    if |kids| < 2 then [key, value]
    else if kids[0] == key then [key, value] + kids[2..]
    else kids[..2] + MapSet(kids[2..], key, value)
  }

  function PutEntry(n: Node, key: Value, value: Value): Node {
    n.(kids := MapSet(n.kids, key, value))
  }

  /** `Set.prototype.add`. */
  function AddItem(n: Node, item: Value): Node {
    if item in n.kids then n else n.(kids := n.kids + [item])
  }

  /** Assignment to a property. */
  function SetField(n: Node, key: string, value: Value): Node
    requires |n.keys| == |n.kids|
  {
    if key in n.keys then n.(kids := Overwrite(n.keys, n.kids, key, value))
    else n.(keys := n.keys + [key], kids := n.kids + [value])
  }

  /** The value goes where the key stands first, and nowhere else. */
  function Overwrite(keys: seq<string>, kids: seq<Value>, key: string, value: Value): (r: seq<Value>)
    requires |keys| == |kids|
    ensures |r| == |kids|
    ensures forall i | 0 <= i < |r| :: r[i] == if keys[i] == key && key !in keys[..i] then value else kids[i]
  {
    if keys == [] then []
    else if keys[0] == key then [value] + kids[1..]
    else [kids[0]] + Overwrite(keys[1..], kids[1..], key, value)
  }

  lemma {:induction false} MapSetNewKey(kids: seq<Value>, key: Value, value: Value)
    requires |kids| % 2 == 0
    requires forall i | 0 <= i < |kids| && i % 2 == 0 :: kids[i] != key
    ensures MapSet(kids, key, value) == kids + [key, value]
  {
    if |kids| < 2 {
    } else {
      assert kids[0] != key;
      forall i | 0 <= i < |kids[2..]| && i % 2 == 0 ensures kids[2..][i] != key {
        assert kids[2..][i] == kids[i + 2];
      }
      MapSetNewKey(kids[2..], key, value);
    }
  }

  lemma SetFieldNewKey(n: Node, key: string, value: Value)
    requires |n.keys| == |n.kids| && key !in n.keys
    ensures SetField(n, key, value) == Node(n.kind, n.keys + [key], n.kids + [value])
  {
  }

  // ---- One step of each loop

  /** How many objects are not yet in the memo: what bounds the recursion. */
  ghost function Unseen(source: Heap, seen: map<Ref, Ref>): nat {
    |source.Keys - seen.Keys|
  }

  ghost predicate Grown(before: map<Ref, Ref>, after: map<Ref, Ref>) {
    before.Keys <= after.Keys
  }

  lemma FewerUnseen(source: Heap, before: map<Ref, Ref>, after: map<Ref, Ref>)
    requires Grown(before, after)
    ensures Unseen(source, after) <= Unseen(source, before)
  {
    Lru.SubsetSize(source.Keys - after.Keys, source.Keys - before.Keys);
  }

  lemma OneFewerUnseen(source: Heap, seen: map<Ref, Ref>, r: Ref, x: Ref)
    requires r in source && r !in seen
    ensures Unseen(source, seen[r := x]) < Unseen(source, seen)
  {
    assert source.Keys - seen.Keys == source.Keys - seen[r := x].Keys + {r};
  }

  lemma GrownTwice(a: map<Ref, Ref>, b: map<Ref, Ref>, c: map<Ref, Ref>)
    requires Grown(a, b) && Grown(b, c)
    ensures Grown(a, c)
  {
  }

  lemma GrownSelf(a: map<Ref, Ref>)
    ensures Grown(a, a)
  {
  }

  /** A freshly cloned item is not among the copies made before it. */
  lemma NewItem(source: Heap, h: Heap, h': Heap, seen: map<Ref, Ref>, seen': map<Ref, Ref>,
                node: Node, copy: Node, n: nat, k: nat, w: Value)
    requires Memo(source, h', seen') && Extends(h, h') && Extends(seen, seen')
    requires n <= k < |node.kids| && CopiedUpTo(source, h', seen', node, copy, n)
    requires forall i | 0 <= i < n :: In(copy.kids[i], h) && node.kids[i] != node.kids[k]
    requires Cloned(source, h', seen', node.kids[k], w)
    requires IsLeaf(source, node.kids[k]) ==> w.Object? && w.ref !in h
    ensures w !in copy.kids
  {
    forall i | 0 <= i < n ensures copy.kids[i] != w {
      ClonesDiffer(source, h, h', seen', node.kids[i], copy.kids[i], node.kids[k], w);
    }
  }

  /** A freshly cloned key is not among the keys copied before it. */
  lemma NewKey(source: Heap, h: Heap, h': Heap, seen: map<Ref, Ref>, seen': map<Ref, Ref>,
               node: Node, copy: Node, n: nat, w: Value)
    requires Memo(source, h', seen') && Extends(h, h') && Extends(seen, seen')
    requires n < |node.kids| && n % 2 == 0 && DistinctMapKeys(node.kids)
    requires CopiedUpTo(source, h', seen', node, copy, n)
    requires forall i | 0 <= i < n :: In(copy.kids[i], h)
    requires Cloned(source, h', seen', node.kids[n], w)
    requires IsLeaf(source, node.kids[n]) ==> w.Object? && w.ref !in h
    ensures forall i | 0 <= i < n && i % 2 == 0 :: copy.kids[i] != w
  {
    forall i | 0 <= i < n && i % 2 == 0 ensures copy.kids[i] != w {
      ClonesDiffer(source, h, h', seen', node.kids[i], copy.kids[i], node.kids[n], w);
    }
  }

  lemma SourceKept(source: Heap, h: Heap, next: Ref, seen: map<Ref, Ref>, r: Ref)
    requires Sound(source, h, next, seen) && r in source
    ensures r in h && h[r] == source[r] && next !in h
    ensures WellFormedNode(source[r]) && forall i | 0 <= i < |source[r].kids| :: In(source[r].kids[i], source)
  {
  }

  lemma ObjectKept(source: Heap, h: Heap, next: Ref, seen: map<Ref, Ref>, v: Value)
    requires Sound(source, h, next, seen) && In(v, source) && v.Object?
    ensures v.ref in source && v.ref in h && h[v.ref] == source[v.ref] && next !in h
    ensures IsContainer(source, v.ref) <==> !source[v.ref].kind.Leaf?
  {
  }

  lemma SoundAllocate(source: Heap, h: Heap, next: Ref, seen: map<Ref, Ref>, n: Node)
    requires Sound(source, h, next, seen)
    ensures next !in h && Sound(source, h[next := n], next + 1, seen)
  {
  }

  lemma SoundStarts(source: Heap, h: Heap, next: Ref, seen: map<Ref, Ref>, r: Ref, x: Ref)
    requires Sound(source, h, next, seen) && IsContainer(source, r) && r !in seen && x !in h && x < next + 1
    ensures var empty := Node(source[r].kind, [], []);
            && Sound(source, h[x := empty], next + 1, seen[r := x])
            && Filling(source, h, seen, h[x := empty], seen[r := x], r, x, 0)
  {
    FillingStarts(source, h, seen, r, x);
  }

  lemma SoundStores(source: Heap, h0: Heap, s0: map<Ref, Ref>, h: Heap, next: Ref, seen: map<Ref, Ref>,
                    r: Ref, x: Ref, n: nat, node: Node, m: nat)
    requires Sound(source, h, next, seen) && Filling(source, h0, s0, h, seen, r, x, n)
    requires CopiedUpTo(source, h, seen, source[r], node, m)
    ensures Sound(source, h[x := node], next, seen) && Filling(source, h0, s0, h[x := node], seen, r, x, m)
  {
    FillingStores(source, h0, s0, h, seen, r, x, n, node, m);
  }

  /** What is known once a value of container `r` has been cloned. */
  ghost predicate Returned(source: Heap, h: Heap, seen: map<Ref, Ref>, h': Heap, next': Ref, seen': map<Ref, Ref>,
                           v: Value, w: Value) {
    && Sound(source, h', next', seen')
    && Progress(source, h, seen, h', seen') && Within(source, seen, seen', v)
    && Cloned(source, h', seen', v, w)
    && (IsLeaf(source, v) ==> w.Object? && w.ref !in h)
  }

  /** The copies made so far existed before the call that just returned. */
  lemma CopiesWereThere(source: Heap, h0: Heap, s0: map<Ref, Ref>, h: Heap, next: Ref, seen: map<Ref, Ref>,
                        r: Ref, x: Ref, n: nat)
    requires Sound(source, h, next, seen) && Filling(source, h0, s0, h, seen, r, x, n)
    ensures forall i | 0 <= i < n :: In(h[x].kids[i], h)
  {
    forall i | 0 <= i < n ensures In(h[x].kids[i], h) {
      assert Cloned(source, h, seen, source[r].kids[i], h[x].kids[i]);
    }
  }

  lemma OneMoreCopied(source: Heap, h: Heap, seen: map<Ref, Ref>, node: Node, copy: Node, n: nat, more: Node, w: Value)
    requires CopiedUpTo(source, h, seen, node, copy, n) && n < |node.kids|
    requires Cloned(source, h, seen, node.kids[n], w)
    requires IsLeaf(source, node.kids[n]) ==> w !in copy.kids
    requires more.kind == copy.kind && more.kids == copy.kids + [w]
    requires more.keys == if n < |node.keys| then copy.keys + [node.keys[n]] else copy.keys
    ensures CopiedUpTo(source, h, seen, node, more, n + 1)
  {
    if n < |node.keys| {
      assert node.keys[..n + 1] == node.keys[..n] + [node.keys[n]];
    }
  }

  lemma LeafIsNew(h: Heap, kids: seq<Value>, w: Value, leaf: bool)
    requires forall i | 0 <= i < |kids| :: In(kids[i], h)
    requires leaf ==> w.Object? && w.ref !in h
    ensures leaf ==> w !in kids
  {
  }

  lemma TargetIsNew(source: Heap, h0: Heap, s0: map<Ref, Ref>, h: Heap, next: Ref, seen: map<Ref, Ref>,
                    r: Ref, x: Ref, n: nat)
    requires Sound(source, h, next, seen) && Filling(source, h0, s0, h, seen, r, x, n)
    ensures x in h && x !in source && !h[x].kind.Leaf?
  {
  }

  /** A leaf that comes back from a call was made by it. */
  lemma ReturnedLeafIsNew(source: Heap, h: Heap, seen: map<Ref, Ref>, h': Heap, next': Ref, seen': map<Ref, Ref>,
                          v: Value, w: Value)
    requires Returned(source, h, seen, h', next', seen', v, w)
    ensures In(w, h') && (IsLeafIn(h', w) ==> w.ref !in h)
  {
    if v.Object? && IsContainer(source, v.ref) {
      assert v.ref in seen';
    }
  }

  /** What is in the memo is a container. */
  lemma MemoIsUnplaced(source: Heap, h: Heap, next: Ref, seen: map<Ref, Ref>, r: Ref)
    requires Sound(source, h, next, seen) && r in seen
    ensures Unplaced(source, h, Object(seen[r]))
  {
  }

  lemma ResultIsMemo(source: Heap, h0: Heap, s0: map<Ref, Ref>, h: Heap, next: Ref, seen: map<Ref, Ref>, r: Ref, x: Ref)
    requires Returned(source, h0, s0, h, next, seen, Object(r), Object(x)) && IsContainer(source, r)
    ensures r in seen && seen[r] == x
  {
  }

  /** A key copy that waits is as it was when its entry has been cloned. */
  lemma KeyStands(source: Heap, h: Heap, next: Ref, seen: map<Ref, Ref>, h': Heap, next': Ref, seen': map<Ref, Ref>,
                  v: Value, w: Value, key: Value)
    requires Sound(source, h, next, seen) && Returned(source, h, seen, h', next', seen', v, w)
    requires KeepsUnplaced(source, h, h') && In(key, h) && Unplaced(source, h, key)
    requires IsLeafIn(h', w) ==> w.ref !in h
    ensures In(key, h') && Unplaced(source, h', key)
    ensures IsLeafIn(h', key) <==> IsLeafIn(h, key)
    ensures IsLeafIn(h', w) ==> key != w
  {
    UnplacedStands(source, h, h', key);
  }

  lemma PrimitiveIsUnplaced(source: Heap, h: Heap, v: Value)
    requires v.Primitive?
    ensures Unplaced(source, h, v)
  {
  }

  lemma FieldStored(source: Heap, h0: Heap, s0: map<Ref, Ref>, h: Heap, next: Ref, seen: map<Ref, Ref>,
                    r: Ref, x: Ref, n: nat, h': Heap, next': Ref, seen': map<Ref, Ref>, w: Value)
    requires Sound(source, h, next, seen) && Filling(source, h0, s0, h, seen, r, x, n)
    requires source[r].kind.ArrayKind? || source[r].kind.PlainKind?
    requires n < |source[r].kids| == |source[r].keys|
    requires Returned(source, h, seen, h', next', seen', source[r].kids[n], w)
    ensures x in h' && x !in source && !h'[x].kind.Leaf? && |h'[x].keys| == |h'[x].kids|
    ensures var filled := SetField(h'[x], source[r].keys[n], w);
            && filled.kind == h'[x].kind && filled.kids == h'[x].kids + [w]
            && Sound(source, h'[x := filled], next', seen')
            && Filling(source, h0, s0, h'[x := filled], seen', r, x, n + 1)
  {
    hide Sound, Filling, CopiedUpTo, Cloned, Progress, Within, SetField;
    FillingRecurses(source, h0, s0, h, seen, r, x, n, n, h', seen');
    TargetIsNew(source, h0, s0, h', next', seen', r, x, n);
    CopiesWereThere(source, h0, s0, h, next, seen, r, x, n);
    BetweenCalls(source, h0, s0, h, seen, h', seen', r, x, n);
    LeafIsNew(h, h'[x].kids, w, IsLeaf(source, source[r].kids[n]));
    FieldCopied(source, h', next', seen', r, h'[x], n, w);
    SoundStores(source, h0, s0, h', next', seen', r, x, n, SetField(h'[x], source[r].keys[n], w), n + 1);
  }

  /** The object being filled is as it was before the call. */
  lemma BetweenCalls(source: Heap, h0: Heap, s0: map<Ref, Ref>, h: Heap, seen: map<Ref, Ref>,
                     h': Heap, seen': map<Ref, Ref>, r: Ref, x: Ref, n: nat)
    requires Filling(source, h0, s0, h, seen, r, x, n) && Filling(source, h0, s0, h', seen', r, x, n)
    requires Progress(source, h, seen, h', seen')
    ensures r in source && x in h && x in h' && h'[x] == h[x] && |h[x].kids| == n
    ensures CopiedUpTo(source, h', seen', source[r], h'[x], n)
  {
  }

  lemma FieldCopied(source: Heap, h: Heap, next: Ref, seen: map<Ref, Ref>, r: Ref, copy: Node, n: nat, w: Value)
    requires Sound(source, h, next, seen) && r in source && n < |source[r].kids| == |source[r].keys|
    requires source[r].kind.ArrayKind? || source[r].kind.PlainKind?
    requires CopiedUpTo(source, h, seen, source[r], copy, n) && Cloned(source, h, seen, source[r].kids[n], w)
    requires IsLeaf(source, source[r].kids[n]) ==> w !in copy.kids
    ensures |copy.keys| == |copy.kids| && SetField(copy, source[r].keys[n], w).kids == copy.kids + [w]
    ensures SetField(copy, source[r].keys[n], w).kind == copy.kind
    ensures CopiedUpTo(source, h, seen, source[r], SetField(copy, source[r].keys[n], w), n + 1)
  {
    SourceKept(source, h, next, seen, r);
    var key := source[r].keys[n];
    assert key !in copy.keys;
    SetFieldNewKey(copy, key, w);
    OneMoreCopied(source, h, seen, source[r], copy, n, SetField(copy, key, w), w);
  }

  lemma ItemStored(source: Heap, h0: Heap, s0: map<Ref, Ref>, h: Heap, next: Ref, seen: map<Ref, Ref>,
                   r: Ref, x: Ref, n: nat, h': Heap, next': Ref, seen': map<Ref, Ref>, w: Value)
    requires Sound(source, h, next, seen) && Filling(source, h0, s0, h, seen, r, x, n)
    requires source[r].kind.SetKind? && n < |source[r].kids|
    requires Returned(source, h, seen, h', next', seen', source[r].kids[n], w)
    ensures x in h' && x !in source && !h'[x].kind.Leaf?
    ensures var filled := AddItem(h'[x], w);
            && filled.kind == h'[x].kind && filled.kids == h'[x].kids + [w]
            && Sound(source, h'[x := filled], next', seen')
            && Filling(source, h0, s0, h'[x := filled], seen', r, x, n + 1)
  {
    ItemIsNew(source, h0, s0, h, next, seen, r, x, n, h', next', seen', w);
    SourceKept(source, h, next, seen, r);
    hide Cloned, Copied, Within, Extends, WellFormed, CopiedUpTo, Progress, Memo, Sound, Filling;
    StoreItem(source, h0, s0, h', next', seen', r, x, n, w);
  }

  /** An item cloned is new among the items copied before it. */
  lemma ItemIsNew(source: Heap, h0: Heap, s0: map<Ref, Ref>, h: Heap, next: Ref, seen: map<Ref, Ref>,
                  r: Ref, x: Ref, n: nat, h': Heap, next': Ref, seen': map<Ref, Ref>, w: Value)
    requires Sound(source, h, next, seen) && Filling(source, h0, s0, h, seen, r, x, n)
    requires source[r].kind.SetKind? && n < |source[r].kids|
    requires Returned(source, h, seen, h', next', seen', source[r].kids[n], w)
    ensures Sound(source, h', next', seen') && Filling(source, h0, s0, h', seen', r, x, n)
    ensures x !in source && w !in h'[x].kids && Cloned(source, h', seen', source[r].kids[n], w)
  {
    FillingRecurses(source, h0, s0, h, seen, r, x, n, n, h', seen');
    SourceKept(source, h, next, seen, r);
    CopiesWereThere(source, h0, s0, h, next, seen, r, x, n);
    NewItem(source, h, h', seen, seen', source[r], h'[x], n, n, w);
  }

  lemma StoreItem(source: Heap, h0: Heap, s0: map<Ref, Ref>, h: Heap, next: Ref, seen: map<Ref, Ref>,
                  r: Ref, x: Ref, n: nat, w: Value)
    requires Sound(source, h, next, seen) && Filling(source, h0, s0, h, seen, r, x, n)
    requires source[r].kind.SetKind? && source[r].keys == [] && n < |source[r].kids|
    requires w !in h[x].kids && Cloned(source, h, seen, source[r].kids[n], w)
    ensures var filled := AddItem(h[x], w);
            && filled.kind == h[x].kind && filled.kids == h[x].kids + [w]
            && Sound(source, h[x := filled], next, seen)
            && Filling(source, h0, s0, h[x := filled], seen, r, x, n + 1)
  {
    hide Cloned, Copied, Within, Extends, WellFormed, Sound, Memo, IsLeaf;
    var filled := AddItem(h[x], w);
    OneMoreCopied(source, h, seen, source[r], h[x], n, filled, w);
    SoundStores(source, h0, s0, h, next, seen, r, x, n, filled, n + 1);
  }

  /** `key` is none of the keys in `x`, and none of its values either if it copies a leaf. */
  ghost predicate NewKeyFor(source: Heap, h: Heap, r: Ref, x: Ref, n: nat, key: Value) {
    && x in h && |h[x].kids| == n && r in source && n < |source[r].kids|
    && (forall i | 0 <= i < n && i % 2 == 0 :: h[x].kids[i] != key)
    && (IsLeaf(source, source[r].kids[n]) ==> key !in h[x].kids)
  }

  /** A cloned key waits, new among the keys, while its entry is cloned. */
  lemma KeyReturned(source: Heap, h0: Heap, s0: map<Ref, Ref>, h: Heap, next: Ref, seen: map<Ref, Ref>,
                    r: Ref, x: Ref, n: nat, h': Heap, next': Ref, seen': map<Ref, Ref>, key: Value)
    requires Sound(source, h, next, seen) && Filling(source, h0, s0, h, seen, r, x, n)
    requires source[r].kind.MapKind? && n % 2 == 0 && n < |source[r].kids|
    requires Returned(source, h, seen, h', next', seen', source[r].kids[n], key)
    ensures Filling(source, h0, s0, h', seen', r, x, n)
    ensures NewKeyFor(source, h', r, x, n, key) && In(key, h')
  {
    FillingRecurses(source, h0, s0, h, seen, r, x, n, n, h', seen');
    SourceKept(source, h, next, seen, r);
    CopiesWereThere(source, h0, s0, h, next, seen, r, x, n);
    NewKey(source, h, h', seen, seen', source[r], h'[x], n, key);
    LeafIsNew(h, h'[x].kids, key, IsLeaf(source, source[r].kids[n]));
  }

  lemma EntryCopied(source: Heap, h: Heap, seen: map<Ref, Ref>, node: Node, copy: Node, n: nat, more: Node,
                    key: Value, entry: Value)
    requires CopiedUpTo(source, h, seen, node, copy, n) && n + 1 < |node.kids| && node.keys == []
    requires Cloned(source, h, seen, node.kids[n], key) && Cloned(source, h, seen, node.kids[n + 1], entry)
    requires IsLeaf(source, node.kids[n]) ==> key !in copy.kids
    requires IsLeaf(source, node.kids[n + 1]) ==> entry !in copy.kids + [key]
    requires more == copy.(kids := copy.kids + [key, entry])
    ensures CopiedUpTo(source, h, seen, node, more, n + 2)
  {
    var half := copy.(kids := copy.kids + [key]);
    assert more.kids == half.kids + [entry];
    OneMoreCopied(source, h, seen, node, copy, n, half, key);
    OneMoreCopied(source, h, seen, node, half, n + 1, more, entry);
  }

  lemma EntryStored(source: Heap, h0: Heap, s0: map<Ref, Ref>, h: Heap, next: Ref, seen: map<Ref, Ref>,
                    r: Ref, x: Ref, n: nat, key: Value, h': Heap, next': Ref, seen': map<Ref, Ref>, entry: Value)
    requires Sound(source, h, next, seen) && Filling(source, h0, s0, h, seen, r, x, n)
    requires source[r].kind.MapKind? && n % 2 == 0 && n + 1 < |source[r].kids|
    requires Cloned(source, h, seen, source[r].kids[n], key)
    requires NewKeyFor(source, h, r, x, n, key) && In(key, h)
    requires Returned(source, h, seen, h', next', seen', source[r].kids[n + 1], entry)
    ensures x in h' && x !in source && !h'[x].kind.Leaf?
    ensures var filled := PutEntry(h'[x], key, entry);
            && filled.kind == h'[x].kind && filled.kids == h'[x].kids + [key, entry]
            && Sound(source, h'[x := filled], next', seen')
            && Filling(source, h0, s0, h'[x := filled], seen', r, x, n + 2)
  {
    hide Sound, Filling, CopiedUpTo, Progress, Within, PutEntry;
    FillingRecurses(source, h0, s0, h, seen, r, x, n, n + 1, h', seen');
    TargetIsNew(source, h0, s0, h', next', seen', r, x, n);
    CopiesWereThere(source, h0, s0, h, next, seen, r, x, n);
    BetweenCalls(source, h0, s0, h, seen, h', seen', r, x, n);
    CloneStands(source, h, seen, h', seen', source[r].kids[n], key);
    LeafIsNew(h, h'[x].kids + [key], entry, IsLeaf(source, source[r].kids[n + 1]));
    EntryPut(source, h', next', seen', r, h'[x], n, key, entry);
    SoundStores(source, h0, s0, h', next', seen', r, x, n, PutEntry(h'[x], key, entry), n + 2);
  }

  lemma CloneStands(source: Heap, h: Heap, seen: map<Ref, Ref>, h': Heap, seen': map<Ref, Ref>, v: Value, w: Value)
    requires Cloned(source, h, seen, v, w) && Progress(source, h, seen, h', seen')
    ensures Cloned(source, h', seen', v, w)
  {
  }

  lemma EntryPut(source: Heap, h: Heap, next: Ref, seen: map<Ref, Ref>, r: Ref, copy: Node, n: nat,
                 key: Value, entry: Value)
    requires Sound(source, h, next, seen) && r in source && source[r].kind.MapKind?
    requires n % 2 == 0 && n + 1 < |source[r].kids| && |copy.kids| == n
    requires CopiedUpTo(source, h, seen, source[r], copy, n)
    requires Cloned(source, h, seen, source[r].kids[n], key) && Cloned(source, h, seen, source[r].kids[n + 1], entry)
    requires forall i | 0 <= i < n && i % 2 == 0 :: copy.kids[i] != key
    requires IsLeaf(source, source[r].kids[n]) ==> key !in copy.kids
    requires IsLeaf(source, source[r].kids[n + 1]) ==> entry !in copy.kids + [key]
    ensures PutEntry(copy, key, entry).kind == copy.kind && PutEntry(copy, key, entry).kids == copy.kids + [key, entry]
    ensures CopiedUpTo(source, h, seen, source[r], PutEntry(copy, key, entry), n + 2)
  {
    SourceKept(source, h, next, seen, r);
    MapSetNewKey(copy.kids, key, entry);
    EntryCopied(source, h, seen, source[r], copy, n, PutEntry(copy, key, entry), key, entry);
  }

  lemma NothingHappened(source: Heap, h: Heap, next: Ref, seen: map<Ref, Ref>, v: Value, w: Value)
    requires Sound(source, h, next, seen)
    requires (v.Primitive? && w == v) || (v.Object? && v.ref in seen && w == Object(seen[v.ref]))
    ensures Returned(source, h, seen, h, next, seen, v, w) && In(w, h)
  {
  }

  lemma LeafReturned(source: Heap, h: Heap, next: Ref, seen: map<Ref, Ref>, r: Ref)
    requires Sound(source, h, next, seen) && r in source && source[r].kind.Leaf?
    ensures Returned(source, h, seen, h[next := source[r]], next + 1, seen, Object(r), Object(next))
    ensures source[r].kids == []
  {
    assert WellFormedNode(source[r]);
  }

  lemma ContainerReturned(source: Heap, h0: Heap, s0: map<Ref, Ref>, h: Heap, next: Ref, seen: map<Ref, Ref>,
                          r: Ref, x: Ref)
    requires Sound(source, h, next, seen) && IsContainer(source, r)
    requires Filling(source, h0, s0, h, seen, r, x, |source[r].kids|)
    ensures Returned(source, h0, s0, h, next, seen, Object(r), Object(x)) && x in h
  {
    FilledIsProgress(source, h0, s0, h, seen, r, x);
  }

  lemma FillingFacts(source: Heap, h0: Heap, s0: map<Ref, Ref>, h: Heap, next: Ref, seen: map<Ref, Ref>,
                     r: Ref, x: Ref, n: nat)
    requires Sound(source, h, next, seen) && Filling(source, h0, s0, h, seen, r, x, n)
    ensures r in source && r in h && h[r] == source[r] && n <= |source[r].kids|
    ensures source[r].kind.ArrayKind? || source[r].kind.PlainKind? ==> |source[r].keys| == |source[r].kids|
    ensures source[r].kind.MapKind? ==> |source[r].kids| % 2 == 0
    ensures forall i | 0 <= i < |source[r].kids| :: In(source[r].kids[i], source)
  {
    SourceKept(source, h, next, seen, r);
  }

  lemma ReturnedGrows(source: Heap, h: Heap, seen: map<Ref, Ref>, h': Heap, next': Ref, seen': map<Ref, Ref>, v: Value, w: Value)
    requires Returned(source, h, seen, h', next', seen', v, w)
    ensures Grown(seen, seen') && Cloned(source, h', seen', v, w)
  {
  }

  /** The clone of one call: the memory it allocates in and the memo of the recursion. */
  class Cloner {
    var heap: Heap
    var next: Ref
    var seen: map<Ref, Ref>
    /** The memory as it was before the clone. */
    ghost const source: Heap

    ghost predicate Valid()
      reads this
    {
      Sound(source, heap, next, seen)
    }

    constructor (heap: Heap, next: Ref)
      requires WellFormed(heap) && forall r | r in heap :: r < next
      ensures Valid() && this.heap == heap && source == heap && seen == map[]
    {
      this.heap, this.next, seen := heap, next, map[];
      source := heap;
    }

    method Allocate(n: Node) returns (r: Ref)
      requires Sound(source, heap, next, seen)
      modifies this
      ensures Sound(source, heap, next, seen)
      ensures r == old(next) && r !in old(heap) && next == r + 1
      ensures heap == old(heap)[r := n] && seen == old(seen)
    {
      SoundAllocate(source, heap, next, seen, n);
      r := next;
      heap := heap[r := n];
      next := next + 1;
    }

    /**
     `cloneValue`. The source is untouched, the result is what `v` becomes, every
     container newly in the memo is reachable from `v` and completely copied, and a
     leaf comes back as a new object every time, for one place only.
     */
    method CloneValue(v: Value) returns (w: Value)
      requires Sound(source, heap, next, seen) && In(v, source) && Apart(source, heap)
      modifies this
      ensures Sound(source, heap, next, seen)
      ensures Returned(source, old(heap), old(seen), heap, next, seen, v, w)
      ensures Apart(source, heap) && KeepsUnplaced(source, old(heap), heap)
      ensures Unplaced(source, heap, w)
      decreases Unseen(source, seen), 1
    {
      hide *;
      KeepsSelf(source, heap);
      if v.Primitive? {
        NothingHappened(source, heap, next, seen, v, v);
        PrimitiveIsUnplaced(source, heap, v);
        return v;
      }
      var r := v.ref;
      if r in seen {
        NothingHappened(source, heap, next, seen, v, Object(seen[r]));
        MemoIsUnplaced(source, heap, next, seen, r);
        return Object(seen[r]);
      }
      ObjectKept(source, heap, next, seen, v);
      var kind := heap[r].kind;
      if kind.Leaf? {
        LeafReturned(source, heap, next, seen, r);
        AllocatedApart(source, heap, next, heap[r]);
        var copy := Allocate(heap[r]);
        return Object(copy);
      }
      ghost var h0, s0 := heap, seen;
      SoundStarts(source, heap, next, seen, r, next);
      AllocatedApart(source, heap, next, Node(kind, [], []));
      var result := Allocate(Node(kind, [], []));
      seen := seen[r := result];
      OneFewerUnseen(source, s0, r, result);
      ghost var h1 := heap;
      if kind.MapKind? {
        FillMap(r, result, h0, s0);
      } else if kind.SetKind? {
        FillSet(r, result, h0, s0);
      } else {
        FillFields(r, result, h0, s0);
      }
      ContainerReturned(source, h0, s0, heap, next, seen, r, result);
      KeepsTwice(source, h0, h1, heap);
      ResultIsMemo(source, h0, s0, heap, next, seen, r, result);
      MemoIsUnplaced(source, heap, next, seen, r);
      return Object(result);
    }

    /** The loop over `Object.keys`. */
    method FillFields(r: Ref, x: Ref, ghost h0: Heap, ghost s0: map<Ref, Ref>)
      requires Sound(source, heap, next, seen) && r in source && Filling(source, h0, s0, heap, seen, r, x, 0)
      requires source[r].kind.ArrayKind? || source[r].kind.PlainKind?
      requires Apart(source, heap)
      modifies this
      ensures Sound(source, heap, next, seen) && Filling(source, h0, s0, heap, seen, r, x, |source[r].kids|)
      ensures Apart(source, heap) && KeepsUnplaced(source, old(heap), heap)
      decreases Unseen(source, seen), 2
    {
      hide *;
      FillingFacts(source, h0, s0, heap, next, seen, r, x, 0);
      var node := heap[r];
      KeepsSelf(source, heap);
      GrownSelf(seen);
      var i := 0;
      while i < |node.keys|
        invariant 0 <= i <= |node.keys|
        invariant Sound(source, heap, next, seen) && Filling(source, h0, s0, heap, seen, r, x, i)
        invariant Grown(old(seen), seen)
        invariant Apart(source, heap) && KeepsUnplaced(source, old(heap), heap)
      {
        FewerUnseen(source, old(seen), seen);
        ghost var h, m, s := heap, next, seen;
        var value := CloneValue(node.kids[i]);
        ReturnedGrows(source, h, s, heap, next, seen, node.kids[i], value);
        GrownTwice(old(seen), s, seen);
        FieldStored(source, h0, s0, h, m, s, r, x, i, heap, next, seen, value);
        ReturnedLeafIsNew(source, h, s, heap, next, seen, node.kids[i], value);
        AppendedSince(source, old(heap), h, heap, x, SetField(heap[x], node.keys[i], value), value);
        heap := heap[x := SetField(heap[x], node.keys[i], value)];
        i := i + 1;
      }
    }

    /** The loop over the items of a set. */
    method FillSet(r: Ref, x: Ref, ghost h0: Heap, ghost s0: map<Ref, Ref>)
      requires Sound(source, heap, next, seen) && r in source && Filling(source, h0, s0, heap, seen, r, x, 0)
      requires source[r].kind.SetKind?
      requires Apart(source, heap)
      modifies this
      ensures Sound(source, heap, next, seen)
      ensures Filling(source, h0, s0, heap, seen, r, x, |source[r].kids|)
      ensures Apart(source, heap) && KeepsUnplaced(source, old(heap), heap)
      decreases Unseen(source, seen), 3
    {
      hide *;
      FillingFacts(source, h0, s0, heap, next, seen, r, x, 0);
      var items := heap[r].kids;
      KeepsSelf(source, heap);
      GrownSelf(seen);
      var i := 0;
      while i < |items|
        invariant 0 <= i <= |items|
        invariant Sound(source, heap, next, seen) && Filling(source, h0, s0, heap, seen, r, x, i)
        invariant Grown(old(seen), seen)
        invariant Apart(source, heap) && KeepsUnplaced(source, old(heap), heap)
      {
        FewerUnseen(source, old(seen), seen);
        ghost var h, s := heap, seen;
        CloneItem(r, x, i, items[i], h0, s0);
        KeepsTwice(source, old(heap), h, heap);
        GrownTwice(old(seen), s, seen);
        i := i + 1;
      }
    }

    method CloneItem(r: Ref, x: Ref, ghost i: nat, item: Value, ghost h0: Heap, ghost s0: map<Ref, Ref>)
      requires Sound(source, heap, next, seen) && r in source && Filling(source, h0, s0, heap, seen, r, x, i)
      requires source[r].kind.SetKind? && i < |source[r].kids| && item == source[r].kids[i]
      requires Apart(source, heap)
      modifies this
      ensures Sound(source, heap, next, seen) && Filling(source, h0, s0, heap, seen, r, x, i + 1)
      ensures Grown(old(seen), seen)
      ensures Apart(source, heap) && KeepsUnplaced(source, old(heap), heap)
      decreases Unseen(source, seen), 2
    {
      hide *;
      FillingFacts(source, h0, s0, heap, next, seen, r, x, i);
      ghost var h, m, s := heap, next, seen;
      var copy := CloneValue(item);
      ReturnedGrows(source, h, s, heap, next, seen, item, copy);
      ItemStored(source, h0, s0, h, m, s, r, x, i, heap, next, seen, copy);
      ReturnedLeafIsNew(source, h, s, heap, next, seen, item, copy);
      KeepsSelf(source, h);
      AppendedSince(source, h, h, heap, x, AddItem(heap[x], copy), copy);
      heap := heap[x := AddItem(heap[x], copy)];
    }

    /** The loop over the entries of a map. */
    method FillMap(r: Ref, x: Ref, ghost h0: Heap, ghost s0: map<Ref, Ref>)
      requires Sound(source, heap, next, seen) && r in source && Filling(source, h0, s0, heap, seen, r, x, 0)
      requires source[r].kind.MapKind?
      requires Apart(source, heap)
      modifies this
      ensures Sound(source, heap, next, seen)
      ensures Filling(source, h0, s0, heap, seen, r, x, |source[r].kids|)
      ensures Apart(source, heap) && KeepsUnplaced(source, old(heap), heap)
      decreases Unseen(source, seen), 4
    {
      hide *;
      FillingFacts(source, h0, s0, heap, next, seen, r, x, 0);
      var entries := heap[r].kids;
      KeepsSelf(source, heap);
      GrownSelf(seen);
      var i := 0;
      while i < |entries|
        invariant 0 <= i <= |entries| && i % 2 == 0
        invariant Sound(source, heap, next, seen) && Filling(source, h0, s0, heap, seen, r, x, i)
        invariant Grown(old(seen), seen)
        invariant Apart(source, heap) && KeepsUnplaced(source, old(heap), heap)
      {
        FewerUnseen(source, old(seen), seen);
        ghost var h, s := heap, seen;
        CloneEntry(r, x, i, entries[i], entries[i + 1], h0, s0);
        KeepsTwice(source, old(heap), h, heap);
        GrownTwice(old(seen), s, seen);
        i := i + 2;
      }
    }

    /** Both arguments of `result.set` are cloned before the entry is set. */
    method CloneEntry(r: Ref, x: Ref, ghost i: nat, key: Value, entry: Value, ghost h0: Heap, ghost s0: map<Ref, Ref>)
      requires Sound(source, heap, next, seen) && r in source && Filling(source, h0, s0, heap, seen, r, x, i)
      requires source[r].kind.MapKind? && i % 2 == 0 && i + 1 < |source[r].kids|
      requires key == source[r].kids[i] && entry == source[r].kids[i + 1]
      requires Apart(source, heap)
      modifies this
      ensures Sound(source, heap, next, seen) && Filling(source, h0, s0, heap, seen, r, x, i + 2)
      ensures Grown(old(seen), seen)
      ensures Apart(source, heap) && KeepsUnplaced(source, old(heap), heap)
      decreases Unseen(source, seen), 3
    {
      hide *;
      FillingFacts(source, h0, s0, heap, next, seen, r, x, i);
      ghost var h, m, s := heap, next, seen;
      var keyCopy := CloneValue(key);
      ReturnedGrows(source, h, s, heap, next, seen, key, keyCopy);
      KeyReturned(source, h0, s0, h, m, s, r, x, i, heap, next, seen, keyCopy);
      ReturnedLeafIsNew(source, h, s, heap, next, seen, key, keyCopy);
      FewerUnseen(source, s, seen);
      ghost var between := seen;
      SetEntry(r, x, i, keyCopy, entry, h0, s0, h);
      GrownTwice(s, between, seen);
    }

    method SetEntry(r: Ref, x: Ref, ghost i: nat, keyCopy: Value, entry: Value, ghost h0: Heap, ghost s0: map<Ref, Ref>,
                    ghost before: Heap)
      requires Sound(source, heap, next, seen) && r in source && Filling(source, h0, s0, heap, seen, r, x, i)
      requires source[r].kind.MapKind? && i % 2 == 0 && i + 1 < |source[r].kids|
      requires Cloned(source, heap, seen, source[r].kids[i], keyCopy) && entry == source[r].kids[i + 1]
      requires NewKeyFor(source, heap, r, x, i, keyCopy) && In(keyCopy, heap)
      requires Apart(source, heap)
      requires KeepsUnplaced(source, before, heap) && Unplaced(source, heap, keyCopy)
      requires IsLeafIn(heap, keyCopy) ==> keyCopy.ref !in before
      modifies this
      ensures Sound(source, heap, next, seen) && Filling(source, h0, s0, heap, seen, r, x, i + 2)
      ensures Grown(old(seen), seen)
      ensures Apart(source, heap) && KeepsUnplaced(source, before, heap)
      decreases Unseen(source, seen), 2
    {
      hide *;
      FillingFacts(source, h0, s0, heap, next, seen, r, x, i);
      ghost var h, m, s := heap, next, seen;
      var entryCopy := CloneValue(entry);
      ReturnedGrows(source, h, s, heap, next, seen, entry, entryCopy);
      EntryStored(source, h0, s0, h, m, s, r, x, i, keyCopy, heap, next, seen, entryCopy);
      ReturnedLeafIsNew(source, h, s, heap, next, seen, entry, entryCopy);
      KeyStands(source, h, m, s, heap, next, seen, entry, entryCopy, keyCopy);
      PairSince(source, before, h, heap, x, PutEntry(heap[x], keyCopy, entryCopy), keyCopy, entryCopy);
      heap := heap[x := PutEntry(heap[x], keyCopy, entryCopy)];
    }
  }
}
