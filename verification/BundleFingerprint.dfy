/** The bytes a bundle's fingerprint is a hash of; the hash itself is not modelled. */
module BundleFingerprint {
  import opened Wrappers
  import opened BundleReader

  /** The comparison of path strings. */
  predicate PathLess(a: string, b: string) {
    b != [] && (a == [] || a[0] < b[0] || (a[0] == b[0] && PathLess(a[1..], b[1..])))
  }

  /** The strings agree up to a place where the first one ends or has the smaller character. */
  ghost predicate Lexicographic(a: string, b: string) {
    exists n: nat :: n <= |a| && n < |b| && a[..n] == b[..n] && (n < |a| ==> a[n] < b[n])
  }

  lemma {:induction false} PathLessIsLexicographic(a: string, b: string)
    ensures PathLess(a, b) <==> Lexicographic(a, b)
  {
    if a == [] || b == [] || a[0] != b[0] {
      if PathLess(a, b) {
        assert a[..0] == b[..0];
      }
      if Lexicographic(a, b) {
        var n: nat :| n <= |a| && n < |b| && a[..n] == b[..n] && (n < |a| ==> a[n] < b[n]);
        assert n > 0 ==> a[..n][0] == b[..n][0];
      }
    } else {
      PathLessIsLexicographic(a[1..], b[1..]);
      if PathLess(a, b) {
        var n: nat :| n <= |a[1..]| && n < |b[1..]| && a[1..][..n] == b[1..][..n] && (n < |a[1..]| ==> a[1..][n] < b[1..][n]);
        assert a[..n + 1] == [a[0]] + a[1..][..n] && b[..n + 1] == [b[0]] + b[1..][..n];
      }
      if Lexicographic(a, b) {
        var n: nat :| n <= |a| && n < |b| && a[..n] == b[..n] && (n < |a| ==> a[n] < b[n]);
        assert n > 0;
        assert a[1..][..n - 1] == a[..n][1..] && b[1..][..n - 1] == b[..n][1..];
      }
    }
  }

  lemma {:induction false} PathLessIsTotal(a: string, b: string)
    ensures PathLess(a, b) || a == b || PathLess(b, a)
  {
    if a != [] && b != [] && a[0] == b[0] {
      PathLessIsTotal(a[1..], b[1..]);
      assert a == [a[0]] + a[1..] && b == [b[0]] + b[1..];
    }
  }

  lemma {:induction false} PathLessIsStrict(a: string, b: string)
    requires PathLess(a, b)
    ensures a != b && !PathLess(b, a)
  {
    if a != [] && a[0] == b[0] {
      PathLessIsStrict(a[1..], b[1..]);
    }
  }

  lemma {:induction false} PathLessIsTransitive(a: string, b: string, c: string)
    requires PathLess(a, b) && PathLess(b, c)
    ensures PathLess(a, c)
  {
    if a != [] && a[0] == b[0] == c[0] {
      PathLessIsTransitive(a[1..], b[1..], c[1..]);
    }
  }

  ghost predicate Distinct(s: seq<Entry>) {
    forall i, j | 0 <= i < j < |s| :: s[i].path != s[j].path
  }

  ghost predicate SameEntries(a: seq<Entry>, b: seq<Entry>) {
    forall e :: e in a <==> e in b
  }

  ghost predicate Ascending(s: seq<Entry>) {
    forall i, j | 0 <= i < j < |s| :: !PathLess(s[j].path, s[i].path)
  }

  /** Entries that share a path hold the same data. */
  ghost predicate SharedPathsAgree(s: seq<Entry>) {
    forall e, f | e in s && f in s && e.path == f.path :: e.data == f.data
  }

  /** After every entry whose path is not greater. */
  function Insert(s: seq<Entry>, e: Entry): (r: seq<Entry>)
    ensures forall x :: x in r <==> x in s || x == e
  {
    if s == [] || !PathLess(e.path, s[|s| - 1].path) then s + [e]
    else
      assert s == s[..|s| - 1] + [s[|s| - 1]];
      Insert(s[..|s| - 1], e) + [s[|s| - 1]]
  }

  /** `sort_by` the path, which is stable. */
  function Sorted(s: seq<Entry>): (r: seq<Entry>)
    ensures SameEntries(r, s)
  {
    if s == [] then []
    else
      assert s == s[..|s| - 1] + [s[|s| - 1]];
      Insert(Sorted(s[..|s| - 1]), s[|s| - 1])
  }

  lemma {:induction false} InsertAscends(s: seq<Entry>, e: Entry)
    requires Ascending(s)
    ensures Ascending(Insert(s, e)) && multiset(Insert(s, e)) == multiset(s) + multiset{e}
  {
    hide PathLess;
    if s == [] {
    } else {
      var init, last := s[..|s| - 1], s[|s| - 1];
      assert s == init + [last];
      if PathLess(e.path, last.path) {
        InsertAscends(init, e);
        NoneAfterLast(s, e);
      } else {
        forall i | 0 <= i < |s| ensures !PathLess(e.path, s[i].path) {
          NotLessTransitive(s[i].path, last.path, e.path);
        }
      }
    }
  }

  lemma NotLessTransitive(a: string, b: string, c: string)
    requires a == b || !PathLess(b, a)
    requires !PathLess(c, b)
    ensures !PathLess(c, a)
  {
    if PathLess(c, a) && a != b {
      PathLessIsTotal(a, b);
      PathLessIsTransitive(c, a, b);
    }
  }

  lemma NoneAfterLast(s: seq<Entry>, e: Entry)
    requires Ascending(s) && s != [] && PathLess(e.path, s[|s| - 1].path)
    ensures forall x | x in Insert(s[..|s| - 1], e) :: !PathLess(s[|s| - 1].path, x.path)
  {
    PathLessIsStrict(e.path, s[|s| - 1].path);
  }

  lemma {:induction false} SortedAscends(s: seq<Entry>)
    ensures Ascending(Sorted(s)) && multiset(Sorted(s)) == multiset(s)
  {
    if s == [] {
    } else {
      SortedAscends(s[..|s| - 1]);
      InsertAscends(Sorted(s[..|s| - 1]), s[|s| - 1]);
      assert s == s[..|s| - 1] + [s[|s| - 1]];
    }
  }

  lemma SameMembers(a: seq<Entry>, b: seq<Entry>)
    requires multiset(a) == multiset(b)
    ensures |a| == |b| && forall e :: e in a <==> e in b
  {
    assert |multiset(a)| == |a| && |multiset(b)| == |b|;
    assert forall e :: e in a <==> e in multiset(a);
    assert forall e :: e in b <==> e in multiset(b);
  }

  lemma LastIsGreatest(a: seq<Entry>, e: Entry)
    requires Ascending(a) && e in a
    ensures !PathLess(a[|a| - 1].path, e.path)
  {
    if PathLess(a[|a| - 1].path, e.path) {
      PathLessIsStrict(a[|a| - 1].path, e.path);
    }
  }

  lemma SameLast(a: seq<Entry>, b: seq<Entry>)
    requires Ascending(a) && Ascending(b) && multiset(a) == multiset(b) && a != [] && SharedPathsAgree(a)
    ensures b != [] && a[|a| - 1] == b[|b| - 1]
  {
    hide PathLess;
    SameMembers(a, b);
    var x, y := a[|a| - 1], b[|b| - 1];
    assert x in b && y in a;
    LastIsGreatest(b, x);
    LastIsGreatest(a, y);
    PathLessIsTotal(x.path, y.path);
  }

  lemma AscendingInit(a: seq<Entry>)
    requires Ascending(a) && a != []
    ensures var init := a[..|a| - 1];
            && Ascending(init) && a == init + [a[|a| - 1]]
            && multiset(init) == multiset(a) - multiset{a[|a| - 1]}
            && (SharedPathsAgree(a) ==> SharedPathsAgree(init))
  {
    hide PathLess;
    var init := a[..|a| - 1];
    assert a == init + [a[|a| - 1]];
  }

  /** Up to agreeing duplicates there is only one way to list entries in ascending order. */
  lemma {:induction false} AscendingIsUnique(a: seq<Entry>, b: seq<Entry>)
    requires Ascending(a) && Ascending(b) && multiset(a) == multiset(b) && SharedPathsAgree(a)
    ensures a == b
  {
    hide *;
    SameMembers(a, b);
    if a != [] {
      SameLast(a, b);
      AscendingInit(a);
      AscendingInit(b);
      AscendingIsUnique(a[..|a| - 1], b[..|b| - 1]);
    }
  }

  // ---- The hashed bytes

  /** `to_le_bytes` of a 64-bit number. */
  function LittleEndian(n: nat, width: nat): seq<Byte> {
    if width == 0 then [] else [n % 256] + LittleEndian(n / 256, width - 1)
  }

  /** What one entry feeds the hasher; `utf8` are the bytes of a string. */
  function Chunk(e: Entry, utf8: string -> seq<Byte>): seq<Byte> {
    utf8(e.path) + LittleEndian(|e.data|, 8) + e.data
  }

  function Chunks(s: seq<Entry>, utf8: string -> seq<Byte>): seq<Byte> {
    if s == [] then [] else Chunks(s[..|s| - 1], utf8) + Chunk(s[|s| - 1], utf8)
  }

  /** `fingerprint`, up to the hash. */
  method HashInput(entries: seq<Entry>, utf8: string -> seq<Byte>) returns (bytes: seq<Byte>)
    ensures bytes == Chunks(Sorted(entries), utf8)
  {
    var sorted := Sorted(entries);
    bytes := [];
    assert sorted[..|sorted|] == sorted;
    for i := 0 to |sorted|
      invariant bytes == Chunks(sorted[..i], utf8)
    {
      assert sorted[..i + 1][..i] == sorted[..i];
      bytes := bytes + utf8(sorted[i].path);
      bytes := bytes + LittleEndian(|sorted[i].data|, 8);
      bytes := bytes + sorted[i].data;
    }
  }

  lemma {:induction false} ChunksConcat(a: seq<Entry>, b: seq<Entry>, utf8: string -> seq<Byte>)
    ensures Chunks(a + b, utf8) == Chunks(a, utf8) + Chunks(b, utf8)
  {
    hide Chunk;
    if b == [] {
      assert a + b == a;
    } else {
      assert (a + b)[..|a + b| - 1] == a + b[..|b| - 1];
      ChunksConcat(a, b[..|b| - 1], utf8);
    }
  }

  // ---- When the order matters

  lemma {:induction false} DistinctCounts(s: seq<Entry>, e: Entry)
    requires Distinct(s)
    ensures multiset(s)[e] == if e in s then 1 else 0
  {
    if s != [] {
      var init, last := s[..|s| - 1], s[|s| - 1];
      assert s == init + [last];
      DistinctCounts(init, e);
      assert last !in init;
    }
  }

  lemma SameFiles(a: seq<Entry>, b: seq<Entry>)
    requires Distinct(a) && Distinct(b) && SameEntries(a, b)
    ensures multiset(a) == multiset(b)
  {
    forall e: Entry ensures multiset(a)[e] == multiset(b)[e] {
      DistinctCounts(a, e);
      DistinctCounts(b, e);
    }
  }

  lemma ReorderedAgree(a: seq<Entry>, b: seq<Entry>, utf8: string -> seq<Byte>)
    requires multiset(a) == multiset(b) && SharedPathsAgree(a)
    ensures Chunks(Sorted(a), utf8) == Chunks(Sorted(b), utf8)
  {
    SortedAscends(a);
    SortedAscends(b);
    AscendingIsUnique(Sorted(a), Sorted(b));
  }

  /** Bundles with the same files hash the same bytes in whatever order they list them. */
  lemma OrderDoesNotMatter(a: seq<Entry>, b: seq<Entry>, utf8: string -> seq<Byte>)
    requires Distinct(a) && Distinct(b) && SameEntries(a, b)
    ensures Chunks(Sorted(a), utf8) == Chunks(Sorted(b), utf8)
  {
    SameFiles(a, b);
    ReorderedAgree(a, b, utf8);
  }

  function Pow256(width: nat): nat {
    if width == 0 then 1 else 256 * Pow256(width - 1)
  }

  lemma {:induction false} LittleEndianIsInjective(a: nat, b: nat, width: nat)
    requires a < Pow256(width) && b < Pow256(width) && LittleEndian(a, width) == LittleEndian(b, width)
    ensures a == b
  {
    if width > 0 {
      var x, y := LittleEndian(a, width), LittleEndian(b, width);
      assert x[0] == y[0] && x[1..] == y[1..];
      LittleEndianIsInjective(a / 256, b / 256, width - 1);
    }
  }

  lemma EightBytes()
    ensures Pow256(8) == 0x1_0000_0000_0000_0000
  {
    assert Pow256(2) == 0x1_0000;
    assert Pow256(4) == 0x1_0000_0000;
    assert Pow256(6) == 0x1_0000_0000_0000;
  }

  lemma {:induction false} LittleEndianLength(n: nat, width: nat)
    ensures |LittleEndian(n, width)| == width
  {
    if width > 0 {
      LittleEndianLength(n / 256, width - 1);
    }
  }

  /** The number some bytes stand for when each weighs 256 times as much as the one before it. */
  function Value(bytes: seq<Byte>): nat {
    if bytes == [] then 0 else bytes[0] + 256 * Value(bytes[1..])
  }

  lemma {:induction false} LittleEndianValue(n: nat, width: nat)
    requires n < Pow256(width)
    ensures Value(LittleEndian(n, width)) == n
  {
    if width > 0 {
      LittleEndianValue(n / 256, width - 1);
      assert LittleEndian(n, width)[1..] == LittleEndian(n / 256, width - 1);
    }
  }

  /** Where path, length and data stand in what an entry feeds, whatever follows. */
  lemma ChunkParts(e: Entry, tail: seq<Byte>, utf8: string -> seq<Byte>)
    ensures var n, c := |utf8(e.path)|, Chunk(e, utf8) + tail;
            && n + 8 + |e.data| <= |c| && c[..n] == utf8(e.path)
            && c[n..n + 8] == LittleEndian(|e.data|, 8) && c[n + 8..n + 8 + |e.data|] == e.data
            && (|e.data| < 0x1_0000_0000_0000_0000 ==> Value(c[n..n + 8]) == |e.data|)
  {
    EightBytes();
    if |e.data| < 0x1_0000_0000_0000_0000 {
      LittleEndianValue(|e.data|, 8);
    }
    hide LittleEndian, Value, Pow256;
    LittleEndianLength(|e.data|, 8);
  }

  /** Two entries under one path feed different bytes in different order, whatever their lengths. */
  lemma SwappedChunksDiffer(e: Entry, f: Entry, utf8: string -> seq<Byte>)
    requires e.path == f.path && e.data != f.data
    ensures Chunk(e, utf8) + Chunk(f, utf8) != Chunk(f, utf8) + Chunk(e, utf8)
  {
    hide *;
    ChunkParts(e, Chunk(f, utf8), utf8);
    ChunkParts(f, Chunk(e, utf8), utf8);
    EightBytes();
    if LittleEndian(|e.data|, 8) == LittleEndian(|f.data|, 8) {
      LittleEndianIsInjective(|e.data|, |f.data|, 8);
    }
  }

  /** Inserting beside two entries of one path does not part them. */
  lemma {:induction false} InsertBeside(a: seq<Entry>, e: Entry, f: Entry, b: seq<Entry>, g: Entry)
    returns (a': seq<Entry>, b': seq<Entry>)
    requires e.path == f.path
    ensures Insert(a + [e, f] + b, g) == a' + [e, f] + b'
    ensures Insert(a + [f, e] + b, g) == a' + [f, e] + b'
    decreases |b|
  {
    hide PathLess;
    var s, t := a + [e, f] + b, a + [f, e] + b;
    if b == [] {
      if PathLess(g.path, e.path) {
        a', b' := Insert(a, g), [];
        InsertBeforePair(a, e, f, g);
        InsertBeforePair(a, f, e, g);
        assert s == a + [e, f] && t == a + [f, e];
      } else {
        a', b' := a, [g];
        assert s + [g] == a + [e, f] + [g] && t + [g] == a + [f, e] + [g];
      }
    } else {
      var last := b[|b| - 1];
      if PathLess(g.path, last.path) {
        var c;
        a', c := InsertBeside(a, e, f, b[..|b| - 1], g);
        b' := c + [last];
        assert s[..|s| - 1] == a + [e, f] + b[..|b| - 1] && t[..|t| - 1] == a + [f, e] + b[..|b| - 1];
        assert a' + [e, f] + c + [last] == a' + [e, f] + b' && a' + [f, e] + c + [last] == a' + [f, e] + b';
      } else {
        a', b' := a, b + [g];
        assert s + [g] == a + [e, f] + b' && t + [g] == a + [f, e] + b';
      }
    }
  }

  lemma InsertBeforePair(a: seq<Entry>, e: Entry, f: Entry, g: Entry)
    requires PathLess(g.path, e.path) && PathLess(g.path, f.path)
    ensures Insert(a + [e, f], g) == Insert(a, g) + [e, f]
  {
    hide PathLess;
    assert (a + [e, f])[..|a| + 1] == a + [e] && (a + [e])[..|a|] == a;
    assert Insert(a + [e], g) == Insert(a, g) + [e];
    assert Insert(a, g) + [e] + [f] == Insert(a, g) + [e, f];
  }

  lemma {:induction false} PairStaysTogether(e: Entry, f: Entry, rest: seq<Entry>)
    returns (a: seq<Entry>, b: seq<Entry>)
    requires e.path == f.path
    ensures Sorted([e, f] + rest) == a + [e, f] + b && Sorted([f, e] + rest) == a + [f, e] + b
  {
    hide *;
    if rest == [] {
      PairKeepsOrder(e, f);
      PairKeepsOrder(f, e);
      a, b := [], [];
      assert [e, f] + rest == [e, f] && [f, e] + rest == [f, e];
      assert a + [e, f] + b == [e, f] && a + [f, e] + b == [f, e];
    } else {
      var init, g := rest[..|rest| - 1], rest[|rest| - 1];
      var c, d := PairStaysTogether(e, f, init);
      a, b := InsertBeside(c, e, f, d, g);
      SortedStep([e, f], rest);
      SortedStep([f, e], rest);
    }
  }

  lemma SortedStep(pair: seq<Entry>, rest: seq<Entry>)
    requires rest != []
    ensures Sorted(pair + rest) == Insert(Sorted(pair + rest[..|rest| - 1]), rest[|rest| - 1])
  {
    hide Insert;
    assert (pair + rest)[..|pair + rest| - 1] == pair + rest[..|rest| - 1];
  }

  lemma PairKeepsOrder(first: Entry, second: Entry)
    requires first.path == second.path
    ensures Sorted([first, second]) == [first, second]
  {
    if PathLess(second.path, first.path) {
      PathLessIsStrict(second.path, first.path);
    }
    assert [first, second][..1] == [first] && [first][..0] == [];
    assert Sorted([first]) == [first];
  }

  lemma ChunksAround(a: seq<Entry>, e: Entry, f: Entry, b: seq<Entry>, utf8: string -> seq<Byte>)
    ensures Chunks(a + [e, f] + b, utf8) == Chunks(a, utf8) + (Chunk(e, utf8) + Chunk(f, utf8)) + Chunks(b, utf8)
  {
    ChunksConcat(a + [e, f], b, utf8);
    ChunksConcat(a, [e, f], utf8);
    assert [e, f][..1] == [e] && [e][..0] == [];
    assert Chunks([e], utf8) == Chunk(e, utf8);
  }

  /** Different files under one path are hashed in the order in which they are listed. */
  lemma OrderMattersForDuplicates(e: Entry, f: Entry, rest: seq<Entry>, utf8: string -> seq<Byte>)
    requires e.path == f.path && e.data != f.data
    ensures multiset([e, f] + rest) == multiset([f, e] + rest)
    ensures Chunks(Sorted([e, f] + rest), utf8) != Chunks(Sorted([f, e] + rest), utf8)
  {
    hide Chunks, Chunk, Sorted;
    assert multiset([e, f]) == multiset([f, e]);
    var a, b := PairStaysTogether(e, f, rest);
    ChunksAround(a, e, f, b, utf8);
    ChunksAround(a, f, e, b, utf8);
    SwappedChunksDiffer(e, f, utf8);
    SameFrame(Chunks(a, utf8), Chunk(e, utf8) + Chunk(f, utf8), Chunk(f, utf8) + Chunk(e, utf8), Chunks(b, utf8));
  }

  lemma SameFrame(p: seq<Byte>, x: seq<Byte>, y: seq<Byte>, q: seq<Byte>)
    requires |x| == |y| && x != y
    ensures p + x + q != p + y + q
  {
    assert (p + x + q)[|p|..|p| + |x|] == x && (p + y + q)[|p|..|p| + |y|] == y;
  }

  ghost predicate HashedAlike(s: seq<Entry>, utf8: string -> seq<Byte>) {
    forall b | multiset(b) == multiset(s) :: Chunks(Sorted(b), utf8) == Chunks(Sorted(s), utf8)
  }

  lemma PairFirst(s: seq<Entry>, i: nat, j: nat) returns (rest: seq<Entry>)
    requires i < j < |s|
    ensures multiset([s[i], s[j]] + rest) == multiset(s)
  {
    rest := s[..i] + s[i + 1..j] + s[j + 1..];
    assert s == s[..i] + [s[i]] + s[i + 1..j] + [s[j]] + s[j + 1..];
  }

  lemma DifferentDataDiffers(s: seq<Entry>, i: nat, j: nat, utf8: string -> seq<Byte>)
    requires i < j < |s| && s[i].path == s[j].path && s[i].data != s[j].data
    ensures !HashedAlike(s, utf8)
  {
    hide Chunks, Sorted;
    var rest := PairFirst(s, i, j);
    OrderMattersForDuplicates(s[i], s[j], rest, utf8);
    assert multiset([s[j], s[i]] + rest) == multiset(s);
  }

  /** The order of a bundle's entries makes no difference exactly if entries that share a path agree. */
  lemma OrderDoesNotMatterExactly(s: seq<Entry>, utf8: string -> seq<Byte>)
    ensures HashedAlike(s, utf8) <==> SharedPathsAgree(s)
  {
    if SharedPathsAgree(s) {
      forall b | multiset(b) == multiset(s) ensures Chunks(Sorted(b), utf8) == Chunks(Sorted(s), utf8) {
        ReorderedAgree(s, b, utf8);
      }
    } else {
      var e, f :| e in s && f in s && e.path == f.path && e.data != f.data;
      var i :| 0 <= i < |s| && s[i] == e;
      var j :| 0 <= j < |s| && s[j] == f;
      DifferentDataDiffers(s, if i < j then i else j, if i < j then j else i, utf8);
    }
  }
}
