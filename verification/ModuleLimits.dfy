/** Programs on which module compilation never returns, fails half-way, or is misled by equal hashes. */
module ModuleLimits {
  import opened Wrappers
  import opened Paths
  import opened EsModules
  import opened ModuleCompile

  // ---- A program without a finite universe

  /**
   One asset that imports `./x/a.js`. The asset store falls back to the last segment
   of a name, so each deeper specifier finds the same asset again.
   */
  const ENDLESS := Program(map["a.js" := Text("")],
                           (s: Specifier, source: string) => Some(Module(0, ["./x/a.js"])))

  function Nested(n: nat): seq<string> {
    if n == 0 then ["a.js"] else ["x"] + Nested(n - 1)
  }

  lemma {:induction false} NestedShape(n: nat)
    ensures |Nested(n)| == n + 1 && Nested(n)[n] == "a.js"
    ensures forall p | p in Nested(n) :: '/' !in p
    ensures Nested(n)[..n] + ["x", "a.js"] == Nested(n + 1)
  {
    if n > 0 {
      NestedShape(n - 1);
      assert Nested(n)[..n] == ["x"] + Nested(n - 1)[..n - 1];
      assert Nested(n)[..n] + ["x", "a.js"] == ["x"] + (Nested(n - 1)[..n - 1] + ["x", "a.js"]);
    }
  }

  lemma LoadsByLastSegment(s: Specifier)
    requires Split(s)[|Split(s)| - 1] == "a.js"
    ensures ENDLESS.Load(s) == Some(Module(0, ["./x/a.js"]))
  {
    hide Split;
    assert Get(ENDLESS.assets, s) == Some(Text(""));
  }

  lemma NestedLoads(n: nat)
    ensures ENDLESS.Load(Join(Nested(n))) == Some(Module(0, ["./x/a.js"]))
  {
    hide Nested, Split, Join;
    NestedShape(n);
    SplitJoin(Nested(n));
    LoadsByLastSegment(Join(Nested(n)));
  }

  lemma SplitRequest()
    ensures IsRelative("./x/a.js") && Split("./x/a.js") == [".", "x", "a.js"]
  {
    assert "./x/a.js" == Join([".", "x", "a.js"]);
    SplitJoin([".", "x", "a.js"]);
    assert StartsWith("./x/a.js", "./");
  }

  lemma WalkDown(d: seq<string>)
    ensures WalkAll(d, [".", "x", "a.js"]) == d + ["x", "a.js"]
  {
    var segments := [".", "x", "a.js"];
    assert segments[..0] == [] && segments[..1] == ["."] && segments[..2] == [".", "x"];
    assert WalkAll(d, segments[..1]) == d by { assert segments[..1][..0] == []; }
    assert WalkAll(d, segments[..2]) == d + ["x"] by { assert segments[..2][..1] == segments[..1]; }
    assert WalkAll(d, segments) == d + ["x"] + ["a.js"];
    assert d + ["x"] + ["a.js"] == d + ["x", "a.js"];
  }

  lemma NestedResolves(n: nat)
    ensures Resolve(Join(Nested(n)), "./x/a.js") == Join(Nested(n + 1))
  {
    hide WalkAll, Nested, Split, Join, IsRelative;
    NestedShape(n);
    SplitJoin(Nested(n));
    SplitRequest();
    DirectoryIsAllButLast(Join(Nested(n)));
    WalkDown(Nested(n)[..n]);
  }

  lemma NestedDiffer(m: nat, n: nat)
    requires Join(Nested(m)) == Join(Nested(n))
    ensures m == n
  {
    NestedShape(m);
    NestedShape(n);
    SplitJoin(Nested(m));
    SplitJoin(Nested(n));
  }

  lemma {:induction false} NestedNeverEnds(depth: nat, c: Cache, n: nat)
    requires forall m: nat | m >= n :: Join(Nested(m)) !in c
    ensures CompileAt(depth, ENDLESS, c, Join(Nested(n))) == None
    decreases depth
  {
    hide Nested, Join, Resolve, Program.Load;
    NestedLoads(n);
    if depth > 0 {
      var m := Module(0, ["./x/a.js"]);
      var now := c[Join(Nested(n)) := m];
      NestedResolves(n);
      forall k: nat | k >= n + 1 ensures Join(Nested(k)) !in now {
        if Join(Nested(k)) == Join(Nested(n)) {
          NestedDiffer(k, n);
        }
      }
      NestedNeverEnds(depth - 1, now, n + 1);
      assert CompileAll(depth - 1, ENDLESS, now, Join(Nested(n)), m.requests) == None;
    }
  }

  /** One asset is enough for a compilation that never returns, however deep it may go. */
  lemma NeverReturns()
    ensures !Ends(ENDLESS, map[], "a.js")
  {
    forall depth: nat ensures CompileAt(depth, ENDLESS, map[], "a.js") == None {
      NestedNeverEnds(depth, map[], 0);
      assert Join(Nested(0)) == "a.js";
    }
  }

  // ---- An import that is missing

  const BROKEN := Program(map["a.js" := Text("")],
                          (s: Specifier, source: string) => Some(Module(0, ["./b.js"])))

  lemma MissingImport()
    ensures Resolve("a.js", "./b.js") == "b.js" && BROKEN.Load("b.js").None?
  {
    hide Join, Split, WalkAll, Directory;
    NamesInParts();
    DirectoryIsAllButLast("a.js");
    WalkToImport();
    assert StartsWith("./b.js", "./");
    assert "b.js"[..2][0] == 'b' && "./"[0] == '.';
    assert "b.js"[0] == 'b' && "a.js"[0] == 'a';
  }

  lemma NamesInParts()
    ensures Split("./b.js") == [".", "b.js"] && Split("a.js") == ["a.js"] && Split("b.js") == ["b.js"]
    ensures Join(["b.js"]) == "b.js"
  {
    hide Split;
    assert "./b.js" == Join([".", "b.js"]) && "a.js" == Join(["a.js"]) && "b.js" == Join(["b.js"]);
    SplitJoin([".", "b.js"]);
    SplitJoin(["a.js"]);
    SplitJoin(["b.js"]);
  }

  lemma WalkToImport()
    ensures WalkAll([], [".", "b.js"]) == ["b.js"]
  {
    var segments := [".", "b.js"];
    assert segments[..1] == ["."] && segments[..1][..0] == [];
    assert WalkAll([], segments[..1]) == [];
  }

  /** The first call fails and leaves the module behind without its import; the second call succeeds. */
  lemma SecondCallSucceeds()
    ensures exists left: Cache ::
              && CompileAt(1, BROKEN, map[], "a.js") == Some((left, false))
              && !Complete(BROKEN, left)
              && CompileAt(0, BROKEN, left, "a.js") == Some((left, true))
  {
    hide Resolve;
    MissingImport();
    var m := Module(0, ["./b.js"]);
    assert BROKEN.Load("a.js") == Some(m);
    var left: Cache := map["a.js" := m];
    assert left == map[]["a.js" := m];
    assert CompileAt(0, BROKEN, left, "b.js") == Some((left, false));
    assert CompileAll(0, BROKEN, left, "a.js", m.requests) == Some((left, false));
    assert "./b.js" in m.requests;
    assert "b.js" in BROKEN.Imports("a.js");
  }

  // ---- Hashes that collide

  const CLASHING: Cache := map["a/m" := Module(7, ["./x"]), "b/n" := Module(7, []), "a/x" := Module(8, [])]

  const BY_HASH: map<int, Specifier> := map[7 := "b/n", 8 := "a/x"]

  lemma ResolveBeside(d: string)
    requires d != "" && '/' !in d
    ensures forall f: string | '/' !in f :: Resolve(d + "/" + f, "./x") == d + "/" + "x"
  {
    assert "./x" == Join([".", "x"]);
    SplitJoin([".", "x"]);
    forall f: string | '/' !in f ensures Resolve(d + "/" + f, "./x") == d + "/" + "x" {
      var base := d + "/" + f;
      SplitAtSlash(d, f);
      SplitWhole(f);
      DirectoryIsAllButLast(base);
      assert Directory(base) == [d];
      var segments := [".", "x"];
      assert segments[..1] == ["."] && segments[..1][..0] == [];
      assert WalkAll([d], segments[..1]) == [d];
      assert WalkAll([d], segments) == [d, "x"];
    }
  }

  lemma ResolveClashing()
    ensures Resolve("a/m", "./x") == "a/x" && Resolve("b/n", "./x") == "b/x"
  {
    hide Resolve;
    ResolveBeside("a");
    ResolveBeside("b");
    assert "a/m" == "a" + "/" + "m" && "b/n" == "b" + "/" + "n";
    assert "a" + "/" + "x" == "a/x" && "b" + "/" + "x" == "b/x";
  }

  /**
   Identity hashes that coincide mislead the callback: `a/m` imports `./x`, which is
   cached as `a/x`, but its hash leads to `b/n`, beside which there is no `x`.
   */
  lemma CollisionMisleads()
    ensures Hashed(CLASHING, BY_HASH) && Resolve("a/m", "./x") in CLASHING
    ensures Callback(CLASHING, BY_HASH, CLASHING["a/m"].hash, "./x") == None
  {
    hide Resolve;
    ResolveClashing();
    assert "b/x"[0] == 'b' && "a/x"[0] == 'a' && "a/m"[0] == 'a';
    assert "b/x"[2] == 'x' && "b/n"[2] == 'n';
  }
}
