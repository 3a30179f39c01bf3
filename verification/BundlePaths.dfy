/** Normalisation of the entry names of a bundle archive. */
module BundlePaths {
  import opened Wrappers
  import opened Paths

  /** How far below the root a path is: names less `..`. */
  function Depth(segments: seq<string>): int {
    if segments == [] then 0
    else
      var last := segments[|segments| - 1];
      Depth(segments[..|segments| - 1]) + if last == ".." then -1 else if last == "" || last == "." then 0 else 1
  }

  /** No prefix climbs above the root. */
  ghost predicate StaysInside(segments: seq<string>) {
    forall i | 0 <= i <= |segments| :: Depth(segments[..i]) >= 0
  }

  /** The stack of the loop after all segments, as long as nothing climbs above the root. */
  function Stack(segments: seq<string>): seq<string> {
    if segments == [] then []
    else
      var below, last := Stack(segments[..|segments| - 1]), segments[|segments| - 1];
      if IsName(last) then below + [last]
      else if last == ".." && below != [] then below[..|below| - 1]
      else below
  }

  datatype PathError = EmptyName | Absolute | Traversal | EmptyPath

  datatype Normalized = Normal(path: string) | Refused(error: PathError)

  /**
   Lexical resolution: refused unless the name is relative, no prefix climbs above
   the root and something is left.
   */
  ghost function Resolved(raw: string): Option<string> {
    if raw != "" && raw[0] != '/' && StaysInside(Split(raw)) && Depth(Split(raw)) > 0
    then Some(Join(Survivors(Split(raw), |Split(raw)|)))
    else None
  }

  method NormalizeEntryPath(raw: string) returns (r: Normalized)
    ensures Resolved(raw) == if r.Normal? then Some(r.path) else None
    ensures r == Refused(EmptyName) <==> raw == ""
    ensures r == Refused(Absolute) <==> raw != "" && raw[0] == '/'
    ensures r == Refused(Traversal) <==> raw != "" && raw[0] != '/' && !StaysInside(Split(raw))
  {
    hide Split, Join, Survivors;
    if raw == "" {
      return Refused(EmptyName);
    }
    if raw[0] == '/' {
      return Refused(Absolute);
    }
    var segments := Split(raw);
    var parts: seq<string> := [];
    var i := 0;
    while i < |segments|
      invariant 0 <= i <= |segments|
      invariant StaysInside(segments[..i]) && parts == Stack(segments[..i])
      invariant |parts| == Depth(segments[..i])
    {
      var segment := segments[i];
      Extend(segments, i);
      if segment == ".." {
        if parts == [] {
          assert segments[..i + 1] == segments[..i + 1][..i + 1];
          assert Depth(segments[..i + 1]) < 0;
          return Refused(Traversal);
        }
        parts := parts[..|parts| - 1];
      } else if !Ignored(segment) {
        parts := parts + [segment];
      }
      i := i + 1;
    }
    assert segments[..i] == segments;
    StackIsSurvivors(segments);
    if parts == [] {
      return Refused(EmptyPath);
    }
    return Normal(Join(parts));
  }

  lemma Extend(segments: seq<string>, i: nat)
    requires i < |segments| && StaysInside(segments[..i])
    ensures segments[..i + 1] == segments[..i] + [segments[i]]
    ensures segments[..i + 1][..i] == segments[..i]
    ensures StaysInside(segments[..i + 1]) <==> Depth(segments[..i + 1]) >= 0
  {
    var longer := segments[..i + 1];
    assert longer[..i] == segments[..i] && longer[..i + 1] == longer;
    if Depth(longer) >= 0 {
      forall j | 0 <= j <= i + 1 ensures Depth(longer[..j]) >= 0 {
        if j <= i {
          assert longer[..j] == segments[..i][..j];
        }
      }
    }
  }

  // ---- What the result is

  lemma {:induction false} StackIsClean(segments: seq<string>)
    requires forall p | p in segments :: '/' !in p
    ensures Clean(Stack(segments))
  {
    if segments == [] {
    } else {
      var init, last := segments[..|segments| - 1], segments[|segments| - 1];
      assert last in segments;
      StackIsClean(init);
      assert forall p | p in Stack(segments) :: p in Stack(init) || (p == last && IsName(last));
    }
  }

  lemma {:induction false} CleanDepth(parts: seq<string>)
    requires Clean(parts)
    ensures Stack(parts) == parts && Depth(parts) == |parts| && StaysInside(parts)
  {
    if parts == [] {
    } else {
      var n := |parts| - 1;
      assert parts[n] in parts && IsName(parts[n]);
      CleanDepth(parts[..n]);
      hide Clean;
      Extend(parts, n);
      assert parts[..n + 1] == parts;
    }
  }

  lemma JoinedClean(parts: seq<string>)
    requires parts != [] && Clean(parts)
    ensures Join(parts) != "" && Join(parts)[0] != '/'
  {
    var p := parts[0];
    assert p in parts && p != "" && p[0] in p;
    assert Join(parts)[0] == p[0];
  }

  /** A normalised path has no `.`, `..` or empty segment and normalises to itself. */
  lemma NormalizedIsFixed(raw: string)
    requires Resolved(raw).Some?
    ensures var path := Resolved(raw).value; Clean(Split(path)) && Resolved(path) == Some(path)
  {
    var parts := Stack(Split(raw));
    StackIsSurvivors(Split(raw));
    StackIsClean(Split(raw));
    StackLength(Split(raw));
    JoinedClean(parts);
    SplitJoin(parts);
    CleanDepth(parts);
    StackIsSurvivors(parts);
  }

  lemma {:induction false} StackLength(segments: seq<string>)
    requires StaysInside(segments)
    ensures |Stack(segments)| == Depth(segments)
  {
    if segments == [] {
    } else {
      var n := |segments| - 1;
      PrefixInside(segments, n);
      StackLength(segments[..n]);
      assert segments[..n + 1] == segments;
    }
  }

  lemma PrefixInside(segments: seq<string>, n: nat)
    requires StaysInside(segments) && n <= |segments|
    ensures StaysInside(segments[..n]) && Depth(segments[..n]) >= 0
  {
    forall i | 0 <= i <= n ensures Depth(segments[..n][..i]) >= 0 {
      assert segments[..n][..i] == segments[..i];
    }
  }

  // ---- Lexical resolution without a stack

  /** The lowest point of the path from prefix `n` to prefix `m`. */
  function Low(segments: seq<string>, n: nat, m: nat): (low: int)
    requires n <= m <= |segments|
    ensures low <= Depth(segments[..n])
    decreases m - n
  {
    var here := Depth(segments[..n]);
    if n == m then here
    else
      var later := Low(segments, n + 1, m);
      if here < later then here else later
  }

  /** A name counts if the path never again climbs back out of it. */
  predicate Survives(segments: seq<string>, i: nat) {
    && i < |segments| && segments[i] != "" && segments[i] != "." && segments[i] != ".."
    && Low(segments, i + 1, |segments|) > Depth(segments[..i])
  }

  /** The surviving names among the first `n` segments. */
  function Survivors(segments: seq<string>, n: nat): seq<string>
    requires n <= |segments|
  {
    if n == 0 then []
    else Survivors(segments, n - 1) + if Survives(segments, n - 1) then [segments[n - 1]] else []
  }

  lemma {:induction false} LowNext(segments: seq<string>, n: nat, m: nat)
    requires n <= m < |segments|
    ensures var low, here := Low(segments, n, m), Depth(segments[..m + 1]);
            Low(segments, n, m + 1) == if low <= here then low else here
    decreases m - n
  {
    if n < m {
      LowNext(segments, n + 1, m);
    }
  }

  /** What of the stack after `n` segments is still there at the end. */
  function Lasting(segments: seq<string>, n: nat): nat
    requires n <= |segments|
  {
    var low, now := Low(segments, n, |segments|), Low(segments, 0, n);
    if low <= now then 0 else low - now
  }

  /** The stack stands on the lowest point so far; below what is still to be climbed out of are the survivors. */
  lemma {:induction false} SurvivorsAreStackBottom(segments: seq<string>, n: nat)
    requires n <= |segments|
    ensures |Stack(segments[..n])| == Depth(segments[..n]) - Low(segments, 0, n)
    ensures Lasting(segments, n) <= |Stack(segments[..n])|
    ensures Survivors(segments, n) == Stack(segments[..n])[..Lasting(segments, n)]
  {
    if n > 0 {
      SurvivorsAreStackBottom(segments, n - 1);
      LowNext(segments, 0, n - 1);
      PrefixStack(segments, n);
      LowAgain(segments, n - 1);
      hide Stack, Depth, Low;
    }
  }

  lemma PrefixStack(segments: seq<string>, n: nat)
    requires 0 < n <= |segments|
    ensures var below, last := Stack(segments[..n - 1]), segments[n - 1];
            Stack(segments[..n]) ==
            if IsName(last) then below + [last] else if last == ".." && below != [] then below[..|below| - 1] else below
    ensures var last := segments[n - 1];
            Depth(segments[..n]) == Depth(segments[..n - 1]) +
              if last == ".." then -1 else if last == "" || last == "." then 0 else 1
  {
    assert segments[..n][..n - 1] == segments[..n - 1];
  }

  lemma LowAgain(segments: seq<string>, n: nat)
    requires n < |segments|
    ensures var here, later := Depth(segments[..n]), Low(segments, n + 1, |segments|);
            Low(segments, n, |segments|) == if here < later then here else later
    ensures n == 0 ==> Low(segments, 0, 0) == 0
  {
  }

  /** The stack holds exactly the surviving names, in order. */
  lemma StackIsSurvivors(segments: seq<string>)
    ensures Stack(segments) == Survivors(segments, |segments|)
  {
    SurvivorsAreStackBottom(segments, |segments|);
    LowAtEnd(segments, 0, |segments|);
    assert segments[..|segments|] == segments;
  }

  lemma {:induction false} LowAtEnd(segments: seq<string>, n: nat, m: nat)
    requires n <= m <= |segments|
    ensures Low(segments, n, m) <= Depth(segments[..m])
    decreases m - n
  {
    if n < m {
      LowAtEnd(segments, n + 1, m);
    }
  }
}
