/** What resolving a specifier and looking up an asset amount to, over the strings themselves. */
module ModuleSpecifiers {
  import opened Wrappers
  import opened Paths
  import opened BundlePaths
  import opened EsModules

  lemma {:induction false} WalkFromTop(segments: seq<string>)
    ensures WalkAll([], segments) == Stack(segments)
  {
    if segments == [] {
    } else {
      WalkFromTop(segments[..|segments| - 1]);
    }
  }

  /** A walk climbs above the top as often as the path is at its lowest below its start. */
  lemma {:induction false} ClimbsToLowest(segments: seq<string>, n: nat)
    requires n <= |segments|
    ensures Climbs(segments[..n]) == -Low(segments, 0, n)
  {
    if n == 0 {
    } else {
      ClimbsToLowest(segments, n - 1);
      LowNext(segments, 0, n - 1);
      SurvivorsAreStackBottom(segments, n - 1);
      WalkFromTop(segments[..n - 1]);
      assert segments[..n][..n - 1] == segments[..n - 1];
    }
  }

  /** A request is relative exactly if its first segment is `.` or `..` and a slash follows. */
  lemma RelativeByFirstSegment(request: string)
    ensures IsRelative(request) <==> |Split(request)| > 1 && Split(request)[0] in {".", ".."}
  {
    SplitFirst(request);
    if StartsWith(request, "./") {
      assert request == "." + "/" + request[2..];
      SplitAtSlash(".", request[2..]);
    } else if StartsWith(request, "../") {
      assert request == ".." + "/" + request[3..];
      SplitAtSlash("..", request[3..]);
    }
  }

  /**
   A request that starts with a `.` or `..` segment leads to the base's segments without
   the last, less one for each level the request ever goes above them, followed by the
   names it never climbs back out of. Any other request is its own answer.
   */
  lemma ResolvesExactly(base: Specifier, request: string)
    ensures var s, dir := Split(request), Split(base)[..|Split(base)| - 1];
            Resolve(base, request) ==
            if |s| > 1 && (s[0] == "." || s[0] == "..") then
              var left := |dir| + Low(s, 0, |s|);
              Join(dir[..if left <= 0 then 0 else left] + Survivors(s, |s|))
            else request
  {
    hide Split, Join;
    var s := Split(request);
    RelativeByFirstSegment(request);
    DirectoryIsAllButLast(base);
    WalkIsRelative(Directory(base), s);
    ClimbsToLowest(s, |s|);
    WalkFromTop(s);
    StackIsSurvivors(s);
    assert s[..|s|] == s;
  }

  /** A relative request that leaves no segment leads to the empty specifier. */
  lemma ResolvesToNothing(base: Specifier, request: string)
    requires var s := Split(request);
             |s| > 1 && s[0] in {".", ".."} && |Split(base)| + Low(s, 0, |s|) <= 1 && Survivors(s, |s|) == []
    ensures Resolve(base, request) == ""
  {
    hide Split, Resolve, Low, Survivors;
    ResolvesExactly(base, request);
    var nothing: seq<string> := [];
    assert Split(base)[..|Split(base)| - 1][..0] + nothing == nothing;
  }

  /** The file name of `name` is `last`: all of it, or what follows its last slash. */
  ghost predicate EndsIn(name: string, last: string) {
    '/' !in last && (name == last || exists dir: string :: name == dir + "/" + last)
  }

  /** `last` is the file name of `name` exactly if it is its last segment. */
  lemma EndsInLastSegment(name: string, last: string)
    ensures EndsIn(name, last) <==> last == Split(name)[|Split(name)| - 1]
  {
    RsplitOnceJoins(name);
    match RsplitOnce(name) {
      case None => SplitWhole(name);
      case Some((a, b)) => SplitAtLastSlash(a, b);
    }
    if EndsIn(name, last) {
      if name == last {
        SplitWhole(name);
      } else {
        var dir: string :| name == dir + "/" + last;
        SplitAtLastSlash(dir, last);
      }
    }
  }

  /**
   An asset is found under its own name first, then under the name that a leading `./`
   hides, then under the bare file name, and otherwise not at all.
   */
  lemma FindsNearest(assets: map<string, Asset>, name: string, last: string)
    requires EndsIn(name, last)
    ensures name in assets ==> Get(assets, name) == Some(assets[name])
    ensures name !in assets ==>
              forall rest | name == "./" + rest && rest in assets :: Get(assets, name) == Some(assets[rest])
    ensures name !in assets && (forall rest | name == "./" + rest :: rest !in assets) ==>
              Get(assets, name) == if last in assets then Some(assets[last]) else None
  {
    hide Split;
    EndsInLastSegment(name, last);
    if StartsWith(name, "./") {
      assert name == "./" + name[2..];
    }
  }
}
