/** Splitting and joining at slashes. */
module Paths {
  import opened Wrappers

  /** `split('/')`. */
  function Split(s: string): (parts: seq<string>)
    ensures |parts| >= 1
    ensures forall p | p in parts :: '/' !in p
  {
    if s == [] then [""]
    else if s[0] == '/' then [""] + Split(s[1..])
    else
      var rest := Split(s[1..]);
      [[s[0]] + rest[0]] + rest[1..]
  }

  /** `join("/")`. */
  function Join(parts: seq<string>): string {
    if parts == [] then ""
    else if |parts| == 1 then parts[0]
    else parts[0] + "/" + Join(parts[1..])
  }

  lemma {:induction false} SplitAtSlash(a: string, b: string)
    requires '/' !in a
    ensures Split(a + "/" + b) == [a] + Split(b)
  {
    var s := a + "/" + b;
    if a == [] {
      assert s == ['/'] + b;
      assert s[1..] == b;
    } else {
      assert s[1..] == a[1..] + "/" + b;
      SplitAtSlash(a[1..], b);
      assert [a[0]] + a[1..] == a;
    }
  }

  lemma {:induction false} SplitWhole(a: string)
    requires '/' !in a
    ensures Split(a) == [a]
  {
    if a == [] {
    } else {
      SplitWhole(a[1..]);
      assert [a[0]] + a[1..] == a;
    }
  }

  /** Joining and splitting are inverse on parts without slashes. */
  lemma {:induction false} SplitJoin(parts: seq<string>)
    requires parts != [] && forall p | p in parts :: '/' !in p
    ensures Split(Join(parts)) == parts
  {
    if |parts| == 1 {
      SplitWhole(parts[0]);
    } else {
      SplitJoin(parts[1..]);
      SplitAtSlash(parts[0], Join(parts[1..]));
    }
  }

  /** `rsplit_once('/')`: what stands before and after the last slash. */
  function RsplitOnce(s: string): Option<(string, string)> {
    if s == [] then None
    else if s[|s| - 1] == '/' then Some((s[..|s| - 1], ""))
    else match RsplitOnce(s[..|s| - 1])
      case None => None
      case Some((a, b)) => Some((a, b + [s[|s| - 1]]))
  }

  lemma {:induction false} RsplitOnceJoins(s: string)
    ensures RsplitOnce(s).None? ==> '/' !in s
    ensures RsplitOnce(s).Some? ==>
              s == RsplitOnce(s).value.0 + "/" + RsplitOnce(s).value.1 && '/' !in RsplitOnce(s).value.1
  {
    if s == [] {
    } else {
      var rest := s[..|s| - 1];
      assert s == rest + [s[|s| - 1]];
      RsplitOnceJoins(rest);
    }
  }

  /** What stands before the first slash is the first segment. */
  lemma {:induction false} SplitFirst(s: string)
    ensures |Split(s)| > 1 <==> '/' in s
    ensures |Split(s)| > 1 ==>
              |Split(s)[0]| < |s| && s[..|Split(s)[0]|] == Split(s)[0] && s[|Split(s)[0]|] == '/'
  {
    if s == [] {
    } else if s[0] == '/' {
    } else {
      SplitFirst(s[1..]);
      assert s == [s[0]] + s[1..];
    }
  }

  lemma {:induction false} SplitAtLastSlash(a: string, b: string)
    requires '/' !in b
    ensures Split(a + "/" + b) == Split(a) + [b]
  {
    var s := a + "/" + b;
    if a == [] {
      assert s == ['/'] + b && s[1..] == b;
      SplitWhole(b);
    } else {
      assert s[1..] == a[1..] + "/" + b;
      SplitAtLastSlash(a[1..], b);
    }
  }

  // ---- Segments

  /** Empty and `.` segments stand for no step. */
  predicate Ignored(segment: string) {
    segment == "" || segment == "."
  }

  /** Neither empty nor `.` nor `..`. */
  predicate IsName(segment: string) {
    !Ignored(segment) && segment != ".."
  }

  /** Names only, none of them with a slash. */
  ghost predicate Clean(parts: seq<string>) {
    forall p | p in parts :: p != "" && p != "." && p != ".." && '/' !in p
  }
}
