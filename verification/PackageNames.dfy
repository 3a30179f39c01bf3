/** The two normalisations of package names, in the overlay catalog and in the benchmark host. */
module PackageNames {

  function Lower(c: char): char {
    if 'A' <= c <= 'Z' then (c as int + 32) as char else c
  }

  /** ASCII letters in lower case, and digits. */
  predicate IsPlain(c: char) {
    'a' <= c <= 'z' || '0' <= c <= '9'
  }

  predicate IsSeparator(c: char) {
    c == '-' || c == '_' || c == '.'
  }

  predicate EndsWithDash(s: string) {
    s != [] && s[|s| - 1] == '-'
  }

  // ---- The overlay catalog

  /** What one character adds. */
  function Add(s: string, c: char): string {
    if IsPlain(Lower(c)) then s + [Lower(c)]
    else if IsSeparator(c) && !EndsWithDash(s) then s + ['-']
    else s
  }

  function Scan(name: string): string {
    if name == [] then [] else Add(Scan(name[..|name| - 1]), name[|name| - 1])
  }

  function Canonicalize(name: string): string {
    var s := Scan(name);
    if EndsWithDash(s) then s[..|s| - 1] else s
  }

  /** `canonicalize_package_name`. */
  method CanonicalizePackageName(name: string) returns (canonical: string)
    ensures canonical == Canonicalize(name)
  {
    canonical := "";
    var lastDash := false;
    var i := 0;
    while i < |name|
      invariant 0 <= i <= |name| && canonical == Scan(name[..i])
      invariant lastDash <==> EndsWithDash(canonical)
    {
      assert name[..i + 1][..i] == name[..i];
      var lower := Lower(name[i]);
      if IsPlain(lower) {
        canonical := canonical + [lower];
        lastDash := false;
      } else if IsSeparator(lower) && !lastDash {
        canonical := canonical + ['-'];
        lastDash := true;
      }
      i := i + 1;
    }
    assert name[..i] == name;
    if EndsWithDash(canonical) {
      canonical := canonical[..|canonical| - 1];
    }
  }

  /** Small letters, digits and single dashes. */
  ghost predicate IsCollapsed(s: string) {
    && (forall i | 0 <= i < |s| :: 'a' <= s[i] <= 'z' || '0' <= s[i] <= '9' || s[i] == '-')
    && (forall i | 0 < i < |s| :: s[i] != '-' || s[i - 1] != '-')
  }

  ghost predicate IsCanonical(s: string) {
    IsCollapsed(s) && (s != [] ==> s[|s| - 1] != '-')
  }

  lemma {:induction false} ScanIsCollapsed(name: string)
    ensures IsCollapsed(Scan(name))
  {
    if name == [] {
    } else {
      ScanIsCollapsed(name[..|name| - 1]);
    }
  }

  lemma {:induction false} CollapsedScan(s: string)
    requires IsCollapsed(s)
    ensures Scan(s) == s
  {
    if s == [] {
    } else {
      var init, c := s[..|s| - 1], s[|s| - 1];
      CollapsedScan(init);
      assert Scan(s) == Add(init, c);
      hide Scan;
      assert init + [c] == s;
    }
  }

  /** Results are canonical, canonical names are left alone: normalising twice changes nothing more. */
  lemma CanonicalizeIsIdempotent(name: string)
    ensures IsCanonical(Canonicalize(name))
    ensures Canonicalize(name) == name <==> IsCanonical(name)
    ensures Canonicalize(Canonicalize(name)) == Canonicalize(name)
  {
    ScanIsCollapsed(name);
    CollapsedScan(Canonicalize(name));
    if IsCanonical(name) {
      CollapsedScan(name);
    }
  }

  // ---- The benchmark host

  function HostAdd(s: string, c: char, lastWasSeparator: bool): string {
    if !IsSeparator(c) then s + [Lower(c)]
    else if !lastWasSeparator then s + ['-']
    else s
  }

  /** Nothing is dropped here but repeated separators. */
  function HostCanonical(name: string): string {
    if name == [] then []
    else
      var n := |name| - 1;
      HostAdd(HostCanonical(name[..n]), name[n], n > 0 && IsSeparator(name[n - 1]))
  }

  /** `canonical_package_name`. */
  method CanonicalPackageName(name: string) returns (normalized: string)
    ensures normalized == HostCanonical(name)
  {
    normalized := "";
    var lastWasSeparator := false;
    var i := 0;
    while i < |name|
      invariant 0 <= i <= |name| && normalized == HostCanonical(name[..i])
      invariant lastWasSeparator <==> i > 0 && IsSeparator(name[i - 1])
    {
      assert name[..i + 1][..i] == name[..i];
      if IsSeparator(name[i]) {
        if !lastWasSeparator {
          normalized := normalized + ['-'];
          lastWasSeparator := true;
        }
      } else {
        normalized := normalized + [Lower(name[i])];
        lastWasSeparator := false;
      }
      i := i + 1;
    }
    assert name[..i] == name;
  }

  // ---- Where the two agree

  /** An ASCII letter or a digit. */
  predicate IsWordly(c: char) {
    'a' <= c <= 'z' || 'A' <= c <= 'Z' || '0' <= c <= '9'
  }

  /** ASCII letters, digits, dashes, underscores and dots. */
  ghost predicate Ordinary(name: string) {
    forall i | 0 <= i < |name| :: IsWordly(name[i]) || name[i] == '-' || name[i] == '_' || name[i] == '.'
  }

  lemma {:induction false} OrdinaryAgree(name: string)
    requires Ordinary(name)
    ensures HostCanonical(name) == Scan(name)
    ensures EndsWithDash(Scan(name)) <==> name != [] && !IsWordly(name[|name| - 1])
  {
    if name == [] {
    } else {
      OrdinaryAgree(name[..|name| - 1]);
    }
  }

  /** A character that is neither plain nor a separator stays in the host's form. */
  lemma {:induction false} OddCharacterStays(name: string, i: nat)
    requires i < |name| && !IsWordly(name[i]) && name[i] != '-' && name[i] != '_' && name[i] != '.'
    ensures name[i] in HostCanonical(name)
  {
    if i < |name| - 1 {
      OddCharacterStays(name[..|name| - 1], i);
    }
  }

  lemma OddCharacterGoes(name: string, c: char)
    requires !IsWordly(c) && c != '-'
    ensures c !in Canonicalize(name)
  {
    CanonicalizeIsIdempotent(name);
    hide Canonicalize;
  }

  lemma OrdinaryFormsAgreeExactly(name: string)
    requires Ordinary(name)
    ensures HostCanonical(name) == Canonicalize(name) <==> (name != [] ==> IsWordly(name[|name| - 1]))
  {
    OrdinaryAgree(name);
    hide Scan, HostCanonical, Ordinary;
  }

  /**
   The two forms of a name are the same exactly if it is made of ASCII letters,
   digits and separators and does not end in a separator.
   */
  lemma FormsAgreeExactly(name: string)
    ensures HostCanonical(name) == Canonicalize(name) <==>
            Ordinary(name) && (name != [] ==> IsWordly(name[|name| - 1]))
  {
    hide HostCanonical, Canonicalize, IsWordly;
    if Ordinary(name) {
      OrdinaryFormsAgreeExactly(name);
    } else {
      var i :| 0 <= i < |name| && !IsWordly(name[i]) && name[i] != '-' && name[i] != '_' && name[i] != '.';
      OddCharacterStays(name, i);
      OddCharacterGoes(name, name[i]);
    }
  }

  // ---- What the forms are, from the characters

  /** One separator or several. */
  ghost predicate IsGap(s: string) {
    s != [] && forall i | 0 <= i < |s| :: s[i] == '-' || s[i] == '_' || s[i] == '.'
  }

  function Small(c: char): char {
    match c
    case 'A' => 'a' case 'B' => 'b' case 'C' => 'c' case 'D' => 'd' case 'E' => 'e' case 'F' => 'f' case 'G' => 'g'
    case 'H' => 'h' case 'I' => 'i' case 'J' => 'j' case 'K' => 'k' case 'L' => 'l' case 'M' => 'm' case 'N' => 'n'
    case 'O' => 'o' case 'P' => 'p' case 'Q' => 'q' case 'R' => 'r' case 'S' => 's' case 'T' => 't' case 'U' => 'u'
    case 'V' => 'v' case 'W' => 'w' case 'X' => 'x' case 'Y' => 'y' case 'Z' => 'z'
    case _ => c
  }

  lemma LowerIsSmall(c: char)
    ensures Lower(c) == Small(c)
  {
  }

  lemma ScanNext(s: string, c: char)
    ensures Scan(s + [c]) == Add(Scan(s), c)
  {
    assert (s + [c])[..|s|] == s;
  }

  lemma HostNext(s: string, c: char)
    ensures HostCanonical(s + [c]) == HostAdd(HostCanonical(s), c, s != [] && IsSeparator(s[|s| - 1]))
  {
    assert (s + [c])[..|s|] == s;
  }

  lemma LastApart(a: string, b: string) returns (init: string, c: char)
    requires b != []
    ensures b == init + [c] && a + b == a + init + [c] && c == b[|b| - 1] && init == b[..|b| - 1]
  {
    init, c := b[..|b| - 1], b[|b| - 1];
  }

  /** Letters and digits stay, in lower case. */
  lemma {:induction false} WordStays(s: string)
    requires forall i | 0 <= i < |s| :: IsWordly(s[i])
    ensures HostCanonical(s) == Scan(s) && |Scan(s)| == |s|
    ensures forall i | 0 <= i < |s| :: Scan(s)[i] == Small(s[i])
  {
    if s == [] {
    } else {
      var init, c := LastApart([], s);
      WordStays(init);
      LowerIsSmall(c);
      ScanNext(init, c);
      HostNext(init, c);
      hide Scan, HostCanonical, Small;
    }
  }

  /** No separator between the end of `s` and what follows it. */
  ghost predicate EndsWordly(s: string) {
    s != [] ==> IsWordly(s[|s| - 1])
  }

  ghost predicate StartsWordly(s: string) {
    s != [] ==> IsWordly(s[0])
  }

  lemma ScanEnd(s: string)
    requires EndsWordly(s)
    ensures !EndsWithDash(Scan(s)) && Canonicalize(s) == Scan(s)
  {
  }

  lemma {:induction false} ScanGap(a: string, gap: string)
    requires EndsWordly(a) && IsGap(gap)
    ensures Scan(a + gap) == Scan(a) + "-"
  {
    var init, c := LastApart(a, gap);
    ScanEnd(a);
    ScanNext(a + init, c);
    GapAdds(Scan(a + init), c);
    if init != [] {
      ScanGap(a, init);
    } else {
      assert a + init == a;
    }
    hide Scan, IsGap, Add;
  }

  lemma GapAdds(s: string, c: char)
    requires c == '-' || c == '_' || c == '.'
    ensures Add(s, c) == if EndsWithDash(s) then s else s + "-"
  {
  }

  lemma {:induction false} ScanConcat(a: string, b: string)
    requires StartsWordly(b)
    ensures Scan(a + b) == Scan(a) + Scan(b)
    ensures b != [] ==> Scan(b) != [] && Scan(b)[0] != '-'
  {
    if b == [] {
      assert a + b == a;
    } else {
      var init, c := LastApart(a, b);
      ScanConcat(a, init);
      ScanNext(a + init, c);
      ScanNext(init, c);
      AddApart(Scan(a), Scan(init), c);
      hide Scan;
    }
  }

  /** What a character adds is decided by the end of what there is. */
  lemma AddApart(s: string, t: string, c: char)
    requires t != [] || IsWordly(c)
    ensures Add(s + t, c) == s + Add(t, c)
    ensures Add(t, c) != [] && (t != [] ==> Add(t, c)[0] == t[0]) && (t == [] ==> Add(t, c)[0] != '-')
  {
  }

  lemma WithoutLastDash(s: string, t: string)
    requires t != [] ==> t[0] != '-'
    ensures var all := s + "-" + t;
            (if EndsWithDash(all) then all[..|all| - 1] else all) ==
            s + if t == [] then [] else "-" + if EndsWithDash(t) then t[..|t| - 1] else t
  {
  }

  /** The catalog's form: separators between words become one dash, and none is left at the end. */
  lemma GapBecomesDash(a: string, gap: string, b: string)
    requires EndsWordly(a) && IsGap(gap) && StartsWordly(b)
    ensures Canonicalize(a + gap + b) == Canonicalize(a) + if b == [] then [] else "-" + Canonicalize(b)
  {
    ScanEnd(a);
    ScanGap(a, gap);
    ScanConcat(a + gap, b);
    WithoutLastDash(Scan(a), Scan(b));
    hide Scan, IsGap, IsWordly;
  }

  /** The catalog's form: any other character makes no difference. */
  lemma {:induction false} OddIsDropped(a: string, c: char, b: string)
    requires !IsWordly(c) && c != '-' && c != '_' && c != '.'
    ensures Scan(a + [c] + b) == Scan(a + b) && Canonicalize(a + [c] + b) == Canonicalize(a + b)
  {
    if b == [] {
      ScanNext(a, c);
      assert a + [c] + b == a + [c] && a + b == a;
    } else {
      var init, d := LastApart(a, b);
      OddIsDropped(a, c, init);
      ScanNext(a + init, d);
      ScanNext(a + [c] + init, d);
      assert a + [c] + b == a + [c] + init + [d];
      hide Scan;
    }
  }

  /** The host's form: separators become one dash wherever they stand, and everything else stays. */
  lemma {:induction false} HostGapBecomesDash(a: string, gap: string)
    requires IsGap(gap) && (a != [] ==> !IsGap([a[|a| - 1]]))
    ensures HostCanonical(a + gap) == HostCanonical(a) + "-"
  {
    var init, c := LastApart(a, gap);
    HostNext(a + init, c);
    if init != [] {
      HostGapBecomesDash(a, init);
    } else {
      assert a + init == a && (a != [] ==> [a[|a| - 1]][0] == a[|a| - 1]);
    }
    hide HostCanonical;
  }

  lemma HostKeepsOthers(a: string, c: char)
    requires c != '-' && c != '_' && c != '.'
    ensures HostCanonical(a + [c]) == HostCanonical(a) + [Small(c)]
  {
    LowerIsSmall(c);
    HostNext(a, c);
  }
}
