/** internal/release/release.go: the version pattern, parseSemVer, validateIdentifiers and
    CompareVersions, with the precedence of section 11 of SemVer 2.0.0 as their specification. */
module SemVer {
  import opened Text

  // ----- the version pattern ---------------------------------------------------------------

  predicate IdentifierChar(c: char) {
    IsDigit(c) || 'A' <= c <= 'Z' || 'a' <= c <= 'z' || c == '-'
  }

  /** [0-9A-Za-z.-]+ */
  predicate DottedText(s: string) {
    s != [] && forall i :: 0 <= i < |s| ==> IdentifierChar(s[i]) || s[i] == '.'
  }

  /** 0|[1-9][0-9]* */
  predicate CoreNumber(s: string) {
    s != [] && AllDigits(s) && (s[0] == '0' ==> |s| == 1)
  }

  /** The five groups of the pattern; a group that takes no part in the match is empty. */
  datatype Groups = Groups(major: string, minor: string, patch: string, pre: string, build: string)

  function Render(g: Groups): string {
    g.major + ['.'] + g.minor + ['.'] + g.patch
    + (if g.pre == [] then [] else ['-'] + g.pre)
    + (if g.build == [] then [] else ['+'] + g.build)
  }

  lemma RenderWithPre(g: Groups, pre: string)
    requires g.pre == [] && g.build == [] && pre != []
    ensures Render(g.(pre := pre)) == Render(g) + ['-'] + pre
  {
  }

  lemma RenderWithBuild(g: Groups, build: string)
    requires g.build == [] && build != []
    ensures Render(g.(build := build)) == Render(g) + ['+'] + build
  {
  }

  /** What the regular expression asks of the groups. */
  predicate Shaped(g: Groups) {
    && CoreNumber(g.major) && CoreNumber(g.minor) && CoreNumber(g.patch)
    && (g.pre == [] || DottedText(g.pre))
    && (g.build == [] || DottedText(g.build))
  }

  /** FindStringSubmatch: cut at the first '+', then at the first '-', then at the dots. */
  function MatchVersion(s: string): Option<Groups> {
    var (head, build) := Cut(s, '+');
    var (core, pre) := Cut(head, '-');
    var numbers := Split(core, '.');
    if || (build.Some? && !DottedText(build.value))
       || (pre.Some? && !DottedText(pre.value))
       || |numbers| != 3
       || !CoreNumber(numbers[0]) || !CoreNumber(numbers[1]) || !CoreNumber(numbers[2])
    then None
    else Some(Groups(numbers[0], numbers[1], numbers[2],
                     if pre.Some? then pre.value else [], if build.Some? then build.value else []))
  }

  lemma MatchIsSound(s: string)
    requires MatchVersion(s).Some?
    ensures Shaped(MatchVersion(s).value) && Render(MatchVersion(s).value) == s
  {
    var (head, build) := Cut(s, '+');
    var (core, pre) := Cut(head, '-');
    var numbers := Split(core, '.');
    JoinOfSplit(core, '.');
    JoinThree(numbers[0], numbers[1], numbers[2], '.');
    assert numbers == [numbers[0], numbers[1], numbers[2]];
  }

  lemma SplitCore(g: Groups)
    requires Shaped(g)
    ensures Split(g.major + ['.'] + g.minor + ['.'] + g.patch, '.') == [g.major, g.minor, g.patch]
  {
    var parts := [g.major, g.minor, g.patch];
    SplitOfJoin(parts, '.');
    JoinThree(g.major, g.minor, g.patch, '.');
  }

  lemma MatchIsComplete(g: Groups)
    requires Shaped(g)
    ensures MatchVersion(Render(g)) == Some(g)
  {
    var core := g.major + ['.'] + g.minor + ['.'] + g.patch;
    var pre := if g.pre == [] then None else Some(g.pre);
    var build := if g.build == [] then None else Some(g.build);
    var head := core + (if pre.None? then [] else ['-'] + pre.value);
    assert '-' !in core && '+' !in core;
    assert '+' !in head;
    assert Render(g) == head + (if build.None? then [] else ['+'] + build.value);
    CutIsUnique(head, '+', build);
    CutIsUnique(core, '-', pre);
    SplitCore(g);
  }

  /** The match is unique: the decomposition of a version string into its groups is determined by it. */
  lemma DecompositionIsUnique(s: string, g: Groups)
    ensures MatchVersion(s) == Some(g) <==> Shaped(g) && Render(g) == s
  {
    if MatchVersion(s) == Some(g) { MatchIsSound(s); }
    if Shaped(g) && Render(g) == s { MatchIsComplete(g); }
  }

  // ----- identifiers and parsing -----------------------------------------------------------

  predicate ValidIdentifier(part: string, prerelease: bool) {
    && part != []
    && (forall i :: 0 <= i < |part| ==> IdentifierChar(part[i]))
    && (prerelease && |part| > 1 && part[0] == '0' ==> !AllDigits(part))
  }

  predicate ValidIdentifiers(raw: string, prerelease: bool) {
    raw == [] || forall part :: part in Split(raw, '.') ==> ValidIdentifier(part, prerelease)
  }

  function Identifiers(raw: string): seq<string> {
    if raw == [] then [] else Split(raw, '.')
  }

  method IsDigits(s: string) returns (b: bool)
    ensures b <==> s != [] && AllDigits(s)
  {
    if s == [] { return false; }
    for i := 0 to |s|
      invariant AllDigits(s[..i])
    {
      if s[i] < '0' || s[i] > '9' { return false; }
    }
    assert s[..|s|] == s;
    return true;
  }

  method ValidateIdentifiers(raw: string, prerelease: bool) returns (ok: bool, parts: seq<string>)
    ensures ok <==> ValidIdentifiers(raw, prerelease)
    ensures parts == if ok then Identifiers(raw) else []
  {
    if raw == [] { return true, []; }
    parts := Split(raw, '.');
    for k := 0 to |parts|
      invariant forall j :: 0 <= j < k ==> ValidIdentifier(parts[j], prerelease)
    {
      var part := parts[k];
      assert part in Split(raw, '.');
      if part == [] { return false, []; }
      for i := 0 to |part|
        invariant forall j :: 0 <= j < i ==> IdentifierChar(part[j])
      {
        if !IdentifierChar(part[i]) { return false, []; }
      }
      if prerelease && |part| > 1 && part[0] == '0' {
        var allDigits, i := true, 0;
        while i < |part| && allDigits
          invariant 0 <= i <= |part|
          invariant allDigits <==> AllDigits(part[..i])
          decreases |part| - i, allDigits
        {
          if part[i] < '0' || part[i] > '9' { allDigits := false; }
          i := i + 1;
        }
        assert allDigits ==> part[..i] == part;
        assert !allDigits ==> !AllDigits(part[..i]);
        if allDigits { return false, []; }
      }
    }
    ok := true;
  }

  datatype Version = Version(major: string, minor: string, patch: string, pre: seq<string>)

  function Parse(s: string): Option<Version> {
    var m := MatchVersion(s);
    if m.None? || !ValidIdentifiers(m.value.pre, true) || !ValidIdentifiers(m.value.build, false) then None
    else Some(Version(m.value.major, m.value.minor, m.value.patch, Identifiers(m.value.pre)))
  }

  method ParseSemVer(s: string) returns (r: Option<Version>)
    ensures r == Parse(s)
  {
    var m := MatchVersion(s);
    if m.None? { return None; }
    var ok, pre := ValidateIdentifiers(m.value.pre, true);
    if !ok { return None; }
    var okBuild, _ := ValidateIdentifiers(m.value.build, false);
    if !okBuild { return None; }
    return Some(Version(m.value.major, m.value.minor, m.value.patch, pre));
  }

  /** What every parsed version satisfies; the order below is studied on these. */
  predicate WellFormed(v: Version) {
    && CoreNumber(v.major) && CoreNumber(v.minor) && CoreNumber(v.patch)
    && forall i :: 0 <= i < |v.pre| ==> ValidIdentifier(v.pre[i], true)
  }

  lemma ParsedIsWellFormed(s: string)
    requires Parse(s).Some?
    ensures WellFormed(Parse(s).value)
  {
    MatchIsSound(s);
  }

  // ----- precedence (section 11 of SemVer 2.0.0) --------------------------------------------

  /** Items 11.4.1 and 11.4.2: an identifier of only digits is a number, any other is text. */
  datatype Identifier = Numeric(n: nat) | Alphanumeric(text: string)

  function Meaning(part: string): Identifier {
    if part != [] && AllDigits(part) then Numeric(Value(part)) else Alphanumeric(part)
  }

  function CompareIdentifiers(x: Identifier, y: Identifier): int {
    match (x, y)
    case (Numeric(m), Numeric(n)) => Sign(m - n)
    case (Numeric(_), Alphanumeric(_)) => -1
    case (Alphanumeric(_), Numeric(_)) => 1
    case (Alphanumeric(s), Alphanumeric(t)) => Lex(s, t)
  }

  /** Items 11.4 and 11.4.4: field by field, and a proper prefix is lower. */
  function CompareFields(xs: seq<string>, ys: seq<string>): int {
    if xs == [] && ys == [] then 0
    else if xs == [] then -1
    else if ys == [] then 1
    else
      var c := CompareIdentifiers(Meaning(xs[0]), Meaning(ys[0]));
      if c != 0 then c else CompareFields(xs[1..], ys[1..])
  }

  /** Item 11.2. */
  function CompareCores(a: Version, b: Version): (c: int)
    requires WellFormed(a) && WellFormed(b)
    ensures c == 0 ==>
              Value(a.major) == Value(b.major) && Value(a.minor) == Value(b.minor) && Value(a.patch) == Value(b.patch)
  {
    if Value(a.major) != Value(b.major) then Sign(Value(a.major) - Value(b.major))
    else if Value(a.minor) != Value(b.minor) then Sign(Value(a.minor) - Value(b.minor))
    else Sign(Value(a.patch) - Value(b.patch))
  }

  /** Items 11.2, 11.3 and 11.4. */
  function Precedence(a: Version, b: Version): int
    requires WellFormed(a) && WellFormed(b)
  {
    var core := CompareCores(a, b);
    if core != 0 then core
    else if a.pre == [] && b.pre == [] then 0
    else if a.pre == [] then 1
    else if b.pre == [] then -1
    else CompareFields(a.pre, b.pre)
  }

  function CompareNumericIdentifier(a: string, b: string): int {
    if |a| < |b| then -1
    else if |a| > |b| then 1
    else if Lex(a, b) < 0 then -1
    else if Lex(a, b) > 0 then 1
    else 0
  }

  /** Length first, then byte order, is numeric order on digit strings of any length without leading zeros. */
  lemma NumericStringOrder(a: string, b: string)
    requires CoreNumber(a) && CoreNumber(b)
    ensures CompareNumericIdentifier(a, b) == Sign(Value(a) - Value(b))
    ensures Value(a) == Value(b) <==> a == b
  {
    if |a| == |b| {
      LexIsNumericOnEqualLength(a, b);
      LexEqual(a, b);
    } else if |a| < |b| {
      ShorterIsSmaller(a, b);
    } else {
      ShorterIsSmaller(b, a);
    }
  }

  lemma ShorterIsSmaller(a: string, b: string)
    requires CoreNumber(a) && CoreNumber(b) && |a| < |b|
    ensures Value(a) < Value(b)
  {
    ValueBelow(a);
    ValueAbove(b);
    Pow10Monotone(|a|, |b| - 1);
  }

  /** The loop of CompareVersions over the major, minor and patch pairs. */
  method CompareNumbers(av: Version, bv: Version) returns (r: int)
    requires WellFormed(av) && WellFormed(bv)
    ensures r == CompareCores(av, bv)
  {
    var pairs := [[av.major, bv.major], [av.minor, bv.minor], [av.patch, bv.patch]];
    for k := 0 to 3
      invariant k >= 1 ==> Value(av.major) == Value(bv.major)
      invariant k >= 2 ==> Value(av.minor) == Value(bv.minor)
      invariant k >= 3 ==> Value(av.patch) == Value(bv.patch)
    {
      var cmp := CompareNumericIdentifier(pairs[k][0], pairs[k][1]);
      NumericStringOrder(pairs[k][0], pairs[k][1]);
      if cmp != 0 { return cmp; }
    }
    return 0;
  }

  method CompareVersions(a: string, b: string) returns (r: Option<int>)
    ensures r.Some? <==> Parse(a).Some? && Parse(b).Some?
    ensures r.Some? ==> WellFormed(Parse(a).value) && WellFormed(Parse(b).value)
    ensures r.Some? ==> r.value == Precedence(Parse(a).value, Parse(b).value)
  {
    var pa := ParseSemVer(a);
    if pa.None? { return None; }
    var pb := ParseSemVer(b);
    if pb.None? { return None; }
    ParsedIsWellFormed(a);
    ParsedIsWellFormed(b);
    var av, bv := pa.value, pb.value;
    var core := CompareNumbers(av, bv);
    if core != 0 { return Some(core); }
    if |av.pre| == 0 && |bv.pre| == 0 { return Some(0); }
    if |av.pre| == 0 { return Some(1); }
    if |bv.pre| == 0 { return Some(-1); }
    var c := ComparePreRelease(av.pre, bv.pre);
    r := Some(c);
  }

  /** The index loop of CompareVersions over the pre-release identifiers. */
  method ComparePreRelease(av: seq<string>, bv: seq<string>) returns (r: int)
    requires forall i :: 0 <= i < |av| ==> ValidIdentifier(av[i], true)
    requires forall i :: 0 <= i < |bv| ==> ValidIdentifier(bv[i], true)
    ensures r == CompareFields(av, bv)
  {
    var max := |av|;
    if |bv| > max { max := |bv|; }
    for i := 0 to max
      invariant i <= |av| && i <= |bv|
      invariant CompareFields(av, bv) == CompareFields(av[i..], bv[i..])
    {
      if i >= |av| { return -1; }
      if i >= |bv| { return 1; }
      var a, b := av[i], bv[i];
      var aNumeric := IsDigits(a);
      var bNumeric := IsDigits(b);
      if aNumeric && bNumeric {
        NumericStringOrder(a, b);
        var cmp := CompareNumericIdentifier(a, b);
        if cmp != 0 { return cmp; }
      } else if aNumeric && !bNumeric {
        return -1;
      } else if !aNumeric && bNumeric {
        return 1;
      } else {
        LexEqual(a, b);
        if Lex(a, b) < 0 { return -1; }
        if Lex(a, b) > 0 { return 1; }
      }
      assert av[i..][1..] == av[i + 1..] && bv[i..][1..] == bv[i + 1..];
    }
    return 0;
  }
}
