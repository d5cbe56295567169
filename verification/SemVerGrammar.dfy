/** The Backus-Naur form of SemVer 2.0.0, and that parseSemVer accepts exactly its language. */
module SemVerGrammar {
  import opened Text
  import opened SemVer

  predicate PositiveDigit(c: char) { '1' <= c <= '9' }

  predicate NonDigit(c: char) { 'A' <= c <= 'Z' || 'a' <= c <= 'z' || c == '-' }

  /** <digits> ::= <digit> | <digit> <digits> */
  predicate Digits(s: string) {
    s != [] && IsDigit(s[0]) && (|s| == 1 || Digits(s[1..]))
  }

  /** <identifier characters> ::= <identifier character> | <identifier character> <identifier characters> */
  predicate IdentifierCharacters(s: string) {
    s != [] && (IsDigit(s[0]) || NonDigit(s[0])) && (|s| == 1 || IdentifierCharacters(s[1..]))
  }

  /** <numeric identifier> ::= "0" | <positive digit> | <positive digit> <digits> */
  predicate NumericIdentifier(s: string) {
    s == "0" || (s != [] && PositiveDigit(s[0]) && (|s| == 1 || Digits(s[1..])))
  }

  /** <alphanumeric identifier> ::= <non-digit> | <non-digit> <identifier characters>
        | <identifier characters> <non-digit> | <identifier characters> <non-digit> <identifier characters> */
  predicate AlphanumericIdentifier(s: string) {
    exists k :: 0 <= k < |s| && NonDigit(s[k])
                && (k == 0 || IdentifierCharacters(s[..k]))
                && (k == |s| - 1 || IdentifierCharacters(s[k + 1..]))
  }

  predicate PreReleaseIdentifier(s: string) { AlphanumericIdentifier(s) || NumericIdentifier(s) }

  predicate BuildIdentifier(s: string) { AlphanumericIdentifier(s) || Digits(s) }

  predicate DottedIdentifier(s: string, prerelease: bool) {
    if prerelease then PreReleaseIdentifier(s) else BuildIdentifier(s)
  }

  /** <dot-separated identifiers> ::= <identifier> | <identifier> "." <dot-separated identifiers> */
  predicate DotSeparated(s: string, prerelease: bool)
    decreases |s|
  {
    || DottedIdentifier(s, prerelease)
    || exists k ::
         0 <= k < |s| && s[k] == '.' && DottedIdentifier(s[..k], prerelease) && DotSeparated(s[k + 1..], prerelease)
  }

  /** <version core> ::= <major> "." <minor> "." <patch> */
  predicate VersionCore(s: string) {
    exists i, j :: 0 <= i < j < |s| && s[i] == '.' && s[j] == '.'
                   && NumericIdentifier(s[..i]) && NumericIdentifier(s[i + 1..j]) && NumericIdentifier(s[j + 1..])
  }

  /** <version core> | <version core> "-" <pre-release> */
  predicate CoreWithPreRelease(s: string) {
    || VersionCore(s)
    || exists k :: 0 <= k < |s| && s[k] == '-' && VersionCore(s[..k]) && DotSeparated(s[k + 1..], true)
  }

  /** <valid semver>: the above, and the above followed by "+" <build>. */
  predicate ValidSemVer(s: string) {
    || CoreWithPreRelease(s)
    || exists k :: 0 <= k < |s| && s[k] == '+' && CoreWithPreRelease(s[..k]) && DotSeparated(s[k + 1..], false)
  }

  lemma SlicesOfConcat(s: string, k: nat)
    requires k < |s|
    ensures s == s[..k] + [s[k]] + s[k + 1..]
  {
  }

  lemma ThreeSlices(s: string, i: nat, j: nat)
    requires i < j < |s|
    ensures s == s[..i] + [s[i]] + s[i + 1..j] + [s[j]] + s[j + 1..]
  {
  }

  lemma RenderCore(g: Groups)
    requires g.pre == [] && g.build == []
    ensures Render(g) == g.major + ['.'] + g.minor + ['.'] + g.patch
  {
  }

  lemma ConcatSlices(a: string, c: char, b: string)
    ensures var s := a + [c] + b; s[..|a|] == a && s[|a|] == c && s[|a| + 1..] == b
  {
  }

  // ----- the lexical productions in closed form ---------------------------------------------

  lemma {:induction false} DigitsClosed(s: string)
    ensures Digits(s) <==> s != [] && AllDigits(s)
  {
    if |s| <= 1 {
    } else {
      DigitsClosed(s[1..]);
      assert s == [s[0]] + s[1..];
    }
  }

  lemma {:induction false} IdentifierCharactersClosed(s: string)
    ensures IdentifierCharacters(s) <==> s != [] && forall i :: 0 <= i < |s| ==> IdentifierChar(s[i])
  {
    if |s| <= 1 {
    } else {
      IdentifierCharactersClosed(s[1..]);
      assert s == [s[0]] + s[1..];
    }
  }

  lemma NumericClosed(s: string)
    ensures NumericIdentifier(s) <==> CoreNumber(s)
  {
    if |s| > 1 {
      DigitsClosed(s[1..]);
      assert s == [s[0]] + s[1..];
    } else if |s| == 1 {
      assert s == [s[0]];
    }
  }

  lemma AlphanumericHasNonDigit(s: string)
    requires AlphanumericIdentifier(s)
    ensures (forall i :: 0 <= i < |s| ==> IdentifierChar(s[i])) && !AllDigits(s)
  {
    var k :| 0 <= k < |s| && NonDigit(s[k])
             && (k == 0 || IdentifierCharacters(s[..k])) && (k == |s| - 1 || IdentifierCharacters(s[k + 1..]));
    var a, b := s[..k], s[k + 1..];
    IdentifierCharactersClosed(a);
    IdentifierCharactersClosed(b);
    forall i | 0 <= i < |s| ensures IdentifierChar(s[i]) {
      if i < k { assert s[i] == a[i]; } else if i > k { assert s[i] == b[i - k - 1]; }
    }
    assert !IsDigit(s[k]);
  }

  lemma NonDigitIsAlphanumeric(s: string)
    requires (forall i :: 0 <= i < |s| ==> IdentifierChar(s[i])) && !AllDigits(s)
    ensures AlphanumericIdentifier(s)
  {
    var k :| 0 <= k < |s| && !IsDigit(s[k]);
    IdentifierCharactersClosed(s[..k]);
    IdentifierCharactersClosed(s[k + 1..]);
  }

  lemma AlphanumericClosed(s: string)
    ensures AlphanumericIdentifier(s) <==> (forall i :: 0 <= i < |s| ==> IdentifierChar(s[i])) && !AllDigits(s)
  {
    if AlphanumericIdentifier(s) { AlphanumericHasNonDigit(s); }
    if (forall i :: 0 <= i < |s| ==> IdentifierChar(s[i])) && !AllDigits(s) { NonDigitIsAlphanumeric(s); }
  }

  /** The check of one identifier by validateIdentifiers is the grammar's production. */
  lemma IdentifierClosed(s: string, prerelease: bool)
    ensures DottedIdentifier(s, prerelease) <==> ValidIdentifier(s, prerelease)
    ensures DottedIdentifier(s, prerelease) ==> '.' !in s
  {
    AlphanumericClosed(s);
    NumericClosed(s);
    DigitsClosed(s);
  }

  lemma {:induction false} DotSeparatedIsSplit(s: string, prerelease: bool)
    ensures DotSeparated(s, prerelease) <==> forall part :: part in Split(s, '.') ==> ValidIdentifier(part, prerelease)
    ensures DotSeparated(s, prerelease) ==> DottedText(s)
    decreases |s|
  {
    if DotSeparated(s, prerelease) { DerivedSplits(s, prerelease); }
    if forall part :: part in Split(s, '.') ==> ValidIdentifier(part, prerelease) { SplitDerives(s, prerelease); }
  }

  /** Where a derivation with several identifiers divides the string. */
  lemma FirstIdentifier(s: string, prerelease: bool) returns (first: string, rest: string)
    requires DotSeparated(s, prerelease) && !DottedIdentifier(s, prerelease)
    ensures s == first + ['.'] + rest && DottedIdentifier(first, prerelease) && DotSeparated(rest, prerelease)
  {
    var k :|
      0 <= k < |s| && s[k] == '.' && DottedIdentifier(s[..k], prerelease) && DotSeparated(s[k + 1..], prerelease);
    SlicesOfConcat(s, k);
    first, rest := s[..k], s[k + 1..];
  }

  lemma DottedConcat(a: string, b: string)
    requires (forall i :: 0 <= i < |a| ==> IdentifierChar(a[i])) && DottedText(b)
    ensures DottedText(a + ['.'] + b)
  {
  }

  lemma {:induction false} DerivedSplits(s: string, prerelease: bool)
    requires DotSeparated(s, prerelease)
    ensures forall part :: part in Split(s, '.') ==> ValidIdentifier(part, prerelease)
    ensures DottedText(s)
    decreases |s|
  {
    if DottedIdentifier(s, prerelease) {
      IdentifierClosed(s, prerelease);
      SplitWithoutSeparator(s, '.');
    } else {
      var first, rest := FirstIdentifier(s, prerelease);
      IdentifierClosed(first, prerelease);
      DerivedSplits(rest, prerelease);
      SplitAtSeparator(first, '.', rest);
      DottedConcat(first, rest);
    }
  }

  lemma {:induction false} SplitDerives(s: string, prerelease: bool)
    requires forall part :: part in Split(s, '.') ==> ValidIdentifier(part, prerelease)
    ensures DotSeparated(s, prerelease)
    decreases |s|
  {
    var parts := Split(s, '.');
    JoinOfSplit(s, '.');
    assert parts[0] in parts;
    IdentifierClosed(parts[0], prerelease);
    if |parts| <= 1 {
    } else {
      var k := |parts[0]|;
      var rest := Join(parts[1..], '.');
      assert s == parts[0] + ['.'] + rest;
      assert s[..k] == parts[0] && s[k] == '.' && s[k + 1..] == rest;
      SplitAtSeparator(parts[0], '.', rest);
      assert forall part :: part in Split(rest, '.') ==> part in parts;
      SplitDerives(rest, prerelease);
    }
  }

  // ----- the whole version ------------------------------------------------------------------

  lemma CoreSlices(a: string, b: string, c: string)
    ensures var s, i := a + ['.'] + b + ['.'] + c, |a|;
            var j := i + 1 + |b|;
            s[..i] == a && s[i] == '.' && s[i + 1..j] == b && s[j] == '.' && s[j + 1..] == c
  {
  }

  lemma CoreOfGroups(g: Groups)
    requires Shaped(g)
    ensures VersionCore(g.major + ['.'] + g.minor + ['.'] + g.patch)
  {
    NumericClosed(g.major);
    NumericClosed(g.minor);
    NumericClosed(g.patch);
    CoreSlices(g.major, g.minor, g.patch);
  }

  lemma GroupsOfCore(s: string) returns (g: Groups)
    requires VersionCore(s)
    ensures Shaped(g) && g.pre == [] && g.build == [] && Render(g) == s
  {
    var i, j :| 0 <= i < j < |s| && s[i] == '.' && s[j] == '.'
                && NumericIdentifier(s[..i]) && NumericIdentifier(s[i + 1..j]) && NumericIdentifier(s[j + 1..]);
    var major, minor, patch := s[..i], s[i + 1..j], s[j + 1..];
    NumericClosed(major);
    NumericClosed(minor);
    NumericClosed(patch);
    g := Groups(major, minor, patch, [], []);
    ThreeSlices(s, i, j);
    RenderCore(g);
  }

  lemma HeadIsDerivable(g: Groups)
    requires Shaped(g) && ValidIdentifiers(g.pre, true)
    ensures CoreWithPreRelease(Render(g.(build := [])))
  {
    var core := g.major + ['.'] + g.minor + ['.'] + g.patch;
    CoreOfGroups(g);
    var head := Render(g.(build := []));
    RenderCore(g.(pre := [], build := []));
    if g.pre == [] {
      assert head == core;
    } else {
      DotSeparatedIsSplit(g.pre, true);
      RenderWithPre(g.(pre := [], build := []), g.pre);
      ConcatSlices(core, '-', g.pre);
    }
  }

  lemma ParsedIsDerivable(s: string)
    requires Parse(s).Some?
    ensures ValidSemVer(s)
  {
    MatchIsSound(s);
    var g := MatchVersion(s).value;
    HeadIsDerivable(g);
    var head := Render(g.(build := []));
    if g.build == [] {
      assert s == head;
    } else {
      DotSeparatedIsSplit(g.build, false);
      RenderWithBuild(g.(build := []), g.build);
      ConcatSlices(head, '+', g.build);
    }
  }

  /** The place where a derivation with a pre-release, or with build metadata, divides the string. */
  lemma PreReleaseCut(s: string) returns (core: string, pre: string)
    requires CoreWithPreRelease(s) && !VersionCore(s)
    ensures s == core + ['-'] + pre && VersionCore(core) && DotSeparated(pre, true)
  {
    var k :| 0 <= k < |s| && s[k] == '-' && VersionCore(s[..k]) && DotSeparated(s[k + 1..], true);
    SlicesOfConcat(s, k);
    core, pre := s[..k], s[k + 1..];
  }

  lemma BuildCut(s: string) returns (head: string, build: string)
    requires ValidSemVer(s) && !CoreWithPreRelease(s)
    ensures s == head + ['+'] + build && CoreWithPreRelease(head) && DotSeparated(build, false)
  {
    var k :| 0 <= k < |s| && s[k] == '+' && CoreWithPreRelease(s[..k]) && DotSeparated(s[k + 1..], false);
    SlicesOfConcat(s, k);
    head, build := s[..k], s[k + 1..];
  }

  lemma DerivedIdentifiers(s: string, prerelease: bool)
    requires DotSeparated(s, prerelease)
    ensures s != [] && DottedText(s) && ValidIdentifiers(s, prerelease)
  {
    DotSeparatedIsSplit(s, prerelease);
  }

  lemma GroupsOfHead(s: string) returns (g: Groups)
    requires CoreWithPreRelease(s)
    ensures Shaped(g) && g.build == [] && Render(g) == s && ValidIdentifiers(g.pre, true)
  {
    if VersionCore(s) {
      g := GroupsOfCore(s);
    } else {
      var core, pre := PreReleaseCut(s);
      var h := GroupsOfCore(core);
      DerivedIdentifiers(pre, true);
      RenderWithPre(h, pre);
      g := h.(pre := pre);
    }
  }

  lemma DerivableIsParsed(s: string)
    requires ValidSemVer(s)
    ensures Parse(s).Some?
  {
    if CoreWithPreRelease(s) {
      var g := GroupsOfHead(s);
      MatchIsComplete(g);
    } else {
      var head, build := BuildCut(s);
      var h := GroupsOfHead(head);
      DerivedIdentifiers(build, false);
      RenderWithBuild(h, build);
      MatchIsComplete(h.(build := build));
    }
  }

  /** parseSemVer accepts a string exactly when the grammar of SemVer 2.0.0 derives it. */
  lemma ParserAcceptsExactlyTheGrammar(s: string)
    ensures Parse(s).Some? <==> ValidSemVer(s)
  {
    if Parse(s).Some? { ParsedIsDerivable(s); }
    if ValidSemVer(s) { DerivableIsParsed(s); }
  }
}
