/** CompareVersions is a total preorder whose ties are exactly the versions that differ in build metadata. */
module SemVerOrder {
  import opened Text
  import opened SemVer

  predicate ValidFields(xs: seq<string>) {
    forall i :: 0 <= i < |xs| ==> ValidIdentifier(xs[i], true)
  }

  lemma IdentifierTies(x: string, y: string)
    requires ValidIdentifier(x, true) && ValidIdentifier(y, true)
    ensures CompareIdentifiers(Meaning(x), Meaning(y)) == 0 <==> x == y
  {
    if AllDigits(x) && AllDigits(y) {
      NumericStringOrder(x, y);
    } else {
      LexEqual(x, y);
    }
  }

  lemma IdentifiersTransitive(x: Identifier, y: Identifier, z: Identifier)
    requires CompareIdentifiers(x, y) <= 0 && CompareIdentifiers(y, z) <= 0
    ensures CompareIdentifiers(x, z) <= 0
    ensures CompareIdentifiers(x, y) < 0 || CompareIdentifiers(y, z) < 0 ==> CompareIdentifiers(x, z) < 0
  {
    if x.Alphanumeric? && y.Alphanumeric? && z.Alphanumeric? { LexTransitive(x.text, y.text, z.text); }
  }

  lemma {:induction false} FieldsAntisymmetric(xs: seq<string>, ys: seq<string>)
    ensures CompareFields(xs, ys) == -CompareFields(ys, xs)
  {
    if xs == [] || ys == [] {
    } else {
      var x, y := Meaning(xs[0]), Meaning(ys[0]);
      if x.Alphanumeric? && y.Alphanumeric? { LexSymmetric(x.text, y.text); }
      FieldsAntisymmetric(xs[1..], ys[1..]);
    }
  }

  lemma {:induction false} FieldsTie(xs: seq<string>, ys: seq<string>)
    requires ValidFields(xs) && ValidFields(ys)
    ensures CompareFields(xs, ys) == 0 <==> xs == ys
  {
    if xs == [] || ys == [] {
    } else {
      IdentifierTies(xs[0], ys[0]);
      FieldsTie(xs[1..], ys[1..]);
      assert xs == [xs[0]] + xs[1..] && ys == [ys[0]] + ys[1..];
    }
  }

  lemma {:induction false} FieldsTransitive(xs: seq<string>, ys: seq<string>, zs: seq<string>)
    requires ValidFields(xs) && ValidFields(ys) && ValidFields(zs)
    requires CompareFields(xs, ys) <= 0 && CompareFields(ys, zs) <= 0
    ensures CompareFields(xs, zs) <= 0
    ensures CompareFields(xs, ys) < 0 || CompareFields(ys, zs) < 0 ==> CompareFields(xs, zs) < 0
  {
    if xs == [] || ys == [] || zs == [] {
    } else {
      IdentifiersTransitive(Meaning(xs[0]), Meaning(ys[0]), Meaning(zs[0]));
      IdentifierTies(xs[0], ys[0]);
      IdentifierTies(ys[0], zs[0]);
      IdentifierTies(xs[0], zs[0]);
      if xs[0] == ys[0] == zs[0] { FieldsTransitive(xs[1..], ys[1..], zs[1..]); }
    }
  }

  /** Swapping the arguments negates the result. */
  lemma PrecedenceAntisymmetric(a: Version, b: Version)
    requires WellFormed(a) && WellFormed(b)
    ensures Precedence(a, b) == -Precedence(b, a)
  {
    FieldsAntisymmetric(a.pre, b.pre);
  }

  lemma CoresTransitive(a: Version, b: Version, c: Version)
    requires WellFormed(a) && WellFormed(b) && WellFormed(c)
    requires CompareCores(a, b) <= 0 && CompareCores(b, c) <= 0
    ensures CompareCores(a, c) <= 0
    ensures CompareCores(a, b) < 0 || CompareCores(b, c) < 0 ==> CompareCores(a, c) < 0
  {
  }

  /** Transitive through releases, pre-releases, mixed identifiers and prefixes; strict when either step is. */
  lemma PrecedenceTransitive(a: Version, b: Version, c: Version)
    requires WellFormed(a) && WellFormed(b) && WellFormed(c)
    requires Precedence(a, b) <= 0 && Precedence(b, c) <= 0
    ensures Precedence(a, c) <= 0
    ensures Precedence(a, b) < 0 || Precedence(b, c) < 0 ==> Precedence(a, c) < 0
  {
    CoresTransitive(a, b, c);
    if CompareCores(a, b) == 0 && CompareCores(b, c) == 0 {
      assert CompareCores(a, c) == 0;
      if a.pre != [] && b.pre != [] && c.pre != [] { FieldsTransitive(a.pre, b.pre, c.pre); }
    }
  }

  /** Precedence 0 means the same core numbers and the same pre-release identifiers. */
  lemma PrecedenceTie(a: Version, b: Version)
    requires WellFormed(a) && WellFormed(b)
    ensures Precedence(a, b) == 0 <==> a == b
  {
    NumericStringOrder(a.major, b.major);
    NumericStringOrder(a.minor, b.minor);
    NumericStringOrder(a.patch, b.patch);
    FieldsTie(a.pre, b.pre);
  }

  /** Section 10: the version string with its build metadata dropped. */
  function WithoutBuild(s: string): string { Cut(s, '+').0 }

  lemma PreReleaseText(s: string)
    requires Parse(s).Some?
    ensures var g := MatchVersion(s).value;
            WithoutBuild(s) == Render(g.(build := [])) && Shaped(g.(build := []))
  {
    MatchIsSound(s);
    var g := MatchVersion(s).value;
    CutOfRendered(g);
  }

  lemma CutOfRendered(g: Groups)
    requires Shaped(g)
    ensures WithoutBuild(Render(g)) == Render(g.(build := []))
  {
    var h := g.(build := []);
    NoPlus(h);
    if g.build == [] {
      CutIsUnique(Render(h), '+', None);
      assert Render(h) + [] == Render(h);
    } else {
      RenderWithBuild(h, g.build);
      CutIsUnique(Render(h), '+', Some(g.build));
      assert Render(h) + (['+'] + g.build) == Render(h) + ['+'] + g.build;
    }
  }

  lemma NoPlus(g: Groups)
    requires Shaped(g) && g.build == []
    ensures '+' !in Render(g)
  {
  }

  /** The comparison of two valid version strings is 0 exactly when they are equal without build metadata. */
  lemma TiesIgnoreExactlyBuild(s: string, t: string)
    requires Parse(s).Some? && Parse(t).Some?
    ensures WellFormed(Parse(s).value) && WellFormed(Parse(t).value)
    ensures Precedence(Parse(s).value, Parse(t).value) == 0 <==> WithoutBuild(s) == WithoutBuild(t)
  {
    ParsedIsWellFormed(s);
    ParsedIsWellFormed(t);
    PrecedenceTie(Parse(s).value, Parse(t).value);
    PreReleaseText(s);
    PreReleaseText(t);
    var g, h := MatchVersion(s).value, MatchVersion(t).value;
    if Parse(s) == Parse(t) {
      JoinOfSplit(g.pre, '.');
      JoinOfSplit(h.pre, '.');
      assert Identifiers(g.pre) == Identifiers(h.pre);
      assert g.pre == h.pre;
    }
    if WithoutBuild(s) == WithoutBuild(t) {
      MatchIsComplete(g.(build := []));
      MatchIsComplete(h.(build := []));
    }
  }

  /** What the parser reads into which field: printing the fields gives the text back but for build metadata. */
  lemma ParsedFieldsArePrinted(s: string)
    requires Parse(s).Some?
    ensures var v := Parse(s).value;
            WithoutBuild(s) ==
              v.major + "." + v.minor + "." + v.patch + (if v.pre == [] then "" else "-" + Join(v.pre, '.'))
  {
    PreReleaseText(s);
    JoinOfSplit(MatchVersion(s).value.pre, '.');
  }

  // ----- section 11 of SemVer 2.0.0, as it is written ----------------------------------------

  /** ASCII sort order. */
  predicate LowerText(s: string, t: string) {
    s < t || exists i :: 0 <= i < |s| && i < |t| && s[..i] == t[..i] && s[i] < t[i]
  }

  /** Items 11.4.1 to 11.4.3: numbers go by value, text by ASCII order, and a number is below a text. */
  predicate LowerIdentifier(x: string, y: string) {
    if AllDigits(x) then !AllDigits(y) || Value(x) < Value(y) else !AllDigits(y) && LowerText(x, y)
  }

  /** Items 11.4 and 11.4.4: the first difference decides, and more fields are above fewer. */
  predicate LowerFields(xs: seq<string>, ys: seq<string>) {
    xs < ys || exists i :: 0 <= i < |xs| && i < |ys| && xs[..i] == ys[..i] && LowerIdentifier(xs[i], ys[i])
  }

  predicate SameCore(a: Version, b: Version)
    requires WellFormed(a) && WellFormed(b)
  {
    Value(a.major) == Value(b.major) && Value(a.minor) == Value(b.minor) && Value(a.patch) == Value(b.patch)
  }

  /** Item 11.2: the first of major, minor and patch that differs. */
  predicate LowerCore(a: Version, b: Version)
    requires WellFormed(a) && WellFormed(b)
  {
    || Value(a.major) < Value(b.major)
    || (Value(a.major) == Value(b.major) && Value(a.minor) < Value(b.minor))
    || (Value(a.major) == Value(b.major) && Value(a.minor) == Value(b.minor) && Value(a.patch) < Value(b.patch))
  }

  /** Item 11.3: a pre-release is below its release. */
  predicate Lower(a: Version, b: Version)
    requires WellFormed(a) && WellFormed(b)
  {
    LowerCore(a, b) || (SameCore(a, b) && a.pre != [] && (b.pre == [] || LowerFields(a.pre, b.pre)))
  }

  lemma LowerTextOfTails(s: string, t: string)
    requires s != [] && t != [] && s[0] == t[0]
    ensures LowerText(s, t) <==> LowerText(s[1..], t[1..])
  {
    var u, v := s[1..], t[1..];
    assert s == [s[0]] + u && t == [s[0]] + v;
    if i :| 0 <= i < |s| && i < |t| && s[..i] == t[..i] && s[i] < t[i] {
      assert u[..i - 1] == s[..i][1..] && v[..i - 1] == t[..i][1..] && u[i - 1] < v[i - 1];
    }
    if i :| 0 <= i < |u| && i < |v| && u[..i] == v[..i] && u[i] < v[i] {
      assert s[..i + 1] == [s[0]] + u[..i] && t[..i + 1] == [s[0]] + v[..i] && s[i + 1] < t[i + 1];
    }
  }

  lemma {:induction false} LexIsAsciiOrder(s: string, t: string)
    ensures Lex(s, t) < 0 <==> LowerText(s, t)
  {
    if s == [] || t == [] {
    } else if s[0] == t[0] {
      LexIsAsciiOrder(s[1..], t[1..]);
      LowerTextOfTails(s, t);
    } else {
      if s[0] < t[0] { assert s[..0] == t[..0]; }
      if i :| 0 <= i < |s| && i < |t| && s[..i] == t[..i] && s[i] < t[i] {
        if i > 0 { assert s[..i][0] == t[..i][0]; }
      }
    }
  }

  lemma IdentifiersByItem(x: string, y: string)
    requires ValidIdentifier(x, true) && ValidIdentifier(y, true)
    ensures CompareIdentifiers(Meaning(x), Meaning(y)) < 0 <==> LowerIdentifier(x, y)
  {
    LexIsAsciiOrder(x, y);
  }

  lemma LowerFieldsOfTails(xs: seq<string>, ys: seq<string>)
    requires xs != [] && ys != [] && xs[0] == ys[0] && !LowerIdentifier(xs[0], ys[0])
    ensures LowerFields(xs, ys) <==> LowerFields(xs[1..], ys[1..])
  {
    var us, vs := xs[1..], ys[1..];
    assert xs == [xs[0]] + us && ys == [xs[0]] + vs;
    if i :| 0 <= i < |xs| && i < |ys| && xs[..i] == ys[..i] && LowerIdentifier(xs[i], ys[i]) {
      assert us[..i - 1] == xs[..i][1..] && vs[..i - 1] == ys[..i][1..] && LowerIdentifier(us[i - 1], vs[i - 1]);
    }
    if i :| 0 <= i < |us| && i < |vs| && us[..i] == vs[..i] && LowerIdentifier(us[i], vs[i]) {
      assert xs[..i + 1] == [xs[0]] + us[..i] && ys[..i + 1] == [xs[0]] + vs[..i];
      assert LowerIdentifier(xs[i + 1], ys[i + 1]);
    }
  }

  lemma FirstFieldDecides(xs: seq<string>, ys: seq<string>)
    requires xs != [] && ys != [] && xs[0] != ys[0]
    ensures LowerFields(xs, ys) <==> LowerIdentifier(xs[0], ys[0])
  {
    if LowerIdentifier(xs[0], ys[0]) { assert xs[..0] == ys[..0]; }
    if i :| 0 <= i < |xs| && i < |ys| && xs[..i] == ys[..i] && LowerIdentifier(xs[i], ys[i]) {
      if i > 0 { assert xs[..i][0] == ys[..i][0]; }
    }
  }

  lemma {:induction false} FieldsByItem(xs: seq<string>, ys: seq<string>)
    requires ValidFields(xs) && ValidFields(ys)
    ensures CompareFields(xs, ys) < 0 <==> LowerFields(xs, ys)
  {
    if xs == [] || ys == [] {
    } else {
      IdentifierTies(xs[0], ys[0]);
      IdentifiersByItem(xs[0], ys[0]);
      if xs[0] == ys[0] {
        FieldsByItem(xs[1..], ys[1..]);
        LowerFieldsOfTails(xs, ys);
      } else {
        FirstFieldDecides(xs, ys);
      }
    }
  }

  lemma LowerByItem(a: Version, b: Version)
    requires WellFormed(a) && WellFormed(b)
    ensures Precedence(a, b) < 0 <==> Lower(a, b)
  {
    FieldsByItem(a.pre, b.pre);
  }

  lemma {:induction false} FieldsRange(xs: seq<string>, ys: seq<string>)
    ensures -1 <= CompareFields(xs, ys) <= 1
  {
    if xs == [] || ys == [] {
    } else {
      FieldsRange(xs[1..], ys[1..]);
    }
  }

  lemma PrecedenceRange(a: Version, b: Version)
    requires WellFormed(a) && WellFormed(b)
    ensures -1 <= Precedence(a, b) <= 1
  {
    FieldsRange(a.pre, b.pre);
  }

  /** The result is -1, 1 or 0 exactly as section 11 puts the first version below the second, the second below
      the first, or neither. */
  lemma PrecedenceIsSection11(a: Version, b: Version)
    requires WellFormed(a) && WellFormed(b)
    ensures Precedence(a, b) == if Lower(a, b) then -1 else if Lower(b, a) then 1 else 0
  {
    LowerByItem(a, b);
    LowerByItem(b, a);
    PrecedenceAntisymmetric(a, b);
    PrecedenceRange(a, b);
  }
}
