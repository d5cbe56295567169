/** What every layout of every updater run keeps, and what whole histories of runs, rollbacks and crashes keep. */
module UpdaterRuns {
  import opened Text
  import opened SemVer
  import opened SemVerOrder
  import opened Release
  import opened Updater

  /** The installer's releases consist of the binary alone (install/install.sh:98-103). */
  predicate Complete(l: Layout, name: string) {
    name in l.releases && !Hidden(name) && l.releases[name].binary.Whole?
  }

  /** Every installed release has its whole binary, and both links name one. */
  predicate Safe(l: Layout) {
    && (forall name :: name in l.releases && !Hidden(name) ==> l.releases[name].binary.Whole?)
    && Complete(l, l.current)
    && (l.previous.Some? ==> Complete(l, l.previous.value))
  }

  /** No installed release is changed or removed. */
  predicate Immutable(l: Layout, m: Layout) {
    forall name :: name in l.releases && !Hidden(name) ==> name in m.releases && m.releases[name] == l.releases[name]
  }

  /** mktemp gives a hidden name that is not in use. */
  predicate FreshTemp(l: Layout, r: Run) { Hidden(r.temp) && r.temp !in l.releases }

  /** `current` runs the same bytes as before, or a version of strictly higher precedence. */
  predicate NotBelow(h: Host, l: Layout, m: Layout) {
    CurrentBinary(m) == CurrentBinary(l) || Above(h, l, m)
  }

  predicate Above(h: Host, l: Layout, m: Layout) {
    && CurrentBinary(l).Some? && CurrentBinary(m).Some?
    && var a, b := h.versionOf(CurrentBinary(l).value), h.versionOf(CurrentBinary(m).value);
       a.Some? && b.Some? && Compare(a.value, b.value) == Some(-1)
  }

  lemma CompareRange(a: string, b: string)
    requires Compare(a, b).Some? && Compare(a, b).value < 0
    ensures Compare(a, b) == Some(-1)
  {
    ParsedIsWellFormed(a);
    ParsedIsWellFormed(b);
    PrecedenceRange(Parse(a).value, Parse(b).value);
  }

  /** "Above" composes: this is where the updater rests on the transitivity of CompareVersions. */
  lemma CompareTransitive(a: string, b: string, c: string)
    requires Compare(a, b) == Some(-1) && Compare(b, c) == Some(-1)
    ensures Compare(a, c) == Some(-1)
  {
    ParsedIsWellFormed(a);
    ParsedIsWellFormed(b);
    ParsedIsWellFormed(c);
    PrecedenceTransitive(Parse(a).value, Parse(b).value, Parse(c).value);
    CompareRange(a, c);
  }

  lemma NotBelowTransitive(h: Host, l: Layout, m: Layout, n: Layout)
    requires NotBelow(h, l, m) && NotBelow(h, m, n)
    ensures NotBelow(h, l, n)
    ensures Above(h, l, m) || Above(h, m, n) ==> Above(h, l, n)
  {
    if Above(h, l, m) && Above(h, m, n) {
      CompareTransitive(h.versionOf(CurrentBinary(l).value).value,
                        h.versionOf(CurrentBinary(m).value).value,
                        h.versionOf(CurrentBinary(n).value).value);
    }
  }

  /** What passing the gate says about the release that is about to be activated. */
  lemma AcceptMeans(l: Layout, h: Host, r: Run)
    requires Accept(l, h, r).Some?
    ensures CurrentBinary(l).Some? && !Hidden(Accept(l, h, r).value)
    ensures var from, to := h.versionOf(CurrentBinary(l).value), h.versionOf(r.package.binary);
            from.Some? && to.Some? && Compare(from.value, to.value).Some?
            && (!r.allowDowngrade ==> Compare(from.value, to.value) == Some(-1))
    ensures Verify(r.verifier, r.package).Verified? && Validated(Verify(r.verifier, r.package).manifest)
    ensures Accept(l, h, r) == ReleaseId(Verify(r.verifier, r.package).manifest)
  {
    var m := Verify(r.verifier, r.package).manifest;
    ReleaseIdIsPathComponent(m);
    var from := h.versionOf(CurrentBinary(l).value).value;
    if !r.allowDowngrade { CompareRange(from, m.version); }
  }

  /** A run passes the gate, for a release, exactly when its package is verified by the current runtime, the
      candidate reports the version and commit of the manifest, and the version is above the running one by
      section 11 of SemVer 2.0.0, or a downgrade is allowed. */
  lemma AcceptExactly(l: Layout, h: Host, r: Run, id: string)
    ensures Accept(l, h, r) == Some(id) <==>
              && r.package.wellFormed && CurrentBinary(l).Some?
              && Verify(r.verifier, r.package).Verified?
              && var m := Verify(r.verifier, r.package).manifest;
                 && ReleaseId(m) == Some(id)
                 && h.versionOf(r.package.binary) == Some(m.version)
                 && h.commitOf(r.package.binary) == Some(m.commit)
                 && h.versionOf(CurrentBinary(l).value).Some?
                 && MayFollow(h.versionOf(CurrentBinary(l).value).value, m.version, r.allowDowngrade)
  {
    if CurrentBinary(l).Some? && Verify(r.verifier, r.package).Verified? && h.versionOf(CurrentBinary(l).value).Some? {
      var target := Verify(r.verifier, r.package).manifest.version;
      MayFollowMeans(h.versionOf(CurrentBinary(l).value).value, target, r.allowDowngrade);
    }
  }

  predicate MayFollow(current: string, target: string, allowDowngrade: bool) {
    && Parse(current).Some? && Parse(target).Some?
    && (ParsedIsWellFormed(current); ParsedIsWellFormed(target);
        allowDowngrade || Lower(Parse(current).value, Parse(target).value))
  }

  lemma MayFollowMeans(current: string, target: string, allowDowngrade: bool)
    ensures MayFollow(current, target, allowDowngrade) <==>
              Compare(current, target).Some? && (Compare(current, target).value < 0 || allowDowngrade)
  {
    if Parse(current).Some? && Parse(target).Some? {
      ParsedIsWellFormed(current);
      ParsedIsWellFormed(target);
      PrecedenceIsSection11(Parse(current).value, Parse(target).value);
    }
  }

  lemma TempDirKeeps(l: Layout, temp: string, d: Dir)
    requires Safe(l) && Hidden(temp)
    ensures var m := WithDir(l, temp, d); Safe(m) && Immutable(l, m)
  {
  }

  lemma InstallKeeps(l: Layout, temp: string, id: string, d: Dir)
    requires Safe(l) && Hidden(temp) && !Hidden(id) && id !in l.releases && d.binary.Whole?
    ensures var m := l.(releases := (l.releases - {temp})[id := d]); Safe(m) && Immutable(l, m)
  {
  }

  lemma FillingKeeps(l: Layout, temp: string, c: seq<Dir>, m: Layout)
    requires Safe(l) && Hidden(temp) && |c| == 7 && m in Filling(l, temp, c)
    ensures Safe(m) && Immutable(l, m) && m.current == l.current && m.previous == l.previous
  {
    var k: nat :| k < 7 && m == WithDir(l, temp, c[k]);
    TempDirKeeps(l, temp, c[k]);
  }

  /** While a release is put in place the links and every installed release stay as they were. */
  lemma StagingKeeps(l: Layout, id: string, r: Run)
    requires Safe(l) && FreshTemp(l, r) && !Hidden(id) && Staging(l, id, r).Some?
    ensures forall m :: m in Staging(l, id, r).value ==>
              Safe(m) && Immutable(l, m) && m.current == l.current && m.previous == l.previous
    ensures var ready := Last(l, Staging(l, id, r).value);
            Safe(ready) && Immutable(l, ready) && ready.current == l.current && ready.previous == l.previous
            && id in ready.releases && ready.releases[id].binary == Whole(r.package.binary)
  {
    if id !in l.releases {
      var c := Contents(r.package);
      InstallKeeps(l, r.temp, id, c[6]);
      var done := l.(releases := (l.releases - {r.temp})[id := c[6]]);
      assert Staging(l, id, r).value == Filling(l, r.temp, c) + [done];
      forall m | m in Staging(l, id, r).value
        ensures Safe(m) && Immutable(l, m) && m.current == l.current && m.previous == l.previous
      {
        if m != done { FillingKeeps(l, r.temp, c, m); }
      }
    }
  }

  lemma TakeIsPart(t: seq<Layout>, n: nat, m: Layout)
    requires m in Take(t, n)
    ensures m in t
  {
  }

  /** Switching the links between complete releases. */
  lemma LinksKeep(l: Layout, id: string, r: Run, m: Layout)
    requires Safe(l) && Complete(l, id) && m in Links(l, id, r)
    ensures Safe(m) && m.releases == l.releases && (m.current == l.current || m.current == id)
  {
  }

  lemma ActivationKeeps(l: Layout, id: string, r: Run, m: Layout)
    requires Safe(l) && FreshTemp(l, r) && !Hidden(id) && m in Activation(l, id, r)
    ensures Safe(m) && Immutable(l, m)
    ensures m.current == l.current || (m.current == id && CurrentBinary(m) == Some(r.package.binary))
  {
    StagingKeeps(l, id, r);
    var staged := Staging(l, id, r).value;
    var ready := Last(l, staged);
    if m !in staged {
      assert m in Links(ready, id, r);
      LinksKeep(ready, id, r, m);
    }
  }

  /** Every layout of one run, wherever a command fails or the machine crashes, is safe and leaves the
      installed releases alone. */
  lemma EveryLayoutIsSafe(l: Layout, h: Host, r: Run, m: Layout)
    requires Safe(l) && FreshTemp(l, r)
    requires m in RunTrace(l, h, r)
    ensures Safe(m) && Immutable(l, m)
    ensures m.current == l.current || (Accept(l, h, r) == Some(m.current) && CurrentBinary(m) == Some(r.package.binary))
  {
    TakeIsPart(Intended(l, h, r), r.works, m);
    AcceptMeans(l, h, r);
    ActivationKeeps(l, Accept(l, h, r).value, r, m);
  }

  lemma SameCurrentSameBinary(l: Layout, m: Layout)
    requires Safe(l) && Immutable(l, m) && m.current == l.current
    ensures CurrentBinary(m) == CurrentBinary(l)
  {
  }

  /** Without --allow-downgrade no layout of a run points `current` below the version the run started with. */
  lemma NeverBelowTheStart(l: Layout, h: Host, r: Run, m: Layout)
    requires Safe(l) && FreshTemp(l, r) && !r.allowDowngrade
    requires m in RunTrace(l, h, r)
    ensures NotBelow(h, l, m)
  {
    EveryLayoutIsSafe(l, h, r, m);
    AcceptMeans(l, h, r);
    if m.current == l.current { SameCurrentSameBinary(l, m); }
  }

  /** How a run that passed the gate and staged its release ends, by how many of its changes were made. */
  lemma WhereTheRunEnds(l: Layout, h: Host, r: Run, id: string)
    requires Accept(l, h, r) == Some(id) && Staging(l, id, r).Some?
    ensures var staged := Staging(l, id, r).value;
            var ready := Last(l, staged);
            var t := Links(ready, id, r);
            && |Intended(l, h, r)| == |staged| + 2
            && (r.works <= |staged| ==> RunTrace(l, h, r) == staged[..r.works])
            && (r.works == |staged| + 1 ==> RunTrace(l, h, r) == staged + [t[0]])
            && (r.works >= |staged| + 2 ==> RunTrace(l, h, r) == staged + t)
  {
  }

  /** The script exits 0 exactly when the gate passes, an installed release of that name has the same binary, the
      service restarts and one of 24 polls finds it ready, and none of its changes fails: two links, and eight more
      for a release that is not there yet. */
  lemma SucceedsExactly(l: Layout, h: Host, r: Run)
    ensures Succeeds(l, h, r) <==>
              && Accept(l, h, r).Some?
              && var id := Accept(l, h, r).value;
                 && (id in l.releases ==> l.releases[id].binary == Whole(r.package.binary))
                 && r.restarted && (exists i: nat :: i < 24 && r.probes(i))
                 && r.works >= if id in l.releases then 2 else 10
  {
    if Accept(l, h, r).Some? && Staging(l, Accept(l, h, r).value, r).Some? {
      WhereTheRunEnds(l, h, r, Accept(l, h, r).value);
    }
  }

  /** Success: `current` names the verified release, strictly above the old one, and `previous` names the old one. */
  lemma SuccessAdvances(l: Layout, h: Host, r: Run)
    requires Safe(l) && FreshTemp(l, r) && Succeeds(l, h, r)
    ensures var m := Last(l, RunTrace(l, h, r));
            && Accept(l, h, r) == Some(m.current) && CurrentBinary(m) == Some(r.package.binary)
            && m.previous == Some(l.current)
            && (!r.allowDowngrade ==> Above(h, l, m))
  {
    AcceptMeans(l, h, r);
    StagingKeeps(l, Accept(l, h, r).value, r);
    WhereTheRunEnds(l, h, r, Accept(l, h, r).value);
  }

  /** `current` was switched to another release and the next link replacement failed: the one that rolls back,
      or the one that records the old release as `previous`. */
  predicate StuckAfterSwitch(l: Layout, h: Host, r: Run) {
    var id := Accept(l, h, r);
    && id.Some? && id.value != l.current
    && Staging(l, id.value, r).Some? && r.works == |Staging(l, id.value, r).value| + 1
  }

  /** A run that fails without crashing leaves `previous` as it was, and `current` and the running binary too,
      unless the link replacement after the switch fails: then `current` stays at the new release. */
  lemma FailureRollsBack(l: Layout, h: Host, r: Run)
    requires Safe(l) && FreshTemp(l, r) && !Succeeds(l, h, r)
    ensures var m := Last(l, RunTrace(l, h, r));
            && m.previous == l.previous
            && (if StuckAfterSwitch(l, h, r)
                then Accept(l, h, r) == Some(m.current) && CurrentBinary(m) == Some(r.package.binary)
                else m.current == l.current && CurrentBinary(m) == CurrentBinary(l))
  {
    var id := Accept(l, h, r);
    if id.Some? && Staging(l, id.value, r).Some? {
      AcceptMeans(l, h, r);
      StagingKeeps(l, id.value, r);
      WhereTheRunEnds(l, h, r, id.value);
      UnfinishedStaging(l, id.value, r);
    }
  }

  /** Any run that switches to another release gets stuck when its last change fails instead. */
  lemma SuccessCanGetStuck(l: Layout, h: Host, r: Run)
    requires Succeeds(l, h, r) && Accept(l, h, r) != Some(l.current)
    ensures var q := r.(works := |Intended(l, h, r)| - 1); StuckAfterSwitch(l, h, q) && !Succeeds(l, h, q)
  {
    WhereTheRunEnds(l, h, r, Accept(l, h, r).value);
  }

  lemma MajorVersion(major: string) returns (s: string)
    requires CoreNumber(major)
    ensures Parse(s) == Some(Version(major, "0", "0", []))
  {
    var g := Groups(major, "0", "0", [], []);
    MatchIsComplete(g);
    s := Render(g);
  }

  lemma NextMajorIsHigher(older: string, newer: string)
    requires Parse(older) == Some(Version("1", "0", "0", [])) && Parse(newer) == Some(Version("2", "0", "0", []))
    ensures Compare(older, newer) == Some(-1)
  {
    ParsedIsWellFormed(older);
    ParsedIsWellFormed(newer);
    assert Value("1") == 1 && Value("2") == 2;
  }

  lemma ManifestOf(version: string) returns (m: Manifest)
    requires Parse(version).Some?
    ensures Validated(m) && m.version == version && m.size == 1 && ReleaseId(m).Some? && |ReleaseId(m).value| > 3
  {
    m := Manifest(version, seq(12, _ => '0'), "linux", "amd64", 1, 1, seq(64, _ => '0'), 1);
  }

  /** A package of one octet with a manifest that decodes to `m`, and a verifier that trusts it. */
  lemma PackageOf(m: Manifest) returns (verifier: Verifier, package: Package)
    requires Validated(m) && m.size == 1
    ensures Verify(verifier, package) == Verified(m) && package.wellFormed && package.binary == [2]
  {
    package := Package(true, [2], [0], seq(SIGNATURE_SIZE, _ => 0));
    verifier := Verifier((_, _) => true, _ => Some(m), _ => m.sha256, m.os, m.arch, m.schemaMin);
  }

  /** What makes an update pass every check. */
  lemma ChecksPass(l: Layout, h: Host, r: Run, m: Manifest)
    requires r.package.wellFormed && CurrentBinary(l).Some? && |m.sha256| == 64
    requires Verify(r.verifier, r.package) == Verified(m)
    requires h.versionOf(r.package.binary) == Some(m.version) && h.commitOf(r.package.binary) == Some(m.commit)
    requires var from := h.versionOf(CurrentBinary(l).value); from.Some? && Compare(from.value, m.version) == Some(-1)
    ensures Accept(l, h, r) == ReleaseId(m)
  {
  }

  const OLD_LAYOUT := Layout(map["old" := Dir(Whole([1]), Missing, Missing)], "old", None)

  lemma OldLayoutIsSafe()
    ensures Safe(OLD_LAYOUT) && CurrentBinary(OLD_LAYOUT) == Some([1]) && OLD_LAYOUT.releases.Keys == {"old"}
  {
  }

  /** An installation and an update of it, from version 1.0.0 to 2.0.0, that passes every check. */
  lemma UpdateIsAccepted() returns (l: Layout, h: Host, r: Run, id: string)
    ensures Safe(l) && FreshTemp(l, r) && !r.allowDowngrade && Accepted(r)
    ensures Accept(l, h, r) == Some(id) && id !in l.releases && id != l.current && r.works == 10
  {
    var older := MajorVersion("1");
    var newer := MajorVersion("2");
    var m := ManifestOf(newer);
    var verifier, package := PackageOf(m);
    NextMajorIsHigher(older, newer);
    h := Host(b => Some(if b == [2] then newer else older), _ => Some(m.commit));
    l := OLD_LAYOUT;
    OldLayoutIsSafe();
    r := Run(package, false, verifier, ".tmp", 10, true, _ => true);
    id := ReleaseId(m).value;
    assert r.probes(0);
    ChecksPass(l, h, r, m);
  }

  /** There is an update that succeeds, and that gets stuck when its last change fails. */
  lemma UpdateCanGetStuck() returns (l: Layout, h: Host, r: Run)
    ensures Safe(l) && FreshTemp(l, r) && !r.allowDowngrade && StuckAfterSwitch(l, h, r)
    ensures Succeeds(l, h, r.(works := r.works + 1))
  {
    var run: Run, id: string;
    l, h, run, id := UpdateIsAccepted();
    assert |Staging(l, id, run).value| == 8;
    WhereTheRunEnds(l, h, run, id);
    SuccessCanGetStuck(l, h, run);
    r := run.(works := 9);
    assert r.(works := r.works + 1) == run;
  }

  /** A staging that stops early has not touched the links or the running binary. */
  lemma UnfinishedStaging(l: Layout, id: string, r: Run)
    requires Safe(l) && FreshTemp(l, r) && !Hidden(id) && Staging(l, id, r).Some?
    ensures forall n :: 0 <= n <= |Staging(l, id, r).value| ==>
              var m := Last(l, Staging(l, id, r).value[..n]);
              m.current == l.current && m.previous == l.previous && CurrentBinary(m) == CurrentBinary(l)
    ensures var ready := Last(l, Staging(l, id, r).value);
            CurrentBinary(ready.(current := l.current)) == CurrentBinary(l)
  {
    StagingKeeps(l, id, r);
    var staged := Staging(l, id, r).value;
    forall n | 0 <= n <= |staged|
      ensures var m := Last(l, staged[..n]);
              m.current == l.current && m.previous == l.previous && CurrentBinary(m) == CurrentBinary(l)
    {
      if n > 0 {
        assert staged[..n][n - 1] == staged[n - 1] && staged[n - 1] in staged;
        SameCurrentSameBinary(l, staged[n - 1]);
      }
    }
    SameCurrentSameBinary(l, Last(l, staged));
  }

  predicate EndsWith(s: string, t: string) { |t| <= |s| && s[|s| - |t|..] == t }

  /** The release is the run's verified package: its three files are whole, its manifest is signed, and it is
      named after the digest of its binary. */
  predicate IsPackageOf(m: Layout, r: Run, name: string) {
    && name in m.releases
    && m.releases[name] == Dir(Whole(r.package.binary), Whole(r.package.manifest), Whole(r.package.signature))
    && r.verifier.signed(r.package.manifest, r.package.signature)
    && var digest := r.verifier.digest(r.package.binary);
       |digest| == 64 && EndsWith(name, digest[..12])
  }

  /** A release that a run adds is its verified package, and appears with all three files. */
  lemma NewReleaseCarriesItsDigest(l: Layout, h: Host, r: Run, m: Layout, name: string)
    requires Safe(l) && FreshTemp(l, r) && m in RunTrace(l, h, r)
    requires name in m.releases && name !in l.releases && !Hidden(name)
    ensures Accept(l, h, r) == Some(name) && IsPackageOf(m, r, name)
  {
    TakeIsPart(Intended(l, h, r), r.works, m);
    AcceptMeans(l, h, r);
    NewNames(l, Accept(l, h, r).value, r, m, name);
    VerifiedBinaryIsTheSignedOne(r.verifier, r.package, r.package);
    ReleaseIdEndsWithDigest(Verify(r.verifier, r.package).manifest);
  }

  lemma NewNames(l: Layout, id: string, r: Run, m: Layout, name: string)
    requires Hidden(r.temp) && m in Activation(l, id, r)
    requires name in m.releases && name !in l.releases && !Hidden(name)
    ensures name == id
    ensures m.releases[name] == Dir(Whole(r.package.binary), Whole(r.package.manifest), Whole(r.package.signature))
  {
  }

  // ----- histories --------------------------------------------------------------------------

  /** One run leaves the layout it found, or any layout of its trace: its last one when it ends by itself,
      any other one when it crashes. */
  ghost predicate Leaves(h: Host, l: Layout, r: Run, m: Layout) {
    FreshTemp(l, r) && (m == l || m in RunTrace(l, h, r))
  }

  ghost predicate History(h: Host, layouts: seq<Layout>, runs: seq<Run>) {
    && |layouts| == |runs| + 1
    && forall i :: 0 <= i < |runs| ==> Leaves(h, layouts[i], runs[i], layouts[i + 1])
  }

  predicate Keeps(l: Layout, m: Layout) { Safe(l) ==> Safe(m) && Immutable(l, m) }

  lemma {:induction false} ChainsKeep(layouts: seq<Layout>, i: nat, j: nat)
    requires i <= j < |layouts| && Safe(layouts[i])
    requires forall k :: 0 <= k < |layouts| - 1 ==> Keeps(layouts[k], layouts[k + 1])
    ensures Safe(layouts[j]) && Immutable(layouts[i], layouts[j])
    decreases j - i
  {
    if i == j {
    } else {
      ChainsKeep(layouts, i, j - 1);
      assert Keeps(layouts[j - 1], layouts[j - 1 + 1]);
    }
  }

  lemma {:induction false} ChainsNeverDecrease(h: Host, layouts: seq<Layout>, i: nat, j: nat)
    requires i <= j < |layouts|
    requires forall k :: 0 <= k < |layouts| - 1 ==> NotBelow(h, layouts[k], layouts[k + 1])
    ensures NotBelow(h, layouts[i], layouts[j])
    decreases j - i
  {
    if i == j {
    } else {
      ChainsNeverDecrease(h, layouts, i, j - 1);
      assert NotBelow(h, layouts[j - 1], layouts[j - 1 + 1]);
      NotBelowTransitive(h, layouts[i], layouts[j - 1], layouts[j]);
    }
  }

  lemma OneRunKeeps(h: Host, l: Layout, r: Run, m: Layout)
    requires Leaves(h, l, r, m)
    ensures Keeps(l, m)
    ensures Safe(l) && !r.allowDowngrade ==> NotBelow(h, l, m)
  {
    if Safe(l) && m != l {
      EveryLayoutIsSafe(l, h, r, m);
      if !r.allowDowngrade { NeverBelowTheStart(l, h, r, m); }
    }
  }

  /** Over every history, with crashes and rollbacks anywhere, both links always name complete releases and
      installed releases keep their bytes. */
  lemma HistoriesAreSafe(h: Host, layouts: seq<Layout>, runs: seq<Run>, i: nat, j: nat)
    requires History(h, layouts, runs) && Safe(layouts[0])
    requires i <= j < |layouts|
    ensures Safe(layouts[i]) && Safe(layouts[j]) && Immutable(layouts[i], layouts[j])
  {
    forall k | 0 <= k < |layouts| - 1 ensures Keeps(layouts[k], layouts[k + 1]) {
      OneRunKeeps(h, layouts[k], runs[k], layouts[k + 1]);
    }
    ChainsKeep(layouts, 0, i);
    ChainsKeep(layouts, i, j);
  }

  /** Over every history without --allow-downgrade, with any health results, rollbacks and crashes, the
      version at a run boundary is never below the version at an earlier one. */
  lemma VersionsNeverDecrease(h: Host, layouts: seq<Layout>, runs: seq<Run>, i: nat, j: nat)
    requires History(h, layouts, runs) && Safe(layouts[0])
    requires forall k :: 0 <= k < |runs| ==> !runs[k].allowDowngrade
    requires i <= j < |layouts|
    ensures NotBelow(h, layouts[i], layouts[j])
  {
    forall k | 0 <= k < |layouts| - 1 ensures NotBelow(h, layouts[k], layouts[k + 1]) {
      HistoriesAreSafe(h, layouts, runs, k, k);
      OneRunKeeps(h, layouts[k], runs[k], layouts[k + 1]);
    }
    ChainsNeverDecrease(h, layouts, i, j);
  }

  /** Over every history, each release that was not there at the start is, with all three files, the package of
      one earlier run that the runtime of that run verified under the key it then trusted. */
  lemma {:induction false} ReleasesComeFromVerifiedRuns(h: Host, layouts: seq<Layout>, runs: seq<Run>, j: nat,
                                                        name: string)
      returns (k: nat)
    requires History(h, layouts, runs) && Safe(layouts[0]) && j < |layouts|
    requires name in layouts[j].releases && name !in layouts[0].releases && !Hidden(name)
    ensures k < j && Accept(layouts[k], h, runs[k]) == Some(name) && IsPackageOf(layouts[j], runs[k], name)
    decreases j
  {
    assert Leaves(h, layouts[j - 1], runs[j - 1], layouts[j - 1 + 1]);
    HistoriesAreSafe(h, layouts, runs, j - 1, j);
    if name in layouts[j - 1].releases {
      k := ReleasesComeFromVerifiedRuns(h, layouts, runs, j - 1, name);
    } else {
      k := j - 1;
      NewReleaseCarriesItsDigest(layouts[k], h, runs[k], layouts[j], name);
    }
  }
}
