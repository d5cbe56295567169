/** install/update.sh as a machine over the directory of releases and the two links. Every change of the
    file system is one layout of a trace, so a crash leaves one of the trace's layouts behind. A command that
    fails ends the script (set -e) and cuts the trace short. */
module Updater {
  import opened Text
  import opened Octets
  import opened SemVer
  import opened Release

  // ----- the file system --------------------------------------------------------------------

  /** A file that is being copied is Partial until the copy is complete. */
  datatype File = Missing | Partial | Whole(content: Bytes)

  datatype Dir = Dir(binary: File, manifest: File, signature: File)

  /** `releases` by name, and the release names that `current` and `previous` point to. */
  datatype Layout = Layout(releases: map<string, Dir>, current: string, previous: Option<string>)

  /** The build information that a binary reports. */
  datatype Host = Host(versionOf: Bytes -> Option<string>, commitOf: Bytes -> Option<string>)

  /** One invocation: its arguments, the verifying runtime with its key, the name mktemp gives, how many changes
      of the file system succeed before one fails, and what the service answers after the switch. */
  datatype Run = Run(package: Package, allowDowngrade: bool, verifier: Verifier, temp: string, works: nat,
                     restarted: bool, probes: nat -> bool)

  function CurrentBinary(l: Layout): Option<Bytes> {
    if l.current in l.releases && l.releases[l.current].binary.Whole?
    then Some(l.releases[l.current].binary.content) else None
  }

  function Compare(a: string, b: string): Option<int> {
    if Parse(a).None? || Parse(b).None? then None
    else
      ParsedIsWellFormed(a); ParsedIsWellFormed(b);
      Some(Precedence(Parse(a).value, Parse(b).value))
  }

  /** Lines 34-71: every check before the file system is touched; the release identifier when all pass. */
  function Accept(l: Layout, h: Host, r: Run): Option<string> {
    var current := CurrentBinary(l);
    if current.None? || !r.package.wellFormed then None
    else
      var verdict := Verify(r.verifier, r.package);
      if verdict.Rejected? || ReleaseId(verdict.manifest).None? then None
      else
        var m := verdict.manifest;
        if h.versionOf(r.package.binary) != Some(m.version) then None
        else if h.commitOf(r.package.binary) != Some(m.commit) then None
        else if h.versionOf(current.value).None? then None
        else
          var comparison := Compare(h.versionOf(current.value).value, m.version);
          if comparison.None? || (comparison.value >= 0 && !r.allowDowngrade) then None
          else ReleaseId(m)
  }

  function WithDir(l: Layout, name: string, d: Dir): Layout { l.(releases := l.releases[name := d]) }

  lemma OverwriteDir(l: Layout, name: string, d: Dir, e: Dir)
    ensures WithDir(WithDir(l, name, d), name, e) == WithDir(l, name, e)
  {
  }

  lemma MoveDir(l: Layout, from: string, to: string, d: Dir)
    ensures WithDir(l, from, d).releases - {from} == l.releases - {from}
    ensures WithDir(l, from, d).releases[from] == d
  {
  }

  /** The contents of the temporary directory while the three files are installed into it. */
  function Contents(p: Package): seq<Dir> {
    [Dir(Missing, Missing, Missing),
     Dir(Partial, Missing, Missing),
     Dir(Whole(p.binary), Missing, Missing),
     Dir(Whole(p.binary), Partial, Missing),
     Dir(Whole(p.binary), Whole(p.manifest), Missing),
     Dir(Whole(p.binary), Whole(p.manifest), Partial),
     Dir(Whole(p.binary), Whole(p.manifest), Whole(p.signature))]
  }

  function Filling(l: Layout, temp: string, c: seq<Dir>): seq<Layout>
    requires |c| == 7
  {
    [WithDir(l, temp, c[0]), WithDir(l, temp, c[1]), WithDir(l, temp, c[2]), WithDir(l, temp, c[3]),
     WithDir(l, temp, c[4]), WithDir(l, temp, c[5]), WithDir(l, temp, c[6])]
  }

  /** Lines 75-85: the layouts while a new release is put in place; None when an existing one differs. */
  function Staging(l: Layout, id: string, r: Run): Option<seq<Layout>> {
    if id in l.releases then
      if l.releases[id].binary == Whole(r.package.binary) then Some([]) else None
    else
      var p := r.package;
      Some(Filling(l, r.temp, Contents(p))
           + [l.(releases := (l.releases - {r.temp})
                               [id := Dir(Whole(p.binary), Whole(p.manifest), Whole(p.signature))])])
  }

  /** post_acceptance: one of at most 24 polls finds the service ready at the target version. */
  predicate Accepted(r: Run) { r.restarted && exists i: nat :: i < 24 && r.probes(i) }

  function Last(l: Layout, trace: seq<Layout>): Layout { if trace == [] then l else trace[|trace| - 1] }

  /** Lines 87-124: `current` is switched, and then either switched back or `previous` set to the old target. */
  function Links(l: Layout, id: string, r: Run): seq<Layout> {
    var switched := l.(current := id);
    [switched, if Accepted(r) then switched.(previous := Some(l.current)) else switched.(current := l.current)]
  }

  /** Lines 73-124 for a release that passed the gate, when no command fails. */
  function Activation(l: Layout, id: string, r: Run): seq<Layout> {
    var staged := Staging(l, id, r);
    if staged.None? then [] else staged.value + Links(Last(l, staged.value), id, r)
  }

  /** The changes that one invocation is about to make, in order. */
  function Intended(l: Layout, h: Host, r: Run): seq<Layout> {
    var id := Accept(l, h, r);
    if id.None? then [] else Activation(l, id.value, r)
  }

  function Take(t: seq<Layout>, n: nat): seq<Layout> { if n <= |t| then t[..n] else t }

  /** The layouts after each change that one invocation makes. */
  function RunTrace(l: Layout, h: Host, r: Run): seq<Layout> { Take(Intended(l, h, r), r.works) }

  /** The script exits 0. */
  predicate Succeeds(l: Layout, h: Host, r: Run) {
    var id := Accept(l, h, r);
    id.Some? && Staging(l, id.value, r).Some? && Accepted(r) && |Intended(l, h, r)| <= r.works
  }

  // ----- the script -------------------------------------------------------------------------

  /** The installation, how many more changes of it succeed, and the layouts it has had. */
  datatype Disk = Disk(view: Layout, works: nat, trace: seq<Layout>)

  /** The changes `t`, up to the first that fails. */
  function After(d: Disk, t: seq<Layout>): Disk {
    var made := Take(t, d.works);
    Disk(Last(d.view, made), d.works - |made|, d.trace + made)
  }

  predicate AllMade(d: Disk, t: seq<Layout>) { |t| <= d.works }

  /** Two pieces of a script, one after the other; the second runs only when the first did not fail. */
  lemma AfterBoth(d: Disk, a: seq<Layout>, b: seq<Layout>)
    ensures AllMade(d, a) ==>
              After(d, a + b) == After(After(d, a), b) && (AllMade(d, a + b) <==> AllMade(After(d, a), b))
    ensures AllMade(d, a) ==> After(d, a).view == Last(d.view, a)
    ensures !AllMade(d, a) ==> After(d, a + b) == After(d, a) && !AllMade(d, a + b)
  {
    if AllMade(d, a) {
      assert Take(a, d.works) == a;
      assert Take(a + b, d.works) == a + Take(b, d.works - |a|);
      assert d.trace + (a + Take(b, d.works - |a|)) == d.trace + a + Take(b, d.works - |a|);
    } else {
      assert Take(a + b, d.works) == Take(a, d.works);
    }
  }

  class Installation {
    var releases: map<string, Dir>
    var current: string
    var previous: Option<string>
    var works: nat
    ghost var trace: seq<Layout>

    constructor (l: Layout)
      ensures View() == l && trace == []
    {
      releases, current, previous, works, trace := l.releases, l.current, l.previous, 0, [];
    }

    function View(): Layout
      reads this
    {
      Layout(releases, current, previous)
    }

    ghost function State(): Disk
      reads this
    {
      Disk(View(), works, trace)
    }

    method Put(name: string, d: Dir) returns (ok: bool)
      modifies this
      ensures State() == After(old(State()), [WithDir(old(View()), name, d)])
      ensures ok <==> AllMade(old(State()), [WithDir(old(View()), name, d)])
    {
      if works == 0 { return false; }
      releases := releases[name := d];
      works, trace := works - 1, trace + [View()];
      return true;
    }

    method Move(from: string, to: string) returns (ok: bool)
      requires from in releases
      modifies this
      ensures var moved := old(View()).(releases := (old(releases) - {from})[to := old(releases)[from]]);
              State() == After(old(State()), [moved]) && (ok <==> AllMade(old(State()), [moved]))
    {
      if works == 0 { return false; }
      releases := (releases - {from})[to := releases[from]];
      works, trace := works - 1, trace + [View()];
      return true;
    }

    /** atomic_link for `current`. */
    method SetCurrent(target: string) returns (ok: bool)
      modifies this
      ensures var linked := old(View()).(current := target);
              State() == After(old(State()), [linked]) && (ok <==> AllMade(old(State()), [linked]))
    {
      if works == 0 { return false; }
      current := target;
      works, trace := works - 1, trace + [View()];
      return true;
    }

    /** atomic_link for `previous`. */
    method SetPrevious(target: string) returns (ok: bool)
      modifies this
      ensures var linked := old(View()).(previous := Some(target));
              State() == After(old(State()), [linked]) && (ok <==> AllMade(old(State()), [linked]))
    {
      if works == 0 { return false; }
      previous := Some(target);
      works, trace := works - 1, trace + [View()];
      return true;
    }

    /** One install command, which first leaves a partial file. */
    method Install(name: string, partial: Dir, whole: Dir, ghost start: Layout, ghost before: Dir) returns (ok: bool)
      requires View() == WithDir(start, name, before)
      modifies this
      ensures var t := [WithDir(start, name, partial), WithDir(start, name, whole)];
              && State() == After(old(State()), t) && (ok <==> AllMade(old(State()), t))
              && (ok ==> View() == WithDir(start, name, whole))
    {
      ghost var a, b := [WithDir(start, name, partial)], [WithDir(start, name, whole)];
      assert a + b == [WithDir(start, name, partial), WithDir(start, name, whole)];
      OverwriteDir(start, name, before, partial);
      OverwriteDir(start, name, partial, whole);
      AfterBoth(State(), a, b);
      ok := Put(name, partial);
      if !ok { return; }
      ok := Put(name, whole);
    }

    /** The temporary directory and the three install commands. */
    method Fill(temp: string, p: Package) returns (ok: bool)
      modifies this
      ensures var t := Filling(old(View()), temp, Contents(p));
              && State() == After(old(State()), t) && (ok <==> AllMade(old(State()), t))
              && (ok ==> View() == WithDir(old(View()), temp, Contents(p)[6]))
    {
      var c := Contents(p);
      ghost var d := State();
      ghost var l := View();
      ghost var made, binary := [WithDir(l, temp, c[0])], [WithDir(l, temp, c[1]), WithDir(l, temp, c[2])];
      ghost var manifest := [WithDir(l, temp, c[3]), WithDir(l, temp, c[4])];
      ghost var signature := [WithDir(l, temp, c[5]), WithDir(l, temp, c[6])];
      assert Filling(l, temp, c) == made + (binary + (manifest + signature));
      AfterBoth(d, made, binary + (manifest + signature));
      ok := Put(temp, c[0]);
      if !ok { return; }
      AfterBoth(State(), binary, manifest + signature);
      ok := Install(temp, c[1], c[2], l, c[0]);
      if !ok { return; }
      AfterBoth(State(), manifest, signature);
      ok := Install(temp, c[3], c[4], l, c[2]);
      if !ok { return; }
      ok := Install(temp, c[5], c[6], l, c[4]);
    }

    /** Refused when an existing release differs; otherwise the release is in place unless a change failed. */
    method Stage(id: string, r: Run) returns (ok: bool)
      modifies this
      ensures Staging(old(View()), id, r).None? ==> !ok && State() == old(State())
      ensures Staging(old(View()), id, r).Some? ==>
                var t := Staging(old(View()), id, r).value;
                State() == After(old(State()), t) && (ok <==> AllMade(old(State()), t))
    {
      if id in releases {
        assert After(State(), []) == State();
        return releases[id].binary == Whole(r.package.binary);
      }
      ghost var l := View();
      ghost var filled := WithDir(l, r.temp, Contents(r.package)[6]);
      ghost var done := filled.(releases := (filled.releases - {r.temp})[id := Contents(r.package)[6]]);
      MoveDir(l, r.temp, id, Contents(r.package)[6]);
      AfterBoth(State(), Filling(l, r.temp, Contents(r.package)), [done]);
      ok := Fill(r.temp, r.package);
      if !ok { return; }
      ok := Move(r.temp, id);
    }

    method PostAcceptance(probes: nat -> bool) returns (ok: bool)
      ensures ok <==> exists i: nat :: i < 24 && probes(i)
    {
      for i := 0 to 24
        invariant forall j: nat :: j < i ==> !probes(j)
      {
        if probes(i) { return true; }
      }
      return false;
    }

    /** The switch of `current`, the acceptance, and then the rollback or the switch of `previous`. */
    method Link(id: string, r: Run) returns (ok: bool)
      modifies this
      ensures State() == After(old(State()), Links(old(View()), id, r))
      ensures ok <==> AllMade(old(State()), Links(old(View()), id, r)) && Accepted(r)
    {
      ghost var t := Links(View(), id, r);
      assert t == [t[0]] + [t[1]];
      AfterBoth(State(), [t[0]], [t[1]]);
      var oldTarget := current;
      ok := SetCurrent(id);
      if !ok { return; }
      var accepted := r.restarted;
      if accepted { accepted := PostAcceptance(r.probes); }
      if !accepted {
        ok := SetCurrent(oldTarget);
        return false;
      }
      ok := SetPrevious(oldTarget);
    }

    method Activate(id: string, r: Run) returns (ok: bool)
      modifies this
      ensures State() == After(old(State()), Activation(old(View()), id, r))
      ensures ok <==>
                && Staging(old(View()), id, r).Some? && Accepted(r)
                && AllMade(old(State()), Activation(old(View()), id, r))
    {
      ghost var d := State();
      ghost var staged := Staging(d.view, id, r);
      assert After(d, []) == d;
      if staged.Some? { AfterBoth(d, staged.value, Links(Last(d.view, staged.value), id, r)); }
      ok := Stage(id, r);
      if !ok { return; }
      ok := Link(id, r);
    }

    /** The whole script. */
    method Update(h: Host, r: Run) returns (ok: bool)
      modifies this
      ensures trace == old(trace) + RunTrace(old(View()), h, r)
      ensures View() == Last(old(View()), RunTrace(old(View()), h, r))
      ensures ok <==> Succeeds(old(View()), h, r)
    {
      works := r.works;
      var id := Accept(View(), h, r);
      if id.None? { return false; }
      ok := Activate(id.value, r);
    }
  }
}
