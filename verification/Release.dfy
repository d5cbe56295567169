/** internal/release/release.go: release identifiers and the verification of a package, over uninterpreted
    Ed25519, SHA-256 and JSON. */
module Release {
  import opened Text
  import opened Octets
  import opened SemVer

  // ----- manifests and release identifiers --------------------------------------------------

  datatype Manifest = Manifest(version: string, commit: string, os: string, arch: string,
                               schemaMin: int, schemaMax: int, sha256: string, size: int)

  predicate LowerHex(s: string) {
    forall i :: 0 <= i < |s| ==> IsDigit(s[i]) || 'a' <= s[i] <= 'f'
  }

  /** Manifest.Validate, for the fields that the model has. */
  predicate Validated(m: Manifest) {
    && Parse(m.version).Some?
    && LowerHex(m.commit) && 7 <= |m.commit| <= 64
    && m.os == "linux" && (m.arch == "amd64" || m.arch == "arm64")
    && 1 <= m.schemaMin <= m.schemaMax
    && LowerHex(m.sha256) && |m.sha256| == 64 && m.size > 0
  }

  /** ReleaseID; None stands for the run-time panic of slicing a commit shorter than 12 characters. */
  function ReleaseId(m: Manifest): Option<string>
    requires |m.sha256| == 64
  {
    if |m.commit| < 12 then None
    else Some(m.version + ['-'] + m.commit[..12] + ['-'] + m.sha256[..12])
  }

  lemma SmallestRelease() returns (s: string)
    ensures Parse(s).Some?
  {
    var g := Groups("1", "0", "0", [], []);
    MatchIsComplete(g);
    s := Render(g);
  }

  /** ReleaseID is defined on a validated manifest exactly when its commit has 12 characters; `m` is one
      that passes validation and makes it panic. */
  lemma ReleaseIdIsPartial(n: Manifest) returns (m: Manifest)
    requires Validated(n)
    ensures ReleaseId(n).Some? <==> |n.commit| >= 12
    ensures Validated(m) && ReleaseId(m).None?
  {
    var version := SmallestRelease();
    m := Manifest(version, "0123456", "linux", "amd64", 1, 1, seq(64, _ => '0'), 1);
  }

  /** The identifier determines the version and both shortened digests, although versions may contain '-'. */
  lemma ReleaseIdIsDecodable(m: Manifest, n: Manifest)
    requires |m.sha256| == 64 && |n.sha256| == 64
    requires ReleaseId(m).Some? && ReleaseId(m) == ReleaseId(n)
    ensures m.version == n.version && m.commit[..12] == n.commit[..12] && m.sha256[..12] == n.sha256[..12]
  {
    var s, k := ReleaseId(m).value, |m.version|;
    assert |s| == k + 26 == |n.version| + 26;
    assert s[..k] == m.version && s[..k] == n.version;
    assert s[k + 1..k + 13] == m.commit[..12] && s[k + 1..k + 13] == n.commit[..12];
    assert s[k + 14..] == m.sha256[..12] && s[k + 14..] == n.sha256[..12];
  }

  /** The identifier is the version and both shortened digests, between hyphens. */
  lemma ReleaseIdHasThreeParts(m: Manifest)
    requires |m.sha256| == 64 && ReleaseId(m).Some?
    ensures ReleaseId(m).value == Join([m.version, m.commit[..12], m.sha256[..12]], '-')
  {
    JoinThree(m.version, m.commit[..12], m.sha256[..12], '-');
  }

  /** The last 12 characters are the head of the digest. */
  lemma ReleaseIdEndsWithDigest(m: Manifest)
    requires |m.sha256| == 64 && ReleaseId(m).Some?
    ensures var id := ReleaseId(m).value; |id| > 12 && id[|id| - 12..] == m.sha256[..12]
  {
  }

  predicate Hidden(name: string) { name != [] && name[0] == '.' }

  lemma VersionCharacters(s: string)
    requires Parse(s).Some?
    ensures s != [] && IsDigit(s[0]) && '/' !in s
  {
    MatchIsSound(s);
    var g := MatchVersion(s).value;
    var pre := if g.pre == [] then [] else ['-'] + g.pre;
    var build := if g.build == [] then [] else ['+'] + g.build;
    assert '/' !in g.major && '/' !in g.minor && '/' !in g.patch && '/' !in pre && '/' !in build;
    assert s == g.major + ['.'] + g.minor + ['.'] + g.patch + pre + build;
    assert s[0] == g.major[0];
  }

  /** A release identifier is one path component, and never a hidden name such as a staging directory's. */
  lemma ReleaseIdIsPathComponent(m: Manifest)
    requires Validated(m) && ReleaseId(m).Some?
    ensures var id := ReleaseId(m).value; id != [] && '/' !in id && !Hidden(id) && id != "." && id != ".."
  {
    VersionCharacters(m.version);
    assert '/' !in m.commit[..12] && '/' !in m.sha256[..12];
  }

  // ----- Verify -----------------------------------------------------------------------------

  datatype Package = Package(wellFormed: bool, binary: Bytes, manifest: Bytes, signature: Bytes)

  const SIGNATURE_SIZE: nat := 64

  /** What the verifying runtime brings: the signature check under its trusted key, the manifest decoder, the
      hexadecimal SHA-256 digest, and its own platform and state schema. */
  datatype Verifier = Verifier(signed: (Bytes, Bytes) -> bool, decode: Bytes -> Option<Manifest>,
                               digest: Bytes -> string,
                               os: string, arch: string, stateSchema: int)

  datatype Gate = Signature | Metadata | Platform | StateSchema | Size | Digest

  datatype Verdict = Verified(manifest: Manifest) | Rejected(gate: Gate)

  function Verify(v: Verifier, p: Package): Verdict {
    if |p.signature| != SIGNATURE_SIZE || !v.signed(p.manifest, p.signature) then Rejected(Signature)
    else
      var m := v.decode(p.manifest);
      if m.None? || !Validated(m.value) then Rejected(Metadata)
      else if m.value.os != v.os || m.value.arch != v.arch then Rejected(Platform)
      else if v.stateSchema < m.value.schemaMin || v.stateSchema > m.value.schemaMax then Rejected(StateSchema)
      else if |p.binary| != m.value.size then Rejected(Size)
      else if v.digest(p.binary) != m.value.sha256 then Rejected(Digest)
      else Verified(m.value)
  }

  /** A manifest is trusted only under a valid signature and only for the one binary it describes: of two
      packages verified with the same manifest bytes, both binaries have the manifest's digest and size. */
  lemma VerifiedBinaryIsTheSignedOne(v: Verifier, p: Package, q: Package)
    requires Verify(v, p).Verified? && Verify(v, q).Verified? && p.manifest == q.manifest
    ensures v.signed(p.manifest, p.signature)
    ensures v.digest(p.binary) == v.digest(q.binary) == Verify(v, p).manifest.sha256 && |p.binary| == |q.binary|
    ensures Validated(Verify(v, p).manifest) && Verify(v, p) == Verify(v, q)
  {
  }

  predicate Hexadecimal(s: string) { forall c :: c in s ==> c in "0123456789abcdef" }

  lemma LowerHexIsHexadecimal(s: string)
    ensures LowerHex(s) <==> Hexadecimal(s)
  {
    if LowerHex(s) {
      forall c | c in s ensures c in "0123456789abcdef" {
        var i :| 0 <= i < |s| && s[i] == c;
        HexCharacter(c);
      }
    }
    if Hexadecimal(s) {
      forall i | 0 <= i < |s| ensures IsDigit(s[i]) || 'a' <= s[i] <= 'f' {
        assert s[i] in s;
        HexCharacter(s[i]);
      }
    }
  }

  lemma HexCharacter(c: char)
    ensures c in "0123456789abcdef" <==> IsDigit(c) || 'a' <= c <= 'f'
  {
    var h := "0123456789abcdef";
    assert |h| == 16;
    if IsDigit(c) { assert h[c as int - '0' as int] == c; }
    if 'a' <= c <= 'f' { assert h[10 + (c as int - 'a' as int)] == c; }
  }

  /** A package is verified, with a manifest, exactly when the manifest's bytes carry a valid signature of 64
      octets, decode to it, and are well-formed, and the manifest is for this platform and state schema and gives
      the size and digest of the binary. */
  lemma VerifiedExactly(v: Verifier, p: Package, m: Manifest)
    ensures Verify(v, p) == Verified(m) <==>
              && |p.signature| == 64 && v.signed(p.manifest, p.signature)
              && v.decode(p.manifest) == Some(m)
              && Parse(m.version).Some?
              && Hexadecimal(m.commit) && 7 <= |m.commit| <= 64
              && m.os == "linux" && (m.arch == "amd64" || m.arch == "arm64")
              && 1 <= m.schemaMin <= m.schemaMax
              && Hexadecimal(m.sha256) && |m.sha256| == 64 && m.size > 0
              && m.os == v.os && m.arch == v.arch
              && m.schemaMin <= v.stateSchema <= m.schemaMax
              && |p.binary| == m.size && v.digest(p.binary) == m.sha256
  {
    LowerHexIsHexadecimal(m.commit);
    LowerHexIsHexadecimal(m.sha256);
  }

  /** An invalid signature is what is reported, whatever else is wrong; no manifest is read before it holds. */
  lemma SignatureComesFirst(v: Verifier, p: Package)
    ensures Verify(v, p) == Rejected(Signature) <==> |p.signature| != 64 || !v.signed(p.manifest, p.signature)
  {
  }
}
