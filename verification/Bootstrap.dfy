/** The signed bootstrap configuration and the verification of its envelope (prestarter/config.go). */
module Bootstrap {
  import opened Wrappers
  import opened Text
  import opened Environment
  import TP = TrustPolicy

  const MAX_CONFIG_BYTES := 1024 * 1024
  const ROLES: set<string> := {"runtime", "desktop", "guard"}

  // ---------------------------------------------------------------- Config.Validate

  predicate ValidID(s: string) {
    && 0 < |s| <= 96 && s != "." && s != ".." && s[|s| - 1] != '.'
    && forall i | 0 <= i < |s| :: TP.IsTrustIdChar(s[i])
  }

  predicate ArtifactOk(env: Env, a: Artifact) {
    ValidDigest(a.sha256) && 1 <= a.size <= 3 * 1024 * 1024 * 1024 && env.artifactUrlOk(a.url)
  }

  predicate ComponentOk(env: Env, c: Component) {
    c.name in ROLES && ArtifactOk(env, c.artifact)
  }

  predicate ComponentsOk(env: Env, cs: seq<Component>) {
    && |cs| == 3
    && (forall i | 0 <= i < |cs| :: ComponentOk(env, cs[i]))
    && (forall i, j | 0 <= i < j < |cs| :: cs[i].name != cs[j].name)
  }

  function TargetID(os: string, arch: string): string {
    os + "/" + arch
  }

  predicate PlatformOk(os: string, arch: string) {
    os in {"linux", "windows", "darwin"} && arch in {"amd64", "arm64"}
  }

  predicate TargetOk(env: Env, t: Target) {
    PlatformOk(t.os, t.arch) && ComponentsOk(env, t.components)
  }

  predicate TargetsOk(env: Env, ts: seq<Target>) {
    && (forall i | 0 <= i < |ts| :: TargetOk(env, ts[i]))
    && (forall i, j | 0 <= i < j < |ts| :: TargetID(ts[i].os, ts[i].arch) != TargetID(ts[j].os, ts[j].arch))
  }

  predicate KnownTarget(ts: seq<Target>, id: string) {
    exists i | 0 <= i < |ts| :: TargetID(ts[i].os, ts[i].arch) == id
  }

  predicate InstallersOk(env: Env, ts: seq<Target>, its: seq<InstallerTarget>) {
    && (forall i | 0 <= i < |its| ::
          KnownTarget(ts, TargetID(its[i].os, its[i].arch)) && ArtifactOk(env, its[i].prestarter))
    && (forall i, j | 0 <= i < j < |its| :: TargetID(its[i].os, its[i].arch) != TargetID(its[j].os, its[j].arch))
  }

  predicate HeaderOk(env: Env, c: Config) {
    && c.schemaVersion == "1.0" && ValidID(c.projectID) && ValidID(c.profileID) && ValidID(c.channel)
    && env.scalarsOk(c)
    && c.manifest.size <= 16 * 1024 * 1024 && c.javaManifest.size <= 8 * 1024 * 1024
    && env.hex(c.profilePublicKey).Some? && |env.hex(c.profilePublicKey).value| == 32
    && ArtifactOk(env, c.manifest) && ArtifactOk(env, c.javaManifest)
    && 0 < |c.targets| <= 24
  }

  predicate ConfigOk(env: Env, c: Config) {
    HeaderOk(env, c) && TargetsOk(env, c.targets) && InstallersOk(env, c.targets, c.installerTargets)
  }

  method CheckComponents(env: Env, cs: seq<Component>) returns (ok: bool)
    ensures ok <==> ComponentsOk(env, cs)
  {
    hide ComponentOk;
    if |cs| != 3 {
      return false;
    }
    var found: set<string> := {};
    for n := 0 to |cs|
      invariant forall i | 0 <= i < n :: ComponentOk(env, cs[i])
      invariant forall i, j | 0 <= i < j < n :: cs[i].name != cs[j].name
      invariant found == set i | 0 <= i < n :: cs[i].name
    {
      if !ComponentOk(env, cs[n]) || cs[n].name in found {
        return false;
      }
      found := found + {cs[n].name};
    }
    assert found == {cs[0].name, cs[1].name, cs[2].name};
    ThreeRoles(env, cs);
    return "runtime" in found && "desktop" in found && "guard" in found;
  }

  /** Three valid components with different names take the three roles. */
  lemma ThreeRoles(env: Env, cs: seq<Component>)
    requires ComponentsOk(env, cs)
    ensures {cs[0].name, cs[1].name, cs[2].name} == ROLES
  {
    var a, b, c := cs[0].name, cs[1].name, cs[2].name;
    assert ComponentOk(env, cs[0]) && ComponentOk(env, cs[1]) && ComponentOk(env, cs[2]);
    hide ComponentOk;
    assert a != b && a != c && b != c;
    assert a in ROLES && b in ROLES && c in ROLES;
  }

  method CheckTargets(env: Env, ts: seq<Target>) returns (ok: bool, seen: set<string>)
    ensures ok <==> TargetsOk(env, ts)
    ensures ok ==> forall id :: id in seen <==> KnownTarget(ts, id)
  {
    hide ComponentsOk, PlatformOk, TargetID;
    seen := {};
    for n := 0 to |ts|
      invariant forall i | 0 <= i < n :: TargetOk(env, ts[i])
      invariant forall i, j | 0 <= i < j < n :: TargetID(ts[i].os, ts[i].arch) != TargetID(ts[j].os, ts[j].arch)
      invariant seen == set i | 0 <= i < n :: TargetID(ts[i].os, ts[i].arch)
    {
      var id := TargetID(ts[n].os, ts[n].arch);
      if !PlatformOk(ts[n].os, ts[n].arch) || id in seen {
        return false, seen;
      }
      seen := seen + {id};
      var complete := CheckComponents(env, ts[n].components);
      if !complete {
        return false, seen;
      }
    }
    ok := true;
  }

  method CheckInstallers(env: Env, ts: seq<Target>, its: seq<InstallerTarget>, seen: set<string>) returns (ok: bool)
    requires forall id :: id in seen <==> KnownTarget(ts, id)
    ensures ok <==> InstallersOk(env, ts, its)
  {
    var taken: set<string> := {};
    for n := 0 to |its|
      invariant forall i | 0 <= i < n ::
                  KnownTarget(ts, TargetID(its[i].os, its[i].arch)) && ArtifactOk(env, its[i].prestarter)
      invariant forall i, j | 0 <= i < j < n :: TargetID(its[i].os, its[i].arch) != TargetID(its[j].os, its[j].arch)
      invariant taken == set i | 0 <= i < n :: TargetID(its[i].os, its[i].arch)
    {
      var id := TargetID(its[n].os, its[n].arch);
      if id in taken || id !in seen {
        return false;
      }
      taken := taken + {id};
      if !ArtifactOk(env, its[n].prestarter) {
        return false;
      }
    }
    ok := true;
  }

  method Validate(env: Env, c: Config) returns (ok: bool)
    ensures ok <==> ConfigOk(env, c)
  {
    if !HeaderOk(env, c) {
      return false;
    }
    var targetsOk, seen := CheckTargets(env, c.targets);
    if !targetsOk {
      return false;
    }
    ok := CheckInstallers(env, c.targets, c.installerTargets, seen);
  }

  // ---------------------------------------------------------------- what a valid config is, spelled out

  lemma ArtifactOkExactly(env: Env, a: Artifact)
    ensures ArtifactOk(env, a) <==>
              && |a.sha256| == 64 && (forall c | c in a.sha256 :: '0' <= c <= '9' || 'a' <= c <= 'f')
              && 1 <= a.size <= 3_221_225_472 && env.artifactUrlOk(a.url)
  {
    if forall c | c in a.sha256 :: '0' <= c <= '9' || 'a' <= c <= 'f' {
      assert forall i | 0 <= i < |a.sha256| :: a.sha256[i] in a.sha256;
    }
  }

  lemma ValidIDExactly(s: string)
    ensures ValidID(s) <==>
              && 1 <= |s| <= 96 && s != "." && s != ".." && s[|s| - 1] != '.'
              && forall c | c in s :: 'a' <= c <= 'z' || 'A' <= c <= 'Z' || '0' <= c <= '9' || c in {'-', '_', '.'}
  {
    if forall c | c in s :: 'a' <= c <= 'z' || 'A' <= c <= 'Z' || '0' <= c <= '9' || c in {'-', '_', '.'} {
      assert forall i | 0 <= i < |s| :: s[i] in s;
    }
  }

  lemma HeaderOkExactly(env: Env, c: Config)
    ensures HeaderOk(env, c) <==>
              && c.schemaVersion == "1.0" && ValidID(c.projectID) && ValidID(c.profileID) && ValidID(c.channel)
              && env.scalarsOk(c) && ArtifactOk(env, c.manifest) && ArtifactOk(env, c.javaManifest)
              && c.manifest.size <= 16_777_216 && c.javaManifest.size <= 8_388_608
              && env.hex(c.profilePublicKey).Some? && |env.hex(c.profilePublicKey).value| == 32
              && 1 <= |c.targets| <= 24
  {
    hide ValidID, ArtifactOk;
  }

  /** A target's components are one for each of the three roles, in any order. */
  lemma ComponentsOkExactly(env: Env, cs: seq<Component>)
    ensures ComponentsOk(env, cs) <==>
              && |cs| == 3 && (forall c | c in cs :: ArtifactOk(env, c.artifact))
              && (exists c :: c in cs && c.name == "runtime") && (exists c :: c in cs && c.name == "desktop")
              && exists c :: c in cs && c.name == "guard"
  {
    hide ArtifactOk;
    if ComponentsOk(env, cs) {
      assert cs[0] in cs && cs[1] in cs && cs[2] in cs;
      ThreeRoles(env, cs);
    } else if |cs| == 3 {
      assert cs[0] in cs && cs[1] in cs && cs[2] in cs;
    }
  }

  /** Platforms are written as one text, and no two platforms share it. */
  lemma TargetIDsDiffer(os: string, arch: string, other: string, machine: string)
    requires PlatformOk(os, arch)
    ensures TargetID(os, arch) == TargetID(other, machine) <==> os == other && arch == machine
  {
    if TargetID(os, arch) == TargetID(other, machine) {
      var l, r := os + "/" + arch, other + "/" + machine;
      assert '/' !in os && '/' !in arch;
      assert forall i | 0 <= i < |l| :: l[i] == '/' <==> i == |os|;
      assert r[|other|] == '/';
      assert os == l[..|os|] && other == r[..|os|];
      assert arch == l[|os| + 1..] && machine == r[|os| + 1..];
    }
  }

  lemma PlatformOkExactly(os: string, arch: string)
    ensures PlatformOk(os, arch) <==>
              (os == "linux" || os == "windows" || os == "darwin") && (arch == "amd64" || arch == "arm64")
  {
  }

  /** Every target is a supported platform of its own, with its three components. */
  lemma TargetsOkExactly(env: Env, ts: seq<Target>)
    ensures TargetsOk(env, ts) <==>
              && (forall t | t in ts :: PlatformOk(t.os, t.arch) && ComponentsOk(env, t.components))
              && forall i, j | 0 <= i < |ts| && 0 <= j < |ts| && i != j ::
                   ts[i].os != ts[j].os || ts[i].arch != ts[j].arch
  {
    hide ComponentsOk, TargetID, PlatformOk;
    forall i, j | 0 <= i < |ts| && 0 <= j < |ts| && PlatformOk(ts[i].os, ts[i].arch)
      ensures TargetID(ts[i].os, ts[i].arch) == TargetID(ts[j].os, ts[j].arch) <==>
              ts[i].os == ts[j].os && ts[i].arch == ts[j].arch
    {
      TargetIDsDiffer(ts[i].os, ts[i].arch, ts[j].os, ts[j].arch);
    }
    if TargetsOk(env, ts) {
      forall i, j | 0 <= i < |ts| && 0 <= j < |ts| && i != j
        ensures ts[i].os != ts[j].os || ts[i].arch != ts[j].arch
      {
        assert TargetOk(env, ts[i]) && TargetOk(env, ts[j]);
        assert i < j || TargetID(ts[j].os, ts[j].arch) != TargetID(ts[i].os, ts[i].arch);
      }
    }
  }

  /** Every installer is for a platform among the targets, and a platform has at most one. */
  lemma InstallersOkExactly(env: Env, ts: seq<Target>, its: seq<InstallerTarget>)
    requires TargetsOk(env, ts)
    ensures InstallersOk(env, ts, its) <==>
              && (forall it | it in its ::
                    ArtifactOk(env, it.prestarter) && exists t :: t in ts && t.os == it.os && t.arch == it.arch)
              && forall i, j | 0 <= i < |its| && 0 <= j < |its| && i != j ::
                   its[i].os != its[j].os || its[i].arch != its[j].arch
  {
    hide ArtifactOk, ComponentsOk, TargetID, PlatformOk;
    forall it | it in its
      ensures KnownTarget(ts, TargetID(it.os, it.arch)) <==> exists t :: t in ts && t.os == it.os && t.arch == it.arch
    {
      KnownExactly(env, ts, it.os, it.arch);
    }
    if forall it | it in its :: KnownTarget(ts, TargetID(it.os, it.arch)) {
      forall i, j | 0 <= i < |its| && 0 <= j < |its|
        ensures TargetID(its[i].os, its[i].arch) == TargetID(its[j].os, its[j].arch) <==>
                its[i].os == its[j].os && its[i].arch == its[j].arch
      {
        assert its[i] in its;
        KnownExactly(env, ts, its[i].os, its[i].arch);
        var t :| t in ts && t.os == its[i].os && t.arch == its[i].arch;
        assert TargetOk(env, t);
        TargetIDsDiffer(its[i].os, its[i].arch, its[j].os, its[j].arch);
      }
    }
  }

  lemma KnownExactly(env: Env, ts: seq<Target>, os: string, arch: string)
    requires TargetsOk(env, ts)
    ensures KnownTarget(ts, TargetID(os, arch)) <==> exists t :: t in ts && t.os == os && t.arch == arch
  {
    hide ComponentsOk, TargetID, PlatformOk;
    if KnownTarget(ts, TargetID(os, arch)) {
      var i :| 0 <= i < |ts| && TargetID(ts[i].os, ts[i].arch) == TargetID(os, arch);
      assert TargetOk(env, ts[i]) && ts[i] in ts;
      TargetIDsDiffer(ts[i].os, ts[i].arch, os, arch);
    }
  }

  // ---------------------------------------------------------------- choosing for a platform

  function SelectTarget(ts: seq<Target>, os: string, arch: string): Option<Target> {
    if ts == [] then None
    else if ts[0].os == os && ts[0].arch == arch then Some(ts[0])
    else SelectTarget(ts[1..], os, arch)
  }

  function InstallerFor(its: seq<InstallerTarget>, os: string, arch: string): Option<Artifact> {
    if its == [] then None
    else if its[0].os == os && its[0].arch == arch then Some(its[0].prestarter)
    else InstallerFor(its[1..], os, arch)
  }

  /** The scan finds a target exactly if there is one, and what it finds is one. */
  lemma {:induction false} SelectsIfThere(ts: seq<Target>, os: string, arch: string)
    ensures SelectTarget(ts, os, arch).Some? <==> exists t :: t in ts && t.os == os && t.arch == arch
    ensures SelectTarget(ts, os, arch).Some? ==>
              var t := SelectTarget(ts, os, arch).value;
              t in ts && t.os == os && t.arch == arch
  {
    if ts != [] {
      SelectsIfThere(ts[1..], os, arch);
      assert ts == [ts[0]] + ts[1..];
    }
  }

  /** A valid config has at most one installer for a platform, and the scan finds it. */
  lemma {:induction false} FindsTheOnlyInstaller(its: seq<InstallerTarget>, os: string, arch: string)
    requires forall i, j | 0 <= i < |its| && 0 <= j < |its| && i != j ::
               its[i].os != its[j].os || its[i].arch != its[j].arch
    ensures forall a :: InstallerFor(its, os, arch) == Some(a) <==> InstallerTarget(os, arch, a) in its
  {
    if its != [] {
      assert forall i | 0 <= i < |its[1..]| :: its[1..][i] == its[i + 1];
      FindsTheOnlyInstaller(its[1..], os, arch);
      assert its == [its[0]] + its[1..];
      forall a | InstallerTarget(os, arch, a) in its[1..]
        ensures !(its[0].os == os && its[0].arch == arch)
      {
        var i :| 0 <= i < |its[1..]| && its[1..][i] == InstallerTarget(os, arch, a);
        assert its[i + 1].os == os;
      }
    }
  }

  /** In a valid config a platform names at most one target, so the scan order cannot matter. */
  lemma {:induction false} SelectsTheOnlyTarget(env: Env, ts: seq<Target>, os: string, arch: string)
    requires TargetsOk(env, ts)
    ensures forall t | t in ts && t.os == os && t.arch == arch :: SelectTarget(ts, os, arch) == Some(t)
    ensures SelectTarget(ts, os, arch).Some? ==>
              var t := SelectTarget(ts, os, arch).value;
              t in ts && t.os == os && t.arch == arch && ComponentsOk(env, t.components)
  {
    if ts != [] {
      assert forall i | 0 <= i < |ts[1..]| :: ts[1..][i] == ts[i + 1];
      assert TargetsOk(env, ts[1..]);
      SelectsTheOnlyTarget(env, ts[1..], os, arch);
      assert forall t | t in ts :: t == ts[0] || t in ts[1..];
      forall t | t in ts[1..] && t.os == os && t.arch == arch
        ensures !(ts[0].os == os && ts[0].arch == arch)
      {
        var i :| 0 <= i < |ts[1..]| && ts[1..][i] == t;
        assert TargetID(ts[0].os, ts[0].arch) != TargetID(ts[i + 1].os, ts[i + 1].arch);
      }
    }
  }

  /** A valid target holds exactly one component for each of the three roles. */
  lemma OneComponentPerRole(env: Env, cs: seq<Component>, role: string)
    requires ComponentsOk(env, cs) && role in ROLES
    ensures exists i :: 0 <= i < |cs| && cs[i].name == role && forall j | 0 <= j < |cs| && cs[j].name == role :: j == i
  {
    var a, b, c := cs[0].name, cs[1].name, cs[2].name;
    assert ComponentOk(env, cs[0]) && ComponentOk(env, cs[1]) && ComponentOk(env, cs[2]);
    if role == a {
      assert cs[0].name == role;
    } else if role == b {
      assert cs[1].name == role;
    } else {
      assert cs[2].name == role;
    }
  }

  // ---------------------------------------------------------------- VerifyEnvelopeWithPolicy

  /** The bytes a bootstrap signature covers: the bare payload in version 1, a header before it in version 2. */
  function SigningBytes(raw: string, e: Envelope): string {
    if e.schemaVersion != "2.0" then raw
    else TP.BOOTSTRAP_PREFIX + e.keyID + "\n" + Decimal(e.trustEpoch) + "\n" + e.signedAt + "\n" + raw
  }

  predicate IsSigner(k: TrustKey, id: string) {
    k.id == id && k.role == "bootstrap"
  }

  /** The first listed bootstrap key with this id. */
  function Signer(keys: seq<TrustKey>, id: string): Option<TrustKey> {
    if keys == [] then None
    else if IsSigner(keys[0], id) then Some(keys[0])
    else Signer(keys[1..], id)
  }

  /** The key that must have signed `e`: the pinned root in version 1, an active delegate in version 2. */
  function SigningKey(env: Env, e: Envelope, pinned: string, policy: Option<Policy>, now: int): Option<string> {
    if e.schemaVersion == "1.0" then Some(pinned)
    else if e.schemaVersion != "2.0" || policy.None? || e.trustEpoch != policy.value.epoch || e.keyID == "" then None
    else
      match Signer(policy.value.keys, e.keyID)
      case None => None
      case Some(k) =>
        if env.parseTime(e.signedAt).None?
          || !TP.Authorize(env, policy.value.keys, "bootstrap", k.id, k.publicKey, env.parseTime(e.signedAt).value,
                           now, true)
        then None
        else env.hex(k.publicKey)
  }

  predicate Signed(env: Env, e: Envelope, key: string) {
    && e.payload.Some? && |e.payload.value| <= MAX_CONFIG_BYTES
    && e.signature.Some? && |e.signature.value| == 64
    && env.verify(key, SigningBytes(e.payload.value, e), e.signature.value)
  }

  /** The configuration an envelope carries with the digest of its payload, before any check of signature. */
  function ConfigOf(env: Env, data: string): Option<(Config, Digest)> {
    match env.envelope(data)
    case None => None
    case Some(e) =>
      if e.payload.None? || env.config(e.payload.value).None? then None
      else Some((env.config(e.payload.value).value, env.sha(e.payload.value)))
  }

  predicate EnvelopeAccepted(env: Env, data: string, pinnedHex: string, policy: Option<Policy>, now: int) {
    && |data| <= MAX_CONFIG_BYTES
    && env.rootKey(pinnedHex).Some? && |env.rootKey(pinnedHex).value| == 32
    && env.envelope(data).Some?
    && var e := env.envelope(data).value;
       var key := SigningKey(env, e, env.rootKey(pinnedHex).value, policy, now);
    && key.Some? && Signed(env, e, key.value)
    && ConfigOf(env, data).Some? && ConfigOk(env, ConfigOf(env, data).value.0)
  }

  /** The search for the signer, in the order of the list. */
  method FindSigner(keys: seq<TrustKey>, id: string) returns (k: Option<TrustKey>)
    ensures k == Signer(keys, id)
  {
    var n := 0;
    while n < |keys|
      invariant 0 <= n <= |keys|
      invariant Signer(keys, id) == Signer(keys[n..], id)
    {
      if IsSigner(keys[n], id) {
        return Some(keys[n]);
      }
      n := n + 1;
    }
    k := None;
  }

  method VerifyEnvelopeWithPolicy(env: Env, data: string, pinnedHex: string, policy: Option<Policy>, now: int)
      returns (r: Option<(Config, Digest)>)
    ensures r == if EnvelopeAccepted(env, data, pinnedHex, policy, now) then ConfigOf(env, data) else None
    // Whatever the version, the config is the signed payload; in version 1 the signature is the pinned root's.
    ensures r.Some? ==>
              && env.envelope(data).Some? && env.rootKey(pinnedHex).Some?
              && var e := env.envelope(data).value;
              && e.payload.Some? && e.signature.Some? && |e.signature.value| == 64
              && env.config(e.payload.value) == Some(r.value.0) && env.sha(e.payload.value) == r.value.1
              && (e.schemaVersion == "2.0" || (e.schemaVersion == "1.0" &&
                    env.verify(env.rootKey(pinnedHex).value, e.payload.value, e.signature.value)))
  {
    hide TP.Authorize, Signer, ConfigOk, Decimal;
    if |data| > MAX_CONFIG_BYTES {
      return None;
    }
    var pinned := env.rootKey(pinnedHex);
    var decoded := env.envelope(data);
    if pinned.None? || |pinned.value| != 32 || decoded.None? {
      return None;
    }
    var e := decoded.value;
    if e.schemaVersion != "1.0" && e.schemaVersion != "2.0" {
      return None;
    }
    if e.schemaVersion == "2.0" && (policy.None? || e.trustEpoch != policy.value.epoch || e.keyID == "") {
      return None;
    }
    if e.payload.None? || |e.payload.value| > MAX_CONFIG_BYTES {
      return None;
    }
    var key := pinned;
    if e.schemaVersion == "2.0" {
      var keys := policy.value.keys;
      var k := FindSigner(keys, e.keyID);
      if k.None? {
        return None;
      }
      var signedAt := env.parseTime(e.signedAt);
      if signedAt.None?
        || !TP.Authorize(env, keys, "bootstrap", k.value.id, k.value.publicKey, signedAt.value, now, true) {
        return None;
      }
      key := env.hex(k.value.publicKey);
    }
    if key.None? || e.signature.None? || |e.signature.value| != 64
      || !env.verify(key.value, SigningBytes(e.payload.value, e), e.signature.value) {
      return None;
    }
    var c := env.config(e.payload.value);
    if c.None? {
      return None;
    }
    var ok := Validate(env, c.value);
    r := if ok then Some((c.value, env.sha(e.payload.value))) else None;
  }

  /** A version 1 envelope is accepted if and only if the pinned root key signed its bare payload; no policy counts. */
  lemma VersionOneExactly(env: Env, data: string, pinnedHex: string, policy: Option<Policy>, now: int)
    requires env.envelope(data).Some? && env.envelope(data).value.schemaVersion == "1.0"
    ensures EnvelopeAccepted(env, data, pinnedHex, policy, now) <==>
              && |data| <= 1_048_576
              && env.rootKey(pinnedHex).Some? && |env.rootKey(pinnedHex).value| == 32
              && var e := env.envelope(data).value;
              && e.payload.Some? && |e.payload.value| <= 1_048_576
              && e.signature.Some? && |e.signature.value| == 64
              && env.verify(env.rootKey(pinnedHex).value, e.payload.value, e.signature.value)
              && env.config(e.payload.value).Some? && ConfigOk(env, env.config(e.payload.value).value)
  {
    hide ConfigOk;
  }

  lemma {:induction false} SignerIsListed(keys: seq<TrustKey>, id: string)
    ensures Signer(keys, id).Some? ==>
              exists i :: 0 <= i < |keys| && keys[i] == Signer(keys, id).value && IsSigner(keys[i], id)
  {
    if keys != [] && !IsSigner(keys[0], id) {
      SignerIsListed(keys[1..], id);
      if Signer(keys, id).Some? {
        var i :| 0 <= i < |keys[1..]| && keys[1..][i] == Signer(keys[1..], id).value && IsSigner(keys[1..][i], id);
        assert keys[i + 1] == keys[1..][i];
      }
    }
  }

  /** `keys[i]` is the only key with its id, is an active bootstrap key, and verifies the signature of `e`. */
  predicate SoleActiveSigner(env: Env, keys: seq<TrustKey>, i: nat, e: Envelope, now: int)
    requires e.payload.Some? && e.signature.Some?
  {
    && i < |keys| && keys[i].id == e.keyID && keys[i].role == "bootstrap" && keys[i].status == "active"
    && (forall j | 0 <= j < |keys| && keys[j].id == e.keyID :: j == i)
    && env.parseTime(e.signedAt).Some? && TP.Permits(env, keys[i], env.parseTime(e.signedAt).value, now, true)
    && env.hex(keys[i].publicKey).Some?
    && env.verify(env.hex(keys[i].publicKey).value, SigningBytes(e.payload.value, e), e.signature.value)
  }

  /** A version 2 envelope accepted under an accepted policy was signed at that policy's epoch by one of its
  active bootstrap keys, and by no other key that shares the id. */
  lemma AcceptedBySoleActiveSigner(env: Env, data: string, pinnedHex: string, policyRaw: string, now: int)
    requires TP.PolicyAccepted(env, policyRaw, pinnedHex, now)
    requires EnvelopeAccepted(env, data, pinnedHex, Some(TP.PolicyOf(env, policyRaw).value.0), now)
    requires env.envelope(data).value.schemaVersion == "2.0"
    ensures var e, p := env.envelope(data).value, TP.PolicyOf(env, policyRaw).value.0;
            && e.trustEpoch == p.epoch && e.payload.Some? && e.signature.Some?
            && TP.ValidTrustID(e.keyID)
            && exists i :: SoleActiveSigner(env, p.keys, i, e, now)
  {
    var e, p := env.envelope(data).value, TP.PolicyOf(env, policyRaw).value.0;
    SignerIsListed(p.keys, e.keyID);
    var i :| 0 <= i < |p.keys| && p.keys[i] == Signer(p.keys, e.keyID).value && IsSigner(p.keys[i], e.keyID);
    TP.AuthorizeAsksTheKey(env, p.keys, i, env.parseTime(e.signedAt).value, now, true);
    assert TP.KeyOk(env, p.keys[i], env.parseTime(p.expiresAt).value);
    forall j | 0 <= j < |p.keys| && p.keys[j].id == e.keyID
      ensures j == i
    {
      assert TP.SameKey(p.keys[i], p.keys[j]);
    }
    assert SoleActiveSigner(env, p.keys, i, e, now);
  }

  /** A version 2 envelope is accepted under an accepted policy if and only if one of its active bootstrap keys signed
  the header and the payload, within the key's time. */
  lemma VersionTwoExactly(env: Env, data: string, pinnedHex: string, policyRaw: string, now: int)
    requires TP.PolicyAccepted(env, policyRaw, pinnedHex, now)
    requires env.envelope(data).Some? && env.envelope(data).value.schemaVersion == "2.0"
    ensures var p := TP.PolicyOf(env, policyRaw).value.0;
            EnvelopeAccepted(env, data, pinnedHex, Some(p), now) <==>
              && |data| <= 1_048_576
              && var e := env.envelope(data).value;
              && e.payload.Some? && |e.payload.value| <= 1_048_576
              && e.signature.Some? && |e.signature.value| == 64
              && e.trustEpoch == p.epoch && env.parseTime(e.signedAt).Some?
              && (exists k :: && k in p.keys && k.id == e.keyID && k.role == "bootstrap" && k.status == "active"
                              && env.parseTime(k.notBefore).Some? && env.hex(k.publicKey).Some?
                              && env.parseTime(k.notBefore).value <= env.parseTime(e.signedAt).value
                              && env.parseTime(e.signedAt).value <= now + 300_000_000_000
                              && env.verify(env.hex(k.publicKey).value,
                                            "Launcher-Bootstrap-v2\n" + e.keyID + "\n" + Decimal(e.trustEpoch) + "\n"
                                            + e.signedAt + "\n" + e.payload.value, e.signature.value))
              && env.config(e.payload.value).Some? && ConfigOk(env, env.config(e.payload.value).value)
  {
    TP.AcceptedHasEpoch(env, policyRaw, pinnedHex, now);
    hide ConfigOk, Decimal, TP.PolicyAccepted, TP.PolicyOf, TP.Authorize, Signer;
    var e, p := env.envelope(data).value, TP.PolicyOf(env, policyRaw).value.0;
    if env.parseTime(e.signedAt).Some? {
      forall k | k in p.keys && k.id == e.keyID && k.role == "bootstrap"
        ensures IsTheSigner(env, p, k, e.keyID, env.parseTime(e.signedAt).value, now)
      {
        TheSigner(env, policyRaw, pinnedHex, k, env.parseTime(e.signedAt).value, now);
      }
      SignerIsListed(p.keys, e.keyID);
    }
  }

  predicate IsTheSigner(env: Env, p: Policy, k: TrustKey, id: string, signedAt: int, now: int) {
    && Signer(p.keys, id) == Some(k) && id != ""
    && env.hex(k.publicKey).Some? && env.parseTime(k.notBefore).Some?
    && TP.Authorize(env, p.keys, "bootstrap", k.id, k.publicKey, signedAt, now, true)
       == TP.Permits(env, k, signedAt, now, true)
  }

  /** In an accepted policy a bootstrap key is the one found by its id, and the one asked. */
  lemma TheSigner(env: Env, policyRaw: string, pinnedHex: string, k: TrustKey, signedAt: int, now: int)
    requires TP.PolicyAccepted(env, policyRaw, pinnedHex, now)
    requires k in TP.PolicyOf(env, policyRaw).value.0.keys && k.role == "bootstrap"
    ensures IsTheSigner(env, TP.PolicyOf(env, policyRaw).value.0, k, k.id, signedAt, now)
  {
    var p := TP.PolicyOf(env, policyRaw).value.0;
    var i :| 0 <= i < |p.keys| && p.keys[i] == k;
    SoleSigner(p.keys, i, k.id);
    TP.AuthorizeAsksTheKey(env, p.keys, i, signedAt, now, true);
    assert TP.KeyOk(env, p.keys[i], env.parseTime(p.expiresAt).value);
  }

  lemma {:induction false} SoleSigner(keys: seq<TrustKey>, i: nat, id: string)
    requires TP.DistinctKeys(keys) && i < |keys| && IsSigner(keys[i], id)
    ensures Signer(keys, id) == Some(keys[i])
  {
    if i > 0 {
      assert !TP.SameKey(keys[0], keys[i]);
      assert forall a, b | 0 <= a < b < |keys[1..]| :: keys[1..][a] == keys[a + 1] && keys[1..][b] == keys[b + 1];
      SoleSigner(keys[1..], i - 1, id);
    }
  }

  /** There are only these two versions. */
  lemma OnlyTwoVersions(env: Env, data: string, pinnedHex: string, policy: Option<Policy>, now: int)
    requires EnvelopeAccepted(env, data, pinnedHex, policy, now)
    ensures var version := env.envelope(data).value.schemaVersion;
            version == "1.0" || (version == "2.0" && policy.Some?)
  {
    hide ConfigOk;
  }

  // ---------------------------------------------------------------- what a signature binds

  ghost predicate TimesHaveNoNewline(env: Env) {
    forall s | env.parseTime(s).Some? :: '\n' !in s
  }

  /** No JSON text starts with a letter that is not the start of true, false or null (section 2 of RFC 8259). */
  ghost predicate JsonNeverStartsWithL(env: Env) {
    forall s | env.config(s).Some? :: s != [] && s[0] != 'L'
  }

  /** What signature checking of `e` leaves known about its header. */
  predicate CheckedHeader(env: Env, e: Envelope) {
    e.schemaVersion == "2.0" && TP.ValidTrustID(e.keyID) && env.parseTime(e.signedAt).Some?
  }

  function AfterEpoch(raw: string, e: Envelope): string {
    e.signedAt + "\n" + raw
  }

  function AfterKey(raw: string, e: Envelope): string {
    Decimal(e.trustEpoch) + "\n" + AfterEpoch(raw, e)
  }

  lemma SigningBytesSplit(raw: string, e: Envelope)
    requires e.schemaVersion == "2.0"
    ensures SigningBytes(raw, e) == TP.BOOTSTRAP_PREFIX + (e.keyID + "\n" + AfterKey(raw, e))
  {
    hide Decimal;
    var epoch := Decimal(e.trustEpoch);
    assert epoch + "\n" + (e.signedAt + "\n" + raw) == epoch + "\n" + e.signedAt + "\n" + raw;
  }

  /** None of the fields in front of a newline contains one. */
  lemma NoNewlines(env: Env, e: Envelope)
    requires TimesHaveNoNewline(env) && CheckedHeader(env, e)
    ensures '\n' !in e.keyID && '\n' !in Decimal(e.trustEpoch) && '\n' !in e.signedAt
  {
    hide Decimal;
    assert AllDigits(Decimal(e.trustEpoch));
  }

  lemma SamePrefix(prefix: string, a: string, b: string)
    requires prefix + a == prefix + b
    ensures a == b
  {
    assert a == (prefix + a)[|prefix|..] && b == (prefix + b)[|prefix|..];
  }

  /** One signature cannot serve two envelopes: equal signing bytes mean equal headers and payloads. */
  lemma SigningBytesInjective(env: Env, e: Envelope, raw: string, f: Envelope, other: string)
    requires TimesHaveNoNewline(env)
    requires CheckedHeader(env, e) && CheckedHeader(env, f)
    requires SigningBytes(raw, e) == SigningBytes(other, f)
    ensures e.keyID == f.keyID && e.trustEpoch == f.trustEpoch && e.signedAt == f.signedAt && raw == other
  {
    SigningBytesSplit(raw, e);
    SigningBytesSplit(other, f);
    NoNewlines(env, e);
    NoNewlines(env, f);
    hide SigningBytes, CheckedHeader, TimesHaveNoNewline, Decimal;
    SamePrefix(TP.BOOTSTRAP_PREFIX, e.keyID + "\n" + AfterKey(raw, e), f.keyID + "\n" + AfterKey(other, f));
    SplitAtNewline(e.keyID, AfterKey(raw, e), f.keyID, AfterKey(other, f));
    SplitAtNewline(Decimal(e.trustEpoch), AfterEpoch(raw, e), Decimal(f.trustEpoch), AfterEpoch(other, f));
    DecimalValue(e.trustEpoch);
    DecimalValue(f.trustEpoch);
    SplitAtNewline(e.signedAt, raw, f.signedAt, other);
  }

  /** A version 2 envelope that verifies under a root-signed policy. */
  predicate AcceptedUnder(env: Env, key: string, data: string, policy: string, now: int) {
    && TP.PolicyAccepted(env, policy, key, now)
    && EnvelopeAccepted(env, data, key, Some(TP.PolicyOf(env, policy).value.0), now)
    && env.envelope(data).Some? && env.envelope(data).value.schemaVersion == "2.0"
  }

  /** The same for envelopes as they are accepted: two of them, verified under accepted policies at whatever times,
  cover the same bytes only if they agree on key id, epoch, signing time and payload. */
  lemma AcceptedEnvelopesShareNoSignature(env: Env, key: string, data: string, policy: string, now: int,
                                          other: string, otherPolicy: string, later: int)
    requires TimesHaveNoNewline(env)
    ensures AcceptedUnder(env, key, data, policy, now) && AcceptedUnder(env, key, other, otherPolicy, later) ==>
              var e, f := env.envelope(data).value, env.envelope(other).value;
              && e.payload.Some? && f.payload.Some?
              && (SigningBytes(e.payload.value, e) == SigningBytes(f.payload.value, f) ==>
                    e.keyID == f.keyID && e.trustEpoch == f.trustEpoch && e.signedAt == f.signedAt
                    && e.payload == f.payload)
  {
    hide TP.PolicyAccepted, EnvelopeAccepted, SigningBytes, TimesHaveNoNewline, TP.Permits;
    if AcceptedUnder(env, key, data, policy, now) && AcceptedUnder(env, key, other, otherPolicy, later) {
      var e, f := env.envelope(data).value, env.envelope(other).value;
      AcceptedBySoleActiveSigner(env, data, key, policy, now);
      AcceptedBySoleActiveSigner(env, other, key, otherPolicy, later);
      if SigningBytes(e.payload.value, e) == SigningBytes(f.payload.value, f) {
        SigningBytesInjective(env, e, e.payload.value, f, f.payload.value);
      }
    }
  }

  /** The three kinds of signed message never coincide, so no signature can be replayed across them. */
  lemma SigningDomainsDisjoint(env: Env, v1: Envelope, raw: string, v2: Envelope, other: string, policyPayload: string)
    requires JsonNeverStartsWithL(env)
    requires v1.schemaVersion == "1.0" && env.config(raw).Some? && v2.schemaVersion == "2.0"
    ensures SigningBytes(raw, v1) != SigningBytes(other, v2)
    ensures SigningBytes(raw, v1) != TP.POLICY_PREFIX + policyPayload
    ensures SigningBytes(other, v2) != TP.POLICY_PREFIX + policyPayload
  {
    SigningBytesSplit(other, v2);
    assert SigningBytes(raw, v1) == raw && raw[0] != 'L';
    hide SigningBytes;
    assert (TP.POLICY_PREFIX + policyPayload)[9] == 'T';
    assert SigningBytes(other, v2)[0] == 'L' && SigningBytes(other, v2)[9] == 'B';
  }
}
