/** The standalone installer: its own two slots, its own release directories, each with its own policy
(prestarter/installer/installer.go). */
module Installer {
  import opened Wrappers
  import opened Text
  import opened Environment
  import opened Directories
  import TP = TrustPolicy
  import B = Bootstrap

  datatype Record = Record(generation: UInt64, release: string, configHash: string, binaryHash: string, offline: bool)

  /** bootstrap.signed.json, trust-policy.signed.json and the signed Prestarter binary. */
  datatype Directory = Directory(config: Option<string>, policy: Option<string>, binary: Option<string>)

  /** The offline files below one directory, by relative path. */
  type Objects = map<string, string>

  datatype Disk = Disk(slot0: Option<Record>, slot1: Option<Record>,
                       releases: map<string, Directory>, offline: map<string, Objects>)

  datatype Bundle = Bundle(dir: Directory, objects: Objects)

  /** The embedded root key, the clock of one operation and the platform it runs on. */
  datatype Host = Host(env: Env, key: string, now: int, os: string, arch: string)

  function Platform(h: Host): string {
    h.os + "-" + h.arch
  }

  predicate PlainChar(c: char) {
    c != '/' && c != '\\' && c != '.'
  }

  /** GOOS and GOARCH are bare words. */
  predicate HostOk(h: Host) {
    forall i | 0 <= i < |Platform(h)| :: PlainChar(Platform(h)[i])
  }

  // ---------------------------------------------------------------- verification

  /** `verifyBundleConfig`: the config of a directory, checked against the policy beside it. */
  predicate ConfigVerified(h: Host, dir: Directory) {
    && dir.config.Some? && |dir.config.value| <= B.MAX_CONFIG_BYTES
    && h.env.envelope(dir.config.value).Some?
    && if h.env.envelope(dir.config.value).value.schemaVersion != "2.0" then
         B.EnvelopeAccepted(h.env, dir.config.value, h.key, None, h.now)
       else
         && dir.policy.Some? && TP.PolicyAccepted(h.env, dir.policy.value, h.key, h.now)
         && B.EnvelopeAccepted(h.env, dir.config.value, h.key, Some(TP.PolicyOf(h.env, dir.policy.value).value.0),
                               h.now)
  }

  function ConfigIn(env: Env, dir: Directory): Option<(Config, Digest)> {
    if dir.config.Some? then B.ConfigOf(env, dir.config.value) else None
  }

  function ObjectAt(objects: Objects, path: string): Option<string> {
    if path in objects then Some(objects[path]) else None
  }

  /** Every component for this platform and both manifests are present with their signed hashes. */
  predicate OfflineOk(h: Host, objects: Objects, cfg: Config) {
    var target := B.SelectTarget(cfg.targets, h.os, h.arch);
    && target.Some?
    && (forall i | 0 <= i < |target.value.components| ::
          var a := target.value.components[i].artifact;
          HashFile(h.env, ObjectAt(objects, "objects/" + a.sha256), a))
    && HashFile(h.env, ObjectAt(objects, "objects/" + cfg.manifest.sha256), cfg.manifest)
    && HashFile(h.env, ObjectAt(objects, "managed-jre/manifest.json"), cfg.javaManifest)
  }

  predicate BinaryOk(h: Host, dir: Directory, cfg: Config) {
    var art := B.InstallerFor(cfg.installerTargets, h.os, h.arch);
    art.Some? && HashFile(h.env, dir.binary, art.value)
  }

  predicate BundleOk(h: Host, bundle: Bundle, offline: bool) {
    && ConfigVerified(h, bundle.dir) && ConfigIn(h.env, bundle.dir).Some?
    && var cfg := ConfigIn(h.env, bundle.dir).value.0;
       && B.SelectTarget(cfg.targets, h.os, h.arch).Some?
       && BinaryOk(h, bundle.dir, cfg)
       && (offline ==> OfflineOk(h, bundle.objects, cfg))
  }

  predicate NameOk(name: string) {
    name != "" && (forall i | 0 <= i < |name| :: name[i] != '/' && name[i] != '\\')
    && forall i | 0 <= i < |name| - 1 :: !(name[i] == '.' && name[i + 1] == '.')
  }

  /** The directory backs the record: config, binary and platform all match what was pinned. */
  predicate DirectoryBacks(h: Host, dir: Directory, r: Record) {
    && ConfigVerified(h, dir) && h.env.sha(dir.config.value) == r.configHash
    && ConfigIn(h.env, dir).Some?
    && var (cfg, id) := ConfigIn(h.env, dir).value;
       && id + "-" + Platform(h) == r.release
       && BinaryOk(h, dir, cfg) && B.InstallerFor(cfg.installerTargets, h.os, h.arch).value.sha256 == r.binaryHash
  }

  /** `verifiedSlot` accepts the record. */
  predicate RecordValid(h: Host, d: Disk, r: Record) {
    && r.generation != 0 && NameOk(r.release) && |r.configHash| == 64 && |r.binaryHash| == 64
    && r.release in d.releases && DirectoryBacks(h, d.releases[r.release], r)
    && (r.offline ==> && r.release in d.offline
                      && OfflineOk(h, d.offline[r.release], ConfigIn(h.env, d.releases[r.release]).value.0))
  }

  // ---------------------------------------------------------------- what verification means, spelled out

  /** Which config verifies in a directory: version 2 under the policy beside it, anything else without a policy. */
  lemma ConfigVerifiedExactly(h: Host, dir: Directory)
    ensures ConfigVerified(h, dir) <==>
              && dir.config.Some? && |dir.config.value| <= 1_048_576 && h.env.envelope(dir.config.value).Some?
              && if h.env.envelope(dir.config.value).value.schemaVersion == "2.0" then
                   && dir.policy.Some? && TP.PolicyAccepted(h.env, dir.policy.value, h.key, h.now)
                   && TP.PolicyOf(h.env, dir.policy.value).Some?
                   && var policy := TP.PolicyOf(h.env, dir.policy.value).value.0;
                      B.EnvelopeAccepted(h.env, dir.config.value, h.key, Some(policy), h.now)
                 else B.EnvelopeAccepted(h.env, dir.config.value, h.key, None, h.now)
  {
    if dir.policy.Some? {
      TP.AcceptedHasEpoch(h.env, dir.policy.value, h.key, h.now);
    }
    hide TP.PolicyAccepted, TP.PolicyOf, B.ConfigOk;
  }

  /** What a config that verifies says, and what signed it in version 1. */
  lemma VerifiedConfig(h: Host, dir: Directory)
    requires ConfigVerified(h, dir)
    ensures h.env.envelope(dir.config.value).Some? && h.env.rootKey(h.key).Some? && ConfigIn(h.env, dir).Some?
    ensures var e, (cfg, id) := h.env.envelope(dir.config.value).value, ConfigIn(h.env, dir).value;
            && e.payload.Some? && e.signature.Some? && id == h.env.sha(e.payload.value)
            && h.env.config(e.payload.value) == Some(cfg) && B.ConfigOk(h.env, cfg)
            && (e.schemaVersion == "2.0" || (e.schemaVersion == "1.0" &&
                  h.env.verify(h.env.rootKey(h.key).value, e.payload.value, e.signature.value)))
  {
    hide TP.PolicyAccepted, B.ConfigOk, TP.Authorize, B.Signer;
  }

  /** The offline objects are complete if and only if every component for this platform and the game's manifest are
  there under their hashes, and the Java manifest in its place, each with the signed size and hash. */
  lemma OfflineOkExactly(h: Host, objects: Objects, cfg: Config)
    requires B.ConfigOk(h.env, cfg)
    ensures OfflineOk(h, objects, cfg) <==>
              && (exists t :: && t in cfg.targets && t.os == h.os && t.arch == h.arch
                              && forall x | x in t.components ::
                                   var path := "objects/" + x.artifact.sha256;
                                   && path in objects && |objects[path]| == x.artifact.size
                                   && h.env.sha(objects[path]) == x.artifact.sha256)
              && (var path := "objects/" + cfg.manifest.sha256;
                  && path in objects && |objects[path]| == cfg.manifest.size
                  && h.env.sha(objects[path]) == cfg.manifest.sha256)
              && var path := "managed-jre/manifest.json";
                 && path in objects && |objects[path]| == cfg.javaManifest.size
                 && h.env.sha(objects[path]) == cfg.javaManifest.sha256
  {
    B.SelectsTheOnlyTarget(h.env, cfg.targets, h.os, h.arch);
    hide B.ConfigOk, B.ComponentsOk, B.SelectTarget;
  }

  /** What complete offline objects hold, whatever config they are for. */
  lemma OfflineOkHolds(h: Host, objects: Objects, cfg: Config)
    requires OfflineOk(h, objects, cfg)
    ensures exists t :: && t in cfg.targets && t.os == h.os && t.arch == h.arch
                        && forall x | x in t.components ::
                             var path := "objects/" + x.artifact.sha256;
                             && path in objects && |objects[path]| == x.artifact.size
                             && h.env.sha(objects[path]) == x.artifact.sha256
    ensures var path := "objects/" + cfg.manifest.sha256;
            && path in objects && |objects[path]| == cfg.manifest.size
            && h.env.sha(objects[path]) == cfg.manifest.sha256
    ensures var path := "managed-jre/manifest.json";
            && path in objects && |objects[path]| == cfg.javaManifest.size
            && h.env.sha(objects[path]) == cfg.javaManifest.sha256
  {
    B.SelectsIfThere(cfg.targets, h.os, h.arch);
    hide B.SelectTarget;
  }

  /** The binary is the one signed for this platform. */
  lemma BinaryOkExactly(h: Host, dir: Directory, cfg: Config)
    requires B.ConfigOk(h.env, cfg)
    ensures BinaryOk(h, dir, cfg) <==>
              exists a :: && InstallerTarget(h.os, h.arch, a) in cfg.installerTargets && dir.binary.Some?
                          && |dir.binary.value| == a.size && h.env.sha(dir.binary.value) == a.sha256
  {
    B.InstallersOkExactly(h.env, cfg.targets, cfg.installerTargets);
    B.FindsTheOnlyInstaller(cfg.installerTargets, h.os, h.arch);
    hide B.ConfigOk, B.InstallerFor;
  }

  /** A bundle may be installed if and only if its config verifies and has a target for this platform, its binary is the
  one signed for the platform, and, where they are wanted, its offline objects are complete. */
  lemma BundleOkExactly(h: Host, bundle: Bundle, offline: bool)
    ensures BundleOk(h, bundle, offline) <==>
              && ConfigVerified(h, bundle.dir) && B.ConfigOf(h.env, bundle.dir.config.value).Some?
              && var cfg := B.ConfigOf(h.env, bundle.dir.config.value).value.0;
              && (exists t :: t in cfg.targets && t.os == h.os && t.arch == h.arch)
              && (exists a :: && InstallerTarget(h.os, h.arch, a) in cfg.installerTargets && bundle.dir.binary.Some?
                              && |bundle.dir.binary.value| == a.size && h.env.sha(bundle.dir.binary.value) == a.sha256)
              && (offline ==> OfflineOk(h, bundle.objects, cfg))
  {
    hide ConfigVerified, BinaryOk, OfflineOk;
    if ConfigVerified(h, bundle.dir) {
      VerifiedConfig(h, bundle.dir);
      var cfg := ConfigIn(h.env, bundle.dir).value.0;
      BinaryOkExactly(h, bundle.dir, cfg);
      B.SelectsTheOnlyTarget(h.env, cfg.targets, h.os, h.arch);
      hide B.ConfigOk, B.ComponentsOk, B.SelectTarget, BinaryOk;
    }
  }

  /** A record verifies if and only if it is well formed, its directory holds the pinned config for the release it
  names and the pinned binary, and its offline objects, if it has any, are complete. */
  lemma RecordValidExactly(h: Host, d: Disk, r: Record)
    ensures RecordValid(h, d, r) <==>
              && r.generation != 0 && |r.configHash| == 64 && |r.binaryHash| == 64
              && r.release != "" && '/' !in r.release && '\\' !in r.release
              && (forall a, b :: r.release != a + ".." + b)
              && r.release in d.releases
              && var dir := d.releases[r.release];
              && ConfigVerified(h, dir) && h.env.sha(dir.config.value) == r.configHash
              && B.ConfigOf(h.env, dir.config.value).Some?
              && var (cfg, id) := B.ConfigOf(h.env, dir.config.value).value;
              && r.release == id + "-" + (h.os + "-" + h.arch)
              && (exists a :: && InstallerTarget(h.os, h.arch, a) in cfg.installerTargets && a.sha256 == r.binaryHash
                              && dir.binary.Some? && |dir.binary.value| == a.size
                              && h.env.sha(dir.binary.value) == a.sha256)
              && (r.offline ==> r.release in d.offline && OfflineOk(h, d.offline[r.release], cfg))
  {
    hide ConfigVerified, BinaryOk, OfflineOk;
    assert NameOk(r.release) <==>
           && r.release != "" && '/' !in r.release && '\\' !in r.release
           && forall a, b :: r.release != a + ".." + b by {
      NameOkExactly(r.release);
    }
    hide NameOk;
    if r.release in d.releases && ConfigVerified(h, d.releases[r.release]) {
      var dir := d.releases[r.release];
      VerifiedConfig(h, dir);
      var cfg := ConfigIn(h.env, dir).value.0;
      BinaryOkExactly(h, dir, cfg);
      B.InstallersOkExactly(h.env, cfg.targets, cfg.installerTargets);
      B.FindsTheOnlyInstaller(cfg.installerTargets, h.os, h.arch);
      hide B.ConfigOk, B.InstallerFor;
    }
  }

  /** A plain name: no separators, and no two dots in a row. */
  lemma NameOkExactly(name: string)
    ensures NameOk(name) <==>
              && name != "" && '/' !in name && '\\' !in name
              && forall a, b :: name != a + ".." + b
  {
    if i: nat :| i < |name| - 1 && name[i] == '.' && name[i + 1] == '.' {
      assert name == name[..i] + ".." + name[i + 2..];
    }
    if a, b :| name == a + ".." + b {
      assert name[|a|] == '.' && name[|a| + 1] == '.';
    }
  }

  // ---------------------------------------------------------------- current

  predicate SlotValid(h: Host, d: Disk, slot: Option<Record>) {
    slot.Some? && RecordValid(h, d, slot.value)
  }

  function Better(best: Option<Record>, slot: Option<Record>, valid: bool): Option<Record>
    requires valid ==> slot.Some?
  {
    if valid && (best.None? || slot.value.generation > best.value.generation) then slot else best
  }

  function Current(h: Host, d: Disk): Option<Record> {
    Better(Better(None, d.slot0, SlotValid(h, d, d.slot0)), d.slot1, SlotValid(h, d, d.slot1))
  }

  predicate Parity(d: Disk) {
    && (d.slot0.Some? ==> d.slot0.value.generation % 2 == 0)
    && (d.slot1.Some? ==> d.slot1.value.generation % 2 == 1)
  }

  function Slot(d: Disk, generation: int): Option<Record> {
    if generation % 2 == 0 then d.slot0 else d.slot1
  }

  function WithSlot(d: Disk, generation: int, content: Option<Record>): Disk {
    if generation % 2 == 0 then d.(slot0 := content) else d.(slot1 := content)
  }

  method CurrentRecord(h: Host, d: Disk) returns (result: Option<Record>)
    ensures result == Current(h, d)
  {
    hide RecordValid;
    result := None;
    for slot := 0 to 2
      invariant slot == 0 ==> result == None
      invariant slot == 1 ==> result == Better(None, d.slot0, SlotValid(h, d, d.slot0))
      invariant slot == 2 ==> result == Current(h, d)
    {
      var r := Slot(d, slot);
      if r.Some? && RecordValid(h, d, r.value) && (result.None? || r.value.generation > result.value.generation) {
        result := r;
      }
    }
  }

  /** `current` is a verified record, in the slot of its parity, above the record in the other slot if that one
  verifies too: scan order cannot matter, and the slot `Rollback` looks at is the one `current` did not choose. */
  lemma CurrentIsTheUniqueMaximum(h: Host, d: Disk)
    requires Parity(d)
    ensures Current(h, d) == Better(Better(None, d.slot1, SlotValid(h, d, d.slot1)), d.slot0, SlotValid(h, d, d.slot0))
    ensures Current(h, d).None? <==> !SlotValid(h, d, d.slot0) && !SlotValid(h, d, d.slot1)
    ensures Current(h, d).Some? ==>
              var r := Current(h, d).value;
              && RecordValid(h, d, r) && Slot(d, r.generation) == Some(r)
              && (SlotValid(h, d, Slot(d, r.generation + 1)) ==>
                  Slot(d, r.generation + 1).value.generation < r.generation)
  {
    hide RecordValid;
  }

  // ---------------------------------------------------------------- frames

  predicate SameSlots(d: Disk, e: Disk) {
    d.slot0 == e.slot0 && d.slot1 == e.slot1
  }

  /** Between `d` and `e` only `release` was replaced, in either tree. */
  ghost predicate OnlyReplaces(d: Disk, e: Disk, release: string) {
    && SameSlots(d, e) && Replaces(d.releases, e.releases, release)
    && forall name | name != release && !IsStage(name) :: SameAt(d.offline, e.offline, name)
  }

  lemma ReplacingKeepsSlots(d: Disk, e: Disk, release: string)
    requires OnlyReplaces(d, e, release)
    ensures SameSlots(d, e)
  {
  }

  lemma ReplacingKeepsOthers(h: Host, d: Disk, e: Disk, digest: string, r: Record)
    requires ValidDigest(digest) && OnlyReplaces(d, e, digest + "-" + Platform(h))
    requires r.release != digest + "-" + Platform(h)
    ensures RecordValid(h, d, r) == RecordValid(h, e, r)
  {
    hide DirectoryBacks, OfflineOk, NameOk;
    if (r.release in d.releases && DirectoryBacks(h, d.releases[r.release], r))
      || (r.release in e.releases && DirectoryBacks(h, e.releases[r.release], r)) {
      BackedName(h, if r.release in d.releases && DirectoryBacks(h, d.releases[r.release], r) then d.releases[r.release]
                    else e.releases[r.release], r, digest);
      assert SameAt(d.releases, e.releases, r.release) && SameAt(d.offline, e.offline, r.release);
    }
  }

  lemma BackedName(h: Host, dir: Directory, r: Record, digest: string)
    requires DirectoryBacks(h, dir, r) && ValidDigest(digest)
    ensures !IsStage(r.release) && !IsBroken(r.release, digest + "-" + Platform(h))
  {
    ReleaseNameIsPlain(ConfigIn(h.env, dir).value.1, digest, Platform(h));
  }

  lemma PickWhileReplacing(d: Disk, v0: bool, v1: bool, w0: bool, w1: bool, release: string)
    requires Parity(d) && (v0 || w0 ==> d.slot0.Some?) && (v1 || w1 ==> d.slot1.Some?)
    requires d.slot0.Some? && d.slot0.value.release != release ==> v0 == w0
    requires d.slot1.Some? && d.slot1.value.release != release ==> v1 == w1
    requires Better(Better(None, d.slot0, v0), d.slot1, v1).Some?
    requires Better(Better(None, d.slot0, v0), d.slot1, v1).value.release != release
    ensures Better(Better(None, d.slot0, w0), d.slot1, w1).Some?
    ensures var p := Better(Better(None, d.slot0, v0), d.slot1, v1).value;
            var q := Better(Better(None, d.slot0, w0), d.slot1, w1).value;
            q == p || (q.release == release && q.generation > p.generation && Slot(d, p.generation + 1) == Some(q))
  {
  }

  /** While a bundle is stored, `current` stays the record it was, or becomes a record of the bundle's release that
  the other slot already held at a higher generation. */
  predicate StillCurrent(h: Host, d: Disk, e: Disk, release: string) {
    Current(h, d).Some? && Current(h, d).value.release != release ==>
      && Current(h, e).Some?
      && var p, q := Current(h, d).value, Current(h, e).value;
         q == p || (q.release == release && q.generation > p.generation && Slot(d, p.generation + 1) == Some(q))
  }

  lemma CurrentWhileReplacing(h: Host, d: Disk, e: Disk, digest: string)
    requires Parity(d) && ValidDigest(digest) && OnlyReplaces(d, e, digest + "-" + Platform(h))
    ensures StillCurrent(h, d, e, digest + "-" + Platform(h))
  {
    hide RecordValid, OnlyReplaces;
    var release := digest + "-" + Platform(h);
    ReplacingKeepsSlots(d, e, release);
    if Current(h, d).Some? && Current(h, d).value.release != release {
      if d.slot0.Some? && d.slot0.value.release != release {
        ReplacingKeepsOthers(h, d, e, digest, d.slot0.value);
      }
      if d.slot1.Some? && d.slot1.value.release != release {
        ReplacingKeepsOthers(h, d, e, digest, d.slot1.value);
      }
      PickWhileReplacing(d, SlotValid(h, d, d.slot0), SlotValid(h, d, d.slot1),
                         SlotValid(h, e, d.slot0), SlotValid(h, e, d.slot1), release);
    }
  }
}
