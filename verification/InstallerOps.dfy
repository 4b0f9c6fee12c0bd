/** Install, Update and Rollback: prepare first, commit with one last atomic write
(prestarter/installer/installer.go). */
module InstallerOps {
  import opened Wrappers
  import opened Text
  import opened Environment
  import opened Devices
  import opened Directories
  import opened Installer
  import B = Bootstrap

  datatype Error = BadBundle | NotInstalled | IdentityChange | Io | Overflow
                 | ProvisionFailed | ShortcutFailed | NothingToRollBack

  // ---------------------------------------------------------------- store

  predicate Delegated(env: Env, dir: Directory) {
    && dir.config.Some? && env.envelope(dir.config.value).Some?
    && env.envelope(dir.config.value).value.schemaVersion == "2.0"
  }

  /** The release directory built from a bundle: the policy only travels with a version 2 config. */
  function Staged(env: Env, dir: Directory): Directory {
    dir.(policy := if Delegated(env, dir) then dir.policy else None)
  }

  /** A release can be built from the directory: the binary is the signed one, and a delegated config has its policy. */
  predicate Usable(env: Env, dir: Directory, art: Artifact) {
    HashFile(env, dir.binary, art) && (Delegated(env, dir) ==> dir.policy.Some?)
  }

  /** A state while `dir` is being stored as `release`: the old directory is in place, or the new one, or neither. */
  ghost predicate Storing(env: Env, d: Disk, e: Disk, release: string, dir: Directory) {
    && OnlyReplaces(d, e, release)
    && (release in e.releases ==> (release in d.releases && e.releases[release] == d.releases[release])
                                  || e.releases[release] == Staged(env, dir))
  }

  ghost predicate StoringTrace(env: Env, d: Disk, release: string, dir: Directory, t: seq<Disk>, from: nat, to: nat) {
    forall k | from <= k < to && k < |t| :: Storing(env, d, t[k], release, dir)
  }

  lemma StoringBegins(env: Env, d: Disk, release: string, dir: Directory)
    ensures Storing(env, d, d, release, dir)
  {
    NothingReplaced(d.releases, release);
  }

  /** Changing a stage. */
  lemma StoringStage(env: Env, d: Disk, e: Disk, f: Disk, release: string, dir: Directory, stage: string)
    requires Storing(env, d, e, release, dir) && SameSlots(e, f) && e.offline == f.offline
    requires release != "" && release[0] != '.' && IsStage(stage)
    requires forall name | name != stage :: SameAt(e.releases, f.releases, name)
    ensures Storing(env, d, f, release, dir) && stage != release
  {
    assert stage[0] == '.';
    assert SameAt(e.releases, f.releases, release);
    StageStep(d.releases, e.releases, f.releases, release, stage);
  }

  lemma StoringStageFilled(env: Env, d: Disk, e: Disk, release: string, dir: Directory, stage: string,
                           content: Directory)
    requires Storing(env, d, e, release, dir) && release != "" && release[0] != '.' && IsStage(stage)
    ensures Storing(env, d, e.(releases := e.releases[stage := content]), release, dir) && stage != release
  {
    hide Storing;
    StoringStage(env, d, e, e.(releases := e.releases[stage := content]), release, dir, stage);
  }

  lemma StoringStageGone(env: Env, d: Disk, e: Disk, release: string, dir: Directory, stage: string)
    requires Storing(env, d, e, release, dir) && release != "" && release[0] != '.' && IsStage(stage)
    ensures Storing(env, d, e.(releases := e.releases - {stage}), release, dir)
  {
    hide Storing;
    StoringStage(env, d, e, e.(releases := e.releases - {stage}), release, dir, stage);
  }

  lemma StoringPublish(env: Env, d: Disk, e: Disk, f: Disk, release: string, dir: Directory, stage: string)
    requires Storing(env, d, e, release, dir) && SameSlots(e, f) && e.offline == f.offline
    requires release != "" && release[0] != '.' && IsStage(stage) && stage in e.releases && release !in e.releases
    requires f.releases == (e.releases - {stage})[release := e.releases[stage]]
    requires e.releases[stage] == Staged(env, dir)
    ensures Storing(env, d, f, release, dir)
  {
    PublishStep(d.releases, e.releases, f.releases, release, stage);
  }

  lemma StoringQuarantine(env: Env, d: Disk, e: Disk, f: Disk, release: string, dir: Directory, nanos: nat)
    requires Storing(env, d, e, release, dir) && SameSlots(e, f) && e.offline == f.offline
    requires release != "" && release[0] != '.' && release in e.releases && BrokenName(release, nanos) !in e.releases
    requires release in d.releases ==> e.releases[release] == d.releases[release]
    requires f.releases == (e.releases - {release})[BrokenName(release, nanos) := e.releases[release]]
    ensures Storing(env, d, f, release, dir) && release !in f.releases
  {
    QuarantineStep(d.releases, e.releases, f.releases, release, nanos);
  }

  lemma StoringOffline(env: Env, d: Disk, e: Disk, f: Disk, release: string, dir: Directory)
    requires Storing(env, d, e, release, dir) && SameSlots(e, f) && e.releases == f.releases
    requires forall name | name != release && !IsStage(name) :: SameAt(e.offline, f.offline, name)
    ensures Storing(env, d, f, release, dir)
  {
    forall name | name != release && !IsStage(name)
      ensures SameAt(d.offline, f.offline, name)
    {
      assert SameAt(d.offline, e.offline, name) && SameAt(e.offline, f.offline, name);
    }
  }

  /** Builds `release` from the bundle in a stage of its own and renames it into place. */
  method BuildRelease(h: Host, dev: Device<Disk>, dir: Directory, art: Artifact, release: string, ghost before: Disk)
      returns (ok: bool)
    requires dev.Valid() && release != "" && release[0] != '.'
    requires Storing(h.env, before, dev.state, release, dir) && release !in dev.state.releases
    modifies dev
    ensures dev.Valid() && old(dev.trace) <= dev.trace
    ensures StoringTrace(h.env, before, release, dir, dev.trace, |old(dev.trace)|, |dev.trace|)
    ensures Storing(h.env, before, dev.state, release, dir)
    ensures dev.state.offline == old(dev.state).offline
    ensures ok ==> && release in dev.state.releases && dev.state.releases[release] == Staged(h.env, dir)
                   && HashFile(h.env, dir.binary, art)
    ensures dev.faults >= old(dev.faults) && (dev.faults == old(dev.faults) ==> (ok <==> Usable(h.env, dir, art)))
  {
    hide Storing, Staged, HashFile, Usable;
    var suffix: string := *;
    var stage := ".incomplete-" + suffix;
    if stage in dev.state.releases {
      dev.Fail();
      return false;
    }
    StoringStageFilled(h.env, before, dev.state, release, dir, stage, Directory(None, None, None));
    ok := dev.Step(dev.state.(releases := dev.state.releases[stage := Directory(None, None, None)]));
    if !ok {
      return false;
    }
    ok := FillStage(h, dev, dir, art, release, stage, before);
    if ok {
      ok := RenameStage(h, dev, dir, release, stage, before);
    }
    if !ok {
      StoringStageGone(h.env, before, dev.state, release, dir, stage);
      dev.Discard(dev.state.(releases := dev.state.releases - {stage}));
    }
  }

  /** The filled stage takes the release's name. */
  method RenameStage(h: Host, dev: Device<Disk>, dir: Directory, release: string, stage: string, ghost before: Disk)
      returns (ok: bool)
    requires dev.Valid() && release != "" && release[0] != '.' && IsStage(stage)
    requires Storing(h.env, before, dev.state, release, dir) && release !in dev.state.releases
    requires stage in dev.state.releases && dev.state.releases[stage] == Staged(h.env, dir)
    modifies dev
    ensures dev.Valid() && old(dev.trace) <= dev.trace
    ensures StoringTrace(h.env, before, release, dir, dev.trace, |old(dev.trace)|, |dev.trace|)
    ensures Storing(h.env, before, dev.state, release, dir)
    ensures dev.state.offline == old(dev.state).offline
    ensures ok ==> release in dev.state.releases && dev.state.releases[release] == Staged(h.env, dir)
    ensures dev.faults == old(dev.faults) + if ok then 0 else 1
  {
    hide Storing, Staged;
    var next := dev.state.(releases := (dev.state.releases - {stage})[release := dev.state.releases[stage]]);
    StoringPublish(h.env, before, dev.state, next, release, dir, stage);
    ok := dev.Step(next);
  }

  /** Copies binary, config and policy into the stage; the binary is checked last. */
  method FillStage(h: Host, dev: Device<Disk>, dir: Directory, art: Artifact, release: string, stage: string,
                   ghost before: Disk)
      returns (ok: bool)
    requires dev.Valid() && release != "" && release[0] != '.' && IsStage(stage)
    requires Storing(h.env, before, dev.state, release, dir) && release !in dev.state.releases
    requires stage in dev.state.releases && dev.state.releases[stage] == Directory(None, None, None)
    modifies dev
    ensures dev.Valid() && old(dev.trace) <= dev.trace
    ensures StoringTrace(h.env, before, release, dir, dev.trace, |old(dev.trace)|, |dev.trace|)
    ensures Storing(h.env, before, dev.state, release, dir) && release !in dev.state.releases
    ensures dev.state.offline == old(dev.state).offline
    ensures ok ==> && stage in dev.state.releases && dev.state.releases[stage] == Staged(h.env, dir)
                   && HashFile(h.env, dir.binary, art)
    ensures dev.faults >= old(dev.faults) && (dev.faults == old(dev.faults) ==> (ok <==> Usable(h.env, dir, art)))
  {
    hide Storing;
    StoringStageFilled(h.env, before, dev.state, release, dir, stage, Directory(None, None, dir.binary));
    ok := dev.Step(dev.state.(releases := dev.state.releases[stage := Directory(None, None, dir.binary)]));
    if !ok {
      return false;
    }
    StoringStageFilled(h.env, before, dev.state, release, dir, stage, Directory(dir.config, None, dir.binary));
    var configured := Directory(dir.config, None, dir.binary);
    ok := dev.StepAndFlush(dev.state.(releases := dev.state.releases[stage := configured]));
    if !ok {
      return false;
    }
    if Delegated(h.env, dir) {
      if dir.policy.None? {
        return false;
      }
      StoringStageFilled(h.env, before, dev.state, release, dir, stage, dir);
      ok := dev.StepAndFlush(dev.state.(releases := dev.state.releases[stage := dir]));
      if !ok {
        return false;
      }
    }
    ok := HashFile(h.env, dir.binary, art);
  }

  /** The installed directory needs no repair. */
  predicate Sound(h: Host, dir: Directory, art: Artifact, configHash: string) {
    HashFile(h.env, dir.binary, art) && ConfigVerified(h, dir) && h.env.sha(dir.config.value) == configHash
  }

  lemma SoundHasConfig(h: Host, dir: Directory, art: Artifact, configHash: string)
    ensures Sound(h, dir, art, configHash) ==>
              dir.config.Some? && |dir.config.value| <= B.MAX_CONFIG_BYTES && h.env.sha(dir.config.value) == configHash
  {
  }

  /** The payload digest of a bundle's config; empty when the config cannot be read. */
  function BundleID(env: Env, bundle: Bundle): string {
    if ConfigIn(env, bundle.dir).Some? then ConfigIn(env, bundle.dir).value.1 else ""
  }

  function ReleaseName(h: Host, bundle: Bundle): string {
    BundleID(h.env, bundle) + "-" + Platform(h)
  }

  lemma BundleHasID(h: Host, bundle: Bundle, offline: bool)
    requires BundleOk(h, bundle, offline)
    ensures ConfigIn(h.env, bundle.dir).Some? && ValidDigest(BundleID(h.env, bundle))
  {
  }

  /** The record of a verified bundle, before its generation is assigned. */
  function StoredRecord(h: Host, bundle: Bundle, offline: bool): Record
    requires BundleOk(h, bundle, offline)
  {
    var cfg := ConfigIn(h.env, bundle.dir).value.0;
    Record(0, ReleaseName(h, bundle), h.env.sha(bundle.dir.config.value),
           B.InstallerFor(cfg.installerTargets, h.os, h.arch).value.sha256, offline)
  }

  /** What `store` works from: the bundle's config, its binary and the names and hashes of the record. */
  datatype Pins = Pins(cfg: Config, art: Artifact, release: string, configHash: string, offline: bool)

  function PinsOf(h: Host, bundle: Bundle, offline: bool): Pins
    requires BundleOk(h, bundle, offline)
  {
    var cfg, r := ConfigIn(h.env, bundle.dir).value.0, StoredRecord(h, bundle, offline);
    Pins(cfg, B.InstallerFor(cfg.installerTargets, h.os, h.arch).value, r.release, r.configHash, offline)
  }

  /** The directory installed under the bundle's release name needs no repair. */
  predicate SoundAt(h: Host, d: Disk, p: Pins) {
    p.release in d.releases && Sound(h, d.releases[p.release], p.art, p.configHash)
  }

  /** The offline objects under that name are complete, as far as the bundle wants any. */
  predicate CompleteAt(h: Host, d: Disk, p: Pins) {
    p.offline ==> p.release in d.offline && OfflineOk(h, d.offline[p.release], p.cfg)
  }

  /** From `d` to `e` a directory that needs no repair is left alone, and so are complete offline objects beside it. */
  predicate Spares(h: Host, d: Disk, e: Disk, p: Pins) {
    SoundAt(h, d, p) ==> e.releases == d.releases && (CompleteAt(h, d, p) ==> e.offline == d.offline)
  }

  /** The release directory is the bundle's, with its policy only beside a version 2 config. */
  lemma StagedExactly(env: Env, dir: Directory)
    ensures Staged(env, dir).config == dir.config && Staged(env, dir).binary == dir.binary
    ensures Staged(env, dir).policy ==
            if dir.config.Some? && env.envelope(dir.config.value).Some?
               && env.envelope(dir.config.value).value.schemaVersion == "2.0" then dir.policy else None
  {
  }

  /** The record names the payload and the platform, and pins the config file and the binary signed for it. */
  lemma StoredRecordExactly(h: Host, bundle: Bundle, offline: bool)
    requires BundleOk(h, bundle, offline)
    ensures B.ConfigOf(h.env, bundle.dir.config.value).Some?
    ensures var r, (cfg, id) := StoredRecord(h, bundle, offline), B.ConfigOf(h.env, bundle.dir.config.value).value;
            && r.release == id + "-" + (h.os + "-" + h.arch) && r.release == ReleaseName(h, bundle)
            && r.configHash == h.env.sha(bundle.dir.config.value) && r.offline == offline
            && exists a :: InstallerTarget(h.os, h.arch, a) in cfg.installerTargets && r.binaryHash == a.sha256
  {
    VerifiedConfig(h, bundle.dir);
    var cfg := ConfigIn(h.env, bundle.dir).value.0;
    B.InstallersOkExactly(h.env, cfg.targets, cfg.installerTargets);
    B.FindsTheOnlyInstaller(cfg.installerTargets, h.os, h.arch);
    hide ConfigVerified, B.ConfigOk, B.InstallerFor, OfflineOk;
  }

  /** The release half of `store`. */
  method StoreRelease(h: Host, dev: Device<Disk>, dir: Directory, art: Artifact, release: string, configHash: string)
      returns (ok: bool)
    requires dev.Valid() && release != "" && release[0] != '.' && dir.config.Some?
    modifies dev
    ensures dev.Valid() && old(dev.trace) <= dev.trace
    ensures StoringTrace(h.env, old(dev.state), release, dir, dev.trace, |old(dev.trace)|, |dev.trace|)
    ensures Storing(h.env, old(dev.state), dev.state, release, dir)
    ensures dev.state.offline == old(dev.state).offline
    // What is left in place is the bundle's copy or a directory that needed no repair.
    ensures ok ==> release in dev.state.releases
                   && (dev.state.releases[release] == Staged(h.env, dir)
                       || Sound(h, dev.state.releases[release], art, configHash))
    // Its binary and its config are the signed ones.
    ensures ok ==> && dev.state.releases[release].binary.Some?
                   && |dev.state.releases[release].binary.value| == art.size
                   && h.env.sha(dev.state.releases[release].binary.value) == art.sha256
                   && dev.state.releases[release].config.Some?
                   && h.env.sha(dev.state.releases[release].config.value) == configHash
    // A directory that needs no repair is left alone.
    ensures release in old(dev.state).releases && Sound(h, old(dev.state).releases[release], art, configHash) ==>
              dev.trace == old(dev.trace)
    ensures dev.faults >= old(dev.faults)
    ensures dev.faults == old(dev.faults) && |dir.config.value| <= B.MAX_CONFIG_BYTES
            && h.env.sha(dir.config.value) == configHash ==>
              (Usable(h.env, dir, art) ==> ok)
  {
    hide Storing, ConfigVerified;
    ghost var before := dev.state;
    StoringBegins(h.env, before, release, dir);
    if release !in dev.state.releases {
      ok := BuildRelease(h, dev, dir, art, release, before);
      if !ok {
        return false;
      }
    }
    if !Sound(h, dev.state.releases[release], art, configHash) {
      var nanos: nat := *;
      var broken := BrokenName(release, nanos);
      if broken in dev.state.releases {
        dev.Fail();
        return false;
      }
      ghost var e := dev.state;
      var next := dev.state.(releases := (dev.state.releases - {release})[broken := dev.state.releases[release]]);
      StoringQuarantine(h.env, before, e, next, release, dir, nanos);
      ok := dev.Step(next);
      if !ok {
        return false;
      }
      ok := BuildRelease(h, dev, dir, art, release, before);
      if !ok {
        return false;
      }
    }
    SoundHasConfig(h, dev.state.releases[release], art, configHash);
    var installed := dev.state.releases[release].config;
    ok := installed.Some? && |installed.value| <= B.MAX_CONFIG_BYTES && h.env.sha(installed.value) == configHash;
  }

  /** Replaces the offline objects of the release, unless they are complete. */
  method ReplaceObjects(h: Host, dev: Device<Disk>, bundle: Bundle, cfg: Config, release: string, ghost before: Disk)
      returns (ok: bool)
    requires dev.Valid() && release != "" && release[0] != '.'
    requires Storing(h.env, before, dev.state, release, bundle.dir)
    modifies dev
    ensures dev.Valid() && old(dev.trace) <= dev.trace
    ensures StoringTrace(h.env, before, release, bundle.dir, dev.trace, |old(dev.trace)|, |dev.trace|)
    ensures Storing(h.env, before, dev.state, release, bundle.dir)
    ensures forall k | |old(dev.trace)| <= k < |dev.trace| :: dev.trace[k].releases == old(dev.state).releases
    ensures dev.state.releases == old(dev.state).releases
    // So are offline objects that are complete.
    ensures release in old(dev.state).offline && OfflineOk(h, old(dev.state).offline[release], cfg) ==>
              dev.trace == old(dev.trace)
    ensures ok ==> release in dev.state.offline && OfflineOk(h, dev.state.offline[release], cfg)
    ensures dev.faults >= old(dev.faults)
    ensures dev.faults == old(dev.faults) && OfflineOk(h, bundle.objects, cfg) ==> ok
  {
    hide Storing, OfflineOk;
    if release in dev.state.offline && OfflineOk(h, dev.state.offline[release], cfg) {
      return true;
    }
    var suffix: string := *;
    var stage := ".incomplete-" + suffix;
    assert stage[0] == '.' && IsStage(stage);
    if stage in dev.state.offline {
      dev.Fail();
      return false;
    }
    // The tree is copied file by file; an interrupted copy leaves any part of it in the stage.
    var partial: Objects := *;
    ghost var e := dev.state;
    var next := dev.state.(offline := dev.state.offline[stage := partial]);
    StoringOffline(h.env, before, e, next, release, bundle.dir);
    ok := dev.Step(next);
    if !ok {
      return false;
    }
    ok := PublishObjects(h, dev, bundle, cfg, release, stage, before);
    if !ok && stage in dev.state.offline {
      e := dev.state;
      next := dev.state.(offline := dev.state.offline - {stage});
      StoringOffline(h.env, before, e, next, release, bundle.dir);
      dev.Discard(next);
    }
  }

  /** The offline half of `store`. */
  method StoreObjects(h: Host, dev: Device<Disk>, bundle: Bundle, cfg: Config, release: string, ghost before: Disk)
      returns (ok: bool)
    requires dev.Valid() && release != "" && release[0] != '.'
    requires Storing(h.env, before, dev.state, release, bundle.dir)
    modifies dev
    ensures dev.Valid() && old(dev.trace) <= dev.trace
    ensures StoringTrace(h.env, before, release, bundle.dir, dev.trace, |old(dev.trace)|, |dev.trace|)
    ensures Storing(h.env, before, dev.state, release, bundle.dir)
    ensures forall k | |old(dev.trace)| <= k < |dev.trace| :: dev.trace[k].releases == old(dev.state).releases
    ensures dev.state.releases == old(dev.state).releases
    // So are offline objects that are complete.
    ensures release in old(dev.state).offline && OfflineOk(h, old(dev.state).offline[release], cfg) ==>
              dev.trace == old(dev.trace)
    ensures ok ==> release in dev.state.offline && OfflineOk(h, dev.state.offline[release], cfg)
    // Complete means: every component for this platform and both manifests, with the signed size and hash.
    ensures ok ==>
              var objects := dev.state.offline[release];
              && (exists t :: && t in cfg.targets && t.os == h.os && t.arch == h.arch
                              && forall x | x in t.components ::
                                   var path := "objects/" + x.artifact.sha256;
                                   && path in objects && |objects[path]| == x.artifact.size
                                   && h.env.sha(objects[path]) == x.artifact.sha256)
              && (var path := "objects/" + cfg.manifest.sha256;
                  && path in objects && |objects[path]| == cfg.manifest.size
                  && h.env.sha(objects[path]) == cfg.manifest.sha256)
              && var path := "managed-jre/manifest.json";
                 && path in objects && |objects[path]| == cfg.javaManifest.size
                 && h.env.sha(objects[path]) == cfg.javaManifest.sha256
    ensures dev.faults >= old(dev.faults)
    ensures dev.faults == old(dev.faults) && OfflineOk(h, bundle.objects, cfg) ==> ok
  {
    hide Storing, OfflineOk;
    ok := ReplaceObjects(h, dev, bundle, cfg, release, before);
    if ok {
      OfflineOkHolds(h, dev.state.offline[release], cfg);
    }
  }

  method PublishObjects(h: Host, dev: Device<Disk>, bundle: Bundle, cfg: Config, release: string, stage: string,
                        ghost before: Disk)
      returns (ok: bool)
    requires dev.Valid() && release != "" && release[0] != '.' && IsStage(stage) && stage != release
    requires Storing(h.env, before, dev.state, release, bundle.dir)
    modifies dev
    ensures dev.Valid() && old(dev.trace) <= dev.trace
    ensures StoringTrace(h.env, before, release, bundle.dir, dev.trace, |old(dev.trace)|, |dev.trace|)
    ensures Storing(h.env, before, dev.state, release, bundle.dir)
    ensures forall k | |old(dev.trace)| <= k < |dev.trace| :: dev.trace[k].releases == old(dev.state).releases
    ensures dev.state.releases == old(dev.state).releases
    ensures ok ==> release in dev.state.offline && OfflineOk(h, dev.state.offline[release], cfg)
    ensures dev.faults >= old(dev.faults)
    ensures dev.faults == old(dev.faults) ==> (ok <==> OfflineOk(h, bundle.objects, cfg))
  {
    hide Storing, OfflineOk;
    ghost var e := dev.state;
    var next := dev.state.(offline := dev.state.offline[stage := bundle.objects]);
    StoringOffline(h.env, before, e, next, release, bundle.dir);
    ok := dev.Step(next);
    if !ok || !OfflineOk(h, bundle.objects, cfg) {
      return false;
    }
    ok := SwapObjects(h, dev, bundle, release, stage, before);
  }

  /** The old objects go, and the verified stage takes their name. */
  method SwapObjects(h: Host, dev: Device<Disk>, bundle: Bundle, release: string, stage: string, ghost before: Disk)
      returns (ok: bool)
    requires dev.Valid() && release != "" && release[0] != '.' && IsStage(stage) && stage != release
    requires Storing(h.env, before, dev.state, release, bundle.dir)
    modifies dev
    ensures dev.Valid() && old(dev.trace) <= dev.trace
    ensures StoringTrace(h.env, before, release, bundle.dir, dev.trace, |old(dev.trace)|, |dev.trace|)
    ensures Storing(h.env, before, dev.state, release, bundle.dir)
    ensures forall k | |old(dev.trace)| <= k < |dev.trace| :: dev.trace[k].releases == old(dev.state).releases
    ensures dev.state.releases == old(dev.state).releases
    ensures ok ==> release in dev.state.offline && dev.state.offline[release] == bundle.objects
    ensures dev.faults == old(dev.faults) + if ok then 0 else 1
  {
    hide Storing;
    if release in dev.state.offline {
      ghost var e := dev.state;
      var next := dev.state.(offline := dev.state.offline - {release});
      StoringOffline(h.env, before, e, next, release, bundle.dir);
      ok := dev.Step(next);
      if !ok {
        return false;
      }
    }
    ghost var e := dev.state;
    var next := dev.state.(offline := (dev.state.offline - {stage})[release := bundle.objects]);
    StoringOffline(h.env, before, e, next, release, bundle.dir);
    ok := dev.Step(next);
  }

  /** These two configs do not collide under SHA-256. */
  predicate NoCollision(env: Env, a: Option<string>, b: Option<string>) {
    a.Some? && b.Some? && env.sha(a.value) == env.sha(b.value) ==> a == b
  }

  /** The config of a bundle does not collide with the one installed under the same release name. */
  predicate BundleDiffers(h: Host, d: Disk, bundle: Bundle) {
    var release := ReleaseName(h, bundle);
    release in d.releases ==> NoCollision(h.env, bundle.dir.config, d.releases[release].config)
  }

  /** Storing the bundle brings in no other config. */
  lemma StillDiffers(h: Host, d: Disk, e: Disk, bundle: Bundle)
    requires Storing(h.env, d, e, ReleaseName(h, bundle), bundle.dir) && BundleDiffers(h, d, bundle)
    ensures BundleDiffers(h, e, bundle)
  {
    hide OnlyReplaces;
  }

  /** The disk holds everything the record of `bundle` pins. */
  predicate Stored(h: Host, e: Disk, bundle: Bundle, offline: bool)
    requires BundleOk(h, bundle, offline)
  {
    var p := PinsOf(h, bundle, offline);
    && p.release in e.releases
    && (e.releases[p.release] == Staged(h.env, bundle.dir) || SoundAt(h, e, p))
    && CompleteAt(h, e, p)
  }

  lemma ReleaseNameOk(h: Host, id: string)
    requires HostOk(h) && ValidDigest(id)
    ensures NameOk(id + "-" + Platform(h)) && (id + "-" + Platform(h))[0] != '.'
  {
    var name := id + "-" + Platform(h);
    forall i | 0 <= i < |name|
      ensures PlainChar(name[i])
    {
      if i < |id| {
        assert IsLowerHex(id[i]) && name[i] == id[i];
      } else if i > |id| {
        assert name[i] == Platform(h)[i - |id| - 1];
      }
    }
  }

  /** What `store` leaves verifies, whatever generation the record then gets. */
  lemma StoredVerifies(h: Host, e: Disk, bundle: Bundle, offline: bool, generation: UInt64)
    requires HostOk(h) && BundleOk(h, bundle, offline) && Stored(h, e, bundle, offline)
    requires BundleDiffers(h, e, bundle) && generation != 0
    ensures RecordValid(h, e, StoredRecord(h, bundle, offline).(generation := generation))
  {
    hide OfflineOk, NameOk, B.EnvelopeAccepted;
    var r := StoredRecord(h, bundle, offline);
    ReleaseNameOk(h, ConfigIn(h.env, bundle.dir).value.1);
    var dir := e.releases[r.release];
    assert dir.config == bundle.dir.config;
    assert ConfigIn(h.env, dir) == ConfigIn(h.env, bundle.dir);
    assert ConfigVerified(h, dir);
  }

  predicate LeavesSound(h: Host, d: Disk, e: Disk, bundle: Bundle, offline: bool)
    requires BundleOk(h, bundle, offline)
  {
    Spares(h, d, e, PinsOf(h, bundle, offline))
  }

  ghost predicate SparesSound(h: Host, d: Disk, bundle: Bundle, offline: bool, t: seq<Disk>, from: nat)
    requires BundleOk(h, bundle, offline)
  {
    forall k | from <= k < |t| :: LeavesSound(h, d, t[k], bundle, offline)
  }

  /** The release half touches nothing that is sound, the offline half nothing that is complete. */
  lemma HalvesSpareSound(h: Host, d: Disk, e: Disk, f: Disk, p: Pins, t0: seq<Disk>, t1: seq<Disk>, t2: seq<Disk>)
    requires t0 != [] && t0 <= t1 <= t2
    requires t0[|t0| - 1] == d && t1[|t1| - 1] == e && t2[|t2| - 1] == f
    requires SoundAt(h, d, p) ==> t1 == t0
    requires forall k | |t1| <= k < |t2| :: t2[k].releases == e.releases
    requires CompleteAt(h, e, p) ==> t2 == t1
    ensures Spares(h, d, f, p) && forall k | |t0| <= k < |t2| :: Spares(h, d, t2[k], p)
  {
    hide SoundAt, CompleteAt;
  }

  /** `store`: afterwards the disk holds everything the record pins. */
  method Store(h: Host, dev: Device<Disk>, bundle: Bundle, offline: bool) returns (r: Option<Record>)
    requires dev.Valid() && BundleOk(h, bundle, offline)
    modifies dev
    ensures dev.Valid() && old(dev.trace) <= dev.trace
    ensures StoringTrace(h.env, old(dev.state), ReleaseName(h, bundle), bundle.dir, dev.trace, |old(dev.trace)|,
                         |dev.trace|)
    ensures Storing(h.env, old(dev.state), dev.state, ReleaseName(h, bundle), bundle.dir)
    ensures SparesSound(h, old(dev.state), bundle, offline, dev.trace, |old(dev.trace)|)
    ensures LeavesSound(h, old(dev.state), dev.state, bundle, offline)
    ensures r.Some? ==> r.value == StoredRecord(h, bundle, offline) && Stored(h, dev.state, bundle, offline)
    // A verified bundle can always be stored: only I/O can make it fail.
    ensures dev.faults >= old(dev.faults) && (dev.faults == old(dev.faults) ==> r.Some?)
  {
    BundleIsUsable(h, bundle, offline);
    var pins := PinsOf(h, bundle, offline);
    hide BundleOk, Spares, SoundAt, CompleteAt, Usable, StoringTrace, Storing, OfflineOk;
    var ok := StoreHalves(h, dev, bundle, pins);
    r := if ok then Some(StoredRecord(h, bundle, offline)) else None;
  }

  /** The two halves of `store`, one after the other. */
  method StoreHalves(h: Host, dev: Device<Disk>, bundle: Bundle, p: Pins) returns (ok: bool)
    requires dev.Valid() && p.release != "" && p.release[0] != '.' && bundle.dir.config.Some?
    modifies dev
    ensures dev.Valid() && old(dev.trace) <= dev.trace
    ensures StoringTrace(h.env, old(dev.state), p.release, bundle.dir, dev.trace, |old(dev.trace)|, |dev.trace|)
    ensures Storing(h.env, old(dev.state), dev.state, p.release, bundle.dir)
    ensures Spares(h, old(dev.state), dev.state, p)
    ensures forall k | |old(dev.trace)| <= k < |dev.trace| :: Spares(h, old(dev.state), dev.trace[k], p)
    ensures ok ==> p.release in dev.state.releases && CompleteAt(h, dev.state, p)
                   && (dev.state.releases[p.release] == Staged(h.env, bundle.dir) || SoundAt(h, dev.state, p))
    ensures dev.faults >= old(dev.faults)
    ensures dev.faults == old(dev.faults) && |bundle.dir.config.value| <= B.MAX_CONFIG_BYTES
            && h.env.sha(bundle.dir.config.value) == p.configHash && Usable(h.env, bundle.dir, p.art) ==>
              ((p.offline ==> OfflineOk(h, bundle.objects, p.cfg)) ==> ok)
  {
    hide Storing, OfflineOk, Sound, Usable, Spares;
    ghost var before, t0 := dev.state, dev.trace;
    ok := StoreRelease(h, dev, bundle.dir, p.art, p.release, p.configHash);
    ghost var e, t1 := dev.state, dev.trace;
    if ok && p.offline {
      ok := StoreObjects(h, dev, bundle, p.cfg, p.release, before);
    }
    HalvesSpareSound(h, before, e, dev.state, p, t0, t1, dev.trace);
  }

  lemma BundleIsUsable(h: Host, bundle: Bundle, offline: bool)
    requires BundleOk(h, bundle, offline)
    ensures var p := PinsOf(h, bundle, offline);
            && p.release == ReleaseName(h, bundle) && p.release != "" && p.release[0] != '.'
            && bundle.dir.config.Some? && |bundle.dir.config.value| <= B.MAX_CONFIG_BYTES
            && h.env.sha(bundle.dir.config.value) == p.configHash && p.offline == offline
            && Usable(h.env, bundle.dir, p.art) && (offline ==> OfflineOk(h, bundle.objects, p.cfg))
  {
    hide OfflineOk;
    BundleHasID(h, bundle, offline);
    ReleaseNameIsPlain(BundleID(h.env, bundle), BundleID(h.env, bundle), Platform(h));
  }

  lemma VerifiedConfigPresent(h: Host, dir: Directory)
    requires ConfigVerified(h, dir)
    ensures dir.config.Some?
  {
  }
}
