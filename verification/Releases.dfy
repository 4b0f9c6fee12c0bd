/** Release directories, activation slots, and when a slot's record verifies (prestarter/prestarter.go). */
module Releases {
  import opened Wrappers
  import opened Text
  import opened Environment
  import opened Directories
  import TP = TrustPolicy
  import B = Bootstrap

  datatype Record = Record(generation: UInt64, digest: string, platform: string, release: string, configSha: string)

  datatype Journal = Journal(from: string, to: string)

  datatype Directory = Directory(config: Option<string>, files: map<string, string>)

  /** The launcher root: active-0.json, active-1.json (`None` when missing or undecodable), switch.journal,
  releases/. */
  datatype Disk = Disk(slot0: Option<Record>, slot1: Option<Record>, journal: Option<Journal>,
                       releases: map<string, Directory>)

  /** What stays fixed while one run holds the lock: keys, clock, platform and the accepted trust files. */
  datatype Context = Context(env: Env, key: string, now: int, os: string, arch: string, trust: TP.TrustFiles)

  function Platform(c: Context): string {
    c.os + "-" + c.arch
  }

  function Slot(d: Disk, generation: int): Option<Record> {
    if generation % 2 == 0 then d.slot0 else d.slot1
  }

  function WithSlot(d: Disk, generation: int, content: Option<Record>): Disk {
    if generation % 2 == 0 then d.(slot0 := content) else d.(slot1 := content)
  }

  // ---------------------------------------------------------------- releaseValid

  function VerifyConfig(c: Context, raw: string): Option<(Config, Digest)> {
    match c.env.envelope(raw)
    case None => None
    case Some(e) =>
      if e.schemaVersion == "2.0" then
        if c.trust.active.None? || !TP.PolicyAccepted(c.env, c.trust.active.value, c.key, c.now) then None
        else
          var policy := TP.PolicyOf(c.env, c.trust.active.value).value.0;
          if B.EnvelopeAccepted(c.env, raw, c.key, Some(policy), c.now) then B.ConfigOf(c.env, raw) else None
      else if c.trust.state.Unreadable? || TP.FloorEpoch(c.trust.state) > 0 then None
      else if B.EnvelopeAccepted(c.env, raw, c.key, None, c.now) then B.ConfigOf(c.env, raw)
      else None
  }

  function Lookup(files: map<string, string>, name: string): Option<string> {
    if name in files then Some(files[name]) else None
  }

  function ComponentName(c: Context, role: string): string {
    (if role == "desktop" then "launcher-desktop" else role) + (if c.os == "windows" then ".exe" else "")
  }

  predicate ComponentsPresent(c: Context, files: map<string, string>, components: seq<Component>) {
    forall i | 0 <= i < |components| ::
      HashFile(c.env, Lookup(files, ComponentName(c, components[i].name)), components[i].artifact)
  }

  /** The directory holds the signed config with this digest and every component it lists for this platform. */
  predicate DirectoryValid(c: Context, dir: Directory, digest: string, configSha: string) {
    && dir.config.Some? && |dir.config.value| <= B.MAX_CONFIG_BYTES
    && c.env.sha(dir.config.value) == configSha
    && VerifyConfig(c, dir.config.value).Some?
    && var (cfg, d) := VerifyConfig(c, dir.config.value).value;
    && d == digest
    && B.SelectTarget(cfg.targets, c.os, c.arch).Some?
    && ComponentsPresent(c, dir.files, B.SelectTarget(cfg.targets, c.os, c.arch).value.components)
  }

  predicate ReleaseValid(c: Context, d: Disk, r: Record) {
    && ValidDigest(r.digest) && r.platform == Platform(c) && r.release == r.digest + "-" + r.platform
    && r.release in d.releases && DirectoryValid(c, d.releases[r.release], r.digest, r.configSha)
  }

  /** Which config verifies in a run: version 2 under the active policy, version 1 only while no floor is stored. */
  lemma VerifyConfigExactly(c: Context, raw: string)
    ensures VerifyConfig(c, raw) == None || VerifyConfig(c, raw) == B.ConfigOf(c.env, raw)
    ensures VerifyConfig(c, raw).Some? <==>
              && c.env.envelope(raw).Some?
              && if c.env.envelope(raw).value.schemaVersion == "2.0" then
                   && c.trust.active.Some? && TP.PolicyAccepted(c.env, c.trust.active.value, c.key, c.now)
                   && TP.PolicyOf(c.env, c.trust.active.value).Some?
                   && var policy := TP.PolicyOf(c.env, c.trust.active.value).value.0;
                      B.EnvelopeAccepted(c.env, raw, c.key, Some(policy), c.now)
                 else
                   && (c.trust.state.NoState? || (c.trust.state.Floor? && c.trust.state.epoch == 0))
                   && B.EnvelopeAccepted(c.env, raw, c.key, None, c.now)
  {
    if c.trust.active.Some? {
      TP.AcceptedHasEpoch(c.env, c.trust.active.value, c.key, c.now);
    }
    hide TP.PolicyAccepted, TP.PolicyOf, B.ConfigOk;
  }

  /** What a config that verifies says, and what signed it in version 1. */
  lemma VerifiedConfig(c: Context, raw: string)
    requires VerifyConfig(c, raw).Some?
    ensures |raw| <= 1_048_576 && c.env.envelope(raw).Some? && c.env.rootKey(c.key).Some?
    ensures var e := c.env.envelope(raw).value;
            && e.payload.Some? && e.signature.Some? && VerifyConfig(c, raw).value.1 == c.env.sha(e.payload.value)
            && c.env.config(e.payload.value) == Some(VerifyConfig(c, raw).value.0)
            && (e.schemaVersion == "2.0" || (e.schemaVersion == "1.0" &&
                  c.env.verify(c.env.rootKey(c.key).value, e.payload.value, e.signature.value)))
    ensures B.ConfigOk(c.env, VerifyConfig(c, raw).value.0)
  {
    hide TP.PolicyAccepted, B.ConfigOk, TP.Authorize, B.Signer;
  }

  /** The components of this platform are present if and only if, for the target of this platform, each component's
  file is there, under its own name, with the signed size and hash. */
  lemma FilesExactly(c: Context, files: map<string, string>, cfg: Config)
    requires B.ConfigOk(c.env, cfg)
    ensures var target := B.SelectTarget(cfg.targets, c.os, c.arch);
            target.Some? && ComponentsPresent(c, files, target.value.components) <==>
            exists t :: && t in cfg.targets && t.os == c.os && t.arch == c.arch
                        && forall x | x in t.components ::
                             var file := (if x.name == "desktop" then "launcher-desktop" else x.name)
                                         + (if c.os == "windows" then ".exe" else "");
                             && file in files && |files[file]| == x.artifact.size
                             && c.env.sha(files[file]) == x.artifact.sha256
  {
    B.SelectsTheOnlyTarget(c.env, cfg.targets, c.os, c.arch);
    hide B.ConfigOk, B.ComponentsOk, B.SelectTarget;
  }

  /** A release verifies if and only if its record carries the right names, its directory the pinned config, and that
  config has a target for this platform each of whose components is there, under its file name, with the signed size
  and hash. */
  lemma ReleaseValidExactly(c: Context, d: Disk, r: Record)
    ensures ReleaseValid(c, d, r) <==>
              && |r.digest| == 64 && (forall x | x in r.digest :: '0' <= x <= '9' || 'a' <= x <= 'f')
              && r.platform == c.os + "-" + c.arch && r.release == r.digest + "-" + r.platform
              && r.release in d.releases
              && var dir := d.releases[r.release];
              && dir.config.Some? && |dir.config.value| <= 1_048_576 && c.env.sha(dir.config.value) == r.configSha
              && VerifyConfig(c, dir.config.value).Some? && VerifyConfig(c, dir.config.value).value.1 == r.digest
              && exists t :: && t in VerifyConfig(c, dir.config.value).value.0.targets
                             && t.os == c.os && t.arch == c.arch
                             && forall x | x in t.components ::
                                  var file := (if x.name == "desktop" then "launcher-desktop" else x.name)
                                              + (if c.os == "windows" then ".exe" else "");
                                  && file in dir.files && |dir.files[file]| == x.artifact.size
                                  && c.env.sha(dir.files[file]) == x.artifact.sha256
  {
    hide VerifyConfig, ComponentsPresent, B.SelectTarget;
    if forall x | x in r.digest :: '0' <= x <= '9' || 'a' <= x <= 'f' {
      assert forall i | 0 <= i < |r.digest| :: r.digest[i] in r.digest;
    }
    if r.release in d.releases && d.releases[r.release].config.Some?
       && VerifyConfig(c, d.releases[r.release].config.value).Some? {
      VerifiedConfig(c, d.releases[r.release].config.value);
      FilesExactly(c, d.releases[r.release].files, VerifyConfig(c, d.releases[r.release].config.value).value.0);
    }
    hide B.ConfigOk;
  }

  /** The directory's config verifies, but the file of one of its components is missing, or is another one. */
  ghost predicate Damaged(c: Context, dir: Directory) {
    && dir.config.Some? && VerifyConfig(c, dir.config.value).Some?
    && exists t, x :: && t in VerifyConfig(c, dir.config.value).value.0.targets && x in t.components
                      && t.os == c.os && t.arch == c.arch
                      && var file := (if x.name == "desktop" then "launcher-desktop" else x.name)
                                     + (if c.os == "windows" then ".exe" else "");
                         file !in dir.files || |dir.files[file]| != x.artifact.size
                         || c.env.sha(dir.files[file]) != x.artifact.sha256
  }

  /** A directory in which one component is missing or altered does not verify, whatever the record. */
  lemma DamagedDoesNotVerify(c: Context, d: Disk, r: Record)
    requires r.release in d.releases && Damaged(c, d.releases[r.release])
    ensures !ReleaseValid(c, d, r)
  {
    var config := d.releases[r.release].config.value;
    VerifiedConfig(c, config);
    hide VerifyConfig;
    B.SelectsTheOnlyTarget(c.env, VerifyConfig(c, config).value.0.targets, c.os, c.arch);
    hide B.ComponentsOk, B.SelectTarget;
  }

  /** A release that verifies has a component for each role, and its file. */
  lemma ValidReleaseHasAllFiles(c: Context, d: Disk, r: Record, role: string)
    requires ReleaseValid(c, d, r) && role in {"runtime", "desktop", "guard"}
    ensures r.release in d.releases && d.releases[r.release].config.Some?
    ensures var dir := d.releases[r.release];
            var file := (if role == "runtime" then "runtime" else if role == "desktop" then "launcher-desktop"
                         else "guard") + (if c.os == "windows" then ".exe" else "");
            && VerifyConfig(c, dir.config.value).Some?
            && file in dir.files
            && exists t, x :: && t in VerifyConfig(c, dir.config.value).value.0.targets
                              && t.os == c.os && t.arch == c.arch && x in t.components && x.name == role
                              && |dir.files[file]| == x.artifact.size
                              && c.env.sha(dir.files[file]) == x.artifact.sha256
  {
    ReleaseValidExactly(c, d, r);
    hide ReleaseValid, VerifyConfig;
    var cfg := VerifyConfig(c, d.releases[r.release].config.value).value.0;
    VerifiedConfig(c, d.releases[r.release].config.value);
    OkTargets(c.env, cfg);
    hide B.ConfigOk;
    var t :| t in cfg.targets && t.os == c.os && t.arch == c.arch
             && forall x | x in t.components ::
                  var file := (if x.name == "desktop" then "launcher-desktop" else x.name)
                              + (if c.os == "windows" then ".exe" else "");
                  && file in d.releases[r.release].files
                  && |d.releases[r.release].files[file]| == x.artifact.size
                  && c.env.sha(d.releases[r.release].files[file]) == x.artifact.sha256;
    B.ComponentsOkExactly(c.env, t.components);
    hide B.ComponentsOk;
  }

  lemma OkTargets(env: Env, cfg: Config)
    requires B.ConfigOk(env, cfg)
    ensures forall t | t in cfg.targets :: B.ComponentsOk(env, t.components)
  {
    B.TargetsOkExactly(env, cfg.targets);
  }

  // ---------------------------------------------------------------- current

  predicate SlotValid(c: Context, d: Disk, slot: Option<Record>) {
    slot.Some? && ReleaseValid(c, d, slot.value)
  }

  /** One round of the scan in `current`; `valid` says whether the slot's record verifies. */
  function Better(best: Option<Record>, slot: Option<Record>, valid: bool): Option<Record>
    requires valid ==> slot.Some?
  {
    if valid && (best.None? || slot.value.generation > best.value.generation) then slot else best
  }

  function Current(c: Context, d: Disk): Option<Record> {
    Better(Better(None, d.slot0, SlotValid(c, d, d.slot0)), d.slot1, SlotValid(c, d, d.slot1))
  }

  /** Each slot only holds generations of its own parity. */
  predicate Parity(d: Disk) {
    && (d.slot0.Some? ==> d.slot0.value.generation % 2 == 0)
    && (d.slot1.Some? ==> d.slot1.value.generation % 2 == 1)
  }

  predicate VerifiedRecord(c: Context, d: Disk, r: Record) {
    (d.slot0 == Some(r) && SlotValid(c, d, d.slot0)) || (d.slot1 == Some(r) && SlotValid(c, d, d.slot1))
  }

  /** `current` is the verified record that outranks every other one; two verified records never tie, so
  scanning the slots in the other order finds the same record. */
  lemma CurrentIsTheUniqueMaximum(c: Context, d: Disk, r: Record)
    requires Parity(d)
    ensures Current(c, d) == Some(r) <==>
            VerifiedRecord(c, d, r) && forall q | VerifiedRecord(c, d, q) && q != r :: q.generation < r.generation
    ensures Current(c, d) == Better(Better(None, d.slot1, SlotValid(c, d, d.slot1)), d.slot0, SlotValid(c, d, d.slot0))
    ensures Current(c, d).None? <==> forall q :: !VerifiedRecord(c, d, q)
    ensures Current(c, d) == Some(r) ==> Slot(d, r.generation) == Some(r)
  {
    hide ReleaseValid;
    var v0, v1 := SlotValid(c, d, d.slot0), SlotValid(c, d, d.slot1);
    if v0 {
      assert VerifiedRecord(c, d, d.slot0.value);
    }
    if v1 {
      assert VerifiedRecord(c, d, d.slot1.value);
    }
  }

  // ---------------------------------------------------------------- frames

  predicate SameEntry(d: Disk, e: Disk, name: string) {
    SameAt(d.releases, e.releases, name)
  }

  lemma SameReleasesSameVerdicts(c: Context, d: Disk, e: Disk)
    requires d.releases == e.releases
    ensures forall r :: ReleaseValid(c, d, r) == ReleaseValid(c, e, r)
  {
  }

  lemma GenerationDoesNotMatter(c: Context, d: Disk, r: Record, generation: UInt64)
    ensures ReleaseValid(c, d, r) == ReleaseValid(c, d, r.(generation := generation))
  {
  }

  /** Two valid records that name the same release differ at most in their generation. */
  lemma SameReleaseSameRecord(c: Context, d: Disk, r: Record, q: Record)
    requires ReleaseValid(c, d, r) && ReleaseValid(c, d, q) && r.release == q.release
    ensures r.(generation := 0) == q.(generation := 0)
  {
  }

  // ---------------------------------------------------------------- what an installation may touch

  /** Between `d` and `e` only `release` was replaced. */
  ghost predicate OnlyReplaces(d: Disk, e: Disk, release: string) {
    SameLauncherFiles(d, e) && Replaces(d.releases, e.releases, release)
  }

  predicate SameLauncherFiles(d: Disk, e: Disk) {
    d.slot0 == e.slot0 && d.slot1 == e.slot1 && d.journal == e.journal
  }

  lemma ReplacingKeepsSlots(d: Disk, e: Disk, release: string)
    requires OnlyReplaces(d, e, release)
    ensures e.slot0 == d.slot0 && e.slot1 == d.slot1 && e.journal == d.journal
  {
  }

  /** While `release` is being replaced, every verified record of another release stays verified, and no
  other release becomes verified. */
  lemma ReplacingKeepsOthers(c: Context, d: Disk, e: Disk, digest: string, r: Record)
    requires ValidDigest(digest) && OnlyReplaces(d, e, digest + "-" + Platform(c))
    requires r.release != digest + "-" + Platform(c)
    ensures ReleaseValid(c, d, r) == ReleaseValid(c, e, r)
  {
    if ValidDigest(r.digest) && r.release == r.digest + "-" + Platform(c) {
      ReleaseNameIsPlain(r.digest, digest, Platform(c));
      assert SameEntry(d, e, r.release);
    }
  }

  /** The scan's choice when records of releases other than `release` verify in both scans or in neither. */
  lemma PickWhileReplacing(d: Disk, v0: bool, v1: bool, w0: bool, w1: bool, release: string)
    requires Parity(d) && (v0 || w0 ==> d.slot0.Some?) && (v1 || w1 ==> d.slot1.Some?)
    requires d.slot0.Some? && d.slot0.value.release != release ==> v0 == w0
    requires d.slot1.Some? && d.slot1.value.release != release ==> v1 == w1
    requires Better(Better(None, d.slot0, v0), d.slot1, v1).Some?
    requires Better(Better(None, d.slot0, v0), d.slot1, v1).value.release != release
    ensures Better(Better(None, d.slot0, w0), d.slot1, w1).Some?
    ensures var p := Better(Better(None, d.slot0, v0), d.slot1, v1).value;
            var q := Better(Better(None, d.slot0, w0), d.slot1, w1).value;
            q == p || (q.release == release && q.generation > p.generation && Slot(d, p.generation + 1) == Some(q))
  {
  }

  /** During the replacement `current` is the record it was, or a higher-generation record of the new release
  that the other slot already held. */
  lemma CurrentWhileReplacing(c: Context, d: Disk, e: Disk, digest: string)
    requires Parity(d) && ValidDigest(digest) && OnlyReplaces(d, e, digest + "-" + Platform(c))
    requires Current(c, d).Some? && Current(c, d).value.release != digest + "-" + Platform(c)
    ensures Current(c, e).Some?
    ensures var p, q := Current(c, d).value, Current(c, e).value;
            q == p || (q.release == digest + "-" + Platform(c) && q.generation > p.generation
                       && Slot(d, p.generation + 1) == Some(q))
  {
    hide ReleaseValid, OnlyReplaces;
    var release := digest + "-" + Platform(c);
    ReplacingKeepsSlots(d, e, release);
    if d.slot0.Some? && d.slot0.value.release != release {
      ReplacingKeepsOthers(c, d, e, digest, d.slot0.value);
    }
    if d.slot1.Some? && d.slot1.value.release != release {
      ReplacingKeepsOthers(c, d, e, digest, d.slot1.value);
    }
    PickWhileReplacing(d, SlotValid(c, d, d.slot0), SlotValid(c, d, d.slot1),
                       SlotValid(c, e, d.slot0), SlotValid(c, e, d.slot1), release);
  }
}
