/** Installing a release, switching to it, and taking a failed switch back (prestarter/prestarter.go). */
module Prestarter {
  import opened Wrappers
  import opened Text
  import opened Environment
  import opened Devices
  import opened Directories
  import opened Releases
  import B = Bootstrap

  datatype Error = Io | FetchFailed | Unverified | Overflow | NotVerifiedAfterInstall | StartFailed | RollbackFailed

  /** The record `installComponents` builds for the verified config `raw`, before a generation is assigned. */
  function Desired(c: Context, digest: string, raw: string): Record {
    Record(0, digest, Platform(c), digest + "-" + Platform(c), c.env.sha(raw))
  }

  /** `raw` verifies with this digest and lists these components for this platform. */
  predicate Prepared(c: Context, components: seq<Component>, digest: string, raw: string) {
    && VerifyConfig(c, raw).Some? && VerifyConfig(c, raw).value.1 == digest && |raw| <= B.MAX_CONFIG_BYTES
    && var cfg := VerifyConfig(c, raw).value.0;
       B.SelectTarget(cfg.targets, c.os, c.arch).Some?
           && B.SelectTarget(cfg.targets, c.os, c.arch).value.components == components
  }

  // ---------------------------------------------------------------- cleanup of interrupted stages

  ghost predicate OnlyStagesDiffer(d: Disk, e: Disk) {
    SameLauncherFiles(d, e) && forall name | !IsStage(name) :: SameEntry(d, e, name)
  }

  method CleanupInterruptedStages(dev: Device<Disk>) returns (ok: bool)
    requires dev.Valid()
    modifies dev
    ensures dev.Valid() && old(dev.trace) <= dev.trace
    ensures forall k | |old(dev.trace)| <= k < |dev.trace| :: OnlyStagesDiffer(old(dev.state), dev.trace[k])
    ensures OnlyStagesDiffer(old(dev.state), dev.state)
    ensures ok ==> forall name | name in dev.state.releases :: !(".incomplete-" <= name)
    // Only stages go.
    ensures forall name | name in old(dev.state).releases && !(".incomplete-" <= name) ::
              name in dev.state.releases && dev.state.releases[name] == old(dev.state).releases[name]
    ensures dev.faults >= old(dev.faults) && (dev.faults == old(dev.faults) ==> ok)
  {
    var todo := dev.state.releases.Keys;
    while todo != {}
      invariant dev.Valid() && old(dev.trace) <= dev.trace
      invariant forall k | |old(dev.trace)| <= k < |dev.trace| :: OnlyStagesDiffer(old(dev.state), dev.trace[k])
      invariant OnlyStagesDiffer(old(dev.state), dev.state)
      invariant forall name | name in old(dev.state).releases && !(".incomplete-" <= name) ::
                  name in dev.state.releases && dev.state.releases[name] == old(dev.state).releases[name]
      invariant forall name | name in dev.state.releases && IsStage(name) :: name in todo
      invariant dev.faults == old(dev.faults)
      decreases todo
    {
      var entry :| entry in todo;
      todo := todo - {entry};
      if IsStage(entry) {
        // Anything but a directory by that name is refused.
        var isDirectory := dev.Try();
        if !isDirectory {
          return false;
        }
        var removed := dev.Step(dev.state.(releases := dev.state.releases - {entry}));
        if !removed {
          return false;
        }
      }
    }
    ok := dev.Try();
  }

  // ---------------------------------------------------------------- installComponents

  lemma ComponentNamesDiffer(c: Context, components: seq<Component>, i: nat, j: nat)
    requires B.ComponentsOk(c.env, components) && i < j < |components|
    ensures ComponentName(c, components[i].name) != ComponentName(c, components[j].name)
  {
    var a, b := components[i].name, components[j].name;
    assert B.ComponentOk(c.env, components[i]) && B.ComponentOk(c.env, components[j]);
    assert |a| in {5, 7} && |b| in {5, 7};
    assert a != b;
    if c.os == "windows" {
      assert ComponentName(c, a)[0] == (if a == "desktop" then 'l' else a[0]);
      assert ComponentName(c, b)[0] == (if b == "desktop" then 'l' else b[0]);
    }
  }

  predicate Filled(c: Context, dir: Directory, components: seq<Component>, n: nat)
    requires n <= |components|
  {
    forall i | 0 <= i < n :: HashFile(c.env, Lookup(dir.files, ComponentName(c, components[i].name)),
                                      components[i].artifact)
  }

  lemma FilledOneMore(c: Context, dir: Directory, components: seq<Component>, n: nat, content: string)
    requires B.ComponentsOk(c.env, components) && n < |components| && Filled(c, dir, components, n)
    requires HashFile(c.env, Some(content), components[n].artifact)
    ensures Filled(c, dir.(files := dir.files[ComponentName(c, components[n].name) := content]), components, n + 1)
  {
    forall i | 0 <= i < n
      ensures ComponentName(c, components[i].name) != ComponentName(c, components[n].name)
    {
      ComponentNamesDiffer(c, components, i, n);
    }
  }

  /** `store.artifact`: the bytes of one component, checked against its signed hash. */
  method Obtain(env: Env, dev: Device<Disk>, a: Artifact) returns (content: Option<string>)
    modifies dev`faults
    ensures content.Some? ==> |content.value| == a.size && env.sha(content.value) == a.sha256
    ensures dev.faults == old(dev.faults) + if content.Some? then 0 else 1
  {
    content := *;
    if !HashFile(env, content, a) {
      content := None;
      dev.Fail();
    }
  }

  /** Fills `stage` with the components in order, each checked against its signed hash, then the signed config. */
  method FillStage(c: Context, dev: Device<Disk>, components: seq<Component>, raw: string,
                   stage: string, ghost before: Disk, release: string) returns (r: Result<(), Error>)
    requires dev.Valid() && B.ComponentsOk(c.env, components)
    requires IsStage(stage) && release != "" && release[0] != '.'
    requires OnlyReplaces(before, dev.state, release) && release !in dev.state.releases
    requires stage in dev.state.releases && dev.state.releases[stage] == Directory(None, map[])
    modifies dev
    ensures dev.Valid() && old(dev.trace) <= dev.trace
    ensures forall k | |old(dev.trace)| <= k < |dev.trace| :: OnlyReplaces(before, dev.trace[k], release)
    ensures OnlyReplaces(before, dev.state, release) && release !in dev.state.releases
    ensures r.Success? ==> stage in dev.state.releases
                           && dev.state.releases[stage].config == Some(raw)
                           && Filled(c, dev.state.releases[stage], components, |components|)
    ensures r.Failure? ==> r.error in {Io, FetchFailed}
    ensures dev.faults >= old(dev.faults) && (dev.faults == old(dev.faults) ==> r.Success?)
  {
    hide Replaces;
    for n := 0 to |components|
      invariant dev.Valid() && old(dev.trace) <= dev.trace
      invariant forall k | |old(dev.trace)| <= k < |dev.trace| :: OnlyReplaces(before, dev.trace[k], release)
      invariant OnlyReplaces(before, dev.state, release) && release !in dev.state.releases
      invariant stage in dev.state.releases && Filled(c, dev.state.releases[stage], components, n)
      invariant dev.faults == old(dev.faults)
    {
      var source := Obtain(c.env, dev, components[n].artifact);
      if source.None? {
        return Failure(FetchFailed);
      }
      ghost var e := dev.state;
      var dir := dev.state.releases[stage];
      FilledOneMore(c, dir, components, n, source.value);
      dir := dir.(files := dir.files[ComponentName(c, components[n].name) := source.value]);
      var copied := dev.Step(dev.state.(releases := dev.state.releases[stage := dir]));
      if !copied {
        return Failure(Io);
      }
      StageStep(before.releases, e.releases, dev.state.releases, release, stage);
    }
    ghost var e := dev.state;
    var dir := dev.state.releases[stage].(config := Some(raw));
    var next := dev.state.(releases := dev.state.releases[stage := dir]);
    StageStep(before.releases, e.releases, next.releases, release, stage);
    var written := dev.StepAndFlush(next);
    if !written {
      return Failure(Io);
    }
    r := Success(());
  }

  lemma FilledIsValid(c: Context, components: seq<Component>, digest: string, raw: string, d: Disk)
    requires ValidDigest(digest) && Prepared(c, components, digest, raw)
    requires var rel := Desired(c, digest, raw).release;
             rel in d.releases && d.releases[rel].config == Some(raw)
                 && Filled(c, d.releases[rel], components, |components|)
    ensures ReleaseValid(c, d, Desired(c, digest, raw))
  {
    hide VerifyConfig;
  }

  /** Moves a directory that does not verify into quarantine and opens an empty stage. */
  method MakeRoom(dev: Device<Disk>, release: string) returns (stage: Option<string>)
    requires dev.Valid() && release != "" && release[0] != '.'
    modifies dev
    ensures dev.Valid() && old(dev.trace) <= dev.trace
    ensures forall k | |old(dev.trace)| <= k < |dev.trace| :: OnlyReplaces(old(dev.state), dev.trace[k], release)
    ensures OnlyReplaces(old(dev.state), dev.state, release)
    ensures stage.Some? ==> IsStage(stage.value) && release !in dev.state.releases
                            && stage.value in dev.state.releases
                                && dev.state.releases[stage.value] == Directory(None, map[])
    ensures stage.Some? && release in old(dev.state).releases ==>
              exists nanos: nat :: && release + ".broken-" + Decimal(nanos) in dev.state.releases
                                   && dev.state.releases[release + ".broken-" + Decimal(nanos)]
                                      == old(dev.state).releases[release]
    ensures dev.faults >= old(dev.faults) && (dev.faults == old(dev.faults) ==> stage.Some?)
  {
    hide Replaces;
    ghost var before := dev.state;
    NothingReplaced(before.releases, release);
    if release in dev.state.releases {
      var nanos: nat := *;
      var broken := BrokenName(release, nanos);
      if broken in dev.state.releases {
        dev.Fail();
        return None;
      }
      var kept := (dev.state.releases - {release})[broken := dev.state.releases[release]];
      var moved := dev.Step(dev.state.(releases := kept));
      if !moved {
        return None;
      }
      QuarantineStep(before.releases, before.releases, dev.state.releases, release, nanos);
    }
    var suffix: string := *;
    var name := ".incomplete-" + suffix;
    if name in dev.state.releases {
      dev.Fail();
      return None;
    }
    ghost var e := dev.state;
    var made := dev.Step(dev.state.(releases := dev.state.releases[name := Directory(None, map[])]));
    if !made {
      return None;
    }
    assert name[0] == '.';
    StageStep(before.releases, e.releases, dev.state.releases, release, name);
    stage := Some(name);
  }

  method ReplaceUnlessValid(c: Context, dev: Device<Disk>, components: seq<Component>, digest: string, raw: string)
      returns (r: Result<Record, Error>)
    requires dev.Valid() && ValidDigest(digest) && B.ComponentsOk(c.env, components)
    modifies dev
    ensures dev.Valid() && old(dev.trace) <= dev.trace
    ensures forall k | |old(dev.trace)| <= k < |dev.trace| ::
              OnlyReplaces(old(dev.state), dev.trace[k], Desired(c, digest, raw).release)
    ensures OnlyReplaces(old(dev.state), dev.state, Desired(c, digest, raw).release)
    // A release that already verifies is left alone.
    ensures ReleaseValid(c, old(dev.state), Desired(c, digest, raw)) ==>
              r == Success(Desired(c, digest, raw)) && dev.trace == old(dev.trace)
    ensures r.Success? ==> r.value == Desired(c, digest, raw) && ReleaseValid(c, dev.state, r.value)
    // What a verified config installs always verifies: only I/O and downloads can make it fail.
    ensures Prepared(c, components, digest, raw) ==> r.Success? || r.error in {Io, FetchFailed}
    ensures r.Failure? ==> r.error in {Io, FetchFailed, NotVerifiedAfterInstall}
    ensures dev.faults >= old(dev.faults)
    ensures dev.faults == old(dev.faults) && Prepared(c, components, digest, raw) ==> r.Success?
  {
    hide Replaces, ReleaseValid, Prepared;
    ghost var before := dev.state;
    var record := Desired(c, digest, raw);
    var release := record.release;
    assert IsLowerHex(digest[0]) && release[0] == digest[0];
    NothingReplaced(before.releases, release);
    if ReleaseValid(c, dev.state, record) {
      return Success(record);
    }
    var stage := MakeRoom(dev, release);
    if stage.None? {
      return Failure(Io);
    }
    r := Publish(c, dev, components, digest, raw, stage.value, before);
    // The deferred removal of the stage; its own failure is not reported.
    if r.Failure? && stage.value in dev.state.releases {
      ghost var e := dev.state;
      var next := dev.state.(releases := dev.state.releases - {stage.value});
      StageStep(before.releases, e.releases, next.releases, release, stage.value);
      dev.Discard(next);
    }
  }

  /** The directory's config has a target for this platform, and each component of it has its file there, under its
  own name, with the signed size and hash. */
  ghost predicate EveryFileThere(c: Context, e: Disk, release: string) {
    && release in e.releases && e.releases[release].config.Some?
    && var dir := e.releases[release];
    && VerifyConfig(c, dir.config.value).Some?
    && exists t :: && t in VerifyConfig(c, dir.config.value).value.0.targets && t.os == c.os && t.arch == c.arch
                   && forall x | x in t.components ::
                        var file := (if x.name == "desktop" then "launcher-desktop" else x.name)
                                    + (if c.os == "windows" then ".exe" else "");
                        && file in dir.files && |dir.files[file]| == x.artifact.size
                        && c.env.sha(dir.files[file]) == x.artifact.sha256
  }

  /** The directory that `d` has for the release has made room for another, and is in quarantine. */
  ghost predicate MovedAway(d: Disk, e: Disk, release: string)
    requires release in d.releases
  {
    && release in e.releases && e.releases[release] != d.releases[release]
    && exists name :: name in e.releases && release + ".broken-" <= name && e.releases[name] == d.releases[release]
  }

  /** A directory that did not verify before and does now is another one, and the old one was kept. */
  lemma ReplacedIsKept(c: Context, d: Disk, e: Disk, r: Record)
    requires OnlyReplaces(d, e, r.release) && ReleaseValid(c, e, r) && r.release in d.releases
    requires !ReleaseValid(c, d, r)
    ensures MovedAway(d, e, r.release)
  {
    hide DirectoryValid;
    assert Survives(d.releases, e.releases, r.release);
  }

  /** `installComponents`. */
  method InstallComponents(c: Context, dev: Device<Disk>, components: seq<Component>, digest: string, raw: string)
      returns (r: Result<Record, Error>)
    requires dev.Valid() && ValidDigest(digest) && B.ComponentsOk(c.env, components)
    modifies dev
    ensures dev.Valid() && old(dev.trace) <= dev.trace
    ensures forall k | |old(dev.trace)| <= k < |dev.trace| ::
              OnlyReplaces(old(dev.state), dev.trace[k], Desired(c, digest, raw).release)
    ensures OnlyReplaces(old(dev.state), dev.state, Desired(c, digest, raw).release)
    // A release that already verifies is left alone.
    ensures ReleaseValid(c, old(dev.state), Desired(c, digest, raw)) ==>
              r == Success(Desired(c, digest, raw)) && dev.trace == old(dev.trace)
    ensures r.Success? ==> r.value == Desired(c, digest, raw) && ReleaseValid(c, dev.state, r.value)
    ensures r.Success? ==>
              r.value == Record(0, digest, c.os + "-" + c.arch, digest + "-" + (c.os + "-" + c.arch), c.env.sha(raw))
    // Every component for this platform is there, whole, under its name; what was not is not left there.
    ensures r.Success? ==> EveryFileThere(c, dev.state, r.value.release)
    ensures r.Success? && r.value.release in old(dev.state).releases && !ReleaseValid(c, old(dev.state), r.value) ==>
              MovedAway(old(dev.state), dev.state, r.value.release)
    // When nothing fails, a directory with a component missing or altered never stays in its place.
    ensures dev.faults == old(dev.faults) && Prepared(c, components, digest, raw) ==>
              var release := Desired(c, digest, raw).release;
              (release in old(dev.state).releases && Damaged(c, old(dev.state).releases[release]) ==>
                 MovedAway(old(dev.state), dev.state, release))
    // What a verified config installs always verifies: only I/O and downloads can make it fail.
    ensures Prepared(c, components, digest, raw) ==> r.Success? || r.error in {Io, FetchFailed}
    ensures r.Failure? ==> r.error in {Io, FetchFailed, NotVerifiedAfterInstall}
    ensures dev.faults >= old(dev.faults)
    ensures dev.faults == old(dev.faults) && Prepared(c, components, digest, raw) ==> r.Success?
  {
    hide Replaces, ReleaseValid, Prepared, VerifyConfig, Damaged, MovedAway;
    if Desired(c, digest, raw).release in dev.state.releases
       && Damaged(c, dev.state.releases[Desired(c, digest, raw).release]) {
      DamagedDoesNotVerify(c, dev.state, Desired(c, digest, raw));
    }
    r := ReplaceUnlessValid(c, dev, components, digest, raw);
    if r.Success? {
      ReleaseValidExactly(c, dev.state, r.value);
      if r.value.release in old(dev.state).releases && !ReleaseValid(c, old(dev.state), r.value) {
        ReplacedIsKept(c, old(dev.state), dev.state, r.value);
      }
    }
  }

  method Publish(c: Context, dev: Device<Disk>, components: seq<Component>, digest: string, raw: string,
                 stage: string, ghost before: Disk) returns (r: Result<Record, Error>)
    requires dev.Valid() && ValidDigest(digest) && B.ComponentsOk(c.env, components) && IsStage(stage)
    requires var release := Desired(c, digest, raw).release;
             OnlyReplaces(before, dev.state, release) && release !in dev.state.releases && release[0] != '.'
    requires stage in dev.state.releases && dev.state.releases[stage] == Directory(None, map[])
    modifies dev
    ensures dev.Valid() && old(dev.trace) <= dev.trace
    ensures forall k | |old(dev.trace)| <= k < |dev.trace| ::
              OnlyReplaces(before, dev.trace[k], Desired(c, digest, raw).release)
    ensures OnlyReplaces(before, dev.state, Desired(c, digest, raw).release)
    ensures r.Success? ==> r.value == Desired(c, digest, raw) && ReleaseValid(c, dev.state, r.value)
    ensures Prepared(c, components, digest, raw) ==> r.Success? || r.error in {Io, FetchFailed}
    ensures r.Failure? ==> r.error in {Io, FetchFailed, NotVerifiedAfterInstall}
    ensures dev.faults >= old(dev.faults)
    ensures dev.faults == old(dev.faults) && Prepared(c, components, digest, raw) ==> r.Success?
  {
    hide Replaces, ReleaseValid, Prepared;
    var record := Desired(c, digest, raw);
    var release := record.release;
    var filled := FillStage(c, dev, components, raw, stage, before, release);
    if filled.Failure? {
      return Failure(filled.error);
    }
    var flushed := dev.Try();
    if !flushed {
      return Failure(Io);
    }
    ghost var e := dev.state;
    var next := dev.state.(releases := (dev.state.releases - {stage})[release := dev.state.releases[stage]]);
    PublishStep(before.releases, e.releases, next.releases, release, stage);
    var renamed := dev.StepAndFlush(next);
    if !renamed {
      return Failure(Io);
    }
    if !ReleaseValid(c, dev.state, record) {
      if Prepared(c, components, digest, raw) {
        FilledIsValid(c, components, digest, raw, dev.state);
      }
      return Failure(NotVerifiedAfterInstall);
    }
    r := Success(record);
  }

  // ---------------------------------------------------------------- current

  method CurrentRecord(c: Context, d: Disk) returns (result: Option<Record>)
    ensures result == Current(c, d)
  {
    hide ReleaseValid;
    result := None;
    for slot := 0 to 2
      invariant slot == 0 ==> result == None
      invariant slot == 1 ==> result == Better(None, d.slot0, SlotValid(c, d, d.slot0))
      invariant slot == 2 ==> result == Current(c, d)
    {
      var r := Slot(d, slot);
      if r.Some? && ReleaseValid(c, d, r.value) && (result.None? || r.value.generation > result.value.generation) {
        result := r;
      }
    }
  }

  // ---------------------------------------------------------------- activate

  predicate AlreadyActive(previous: Option<Record>, desired: Record) {
    previous.Some? && previous.value.digest == desired.digest && previous.value.configSha == desired.configSha
  }

  function NextGeneration(previous: Option<Record>): UInt64 {
    if previous.Some? then Increment(previous.value.generation) else 1
  }

  /** There is nothing to commit, or a generation left to commit it with. */
  predicate Fits(previous: Option<Record>, desired: Record) {
    AlreadyActive(previous, desired) || NextGeneration(previous) != 0
  }

  function Promoted(previous: Option<Record>, desired: Record): Record {
    desired.(generation := NextGeneration(previous))
  }

  /** The states an activation passes through: the journal announces it, one slot commits it, the journal goes. */
  function ActivationPlan(d: Disk, previous: Option<Record>, desired: Record): (plan: seq<Disk>)
    ensures |plan| == 3
  {
    var from := if previous.Some? then previous.value.release else "";
    var announced := d.(journal := Some(Journal(from, desired.release)));
    var committed := WithSlot(announced, NextGeneration(previous), Some(Promoted(previous, desired)));
    [announced, committed, committed.(journal := None)]
  }

  /** The plan, spelled out: the journal names the old release and the new one, the next generation goes into the slot
  of its parity, and the other slot and the releases stay. */
  lemma ActivationPlanExactly(d: Disk, previous: Option<Record>, desired: Record)
    requires previous.Some? ==> previous.value.generation < 0xFFFF_FFFF_FFFF_FFFF
    ensures var plan := ActivationPlan(d, previous, desired);
            var generation: UInt64 := if previous.Some? then previous.value.generation + 1 else 1;
            var committed := Some(desired.(generation := generation));
            && plan[0] == d.(journal := Some(Journal(if previous.Some? then previous.value.release else "",
                                                     desired.release)))
            && plan[1].slot0 == (if generation % 2 == 0 then committed else d.slot0)
            && plan[1].slot1 == (if generation % 2 == 1 then committed else d.slot1)
            && plan[1].journal == plan[0].journal && plan[1].releases == d.releases
            && plan[2] == plan[1].(journal := None)
  {
  }

  /** An activation that has anything to commit is refused only at the very last generation. */
  lemma FitsExactly(previous: Option<Record>, desired: Record)
    ensures Fits(previous, desired) <==>
              || previous.None? || previous.value.generation < 0xFFFF_FFFF_FFFF_FFFF
              || (previous.value.digest == desired.digest && previous.value.configSha == desired.configSha)
  {
  }

  method Activate(c: Context, dev: Device<Disk>, previous: Option<Record>, desired: Record)
      returns (r: Result<(), Error>)
    requires dev.Valid()
    modifies dev
    ensures dev.Valid()
    ensures !ReleaseValid(c, old(dev.state), desired) ==> r == Failure(Unverified) && dev.trace == old(dev.trace)
    ensures ReleaseValid(c, old(dev.state), desired) && AlreadyActive(previous, desired) ==>
              r == Success(()) && dev.trace == old(dev.trace)
    ensures ReleaseValid(c, old(dev.state), desired) && !AlreadyActive(previous, desired)
            && NextGeneration(previous) == 0 ==>
              r == Failure(Overflow) && dev.trace == old(dev.trace)
    ensures exists n :: && 0 <= n <= 3
                        && dev.trace == old(dev.trace) + ActivationPlan(old(dev.state), previous, desired)[..n]
                        && (r.Success? && !AlreadyActive(previous, desired) ==> n >= 2)
    // Only the very record that is current already makes it leave everything alone.
    ensures dev.faults == old(dev.faults) && r.Success? ==>
              (dev.trace == old(dev.trace) <==>
                 previous.Some? && previous.value.digest == desired.digest
                 && previous.value.configSha == desired.configSha)
    ensures r.Failure? ==> r.error in {Io, Unverified, Overflow}
    ensures dev.faults >= old(dev.faults)
    ensures dev.faults == old(dev.faults) ==>
              && (r.Success? <==> ReleaseValid(c, old(dev.state), desired) && Fits(previous, desired))
              && (r.Success? && !AlreadyActive(previous, desired) ==>
                    dev.trace == old(dev.trace) + ActivationPlan(old(dev.state), previous, desired))
  {
    hide ReleaseValid;
    ghost var before := dev.trace;
    ghost var plan := ActivationPlan(dev.state, previous, desired);
    assert before + plan[..0] == before;
    if !ReleaseValid(c, dev.state, desired) {
      return Failure(Unverified);
    }
    if previous.Some? && previous.value.digest == desired.digest && previous.value.configSha == desired.configSha {
      return Success(());
    }
    var next := desired.(generation := 1);
    if previous.Some? {
      next := desired.(generation := Increment(previous.value.generation));
    }
    if next.generation == 0 {
      return Failure(Overflow);
    }
    var from := "";
    if previous.Some? {
      from := previous.value.release;
    }
    var announced := dev.StepAndFlush(dev.state.(journal := Some(Journal(from, next.release))));
    assert dev.trace == before + plan[..0] || dev.trace == before + plan[..1];
    if !announced {
      return Failure(Io);
    }
    var committed := dev.StepAndFlush(WithSlot(dev.state, next.generation, Some(next)));
    assert dev.trace == before + plan[..1] || dev.trace == before + plan[..2];
    if !committed {
      return Failure(Io);
    }
    dev.Discard(dev.state.(journal := None));
    assert dev.trace == before + plan[..2] || dev.trace == before + plan[..3];
    assert plan[..3] == plan;
    var flushed := dev.Try();
    r := if flushed then Success(()) else Failure(Io);
  }

  /** Committing above the record in the other slot makes the new record current. When nothing was current, only a
  record that came back to life in slot 0 can outrank the first generation. */
  lemma CommitTakesOver(c: Context, d: Disk, previous: Option<Record>, desired: Record)
    requires Parity(d) && ReleaseValid(c, d, desired) && NextGeneration(previous) != 0
    requires previous.Some? ==> Slot(d, previous.value.generation) == previous
    ensures var plan := ActivationPlan(d, previous, desired);
            && (forall n | 0 <= n < 3 :: Parity(plan[n]) && plan[n].releases == d.releases)
            && Current(c, plan[0]) == Current(c, d)
            && Current(c, plan[2]) == Current(c, plan[1])
            && (previous.Some? ==> Current(c, plan[1]) == Some(Promoted(previous, desired)))
            && (previous.None? ==>
                  Current(c, plan[1]) == if SlotValid(c, d, d.slot0) && d.slot0.value.generation > 1 then d.slot0
                                         else Some(Promoted(previous, desired)))
  {
    hide ReleaseValid;
    var plan := ActivationPlan(d, previous, desired);
    SameReleasesSameVerdicts(c, d, plan[0]);
    SameReleasesSameVerdicts(c, d, plan[1]);
    SameReleasesSameVerdicts(c, d, plan[2]);
    GenerationDoesNotMatter(c, d, desired, NextGeneration(previous));
  }
}
