/** Install, Update and Rollback as whole operations, and any sequence of them
(prestarter/installer/installer.go). */
module InstallerRuns {
  import opened Wrappers
  import opened Text
  import opened Environment
  import opened Devices
  import opened Directories
  import opened Installer
  import opened InstallerOps
  import B = Bootstrap

  datatype Identity = Identity(projectID: string, profileID: string, channel: string, profilePublicKey: string)

  function IdentityOf(cfg: Config): Identity {
    Identity(cfg.projectID, cfg.profileID, cfg.channel, cfg.profilePublicKey)
  }

  function IdentityIn(env: Env, dir: Directory): Option<Identity> {
    if ConfigIn(env, dir).Some? then Some(IdentityOf(ConfigIn(env, dir).value.0)) else None
  }

  /** The identity is these four fields of the config, and nothing else. */
  lemma IdentityExactly(env: Env, dir: Directory, who: Identity)
    ensures IdentityIn(env, dir) == Some(who) <==>
              && dir.config.Some? && B.ConfigOf(env, dir.config.value).Some?
              && var cfg := B.ConfigOf(env, dir.config.value).value.0;
              && cfg.projectID == who.projectID && cfg.profileID == who.profileID && cfg.channel == who.channel
              && cfg.profilePublicKey == who.profilePublicKey
  {
    hide B.ConfigOf;
  }

  /** Both directories hold a config, and the two configs agree in project, profile, channel and profile key. */
  predicate SameIdentity(env: Env, a: Directory, b: Directory) {
    && a.config.Some? && B.ConfigOf(env, a.config.value).Some?
    && b.config.Some? && B.ConfigOf(env, b.config.value).Some?
    && var c, d := B.ConfigOf(env, a.config.value).value.0, B.ConfigOf(env, b.config.value).value.0;
    && c.projectID == d.projectID && c.profileID == d.profileID && c.channel == d.channel
    && c.profilePublicKey == d.profilePublicKey
  }

  lemma SameIdentityExactly(env: Env, a: Directory, b: Directory)
    ensures SameIdentity(env, a, b) <==> IdentityIn(env, a) == IdentityIn(env, b) && IdentityIn(env, a).Some?
  {
    hide B.ConfigOf;
  }

  // ---------------------------------------------------------------- Install and Update

  function NextGeneration(previous: Option<Record>): UInt64 {
    if previous.Some? then Increment(previous.value.generation) else 1
  }

  function NewRecord(h: Host, d: Disk, bundle: Bundle, offline: bool): Record
    requires BundleOk(h, bundle, offline)
  {
    StoredRecord(h, bundle, offline).(generation := NextGeneration(Current(h, d)))
  }

  /** The states of `t` from `from` on: the bundle is stored, and only the very last one may commit a slot. */
  ghost predicate InstallTrace(h: Host, d: Disk, bundle: Bundle, offline: bool, t: seq<Disk>, from: nat,
                               committed: bool)
    requires BundleOk(h, bundle, offline)
  {
    var release, rec := ReleaseName(h, bundle), NewRecord(h, d, bundle, offline);
    SparesSound(h, d, bundle, offline, t, from) &&
    if !committed then StoringTrace(h.env, d, release, bundle.dir, t, from, |t|)
    else
      && |t| >= 2 && |t| > from && rec.generation != 0
      && StoringTrace(h.env, d, release, bundle.dir, t, from, |t| - 1)
      && Storing(h.env, d, t[|t| - 2], release, bundle.dir) && Stored(h, t[|t| - 2], bundle, offline)
      && t[|t| - 1] == WithSlot(t[|t| - 2], rec.generation, Some(rec))
  }

  /** Why an update is refused before anything is written. */
  predicate UpdateRefused(h: Host, d: Disk, bundle: Bundle) {
    Current(h, d).None? || Current(h, d).value.release !in d.releases
    || !SameIdentity(h.env, d.releases[Current(h, d).value.release], bundle.dir)
  }

  /** The bundle verifies, an update keeps the identity, and a generation is left. */
  predicate Permitted(h: Host, d: Disk, bundle: Bundle, offline: bool, updateOnly: bool) {
    BundleOk(h, bundle, offline) && (updateOnly ==> !UpdateRefused(h, d, bundle)) && NextGeneration(Current(h, d)) != 0
  }

  /** The checks of an update on what is installed. */
  method CheckUpdate(h: Host, d: Disk, bundle: Bundle, ghost offline: bool, previous: Option<Record>)
      returns (refused: Option<Error>)
    requires BundleOk(h, bundle, offline) && previous == Current(h, d)
    ensures refused.Some? <==> UpdateRefused(h, d, bundle)
    ensures refused.Some? ==> refused.value in {NotInstalled, IdentityChange}
  {
    hide BundleOk, SameIdentity, IdentityIn, Current;
    if previous.None? || previous.value.release !in d.releases {
      return Some(NotInstalled);
    }
    BundleHasIdentity(h, bundle, offline);
    SameIdentityExactly(h.env, d.releases[previous.value.release], bundle.dir);
    if IdentityIn(h.env, d.releases[previous.value.release]) != IdentityIn(h.env, bundle.dir) {
      return Some(IdentityChange);
    }
    refused := None;
  }

  method Install(h: Host, dev: Device<Disk>, bundle: Bundle, offline: bool, updateOnly: bool, provisioned: bool,
                 shortcut: bool)
      returns (r: Result<(), Error>)
    requires dev.Valid()
    modifies dev
    ensures dev.Valid() && old(dev.trace) <= dev.trace
    ensures !BundleOk(h, bundle, offline) ==> r == Failure(BadBundle) && dev.trace == old(dev.trace)
    ensures BundleOk(h, bundle, offline) && updateOnly && UpdateRefused(h, old(dev.state), bundle) ==>
              r.Failure? && r.error in {NotInstalled, IdentityChange} && dev.trace == old(dev.trace)
    ensures BundleOk(h, bundle, offline) ==>
              exists committed :: && InstallTrace(h, old(dev.state), bundle, offline, dev.trace, |old(dev.trace)|,
                                                  committed)
                                  && (r.Success? ==> committed)
                                  && (!provisioned || !shortcut ==> !committed)
    // An update keeps project, profile, channel and profile key of the release that is current.
    ensures r.Success? && updateOnly ==>
              && Current(h, old(dev.state)).Some? && Current(h, old(dev.state)).value.release in old(dev.state).releases
              && SameIdentity(h.env, old(dev.state).releases[Current(h, old(dev.state)).value.release], bundle.dir)
    // When nothing fails, every permitted installation succeeds.
    ensures dev.faults >= old(dev.faults)
    ensures dev.faults == old(dev.faults) ==>
              (r.Success? <==> Permitted(h, old(dev.state), bundle, offline, updateOnly) && provisioned && shortcut)
  {
    hide InstallTrace, Storing, StoringTrace, Stored, RecordValid, BundleOk, IdentityIn, SameIdentity, LeavesSound,
         SparesSound;
    ghost var d, t0 := dev.state, dev.trace;
    if !BundleOk(h, bundle, offline) {
      return Failure(BadBundle);
    }
    NothingInstalled(h, d, bundle, offline, t0);
    var previous := CurrentRecord(h, dev.state);
    if updateOnly {
      var refused := CheckUpdate(h, dev.state, bundle, offline, previous);
      if refused.Some? {
        return Failure(refused.value);
      }
    }
    var stored := Store(h, dev, bundle, offline);
    ghost var t1 := dev.trace;
    OnlyStored(h, d, bundle, offline, t1, |t0|);
    if stored.None? {
      return Failure(Io);
    }
    var rec := stored.value.(generation := 1);
    if previous.Some? {
      rec := stored.value.(generation := Increment(previous.value.generation));
    }
    if rec.generation == 0 {
      return Failure(Overflow);
    }
    if !provisioned {
      return Failure(ProvisionFailed);
    }
    if !shortcut {
      return Failure(ShortcutFailed);
    }
    var committed := dev.StepAndFlush(WithSlot(dev.state, rec.generation, Some(rec)));
    if dev.trace != t1 {
      Installed(h, d, bundle, offline, t1, dev.trace, |t0|, rec);
    }
    r := if committed then Success(()) else Failure(Io);
  }

  /** An installation is permitted if and only if the bundle verifies, a generation is left, and an update finds a
  current release with the same project, profile, channel and profile key. */
  lemma PermittedExactly(h: Host, d: Disk, bundle: Bundle, offline: bool, updateOnly: bool)
    ensures Permitted(h, d, bundle, offline, updateOnly) <==>
              && BundleOk(h, bundle, offline)
              && (Current(h, d).None? || Current(h, d).value.generation < 0xFFFF_FFFF_FFFF_FFFF)
              && (updateOnly ==>
                    && Current(h, d).Some? && Current(h, d).value.release in d.releases
                    && SameIdentity(h.env, d.releases[Current(h, d).value.release], bundle.dir))
  {
    hide BundleOk, SameIdentity, Current;
  }

  lemma BundleHasIdentity(h: Host, bundle: Bundle, offline: bool)
    requires BundleOk(h, bundle, offline)
    ensures IdentityIn(h.env, bundle.dir).Some?
  {
  }

  lemma ValidHasIdentity(h: Host, d: Disk, r: Record)
    requires RecordValid(h, d, r)
    ensures r.release in d.releases && IdentityIn(h.env, d.releases[r.release]).Some?
  {
  }

  lemma CommitLeavesSound(h: Host, d: Disk, e: Disk, f: Disk, bundle: Bundle, offline: bool)
    requires BundleOk(h, bundle, offline) && LeavesSound(h, d, e, bundle, offline)
    requires e.releases == f.releases && e.offline == f.offline
    ensures LeavesSound(h, d, f, bundle, offline)
  {
    hide BundleOk, Sound, OfflineOk;
  }

  lemma NothingInstalled(h: Host, d: Disk, bundle: Bundle, offline: bool, t: seq<Disk>)
    requires BundleOk(h, bundle, offline)
    ensures InstallTrace(h, d, bundle, offline, t, |t|, false)
  {
    hide BundleOk;
    NothingStored(h.env, d, ReleaseName(h, bundle), bundle.dir, t);
  }

  lemma OnlyStored(h: Host, d: Disk, bundle: Bundle, offline: bool, t: seq<Disk>, from: nat)
    requires BundleOk(h, bundle, offline) && StoringTrace(h.env, d, ReleaseName(h, bundle), bundle.dir, t, from, |t|)
    requires SparesSound(h, d, bundle, offline, t, from)
    ensures InstallTrace(h, d, bundle, offline, t, from, false)
  {
    hide BundleOk, StoringTrace, SparesSound;
  }

  lemma Installed(h: Host, d: Disk, bundle: Bundle, offline: bool, t: seq<Disk>, u: seq<Disk>, from: nat, rec: Record)
    requires BundleOk(h, bundle, offline) && t != [] && from <= |t|
    requires StoringTrace(h.env, d, ReleaseName(h, bundle), bundle.dir, t, from, |t|)
    requires Storing(h.env, d, t[|t| - 1], ReleaseName(h, bundle), bundle.dir) && Stored(h, t[|t| - 1], bundle, offline)
    requires SparesSound(h, d, bundle, offline, t, from) && LeavesSound(h, d, t[|t| - 1], bundle, offline)
    requires rec == NewRecord(h, d, bundle, offline) && rec.generation != 0
    requires u == t + [WithSlot(t[|t| - 1], rec.generation, Some(rec))]
    ensures InstallTrace(h, d, bundle, offline, u, from, true)
  {
    hide BundleOk, StoringTrace, Storing, Stored, LeavesSound;
    CommitLeavesSound(h, d, t[|t| - 1], u[|u| - 1], bundle, offline);
    StoringTraceUpTo(h.env, d, ReleaseName(h, bundle), bundle.dir, t, u, from);
  }

  lemma NothingStored(env: Env, d: Disk, release: string, dir: Directory, t: seq<Disk>)
    ensures StoringTrace(env, d, release, dir, t, |t|, |t|)
  {
  }

  lemma StoringTraceUpTo(env: Env, d: Disk, release: string, dir: Directory, t: seq<Disk>, u: seq<Disk>, from: nat)
    requires StoringTrace(env, d, release, dir, t, from, |t|) && t <= u
    ensures StoringTrace(env, d, release, dir, u, from, |t|)
  {
    hide Storing;
    forall k | from <= k < |t|
      ensures Storing(env, d, u[k], release, dir)
    {
      assert u[k] == t[k];
    }
  }

  lemma CurrentStands(h: Host, d: Disk)
    requires Parity(d) && Current(h, d).Some?
    ensures RecordValid(h, d, Current(h, d).value) && Slot(d, Current(h, d).value.generation) == Current(h, d)
  {
    hide RecordValid;
    CurrentIsTheUniqueMaximum(h, d);
  }

  /** Until the last write no slot changes, and current stays or becomes a higher record of the bundle's release that
  the other slot already held. */
  lemma NothingCommittedEarly(h: Host, d: Disk, bundle: Bundle, offline: bool, t: seq<Disk>, from: nat,
                              committed: bool, k: nat)
    requires Parity(d) && BundleOk(h, bundle, offline) && InstallTrace(h, d, bundle, offline, t, from, committed)
    requires from <= k < |t| && (committed ==> k < |t| - 1)
    ensures SameSlots(d, t[k]) && Parity(t[k]) && StillCurrent(h, d, t[k], ReleaseName(h, bundle))
  {
    hide RecordValid, StillCurrent;
    assert Storing(h.env, d, t[k], ReleaseName(h, bundle), bundle.dir);
    CurrentWhileReplacing(h, d, t[k], BundleID(h.env, bundle));
  }

  lemma SameVerdicts(h: Host, d: Disk, e: Disk)
    requires d.releases == e.releases && d.offline == e.offline
    ensures forall r :: RecordValid(h, d, r) == RecordValid(h, e, r)
  {
  }

  /** A verified record above the one in the other slot is current. */
  lemma TopIsCurrent(h: Host, d: Disk, r: Record)
    requires Parity(d) && Slot(d, r.generation) == Some(r) && RecordValid(h, d, r)
    ensures var other := Slot(d, r.generation + 1);
            && Current(h, d).Some? && (Current(h, d) == Some(r) || (SlotValid(h, d, other) && Current(h, d) == other))
            && (other.None? || other.value.generation < r.generation || !SlotValid(h, d, other) ==>
                  Current(h, d) == Some(r))
  {
    hide RecordValid;
  }

  /** After the last write the new record verifies in its slot, and the other slot is as it was. */
  lemma CommitHolds(h: Host, d: Disk, bundle: Bundle, offline: bool, t: seq<Disk>, from: nat)
    requires HostOk(h) && Parity(d) && BundleDiffers(h, d, bundle)
    requires BundleOk(h, bundle, offline) && InstallTrace(h, d, bundle, offline, t, from, true)
    ensures var e, rec := t[|t| - 1], NewRecord(h, d, bundle, offline);
            && Parity(e) && Slot(e, rec.generation) == Some(rec) && RecordValid(h, e, rec)
            && rec.generation != 0 && Slot(e, rec.generation + 1) == Slot(d, rec.generation + 1)
  {
    hide RecordValid, Stored, BundleOk, OnlyReplaces, HostOk, BundleDiffers, Current;
    var e, f, rec := t[|t| - 2], t[|t| - 1], NewRecord(h, d, bundle, offline);
    StillDiffers(h, d, e, bundle);
    ReplacingKeepsSlots(d, e, ReleaseName(h, bundle));
    StoredVerifies(h, e, bundle, offline, rec.generation);
    SameVerdicts(h, e, f);
  }

  lemma CommittedIsNotEmpty(h: Host, d: Disk, bundle: Bundle, offline: bool, t: seq<Disk>, from: nat)
    requires BundleOk(h, bundle, offline) && InstallTrace(h, d, bundle, offline, t, from, true)
    ensures |t| >= 2
  {
    hide BundleOk;
  }

  /** No record of another release comes back to life. */
  lemma OthersStayDead(h: Host, d: Disk, bundle: Bundle, offline: bool, t: seq<Disk>, from: nat, r: Record)
    requires BundleOk(h, bundle, offline) && InstallTrace(h, d, bundle, offline, t, from, true)
    requires r.release != ReleaseName(h, bundle)
    ensures RecordValid(h, d, r) == RecordValid(h, t[|t| - 1], r)
  {
    hide RecordValid, Stored, BundleOk, OnlyReplaces, Current;
    BundleHasID(h, bundle, offline);
    ReplacingKeepsOthers(h, d, t[|t| - 2], BundleID(h.env, bundle), r);
    SameVerdicts(h, t[|t| - 2], t[|t| - 1]);
  }

  /** After the last write the new record is current, one generation above the old one. Only if nothing was current
  before can a record of the same release, left over in the other slot, rank above it. */
  lemma CommitIsCurrent(h: Host, d: Disk, bundle: Bundle, offline: bool, t: seq<Disk>, from: nat)
    requires HostOk(h) && Parity(d) && BundleDiffers(h, d, bundle)
    requires BundleOk(h, bundle, offline) && InstallTrace(h, d, bundle, offline, t, from, true)
    ensures var e, rec := t[|t| - 1], NewRecord(h, d, bundle, offline);
            && Parity(e) && Current(h, e).Some? && Current(h, e).value.release == rec.release
            && (Current(h, d).Some? ==>
                  Current(h, e) == Some(rec) && rec.generation == Current(h, d).value.generation + 1)
            && (Current(h, d).None? && !SlotValid(h, e, e.slot0) ==> Current(h, e) == Some(rec))
  {
    hide RecordValid, BundleOk, HostOk, BundleDiffers, InstallTrace, Current, StoredRecord;
    CommittedIsNotEmpty(h, d, bundle, offline, t, from);
    var e, rec := t[|t| - 1], NewRecord(h, d, bundle, offline);
    StoredName(h, bundle, offline);
    CommitHolds(h, d, bundle, offline, t, from);
    TopIsCurrent(h, e, rec);
    if Current(h, d).Some? {
      CurrentStands(h, d);
    } else if SlotValid(h, e, e.slot0) && e.slot0.value.release != rec.release {
      OthersStayDead(h, d, bundle, offline, t, from, e.slot0.value);
      CurrentIsTheUniqueMaximum(h, d);
    }
  }

  lemma StoredName(h: Host, bundle: Bundle, offline: bool)
    requires BundleOk(h, bundle, offline)
    ensures StoredRecord(h, bundle, offline).release == ReleaseName(h, bundle)
  {
    hide BundleOk;
  }

  // ---------------------------------------------------------------- when storing a bundle is safe

  /** A state that storing the bundle can pass through. */
  ghost predicate StoreReaches(h: Host, d: Disk, e: Disk, bundle: Bundle, offline: bool)
    requires BundleOk(h, bundle, offline)
  {
    Storing(h.env, d, e, ReleaseName(h, bundle), bundle.dir) && LeavesSound(h, d, e, bundle, offline)
  }

  /** The old or the new release is current. */
  predicate OldOrNew(h: Host, e: Disk, p: Record, release: string) {
    Current(h, e).Some? && (Current(h, e).value.release == p.release || Current(h, e).value.release == release)
  }

  /** The bundle is of another release, or carries the very config that the current record pins. */
  predicate Harmless(h: Host, p: Record, bundle: Bundle)
    requires bundle.dir.config.Some?
  {
    p.release != ReleaseName(h, bundle) || p.configHash == h.env.sha(bundle.dir.config.value)
  }

  /** A record and a bundle with the same release and the same config agree on everything else the bundle names. */
  lemma SameConfigIsSound(h: Host, d: Disk, p: Record, bundle: Bundle, offline: bool)
    requires BundleOk(h, bundle, offline) && BundleDiffers(h, d, bundle) && RecordValid(h, d, p)
    requires p.release == ReleaseName(h, bundle) && p.configHash == h.env.sha(bundle.dir.config.value)
    ensures var cfg := ConfigIn(h.env, bundle.dir).value.0;
            && Sound(h, d.releases[p.release], B.InstallerFor(cfg.installerTargets, h.os, h.arch).value, p.configHash)
            && ConfigIn(h.env, d.releases[p.release]) == ConfigIn(h.env, bundle.dir)
            && StoredRecord(h, bundle, offline).release == p.release
            && StoredRecord(h, bundle, offline).configHash == p.configHash
  {
    hide OfflineOk, NameOk, B.EnvelopeAccepted;
  }

  /** Then storing the bundle leaves the current record verified. */
  lemma SameConfigStays(h: Host, d: Disk, e: Disk, p: Record, bundle: Bundle, offline: bool)
    requires BundleOk(h, bundle, offline) && BundleDiffers(h, d, bundle) && RecordValid(h, d, p)
    requires p.release == ReleaseName(h, bundle) && p.configHash == h.env.sha(bundle.dir.config.value)
    requires LeavesSound(h, d, e, bundle, offline)
    ensures RecordValid(h, e, p)
  {
    SameConfigIsSound(h, d, p, bundle, offline);
    hide BundleOk, OfflineOk, NameOk, DirectoryBacks, Sound, OnlyReplaces;
  }

  /** As long as the current record verifies, only a record of the bundle's release can take its place. */
  lemma StillOldOrNew(h: Host, d: Disk, e: Disk, bundle: Bundle, offline: bool)
    requires Parity(d) && Current(h, d).Some? && BundleOk(h, bundle, offline)
    requires Storing(h.env, d, e, ReleaseName(h, bundle), bundle.dir) && RecordValid(h, e, Current(h, d).value)
    ensures OldOrNew(h, e, Current(h, d).value, ReleaseName(h, bundle))
  {
    hide RecordValid, OnlyReplaces, Current;
    var p := Current(h, d).value;
    BundleHasID(h, bundle, offline);
    hide BundleOk;
    CurrentStands(h, d);
    ReplacingKeepsSlots(d, e, ReleaseName(h, bundle));
    TopIsCurrent(h, e, p);
    TopIsCurrent(h, d, p);
    var q := Slot(d, p.generation + 1);
    if q.Some? && q.value.release != ReleaseName(h, bundle) {
      ReplacingKeepsOthers(h, d, e, BundleID(h.env, bundle), q.value);
      CurrentIsTheUniqueMaximum(h, d);
    }
  }

  /** Where no directory has the release's name, neither the old record nor a new one of that release is current. */
  lemma GoneIsNotCurrent(h: Host, e: Disk, release: string)
    requires release !in e.releases
    ensures Current(h, e).Some? ==> Current(h, e).value.release != release
  {
    hide OfflineOk, NameOk, DirectoryBacks;
  }

  /** Otherwise the quarantine of the old directory is such a state, and neither release is current in it. */
  lemma OtherConfigIsExposed(h: Host, d: Disk, bundle: Bundle, offline: bool) returns (e: Disk)
    requires Parity(d) && Current(h, d).Some? && BundleOk(h, bundle, offline)
    requires bundle.dir.config.Some? && !Harmless(h, Current(h, d).value, bundle)
    ensures StoreReaches(h, d, e, bundle, offline) && !OldOrNew(h, e, Current(h, d).value, ReleaseName(h, bundle))
  {
    hide RecordValid, BundleOk, Storing, Current, LeavesSound, HostOk, ConfigIn;
    var p, release := Current(h, d).value, ReleaseName(h, bundle);
    CurrentStands(h, d);
    PinnedConfig(h, d, p);
    BundleHasID(h, bundle, offline);
    OtherConfigIsNotSound(h, d, bundle, offline);
    var nanos := FreshName(d.releases.Keys, release, 0);
    var broken := BrokenName(release, nanos);
    e := d.(releases := (d.releases - {release})[broken := d.releases[release]]);
    assert |broken| > |release| && release !in e.releases;
    GoneIsNotCurrent(h, e, release);
    ReleaseNameIsPlain(BundleID(h.env, bundle), BundleID(h.env, bundle), Platform(h));
    StoringBegins(h.env, d, release, bundle.dir);
    StoringQuarantine(h.env, d, d, e, release, bundle.dir, nanos);
  }

  /** A directory with another config than the bundle's needs repair. */
  lemma OtherConfigIsNotSound(h: Host, d: Disk, bundle: Bundle, offline: bool)
    requires BundleOk(h, bundle, offline) && bundle.dir.config.Some? && ReleaseName(h, bundle) in d.releases
    requires var dir := d.releases[ReleaseName(h, bundle)];
             dir.config.Some? && h.env.sha(dir.config.value) != h.env.sha(bundle.dir.config.value)
    ensures forall e :: LeavesSound(h, d, e, bundle, offline)
  {
    hide BundleOk;
  }

  lemma PinnedConfig(h: Host, d: Disk, p: Record)
    requires RecordValid(h, d, p)
    ensures p.release in d.releases && d.releases[p.release].config.Some?
    ensures h.env.sha(d.releases[p.release].config.value) == p.configHash
  {
  }

  /** Storing a bundle keeps the old or the new release current in every state it passes through if and only if the
  bundle is of another release or carries the config that the current record pins. */
  lemma StoreSafeExactly(h: Host, d: Disk, bundle: Bundle, offline: bool)
    requires Parity(d) && Current(h, d).Some? && BundleOk(h, bundle, offline) && BundleDiffers(h, d, bundle)
    ensures bundle.dir.config.Some?
    ensures var p := Current(h, d).value;
            Harmless(h, p, bundle) <==>
            forall e | StoreReaches(h, d, e, bundle, offline) :: OldOrNew(h, e, p, ReleaseName(h, bundle))
  {
    var p := Current(h, d).value;
    BundleHasID(h, bundle, offline);
    VerifiedBundleHasConfig(h, bundle, offline);
    CurrentStands(h, d);
    hide BundleOk, RecordValid, Current, Storing, LeavesSound, BundleDiffers;
    if Harmless(h, p, bundle) {
      forall e | StoreReaches(h, d, e, bundle, offline)
        ensures OldOrNew(h, e, p, ReleaseName(h, bundle))
      {
        if p.release == ReleaseName(h, bundle) {
          SameConfigStays(h, d, e, p, bundle, offline);
        } else {
          OtherReleaseStays(h, d, e, p, bundle, offline);
        }
        StillOldOrNew(h, d, e, bundle, offline);
      }
    } else {
      var e := OtherConfigIsExposed(h, d, bundle, offline);
    }
  }

  lemma VerifiedBundleHasConfig(h: Host, bundle: Bundle, offline: bool)
    requires BundleOk(h, bundle, offline)
    ensures bundle.dir.config.Some?
  {
  }

  lemma OtherReleaseStays(h: Host, d: Disk, e: Disk, p: Record, bundle: Bundle, offline: bool)
    requires BundleOk(h, bundle, offline) && Storing(h.env, d, e, ReleaseName(h, bundle), bundle.dir)
    requires RecordValid(h, d, p) && p.release != ReleaseName(h, bundle)
    ensures RecordValid(h, e, p)
  {
    hide RecordValid, OnlyReplaces;
    BundleHasID(h, bundle, offline);
    ReplacingKeepsOthers(h, d, e, BundleID(h.env, bundle), p);
  }

  // ---------------------------------------------------------------- Rollback

  /** The record a rollback commits: the older, distinct, verified release of the same identity, raised above the
  current one; `None` when the rollback is refused. */
  function RollbackRecord(h: Host, d: Disk): Option<Record> {
    var active := Current(h, d);
    if active.None? || active.value.generation == 0xFFFF_FFFF_FFFF_FFFF then None
    else
      var prior := Slot(d, active.value.generation + 1);
      if !SlotValid(h, d, prior) || prior.value.generation >= active.value.generation
          || prior.value.release == active.value.release
        || active.value.release !in d.releases || prior.value.release !in d.releases
        || IdentityIn(h.env, d.releases[active.value.release]) != IdentityIn(h.env, d.releases[prior.value.release])
      then None
      else Some(prior.value.(generation := active.value.generation + 1))
  }

  /** A rollback goes to the record in the slot that is not current: verified, older, of another release, with the same
  project, profile, channel and profile key. It is refused if and only if there is no such record, or no generation
  left. */
  lemma RollbackRecordExactly(h: Host, d: Disk, rec: Record)
    requires Parity(d)
    ensures RollbackRecord(h, d) == Some(rec) <==>
              && Current(h, d).Some?
              && var p := Current(h, d).value;
              && p.generation < 0xFFFF_FFFF_FFFF_FFFF
              && var other := if Current(h, d) == d.slot0 then d.slot1 else d.slot0;
              && other.Some? && RecordValid(h, d, other.value)
              && other.value.generation < p.generation && other.value.release != p.release
              && p.release in d.releases && other.value.release in d.releases
              && SameIdentity(h.env, d.releases[p.release], d.releases[other.value.release])
              && rec == other.value.(generation := p.generation + 1)
  {
    hide RecordValid, Current, SameIdentity, IdentityIn;
    if Current(h, d).Some? {
      CurrentStands(h, d);
      var p := Current(h, d).value;
      var other := Slot(d, p.generation + 1);
      ValidHasIdentity(h, d, p);
      if other.Some? && other.value.release in d.releases {
        SameIdentityExactly(h.env, d.releases[p.release], d.releases[other.value.release]);
      }
    }
  }

  method Rollback(h: Host, dev: Device<Disk>, provisioned: bool, shortcut: bool) returns (r: Result<(), Error>)
    requires dev.Valid()
    modifies dev
    ensures dev.Valid()
    ensures RollbackRecord(h, old(dev.state)).None? || !provisioned || !shortcut ==>
              r.Failure? && dev.trace == old(dev.trace)
    ensures dev.trace == old(dev.trace) || exists rec ::
              && RollbackRecord(h, old(dev.state)) == Some(rec)
              && dev.trace == old(dev.trace) + [WithSlot(old(dev.state), rec.generation, Some(rec))]
    ensures r.Success? ==> dev.trace != old(dev.trace)
    ensures dev.faults >= old(dev.faults)
    ensures dev.faults == old(dev.faults) ==>
              (r.Success? <==> RollbackRecord(h, old(dev.state)).Some? && provisioned && shortcut)
  {
    hide RecordValid;
    var active := CurrentRecord(h, dev.state);
    if active.None? {
      return Failure(NotInstalled);
    }
    if active.value.generation == 0xFFFF_FFFF_FFFF_FFFF {
      return Failure(Overflow);
    }
    var prior := dev.state.slot0;
    if active.value.generation % 2 == 0 {
      prior := dev.state.slot1;
    }
    if prior.None? || !RecordValid(h, dev.state, prior.value) {
      return Failure(NothingToRollBack);
    }
    if prior.value.generation >= active.value.generation || prior.value.release == active.value.release {
      return Failure(NothingToRollBack);
    }
    if active.value.release !in dev.state.releases || prior.value.release !in dev.state.releases {
      return Failure(NothingToRollBack);
    }
    var dirs := dev.state.releases;
    if IdentityIn(h.env, dirs[active.value.release]) != IdentityIn(h.env, dirs[prior.value.release]) {
      return Failure(IdentityChange);
    }
    if !provisioned {
      return Failure(ProvisionFailed);
    }
    if !shortcut {
      return Failure(ShortcutFailed);
    }
    var rec := prior.value.(generation := active.value.generation + 1);
    assert RollbackRecord(h, dev.state) == Some(rec);
    var committed := dev.StepAndFlush(WithSlot(dev.state, rec.generation, Some(rec)));
    r := if committed then Success(()) else Failure(Io);
  }

  lemma GenerationDoesNotMatter(h: Host, d: Disk, r: Record, generation: UInt64)
    requires generation != 0 && r.generation != 0
    ensures RecordValid(h, d, r) == RecordValid(h, d, r.(generation := generation))
  {
  }

  lemma ValidIsPositive(h: Host, d: Disk, r: Record)
    requires RecordValid(h, d, r)
    ensures r.generation != 0
  {
  }

  /** A committed rollback makes the older release current; the slot it did not touch still holds the other one. */
  lemma RollbackTakesOver(h: Host, d: Disk)
    requires Parity(d) && RollbackRecord(h, d).Some?
    ensures var rec := RollbackRecord(h, d).value;
            var e := WithSlot(d, rec.generation, Some(rec));
            && Parity(e) && Current(h, e) == Some(rec) && Slot(e, rec.generation + 1) == Current(h, d)
            && rec.generation == Current(h, d).value.generation + 1
            && RecordValid(h, e, Current(h, d).value)
  {
    hide RecordValid;
    var rec := RollbackRecord(h, d).value;
    var e := WithSlot(d, rec.generation, Some(rec));
    CurrentStands(h, d);
    var prior := Slot(d, Current(h, d).value.generation + 1).value;
    ValidIsPositive(h, d, prior);
    GenerationDoesNotMatter(h, d, prior, rec.generation);
    SameVerdicts(h, d, e);
  }

  /** Two rollbacks return to the release they started from, two generations up. The second may come later, under
  another clock, as long as both releases still verify; only a generation overflow can then refuse it. */
  lemma RollbackTwiceReturns(h: Host, d: Disk, later: Host)
    requires Parity(d) && RollbackRecord(h, d).Some? && later.env == h.env
    requires var rec := RollbackRecord(h, d).value;
             RecordValid(later, d, Current(h, d).value) && RecordValid(later, d, rec)
    requires Current(h, d).value.generation + 1 < 0xFFFF_FFFF_FFFF_FFFF
    ensures var p, rec := Current(h, d).value, RollbackRecord(h, d).value;
            var e := WithSlot(d, rec.generation, Some(rec));
            && RollbackRecord(later, e) == Some(p.(generation := p.generation + 2))
            && Current(later, WithSlot(e, p.generation + 2, RollbackRecord(later, e))) == RollbackRecord(later, e)
  {
    hide RecordValid, Current, IdentityIn;
    var p, rec := Current(h, d).value, RollbackRecord(h, d).value;
    var e := WithSlot(d, rec.generation, Some(rec));
    RollbackTakesOver(h, d);
    CurrentStands(h, d);
    SameVerdicts(later, d, e);
    TopIsCurrent(later, e, rec);
    RollbackTakesOver(later, e);
  }

  // ---------------------------------------------------------------- identity over any sequence of operations

  /** If the record's directory is the one it pins, the config in it is of this identity. */
  predicate RecordHas(env: Env, platform: string, d: Disk, r: Record, who: Identity) {
    r.release in d.releases
    && d.releases[r.release].config.Some? && env.sha(d.releases[r.release].config.value) == r.configHash
    && ConfigIn(env, d.releases[r.release]).Some?
    && ConfigIn(env, d.releases[r.release]).value.1 + "-" + platform == r.release
    ==> IdentityIn(env, d.releases[r.release]) == Some(who)
  }

  predicate IdentityInv(env: Env, platform: string, d: Disk, who: Identity) {
    && (d.slot0.Some? ==> RecordHas(env, platform, d, d.slot0.value, who))
    && (d.slot1.Some? ==> RecordHas(env, platform, d, d.slot1.value, who))
  }

  lemma CurrentHasIdentity(h: Host, d: Disk, who: Identity)
    requires IdentityInv(h.env, Platform(h), d, who) && Parity(d) && Current(h, d).Some?
    ensures IdentityIn(h.env, d.releases[Current(h, d).value.release]) == Some(who)
    ensures var dir := d.releases[Current(h, d).value.release];
            && dir.config.Some? && B.ConfigOf(h.env, dir.config.value).Some?
            && var cfg := B.ConfigOf(h.env, dir.config.value).value.0;
            && cfg.projectID == who.projectID && cfg.profileID == who.profileID && cfg.channel == who.channel
            && cfg.profilePublicKey == who.profilePublicKey
  {
    CurrentStands(h, d);
    IdentityExactly(h.env, d.releases[Current(h, d).value.release], who);
  }

  /** So an update that is not refused has it too. */
  lemma UpdateHasIdentity(h: Host, d: Disk, bundle: Bundle, who: Identity)
    requires IdentityInv(h.env, Platform(h), d, who) && Parity(d) && !UpdateRefused(h, d, bundle)
    ensures IdentityIn(h.env, bundle.dir) == Some(who)
  {
    CurrentHasIdentity(h, d, who);
    SameIdentityExactly(h.env, d.releases[Current(h, d).value.release], bundle.dir);
    hide Current, IdentityIn, SameIdentity, IdentityInv;
  }

  lemma StoringKeepsRecord(h: Host, d: Disk, e: Disk, bundle: Bundle, offline: bool, r: Record, who: Identity)
    requires BundleOk(h, bundle, offline) && IdentityIn(h.env, bundle.dir) == Some(who)
    requires Storing(h.env, d, e, ReleaseName(h, bundle), bundle.dir)
    requires RecordHas(h.env, Platform(h), d, r, who)
    ensures RecordHas(h.env, Platform(h), e, r, who)
  {
    var release := ReleaseName(h, bundle);
    if r.release != release && r.release in e.releases && ConfigIn(h.env, e.releases[r.release]).Some?
       && ConfigIn(h.env, e.releases[r.release]).value.1 + "-" + Platform(h) == r.release {
      ReleaseNameIsPlain(ConfigIn(h.env, e.releases[r.release]).value.1, ConfigIn(h.env, bundle.dir).value.1,
                         Platform(h));
      assert SameAt(d.releases, e.releases, r.release);
    }
  }

  lemma StoringKeepsIdentity(h: Host, d: Disk, e: Disk, bundle: Bundle, offline: bool, who: Identity)
    requires BundleOk(h, bundle, offline) && IdentityIn(h.env, bundle.dir) == Some(who)
    requires Storing(h.env, d, e, ReleaseName(h, bundle), bundle.dir)
    requires IdentityInv(h.env, Platform(h), d, who)
    ensures IdentityInv(h.env, Platform(h), e, who)
  {
    hide RecordHas, BundleOk, OnlyReplaces;
    ReplacingKeepsSlots(d, e, ReleaseName(h, bundle));
    if d.slot0.Some? {
      StoringKeepsRecord(h, d, e, bundle, offline, d.slot0.value, who);
    }
    if d.slot1.Some? {
      StoringKeepsRecord(h, d, e, bundle, offline, d.slot1.value, who);
    }
  }

  lemma NewRecordHas(h: Host, d: Disk, e: Disk, bundle: Bundle, offline: bool, who: Identity)
    requires BundleOk(h, bundle, offline) && IdentityIn(h.env, bundle.dir) == Some(who)
    requires Stored(h, e, bundle, offline) && BundleDiffers(h, e, bundle)
    ensures RecordHas(h.env, Platform(h), e, NewRecord(h, d, bundle, offline), who)
  {
    hide ConfigVerified, OfflineOk;
  }

  lemma CommitKeepsIdentity(env: Env, platform: string, e: Disk, rec: Record, who: Identity)
    requires IdentityInv(env, platform, e, who) && RecordHas(env, platform, e, rec, who)
    ensures IdentityInv(env, platform, WithSlot(e, rec.generation, Some(rec)), who)
  {
  }

  lemma InstallKeepsIdentity(h: Host, d: Disk, bundle: Bundle, offline: bool, t: seq<Disk>, from: nat,
                             committed: bool, who: Identity)
    requires BundleOk(h, bundle, offline) && BundleDiffers(h, d, bundle)
    requires InstallTrace(h, d, bundle, offline, t, from, committed)
    requires IdentityInv(h.env, Platform(h), d, who) && IdentityIn(h.env, bundle.dir) == Some(who)
    ensures forall k | from <= k < |t| :: IdentityInv(h.env, Platform(h), t[k], who)
  {
    hide BundleOk, Storing, Stored, IdentityInv, RecordHas, BundleDiffers, IdentityIn;
    forall k | from <= k < |t|
      ensures IdentityInv(h.env, Platform(h), t[k], who)
    {
      if committed && k == |t| - 1 {
        var e := t[|t| - 2];
        StoringKeepsIdentity(h, d, e, bundle, offline, who);
        StillDiffers(h, d, e, bundle);
        NewRecordHas(h, d, e, bundle, offline, who);
        CommitKeepsIdentity(h.env, Platform(h), e, NewRecord(h, d, bundle, offline), who);
      } else {
        StoringKeepsIdentity(h, d, t[k], bundle, offline, who);
      }
    }
  }

  lemma InstallKeepsParity(h: Host, d: Disk, bundle: Bundle, offline: bool, t: seq<Disk>, from: nat, committed: bool)
    requires Parity(d) && BundleOk(h, bundle, offline) && InstallTrace(h, d, bundle, offline, t, from, committed)
    ensures forall k | from <= k < |t| :: Parity(t[k])
  {
    hide BundleOk, OnlyReplaces, Stored, StillCurrent;
    forall k | from <= k < |t|
      ensures Parity(t[k])
    {
      ReplacingKeepsSlots(d, if committed && k == |t| - 1 then t[|t| - 2] else t[k], ReleaseName(h, bundle));
    }
  }

  lemma RollbackKeeps(h: Host, d: Disk, who: Identity)
    requires Parity(d) && RollbackRecord(h, d).Some?
    ensures var rec := RollbackRecord(h, d).value;
            var e := WithSlot(d, rec.generation, Some(rec));
            Parity(e) && (IdentityInv(h.env, Platform(h), d, who) ==> IdentityInv(h.env, Platform(h), e, who))
  {
    hide RecordValid, IdentityIn;
    RollbackTakesOver(h, d);
  }

  /** With both slots empty there is nothing to contradict: the first installation decides the identity. */
  lemma FirstInstallDecides(env: Env, platform: string, d: Disk, who: Identity)
    requires d.slot0.None? && d.slot1.None?
    ensures IdentityInv(env, platform, d, who)
  {
  }

  /** Why both slots must agree: when the clock retires the active record but not the other one, the other one is
  current, and updates are judged by its identity. */
  lemma ClockDecidesIdentity(h: Host, later: Host, d: Disk, bundle: Bundle)
    requires Parity(d) && Current(h, d).Some? && later.env == h.env
    requires !RecordValid(later, d, Current(h, d).value)
    requires SlotValid(later, d, Slot(d, Current(h, d).value.generation + 1))
    ensures var other := Slot(d, Current(h, d).value.generation + 1);
            && Current(later, d) == other && other.value.release in d.releases
            && (UpdateRefused(later, d, bundle) <==>
                  IdentityIn(h.env, d.releases[other.value.release]) != IdentityIn(h.env, bundle.dir))
  {
    hide RecordValid, IdentityIn, SameIdentity;
    CurrentStands(h, d);
    var other := Slot(d, Current(h, d).value.generation + 1).value;
    ValidHasIdentity(later, d, other);
    SameIdentityExactly(h.env, d.releases[other.release], bundle.dir);
  }

  datatype Operation = Deploy(host: Host, bundle: Bundle, offline: bool, updateOnly: bool, provisioned: bool,
                              shortcut: bool)
                     | GoBack(host: Host, provisioned: bool, shortcut: bool)

  // ---------------------------------------------------------------- the configs in play

  /** A name that some payload digest on this platform could give. */
  predicate IsReleaseName(name: string, platform: string) {
    |name| > 64 && ValidDigest(name[..64]) && name[64..] == "-" + platform
  }

  /** Every config installed under such a name is among `texts`. */
  predicate Known(platform: string, d: Disk, texts: set<string>) {
    forall name | name in d.releases && IsReleaseName(name, platform) && d.releases[name].config.Some? ::
      d.releases[name].config.value in texts
  }

  /** No two of these texts collide under SHA-256. */
  ghost predicate CollisionFree(env: Env, texts: set<string>) {
    forall a, b | a in texts && b in texts && env.sha(a) == env.sha(b) :: a == b
  }

  lemma BundleName(h: Host, bundle: Bundle, offline: bool)
    requires BundleOk(h, bundle, offline)
    ensures IsReleaseName(ReleaseName(h, bundle), Platform(h)) && bundle.dir.config.Some?
  {
    BundleHasID(h, bundle, offline);
    hide BundleOk;
    var name := ReleaseName(h, bundle);
    assert name[..64] == BundleID(h.env, bundle) && name[64..] == "-" + Platform(h);
  }

  /** Storing a bundle leaves what other release names hold. */
  lemma OtherNamesStay(h: Host, d: Disk, e: Disk, bundle: Bundle, offline: bool, name: string)
    requires BundleOk(h, bundle, offline) && Storing(h.env, d, e, ReleaseName(h, bundle), bundle.dir)
    requires IsReleaseName(name, Platform(h)) && name != ReleaseName(h, bundle)
    ensures SameAt(d.releases, e.releases, name)
  {
    hide BundleOk;
    BundleName(h, bundle, offline);
    var release := ReleaseName(h, bundle);
    assert name == name[..64] + "-" + Platform(h) && release == release[..64] + "-" + Platform(h);
    ReleaseNameIsPlain(name[..64], release[..64], Platform(h));
  }

  lemma StoringKeepsKnown(h: Host, d: Disk, e: Disk, bundle: Bundle, offline: bool, texts: set<string>)
    requires BundleOk(h, bundle, offline) && Storing(h.env, d, e, ReleaseName(h, bundle), bundle.dir)
    requires Known(Platform(h), d, texts) && (bundle.dir.config.Some? ==> bundle.dir.config.value in texts)
    ensures Known(Platform(h), e, texts)
  {
    hide BundleOk, OnlyReplaces, IsReleaseName;
    var release := ReleaseName(h, bundle);
    forall name | name in e.releases && IsReleaseName(name, Platform(h)) && e.releases[name].config.Some?
      ensures e.releases[name].config.value in texts
    {
      if name != release {
        OtherNamesStay(h, d, e, bundle, offline, name);
      }
    }
  }

  lemma InstallKeepsKnown(h: Host, d: Disk, bundle: Bundle, offline: bool, t: seq<Disk>, from: nat,
                          committed: bool, texts: set<string>)
    requires BundleOk(h, bundle, offline) && InstallTrace(h, d, bundle, offline, t, from, committed)
    requires Known(Platform(h), d, texts) && (bundle.dir.config.Some? ==> bundle.dir.config.value in texts)
    ensures forall k | from <= k < |t| :: Known(Platform(h), t[k], texts)
  {
    hide BundleOk, Storing, Stored, Known;
    forall k | from <= k < |t|
      ensures Known(Platform(h), t[k], texts)
    {
      if committed && k == |t| - 1 {
        StoringKeepsKnown(h, d, t[|t| - 2], bundle, offline, texts);
        SlotsDoNotMatter(Platform(h), t[|t| - 2], t[k], texts);
      } else {
        StoringKeepsKnown(h, d, t[k], bundle, offline, texts);
      }
    }
  }

  lemma SlotsDoNotMatter(platform: string, d: Disk, e: Disk, texts: set<string>)
    requires d.releases == e.releases
    ensures Known(platform, d, texts) == Known(platform, e, texts)
  {
  }

  lemma KnownDiffers(h: Host, d: Disk, bundle: Bundle, offline: bool, texts: set<string>)
    requires BundleOk(h, bundle, offline) && CollisionFree(h.env, texts) && Known(Platform(h), d, texts)
    requires bundle.dir.config.Some? ==> bundle.dir.config.value in texts
    ensures BundleDiffers(h, d, bundle)
  {
    hide BundleOk;
    BundleName(h, bundle, offline);
  }

  /** The operations, in the world they are made in: they share environment and platform, an installation that is not
  an update brings `who`, and all configs are among texts without a collision. */
  ghost predicate Consistent(env: Env, platform: string, d: Disk, operations: seq<Operation>,
                             who: Identity, texts: set<string>)
  {
    && CollisionFree(env, texts) && Known(platform, d, texts)
    && forall i | 0 <= i < |operations| && operations[i].Deploy? ::
         && (operations[i].updateOnly || IdentityIn(env, operations[i].bundle.dir) == Some(who))
         && (operations[i].bundle.dir.config.Some? ==> operations[i].bundle.dir.config.value in texts)
  }

  /** Any sequence of operations, each under its own clock and each possibly cut short: the slots keep their parity.
  As long as the configs in play do not collide and every installation beside the updates brings the identity
  `who`, whatever is current has it; from empty slots on, that is the identity of the first installation. */
  method Operate(env: Env, os: string, arch: string, dev: Device<Disk>, operations: seq<Operation>,
                 ghost who: Identity, ghost texts: set<string>)
    requires dev.Valid() && dev.trace == [dev.state] && Parity(dev.state)
    requires forall i | 0 <= i < |operations| ::
               operations[i].host.env == env && operations[i].host.os == os && operations[i].host.arch == arch
    modifies dev
    ensures forall k | 0 <= k < |dev.trace| :: Parity(dev.trace[k])
    ensures Consistent(env, os + "-" + arch, old(dev.state), operations, who, texts) ==>
              IdentityInv(env, os + "-" + arch, old(dev.state), who) ==>
                forall k | 0 <= k < |dev.trace| :: IdentityInv(env, os + "-" + arch, dev.trace[k], who)
  {
    hide InstallTrace, IdentityInv, BundleOk, RollbackRecord, Current, CollisionFree, Known, IdentityIn, BundleDiffers,
         UpdateRefused, SameIdentity;
    ghost var d, platform := dev.state, os + "-" + arch;
    ghost var pure := Consistent(env, platform, d, operations, who, texts) && IdentityInv(env, platform, d, who);
    for n := 0 to |operations|
      invariant dev.Valid()
      invariant forall k | 0 <= k < |dev.trace| :: Parity(dev.trace[k])
      invariant pure ==> forall k | 0 <= k < |dev.trace| :: IdentityInv(env, platform, dev.trace[k], who)
      invariant pure ==> Known(platform, dev.state, texts)
    {
      ghost var e, t := dev.state, dev.trace;
      assert Parity(e) && (pure ==> IdentityInv(env, platform, e, who));
      match operations[n] {
        case Deploy(h, bundle, offline, updateOnly, provisioned, shortcut) =>
          var outcome := Install(h, dev, bundle, offline, updateOnly, provisioned, shortcut);
          if dev.trace != t {
            ghost var committed :| InstallTrace(h, e, bundle, offline, dev.trace, |t|, committed);
            InstallKeepsParity(h, e, bundle, offline, dev.trace, |t|, committed);
            if pure {
              assert operations[n].Deploy?;
              if updateOnly {
                UpdateHasIdentity(h, e, bundle, who);
              }
              KnownDiffers(h, e, bundle, offline, texts);
              InstallKeepsKnown(h, e, bundle, offline, dev.trace, |t|, committed, texts);
              InstallKeepsIdentity(h, e, bundle, offline, dev.trace, |t|, committed, who);
            }
          }
        case GoBack(h, provisioned, shortcut) =>
          var outcome := Rollback(h, dev, provisioned, shortcut);
          if dev.trace != t {
            RollbackKeeps(h, e, who);
            SlotsDoNotMatter(platform, e, dev.state, texts);
          }
      }
    }
  }
}
