/** The switch to a new release, crash by crash: `Run` from the verified config to the started launcher
(prestarter/prestarter.go). */
module Switch {
  import opened Wrappers
  import opened Text
  import opened Environment
  import opened Devices
  import opened Directories
  import opened Releases
  import opened Prestarter
  import TP = TrustPolicy
  import B = Bootstrap

  // ---------------------------------------------------------------- what each phase leaves current

  lemma StagesDoNotMatter(c: Context, d: Disk, e: Disk)
    requires OnlyStagesDiffer(d, e)
    ensures forall r :: ReleaseValid(c, d, r) == ReleaseValid(c, e, r)
    ensures Current(c, d) == Current(c, e) && Parity(d) == Parity(e) && SameLauncherFiles(d, e)
  {
    forall r
      ensures ReleaseValid(c, d, r) == ReleaseValid(c, e, r)
    {
      if ValidDigest(r.digest) && r.release == r.digest + "-" + Platform(c) {
        ReleaseNameIsPlain(r.digest, r.digest, Platform(c));
        assert SameEntry(d, e, r.release);
      }
    }
    hide ReleaseValid;
  }

  /** A crash here leaves an intact launcher: `current` is the old release or the new one, and the slot of the
  old record is untouched until the new one is committed. */
  predicate Safe(c: Context, e: Disk, p: Record, want: Record) {
    && Current(c, e).Some? && (Current(c, e).value.release == p.release || Current(c, e).value.release == want.release)
    && (Slot(e, p.generation) == Some(p) || Slot(e, p.generation + 1) == Some(Promoted(Some(p), want)))
  }

  lemma SafeDuringInstall(c: Context, d: Disk, e: Disk, digest: string, raw: string)
    requires Parity(d) && ValidDigest(digest) && OnlyReplaces(d, e, Desired(c, digest, raw).release)
    requires Current(c, d).Some? && Current(c, d).value.release != Desired(c, digest, raw).release
    ensures Safe(c, e, Current(c, d).value, Desired(c, digest, raw)) && ReleaseValid(c, e, Current(c, d).value)
    ensures Slot(e, Current(c, d).value.generation) == Current(c, d)
  {
    hide ReleaseValid, OnlyReplaces;
    var p := Current(c, d).value;
    CurrentWhileReplacing(c, d, e, digest);
    CurrentIsTheUniqueMaximum(c, d, p);
    ReplacingKeepsOthers(c, d, e, digest, p);
    ReplacingKeepsSlots(d, e, Desired(c, digest, raw).release);
  }

  lemma CurrentVerifies(c: Context, d: Disk)
    requires Parity(d) && Current(c, d).Some?
    ensures ReleaseValid(c, d, Current(c, d).value) && Slot(d, Current(c, d).value.generation) == Current(c, d)
  {
    hide ReleaseValid;
    CurrentIsTheUniqueMaximum(c, d, Current(c, d).value);
  }

  /** When nothing verified before, whatever the new directory brings back is the new release. */
  lemma RevivedIsDesired(c: Context, d: Disk, e: Disk, digest: string, raw: string)
    requires Parity(d) && ValidDigest(digest) && OnlyReplaces(d, e, Desired(c, digest, raw).release)
    requires Current(c, d).None? && ReleaseValid(c, e, Desired(c, digest, raw)) && SlotValid(c, e, e.slot0)
    ensures e.slot0.Some? && e.slot0.value.(generation := 0) == Desired(c, digest, raw)
  {
    hide ReleaseValid, OnlyReplaces;
    var q := e.slot0.value;
    ReplacingKeepsSlots(d, e, Desired(c, digest, raw).release);
    CurrentIsTheUniqueMaximum(c, d, q);
    assert !VerifiedRecord(c, d, q);
    if q.release != Desired(c, digest, raw).release {
      ReplacingKeepsOthers(c, d, e, digest, q);
    }
    SameReleaseSameRecord(c, e, q, Desired(c, digest, raw));
  }

  lemma AlreadyActiveIsValid(c: Context, d: Disk, p: Record, digest: string, raw: string)
    requires ReleaseValid(c, d, p)
    ensures AlreadyActive(Some(p), Desired(c, digest, raw)) ==>
              ReleaseValid(c, d, Desired(c, digest, raw)) && p.(generation := 0) == Desired(c, digest, raw)
    ensures ReleaseValid(c, d, Desired(c, digest, raw)) && p.release == Desired(c, digest, raw).release ==>
              AlreadyActive(Some(p), Desired(c, digest, raw))
    ensures p.digest == digest ==> p.release == Desired(c, digest, raw).release
  {
  }

  // ---------------------------------------------------------------- install and activate

  /** The state after a successful switch from `d`. */
  ghost predicate SwitchedTo(c: Context, d: Disk, e: Disk, want: Record) {
    var p := Current(c, d);
    && Parity(e) && ReleaseValid(c, e, want)
    && Current(c, e).Some? && Current(c, e).value.(generation := 0) == want
    && (p.Some? && p.value.release != want.release ==> ReleaseValid(c, e, p.value))
    && (AlreadyActive(p, want) ==> Current(c, e) == p && e.slot0 == d.slot0 && e.slot1 == d.slot1)
    && (p.Some? && !AlreadyActive(p, want) ==>
          && NextGeneration(p) != 0 && Current(c, e) == Some(Promoted(p, want))
          && Slot(e, p.value.generation) == p && Slot(e, p.value.generation + 1) == Some(Promoted(p, want)))
    && (p.None? ==> e.slot0 == d.slot0 && e.slot1 == Some(Promoted(None, want)))
  }

  /** Every step of the activation that follows an installation is safe. */
  lemma SafeDuringActivation(c: Context, d: Disk, e: Disk, digest: string, raw: string, n: nat)
    requires Parity(d) && ValidDigest(digest) && OnlyReplaces(d, e, Desired(c, digest, raw).release)
    requires ReleaseValid(c, e, Desired(c, digest, raw)) && NextGeneration(Current(c, d)) != 0 && n < 3
    ensures var p, want := Current(c, d), Desired(c, digest, raw);
            var s := ActivationPlan(e, p, want)[n];
            Parity(s) && (p.Some? && p.value.release != want.release ==> Safe(c, s, p.value, want))
  {
    hide ReleaseValid, OnlyReplaces;
    var p, want := Current(c, d), Desired(c, digest, raw);
    ReplacingKeepsSlots(d, e, want.release);
    if p.Some? {
      CurrentVerifies(c, d);
      if p.value.release != want.release {
        SafeDuringInstall(c, d, e, digest, raw);
      }
    }
    CommitTakesOver(c, e, p, want);
  }

  /** A commit outranks every record that verified when the switch began. */
  lemma CommitOutranksTheVerified(c: Context, d: Disk, want: Record, q: Record)
    requires Parity(d) && VerifiedRecord(c, d, q) && NextGeneration(Current(c, d)) != 0
    ensures Promoted(Current(c, d), want).generation > q.generation
    ensures Promoted(Current(c, d), want).generation == Current(c, d).value.generation + 1
  {
    hide ReleaseValid;
    CurrentIsTheUniqueMaximum(c, d, q);
    CurrentIsTheUniqueMaximum(c, d, Current(c, d).value);
  }

  /** Where a committed activation leads. */
  lemma ActivationSwitches(c: Context, d: Disk, e: Disk, digest: string, raw: string, n: nat)
    requires Parity(d) && ValidDigest(digest) && OnlyReplaces(d, e, Desired(c, digest, raw).release)
    requires ReleaseValid(c, e, Desired(c, digest, raw)) && NextGeneration(Current(c, d)) != 0 && 1 <= n < 3
    requires !AlreadyActive(Current(c, d), Desired(c, digest, raw))
    ensures SwitchedTo(c, d, ActivationPlan(e, Current(c, d), Desired(c, digest, raw))[n], Desired(c, digest, raw))
  {
    if Current(c, d).Some? {
      SwitchesOver(c, d, e, digest, raw, n);
    } else {
      SwitchesFirst(c, d, e, digest, raw, n);
    }
  }

  lemma SwitchesOver(c: Context, d: Disk, e: Disk, digest: string, raw: string, n: nat)
    requires Parity(d) && ValidDigest(digest) && OnlyReplaces(d, e, Desired(c, digest, raw).release)
    requires ReleaseValid(c, e, Desired(c, digest, raw)) && NextGeneration(Current(c, d)) != 0 && 1 <= n < 3
    requires !AlreadyActive(Current(c, d), Desired(c, digest, raw)) && Current(c, d).Some?
    ensures SwitchedTo(c, d, ActivationPlan(e, Current(c, d), Desired(c, digest, raw))[n], Desired(c, digest, raw))
  {
    hide ReleaseValid, OnlyReplaces, Current, SlotValid, Safe;
    var p, want := Current(c, d), Desired(c, digest, raw);
    var s := ActivationPlan(e, p, want)[n];
    ReplacingKeepsSlots(d, e, want.release);
    CurrentVerifies(c, d);
    if p.value.release != want.release {
      SafeDuringInstall(c, d, e, digest, raw);
    }
    CommitTakesOver(c, e, p, want);
    assert Current(c, s) == Current(c, ActivationPlan(e, p, want)[1]);
    SameReleasesSameVerdicts(c, e, s);
  }

  lemma SwitchesFirst(c: Context, d: Disk, e: Disk, digest: string, raw: string, n: nat)
    requires Parity(d) && ValidDigest(digest) && OnlyReplaces(d, e, Desired(c, digest, raw).release)
    requires ReleaseValid(c, e, Desired(c, digest, raw)) && 1 <= n < 3 && Current(c, d).None?
    ensures SwitchedTo(c, d, ActivationPlan(e, None, Desired(c, digest, raw))[n], Desired(c, digest, raw))
  {
    hide ReleaseValid, OnlyReplaces, Current, SlotValid;
    var want := Desired(c, digest, raw);
    var s := ActivationPlan(e, None, want)[n];
    if SlotValid(c, e, e.slot0) {
      RevivedIsDesired(c, d, e, digest, raw);
    }
    ReplacingKeepsSlots(d, e, want.release);
    CommitTakesOver(c, e, None, want);
    assert Current(c, s) == Current(c, ActivationPlan(e, None, want)[1]);
    SameReleasesSameVerdicts(c, e, s);
  }

  /** The only switch whose crashes can lose the old release is one that rewrites its directory: the same
  payload signed anew, under the release name the current record already uses. */
  predicate Protected(c: Context, d: Disk, want: Record) {
    Current(c, d).Some? && (Current(c, d).value.release != want.release || ReleaseValid(c, d, want))
  }

  /** Every state of `t` from `from` on, reached by a switch that began in `d`, can be the last one. */
  ghost predicate CrashSafe(c: Context, d: Disk, want: Record, t: seq<Disk>, from: nat) {
    forall k | from <= k < |t| ::
      Parity(t[k]) && (Protected(c, d, want) ==> Safe(c, t[k], Current(c, d).value, want))
  }

  lemma CrashSafeJoin(c: Context, d: Disk, want: Record, t: seq<Disk>, u: seq<Disk>, from: nat)
    requires CrashSafe(c, d, want, t, from) && t <= u && CrashSafe(c, d, want, u, |t|)
    ensures CrashSafe(c, d, want, u, from)
  {
  }

  lemma CleanupIsSafe(c: Context, d: Disk, t: seq<Disk>, from: nat, want: Record)
    requires Parity(d)
    requires forall k | from <= k < |t| :: OnlyStagesDiffer(d, t[k])
    ensures CrashSafe(c, d, want, t, from)
  {
    hide ReleaseValid, OnlyStagesDiffer;
    forall k | from <= k < |t|
      ensures Parity(t[k]) && (Current(c, d).Some? ==> Safe(c, t[k], Current(c, d).value, want))
    {
      StagesDoNotMatter(c, d, t[k]);
      if Current(c, d).Some? {
        CurrentVerifies(c, t[k]);
      }
    }
  }

  lemma InstallIsSafe(c: Context, d: Disk, t: seq<Disk>, from: nat, digest: string, raw: string)
    requires Parity(d) && ValidDigest(digest)
    requires forall k | from <= k < |t| :: OnlyReplaces(d, t[k], Desired(c, digest, raw).release)
    requires ReleaseValid(c, d, Desired(c, digest, raw)) ==> |t| <= from
    ensures CrashSafe(c, d, Desired(c, digest, raw), t, from)
  {
    hide ReleaseValid, OnlyReplaces;
    forall k | from <= k < |t|
      ensures Parity(t[k])
      ensures Current(c, d).Some? && Current(c, d).value.release != Desired(c, digest, raw).release ==>
                Safe(c, t[k], Current(c, d).value, Desired(c, digest, raw))
    {
      ReplacingKeepsSlots(d, t[k], Desired(c, digest, raw).release);
      if Current(c, d).Some? && Current(c, d).value.release != Desired(c, digest, raw).release {
        SafeDuringInstall(c, d, t[k], digest, raw);
      }
    }
  }

  lemma ActivationIsSafe(c: Context, d: Disk, e: Disk, digest: string, raw: string, t: seq<Disk>, n: nat)
    requires Parity(d) && ValidDigest(digest) && OnlyReplaces(d, e, Desired(c, digest, raw).release)
    requires ReleaseValid(c, e, Desired(c, digest, raw)) && NextGeneration(Current(c, d)) != 0 && n <= 3
    requires !AlreadyActive(Current(c, d), Desired(c, digest, raw))
    ensures CrashSafe(c, d, Desired(c, digest, raw),
                      t + ActivationPlan(e, Current(c, d), Desired(c, digest, raw))[..n], |t|)
  {
    hide ReleaseValid, OnlyReplaces, Safe;
    var p, want := Current(c, d), Desired(c, digest, raw);
    var plan := ActivationPlan(e, p, want);
    if p.Some? {
      CurrentVerifies(c, d);
      AlreadyActiveIsValid(c, d, p.value, digest, raw);
    }
    var u := t + plan[..n];
    forall k | |t| <= k < |u|
      ensures Parity(u[k]) && (Protected(c, d, want) ==> Safe(c, u[k], p.value, want))
    {
      SafeDuringActivation(c, d, e, digest, raw, k - |t|);
    }
  }

  lemma SameBeginning(c: Context, d: Disk, e: Disk, want: Record, t: seq<Disk>, from: nat)
    requires OnlyStagesDiffer(d, e) && CrashSafe(c, e, want, t, from)
    ensures CrashSafe(c, d, want, t, from)
  {
    hide ReleaseValid, OnlyStagesDiffer, Safe;
    StagesDoNotMatter(c, d, e);
  }

  /** The steps of an installation extend those of the cleaning before it. */
  lemma InstallJoins(c: Context, d0: Disk, d1: Disk, d2: Disk, digest: string, raw: string,
                     t1: seq<Disk>, t2: seq<Disk>, from: nat)
    requires Parity(d1) && ValidDigest(digest) && OnlyStagesDiffer(d0, d1) && t1 <= t2
    requires CrashSafe(c, d0, Desired(c, digest, raw), t1, from)
    requires forall k | |t1| <= k < |t2| :: OnlyReplaces(d1, t2[k], Desired(c, digest, raw).release)
    requires OnlyReplaces(d1, d2, Desired(c, digest, raw).release)
    requires ReleaseValid(c, d1, Desired(c, digest, raw)) ==> |t2| <= |t1|
    ensures CrashSafe(c, d0, Desired(c, digest, raw), t2, from) && Parity(d2)
  {
    hide ReleaseValid, OnlyReplaces, OnlyStagesDiffer, CrashSafe;
    InstallIsSafe(c, d1, t2, |t1|, digest, raw);
    SameBeginning(c, d0, d1, Desired(c, digest, raw), t2, |t1|);
    CrashSafeJoin(c, d0, Desired(c, digest, raw), t1, t2, from);
    ReplacingKeepsSlots(d1, d2, Desired(c, digest, raw).release);
  }

  /** Lines 159 to 169 of `Run`. */
  method InstallAndActivate(c: Context, dev: Device<Disk>, components: seq<Component>, digest: string, raw: string)
      returns (r: Result<Option<Record>, Error>)
    requires dev.Valid() && Parity(dev.state) && ValidDigest(digest) && B.ComponentsOk(c.env, components)
    modifies dev
    ensures dev.Valid() && old(dev.trace) <= dev.trace
    ensures Parity(dev.state)
    ensures CrashSafe(c, old(dev.state), Desired(c, digest, raw), dev.trace, |old(dev.trace)|)
    ensures r.Success? ==> r.value == Current(c, old(dev.state))
                           && SwitchedTo(c, old(dev.state), dev.state, Desired(c, digest, raw))
    ensures r.Failure? ==> r.error !in {StartFailed, RollbackFailed}
    ensures Prepared(c, components, digest, raw) ==> r != Failure(NotVerifiedAfterInstall)
    ensures dev.faults >= old(dev.faults)
    ensures dev.faults == old(dev.faults) && Prepared(c, components, digest, raw) ==>
              if Fits(Current(c, old(dev.state)), Desired(c, digest, raw)) then r.Success? else r == Failure(Overflow)
  {
    hide ReleaseValid, OnlyReplaces, OnlyStagesDiffer, CrashSafe, SwitchedTo, ActivationPlan, Current, Prepared,
         SameEntry, VerifyConfig, B.ComponentsOk, EveryFileThere, MovedAway, Damaged;
    ghost var d0, t0 := dev.state, dev.trace;
    var clean := CleanupInterruptedStages(dev);
    ghost var d1, t1 := dev.state, dev.trace;
    StagesDoNotMatter(c, d0, d1);
    CleanupIsSafe(c, d0, t1, |t0|, Desired(c, digest, raw));
    if !clean {
      return Failure(Io);
    }
    var previous := CurrentRecord(c, dev.state);
    var installed := InstallComponents(c, dev, components, digest, raw);
    ghost var d2, t2 := dev.state, dev.trace;
    InstallJoins(c, d0, d1, d2, digest, raw, t1, t2, |t0|);
    if installed.Failure? {
      return Failure(installed.error);
    }
    var activated := Activate(c, dev, previous, installed.value);
    r := if activated.Success? then Success(previous) else Failure(activated.error);
    FinishSwitch(c, d0, d1, d2, digest, raw, t0, t2, dev.state, dev.trace, activated.Success?);
  }

  /** `t` extends `t2`, the trace of cleaning `d0` up to `d1` and installing up to `d2`, by an activation. */
  ghost predicate ActivationFollows(c: Context, d0: Disk, d1: Disk, d2: Disk, digest: string, raw: string,
                                    t0: seq<Disk>, t2: seq<Disk>, e: Disk, t: seq<Disk>, ok: bool)
  {
    var p, want := Current(c, d1), Desired(c, digest, raw);
    && Parity(d1) && OnlyStagesDiffer(d0, d1)
    && OnlyReplaces(d1, d2, want.release) && ReleaseValid(c, d2, want)
    && (ReleaseValid(c, d1, want) ==> d1 == d2)
    && |t0| <= |t2| && |t| > 0 && t[|t| - 1] == e && |t2| > 0 && t2[|t2| - 1] == d2
    && CrashSafe(c, d0, want, t2, |t0|)
    && (AlreadyActive(p, want) ==> ok && t == t2)
    && (!AlreadyActive(p, want) && NextGeneration(p) == 0 ==> !ok && t == t2)
    && exists n :: 0 <= n <= 3 && t == t2 + ActivationPlan(d2, p, want)[..n]
                   && (ok && !AlreadyActive(p, want) ==> n >= 2)
  }

  /** What the trace of an activation says about the switch as a whole. */
  lemma FinishSwitch(c: Context, d0: Disk, d1: Disk, d2: Disk, digest: string, raw: string,
                     t0: seq<Disk>, t2: seq<Disk>, e: Disk, t: seq<Disk>, ok: bool)
    requires ValidDigest(digest)
    ensures ActivationFollows(c, d0, d1, d2, digest, raw, t0, t2, e, t, ok) ==>
              && Parity(e) && CrashSafe(c, d0, Desired(c, digest, raw), t, |t0|)
              && (ok ==> SwitchedTo(c, d0, e, Desired(c, digest, raw)))
  {
    hide ReleaseValid, OnlyReplaces, OnlyStagesDiffer, CrashSafe, SwitchedTo;
    if !ActivationFollows(c, d0, d1, d2, digest, raw, t0, t2, e, t, ok) {
      return;
    }
    var p, want := Current(c, d1), Desired(c, digest, raw);
    StagesDoNotMatter(c, d0, d1);
    ReplacingKeepsSlots(d1, d2, want.release);
    if AlreadyActive(p, want) {
      CurrentVerifies(c, d1);
      AlreadyActiveIsValid(c, d1, p.value, digest, raw);
      UnchangedIsSwitched(c, d0, d2, want);
    } else if NextGeneration(p) != 0 {
      var plan := ActivationPlan(d2, p, want);
      var n :| 0 <= n <= 3 && t == t2 + plan[..n] && (ok ==> n >= 2);
      ActivationIsSafe(c, d1, d2, digest, raw, t2, n);
      SameBeginning(c, d0, d1, want, t, |t2|);
      CrashSafeJoin(c, d0, want, t2, t, |t0|);
      if n > 0 {
        SafeDuringActivation(c, d1, d2, digest, raw, n - 1);
      }
      if ok {
        ActivationSwitches(c, d1, d2, digest, raw, n - 1);
        SwitchedFromClean(c, d0, d1, e, want);
      }
    }
  }

  /** Without that protection the first step of the installation already loses the record: once the old
  directory is in quarantine, what is current, if anything, is some third release. */
  lemma UnprotectedSwitchIsExposed(c: Context, d: Disk, e: Disk, digest: string, raw: string, nanos: nat)
    requires Parity(d) && Current(c, d).Some? && !Protected(c, d, Desired(c, digest, raw))
    requires var release := Desired(c, digest, raw).release;
             SameLauncherFiles(d, e)
             && e.releases == (d.releases - {release})[BrokenName(release, nanos) := d.releases[release]]
    ensures !ReleaseValid(c, e, Current(c, d).value)
    ensures !Safe(c, e, Current(c, d).value, Desired(c, digest, raw))
  {
    var release := Desired(c, digest, raw).release;
    assert |BrokenName(release, nanos)| > |release|;
    assert release !in e.releases;
    assert forall r: Record | r.release == release :: !ReleaseValid(c, e, r);
    hide ReleaseValid;
  }

  /** A state that installing `want` in `d` can pass through. */
  ghost predicate Installing(c: Context, d: Disk, e: Disk, want: Record) {
    OnlyReplaces(d, e, want.release) && (ReleaseValid(c, d, want) ==> e == d)
  }

  /** The installation is crash-safe if and only if it is protected: only re-signing the payload of the current
  release under its own name exposes it. */
  lemma SafeExactlyWhenProtected(c: Context, d: Disk, digest: string, raw: string)
    requires Parity(d) && ValidDigest(digest) && Current(c, d).Some?
    ensures Protected(c, d, Desired(c, digest, raw)) <==>
            forall e | Installing(c, d, e, Desired(c, digest, raw)) ::
              Safe(c, e, Current(c, d).value, Desired(c, digest, raw))
  {
    hide ReleaseValid, Replaces, Safe;
    var p, want := Current(c, d).value, Desired(c, digest, raw);
    CurrentVerifies(c, d);
    if Protected(c, d, want) {
      forall e | Installing(c, d, e, want)
        ensures Safe(c, e, p, want)
      {
        if p.release != want.release {
          SafeDuringInstall(c, d, e, digest, raw);
        } else {
          NothingMoves(c, d, want);
        }
      }
    } else {
      ReleaseNameIsPlain(digest, digest, Platform(c));
      NothingReplaced(d.releases, want.release);
      ValidIsThere(c, d, p);
      var nanos := FreshName(d.releases.Keys, want.release, 0);
      var broken := BrokenName(want.release, nanos);
      var e := d.(releases := (d.releases - {want.release})[broken := d.releases[want.release]]);
      QuarantineStep(d.releases, d.releases, e.releases, want.release, nanos);
      UnprotectedSwitchIsExposed(c, d, e, digest, raw, nanos);
      assert Installing(c, d, e, want);
    }
  }

  lemma NothingMoves(c: Context, d: Disk, want: Record)
    requires Parity(d) && Current(c, d).Some? && Current(c, d).value.release == want.release
    ensures Safe(c, d, Current(c, d).value, want)
  {
    hide ReleaseValid;
    CurrentVerifies(c, d);
  }

  lemma ValidIsThere(c: Context, d: Disk, r: Record)
    requires ReleaseValid(c, d, r)
    ensures r.release in d.releases
  {
  }

  lemma UnchangedIsSwitched(c: Context, d: Disk, e: Disk, want: Record)
    requires Parity(d) && Current(c, d) == Current(c, e) && SameLauncherFiles(d, e)
    requires AlreadyActive(Current(c, d), want) && ReleaseValid(c, e, want)
    requires Current(c, d).value.(generation := 0) == want
    ensures SwitchedTo(c, d, e, want)
  {
    hide ReleaseValid;
    CurrentVerifies(c, e);
  }

  lemma SwitchedFromClean(c: Context, d: Disk, e: Disk, f: Disk, want: Record)
    requires Current(c, d) == Current(c, e) && SameLauncherFiles(d, e)
    ensures SwitchedTo(c, e, f, want) ==> SwitchedTo(c, d, f, want)
  {
    hide ReleaseValid;
  }

  // ---------------------------------------------------------------- a failed start is taken back

  function DeactivationPlan(d: Disk): seq<Disk> {
    var cleared := d.(slot1 := None);
    [cleared] + if d.journal.Some? then [cleared.(journal := None)] else []
  }

  /** Withdraws the first activation ever made, and nothing else. */
  method DeactivateFailedFirstRun(dev: Device<Disk>, active: Record) returns (ok: bool)
    requires dev.Valid()
    modifies dev
    ensures dev.Valid()
    ensures active.generation != 1 || old(dev.state).slot1 != Some(active) ==> !ok && dev.trace == old(dev.trace)
    ensures exists n :: && 0 <= n <= |DeactivationPlan(old(dev.state))|
                        && dev.trace == old(dev.trace) + DeactivationPlan(old(dev.state))[..n]
                        && (ok ==> n == |DeactivationPlan(old(dev.state))|)
    ensures ok ==> dev.state == old(dev.state).(slot1 := None, journal := None)
    ensures dev.faults >= old(dev.faults)
    ensures dev.faults == old(dev.faults) ==> (ok <==> active.generation == 1 && old(dev.state).slot1 == Some(active))
  {
    ghost var before, plan := dev.trace, DeactivationPlan(dev.state);
    assert before + plan[..0] == before;
    if active.generation != 1 {
      return false;
    }
    var stored := dev.state.slot1;
    if stored.None? || stored.value != active {
      return false;
    }
    var cleared := dev.Step(dev.state.(slot1 := None));
    if !cleared {
      return false;
    }
    assert dev.trace == before + plan[..1];
    if dev.state.journal.Some? {
      var removed := dev.Step(dev.state.(journal := None));
      if !removed {
        return false;
      }
      assert dev.trace == before + plan[..2];
    }
    ok := dev.Try();
  }

  /** The release that failed to start is not current, or it can be withdrawn. */
  predicate CanTakeBack(c: Context, d: Disk, previous: Option<Record>, installed: Record) {
    var active := Current(c, d);
    active.Some? && active.value.release == installed.release ==>
      if previous.Some? then ReleaseValid(c, d, previous.value) && Fits(active, previous.value)
      else active.value.generation == 1 && d.slot1 == active
  }

  /** The states the rollback passes through when the start of `installed` failed. */
  function TakeBackPlan(c: Context, d: Disk, previous: Option<Record>, installed: Record): seq<Disk> {
    var active := Current(c, d);
    if active.None? || active.value.release != installed.release then []
    else if previous.None? then
      if active.value.generation != 1 || d.slot1 != active then [] else DeactivationPlan(d)
    else if !ReleaseValid(c, d, previous.value) || AlreadyActive(active, previous.value)
        || NextGeneration(active) == 0 then []
    else ActivationPlan(d, active, previous.value)
  }

  /** Lines 170 to 184 of `Run`. */
  method TakeBack(c: Context, dev: Device<Disk>, previous: Option<Record>, installed: Record) returns (r: Error)
    requires dev.Valid()
    modifies dev
    ensures dev.Valid() && r in {StartFailed, RollbackFailed}
    ensures exists n :: && 0 <= n <= |TakeBackPlan(c, old(dev.state), previous, installed)|
                        && dev.trace == old(dev.trace) + TakeBackPlan(c, old(dev.state), previous, installed)[..n]
                        && (r == StartFailed && previous.Some? && n < 2 ==>
                            TakeBackPlan(c, old(dev.state), previous, installed) == [])
                        && (r == StartFailed && previous.None? ==>
                            n == |TakeBackPlan(c, old(dev.state), previous, installed)|)
    ensures r == StartFailed ==> CanTakeBack(c, old(dev.state), previous, installed)
    ensures dev.faults >= old(dev.faults)
    ensures dev.faults == old(dev.faults) && CanTakeBack(c, old(dev.state), previous, installed) ==> r == StartFailed
  {
    hide ReleaseValid, Current, ActivationPlan;
    ghost var before, plan := dev.trace, TakeBackPlan(c, dev.state, previous, installed);
    assert before + plan[..0] == before;
    var active := CurrentRecord(c, dev.state);
    if active.Some? && active.value.release == installed.release {
      if previous.Some? {
        var restored := Activate(c, dev, active, previous.value);
        if restored.Failure? {
          return RollbackFailed;
        }
      } else {
        var withdrawn := DeactivateFailedFirstRun(dev, active.value);
        if !withdrawn {
          return RollbackFailed;
        }
      }
    }
    r := StartFailed;
  }

  /** `q` is `p` again, two generations later. */
  predicate RaisedByTwo(p: Record, q: Record) {
    q.generation == p.generation + 2 && q.(generation := p.generation) == p
  }

  /** The switch replaced a current release of another name. */
  ghost predicate SwitchedAway(c: Context, d: Disk, e: Disk, want: Record) {
    Current(c, d).Some? && Current(c, d).value.release != want.release && SwitchedTo(c, d, e, want)
  }

  /** After a switch to another release the old record is whole, in the other slot. */
  lemma OldRecordIsWhole(c: Context, d: Disk, e: Disk, digest: string, raw: string)
    requires Parity(d)
    ensures SwitchedAway(c, d, e, Desired(c, digest, raw)) ==>
              var p, want := Current(c, d).value, Desired(c, digest, raw);
              && Parity(e) && ReleaseValid(c, e, p) && Slot(e, p.generation) == Some(p)
              && NextGeneration(Some(p)) != 0 && Current(c, e) == Some(Promoted(Some(p), want))
              && Slot(e, p.generation + 1) == Current(c, e) && !AlreadyActive(Current(c, e), p)
  {
    hide ReleaseValid;
    if Current(c, d).Some? {
      CurrentVerifies(c, d);
      AlreadyActiveIsValid(c, d, Current(c, d).value, digest, raw);
    }
  }

  /** Every step of the rollback is safe, and its end restores the old release. */
  lemma TakeBackRestores(c: Context, d: Disk, e: Disk, digest: string, raw: string, n: nat)
    requires Parity(d) && NextGeneration(Current(c, e)) != 0 && n < 3
    ensures SwitchedAway(c, d, e, Desired(c, digest, raw)) ==>
              var p, want := Current(c, d).value, Desired(c, digest, raw);
              && TakeBackPlan(c, e, Some(p), want) == ActivationPlan(e, Current(c, e), p)
              && var s := ActivationPlan(e, Current(c, e), p)[n];
                 && Parity(s) && Safe(c, s, p, want)
                 && (n >= 1 ==> Current(c, s).Some? && RaisedByTwo(p, Current(c, s).value))
  {
    hide ReleaseValid, SwitchedTo, Current;
    if SwitchedAway(c, d, e, Desired(c, digest, raw)) {
      OldRecordIsWhole(c, d, e, digest, raw);
      CommitTakesOver(c, e, Current(c, e), Current(c, d).value);
    }
  }

  lemma TakeBackIsSafe(c: Context, d: Disk, e: Disk, digest: string, raw: string, t: seq<Disk>, n: nat)
    requires Parity(d) && SwitchedTo(c, d, e, Desired(c, digest, raw))
    requires n <= |TakeBackPlan(c, e, Current(c, d), Desired(c, digest, raw))|
    ensures CrashSafe(c, d, Desired(c, digest, raw),
                      t + TakeBackPlan(c, e, Current(c, d), Desired(c, digest, raw))[..n], |t|)
  {
    hide ReleaseValid, Safe;
    var p, want := Current(c, d), Desired(c, digest, raw);
    var plan := TakeBackPlan(c, e, p, want);
    if p.Some? {
      CurrentVerifies(c, d);
      AlreadyActiveIsValid(c, d, p.value, digest, raw);
    }
    forall k | 0 <= k < n
      ensures Parity(plan[k]) && (Protected(c, d, want) ==> Safe(c, plan[k], p.value, want))
    {
      if p.Some? && p.value.release != want.release && NextGeneration(Current(c, e)) != 0 {
        TakeBackRestores(c, d, e, digest, raw, k);
      }
    }
  }

  /** With empty slots the switch commits generation 1, and the rollback empties the slots again. */
  lemma FirstRunUndone(c: Context, d: Disk, e: Disk, want: Record)
    requires d.slot0.None? && d.slot1.None? && SwitchedTo(c, d, e, want)
    ensures Current(c, e) == e.slot1 && e.slot1.Some? && e.slot1.value.generation == 1 && e.slot0.None?
    ensures e.slot1.value.release == want.release
    ensures var plan := TakeBackPlan(c, e, None, want);
            plan != [] && plan[|plan| - 1].slot0.None? && plan[|plan| - 1].slot1.None?
  {
    hide ReleaseValid;
  }

  /** Whether a failed start of `want` can be undone, told from the state before the switch. With nothing current,
  only a leftover record of the new release that outranks its first activation stands in the way; under the same
  release name, a new signature; otherwise, the end of the generations. */
  predicate Undoable(c: Context, d: Disk, want: Record) {
    var p := Current(c, d);
    if p.None? then !(d.slot0.Some? && d.slot0.value.(generation := 0) == want && d.slot0.value.generation > 1)
    else if p.value.release == want.release then AlreadyActive(p, want)
    else p.value.generation < 0xFFFF_FFFF_FFFF_FFFE
  }

  /** After any switch the rollback is possible if and only if the failed start was undoable before it. */
  lemma UndoableIsTakenBack(c: Context, d: Disk, e: Disk, digest: string, raw: string)
    requires Parity(d)
    ensures SwitchedTo(c, d, e, Desired(c, digest, raw)) ==>
              (CanTakeBack(c, e, Current(c, d), Desired(c, digest, raw)) <==> Undoable(c, d, Desired(c, digest, raw)))
  {
    hide ReleaseValid;
    var p, want := Current(c, d), Desired(c, digest, raw);
    if SwitchedTo(c, d, e, want) {
      CurrentVerifies(c, e);
      if p.None? {
        FirstCommitStands(c, d, e, want);
      } else {
        CurrentVerifies(c, d);
        AlreadyActiveIsValid(c, d, p.value, digest, raw);
        SameReleaseSameHash(c, e, p.value, want);
      }
    }
  }

  /** With nothing current before, the record current afterwards is the first generation in slot 1, unless slot 0
  holds a higher record of the same release. */
  lemma FirstCommitStands(c: Context, d: Disk, e: Disk, want: Record)
    requires Current(c, d).None?
    ensures SwitchedTo(c, d, e, want) ==>
              (Current(c, e) == e.slot1 && e.slot1.value.generation == 1
               <==> !(d.slot0.Some? && d.slot0.value.(generation := 0) == want && d.slot0.value.generation > 1))
  {
    hide ReleaseValid;
    if SwitchedTo(c, d, e, want) {
      GenerationDoesNotMatter(c, e, want, 1);
      if d.slot0.Some? && d.slot0.value.(generation := 0) == want {
        GenerationDoesNotMatter(c, e, want, d.slot0.value.generation);
      }
    }
  }

  /** Two valid records of one release pin the same config. */
  lemma SameReleaseSameHash(c: Context, e: Disk, p: Record, want: Record)
    ensures ReleaseValid(c, e, p) && ReleaseValid(c, e, want) && p.release == want.release ==>
              AlreadyActive(Some(p), want)
  {
  }

  /** How the switch ends when nothing fails. */
  function QuietOutcome(c: Context, d: Disk, want: Record, started: bool): Result<(), Error> {
    if !Fits(Current(c, d), want) then Failure(Overflow)
    else if started then Success(())
    else if Undoable(c, d, want) then Failure(StartFailed)
    else Failure(RollbackFailed)
  }

  /** Lines 158 to 186 of `Run`; `started` is the outcome of `prepareAndStart`. */
  method SwitchTo(c: Context, dev: Device<Disk>, components: seq<Component>, digest: string, raw: string, started: bool)
      returns (r: Result<(), Error>)
    requires dev.Valid() && Parity(dev.state) && ValidDigest(digest) && B.ComponentsOk(c.env, components)
    modifies dev
    ensures dev.Valid() && old(dev.trace) <= dev.trace && Parity(dev.state)
    ensures CrashSafe(c, old(dev.state), Desired(c, digest, raw), dev.trace, |old(dev.trace)|)
    ensures r.Success? ==> started && SwitchedTo(c, old(dev.state), dev.state, Desired(c, digest, raw))
    ensures r == Failure(StartFailed) ==> !started
    // A start that failed leaves the old release current, two generations up ...
    ensures var p := Current(c, old(dev.state));
            r == Failure(StartFailed) && p.Some? && p.value.release != Desired(c, digest, raw).release ==>
              Current(c, dev.state).Some? && RaisedByTwo(p.value, Current(c, dev.state).value)
    // ... or, on a first installation, nothing.
    ensures r == Failure(StartFailed) && old(dev.state).slot0.None? && old(dev.state).slot1.None? ==>
              dev.state.slot0.None? && dev.state.slot1.None? && Current(c, dev.state).None?
    ensures Prepared(c, components, digest, raw) ==> r != Failure(NotVerifiedAfterInstall)
    // When nothing fails, the initial state alone decides how the switch to a verified config ends.
    ensures dev.faults >= old(dev.faults)
    ensures dev.faults == old(dev.faults) && Prepared(c, components, digest, raw) ==>
              r == QuietOutcome(c, old(dev.state), Desired(c, digest, raw), started)
  {
    hide ReleaseValid, CrashSafe, SwitchedTo, ActivationPlan, TakeBackPlan, RaisedByTwo, Prepared, CanTakeBack,
         Undoable;
    ghost var d, t0 := dev.state, dev.trace;
    ghost var p, want := Current(c, d), Desired(c, digest, raw);
    var installed := InstallAndActivate(c, dev, components, digest, raw);
    if installed.Failure? {
      return Failure(installed.error);
    }
    if started {
      return Success(());
    }
    ghost var e, t := dev.state, dev.trace;
    UndoableIsTakenBack(c, d, e, digest, raw);
    var error := TakeBack(c, dev, installed.value, Desired(c, digest, raw));
    r := Failure(error);
    FinishTakeBack(c, d, e, digest, raw, t0, t, dev.state, dev.trace, error == StartFailed);
  }

  /** `u` extends `t`, the trace of a switch from `d` to `e`, by an attempt to take it back. */
  ghost predicate TakeBackFollows(c: Context, d: Disk, e: Disk, want: Record,
                                  t0: seq<Disk>, t: seq<Disk>, f: Disk, u: seq<Disk>, undone: bool)
  {
    var p, plan := Current(c, d), TakeBackPlan(c, e, Current(c, d), want);
    && Parity(d) && SwitchedTo(c, d, e, want) && CrashSafe(c, d, want, t, |t0|) && |t0| <= |t|
    && |t| > 0 && t[|t| - 1] == e && |u| > 0 && u[|u| - 1] == f
    && (exists n :: && 0 <= n <= |plan| && u == t + plan[..n]
                    && (undone && p.Some? && n < 2 ==> plan == [])
                    && (undone && p.None? ==> n == |plan|))
    && (undone ==> CanTakeBack(c, e, p, want))
  }

  lemma FinishTakeBack(c: Context, d: Disk, e: Disk, digest: string, raw: string,
                       t0: seq<Disk>, t: seq<Disk>, f: Disk, u: seq<Disk>, undone: bool)
    ensures var p, want := Current(c, d), Desired(c, digest, raw);
            TakeBackFollows(c, d, e, want, t0, t, f, u, undone) ==>
              && Parity(f) && CrashSafe(c, d, want, u, |t0|)
              && (undone && p.Some? && p.value.release != want.release ==>
                    Current(c, f).Some? && RaisedByTwo(p.value, Current(c, f).value))
              && (undone && d.slot0.None? && d.slot1.None? ==> f.slot0.None? && f.slot1.None? && Current(c, f).None?)
  {
    hide ReleaseValid, ActivationPlan, TakeBackPlan, Safe, RaisedByTwo;
    var p, want := Current(c, d), Desired(c, digest, raw);
    if !TakeBackFollows(c, d, e, want, t0, t, f, u, undone) {
      return;
    }
    var plan := TakeBackPlan(c, e, p, want);
    var n :| 0 <= n <= |plan| && u == t + plan[..n] && (undone && p.Some? && n < 2 ==> plan == [])
        && (undone && p.None? ==> n == |plan|);
    TakeBackIsSafe(c, d, e, digest, raw, t, n);
    CrashSafeJoin(c, d, want, t, u, |t0|);
    if p.Some? && p.value.release != want.release {
      CurrentVerifies(c, d);
      AlreadyActiveIsValid(c, d, p.value, digest, raw);
      if NextGeneration(Current(c, e)) != 0 {
        TakeBackRestores(c, d, e, digest, raw, if 0 < n <= 3 then n - 1 else 0);
      }
    }
    if d.slot0.None? && d.slot1.None? {
      FirstRunUndone(c, d, e, want);
    }
  }

  // ---------------------------------------------------------------- Run, and every run after it

  datatype PolicySource = Installed | File(content: Option<string>)

  datatype Outcome = Refused | Switched(result: Result<(), Error>)

  /** The active policy is the one the floor names, or delegation was never turned on. */
  ghost predicate Aligned(env: Env, t: TP.TrustFiles) {
    if t.state.Floor? then
      && t.active.Some? && TP.PolicyOf(env, t.active.value).Some?
      && TP.PolicyOf(env, t.active.value).value.0.epoch == t.state.epoch
      && TP.PolicyOf(env, t.active.value).value.1 == t.state.digest
    else t.state.NoState? && t.active.None?
  }

  lemma AcceptedConfigIsOk(env: Env)
    ensures forall raw, key, policy, now | B.EnvelopeAccepted(env, raw, key, policy, now) ::
              B.ConfigOf(env, raw).Some? && B.ConfigOk(env, B.ConfigOf(env, raw).value.0) && |raw| <= B.MAX_CONFIG_BYTES
  {
  }

  lemma EndsAligned(env: Env, files: TP.TrustFiles, key: string, policyRaw: string, now: int,
                    before: seq<TP.TrustFiles>, after: seq<TP.TrustFiles>)
    requires TP.CompactKeeps(env) && TP.AcceptPlan(env, files, key, policyRaw, now) != []
    requires after == before + TP.AcceptPlan(env, files, key, policyRaw, now)
    ensures var t := after[|after| - 1];
            && Aligned(env, t) && t.active.Some?
            && (TP.PolicyAccepted(env, t.active.value, key, now) <==> TP.Reloadable(t))
            && TP.PolicyOf(env, policyRaw).Some? && TP.PolicyOf(env, t.active.value) == TP.PolicyOf(env, policyRaw)
  {
    hide TP.PolicyAccepted, TP.AcceptPlan, TP.PolicyOf, TP.Reloadable;
    var plan := TP.AcceptPlan(env, files, key, policyRaw, now);
    TP.AcceptedPolicyIsTheFloor(env, files, key, policyRaw, now);
    assert after[|after| - 1] == plan[|plan| - 1];
  }

  /** `policyRaw` may follow the floor, and accepts the config. */
  predicate PolicyAdmits(env: Env, key: string, now: int, files: TP.TrustFiles, raw: string, policyRaw: string) {
    TP.AcceptPlan(env, files, key, policyRaw, now) != []
    && B.EnvelopeAccepted(env, raw, key, Some(TP.PolicyOf(env, policyRaw).value.0), now)
  }

  lemma PlanIsOfPolicy(env: Env, key: string, now: int, files: TP.TrustFiles, policyRaw: string)
    ensures TP.AcceptPlan(env, files, key, policyRaw, now) != [] ==> TP.PolicyOf(env, policyRaw).Some?
  {
  }

  /** The file a delegated config is checked against: the one given, or else the active policy. */
  function PolicyFile(files: TP.TrustFiles, source: PolicySource): Option<string> {
    if source.Installed? then files.active else source.content
  }

  /** The config is delegated, and the policy it was verified under can no longer be read from its file. */
  predicate Lost(env: Env, raw: string, files: TP.TrustFiles) {
    env.envelope(raw).Some? && env.envelope(raw).value.schemaVersion == "2.0" && !TP.Reloadable(files)
  }

  /** What decides whether a config may be installed at all. */
  predicate Establishes(env: Env, key: string, now: int, files: TP.TrustFiles, raw: string, source: PolicySource) {
    && env.envelope(raw).Some?
    && if env.envelope(raw).value.schemaVersion == "2.0" then
         PolicyFile(files, source).Some? && PolicyAdmits(env, key, now, files, raw, PolicyFile(files, source).value)
       else
         !files.state.Unreadable? && TP.FloorEpoch(files.state) == 0 && B.EnvelopeAccepted(env, raw, key, None, now)
  }

  /** The floor's policy is put in force, then used to verify `raw`. */
  method AcceptAndVerify(env: Env, key: string, now: int, trust: Device<TP.TrustFiles>, raw: string, policyRaw: string)
      returns (r: Option<(Config, Digest)>)
    requires trust.Valid() && TP.CompactKeeps(env) && TP.TrustInv(env, trust.state)
    modifies trust
    ensures trust.Valid() && |old(trust.trace)| <= |trust.trace| && old(trust.trace) <= trust.trace
    ensures TP.Chain(env, old(trust.state), trust.trace[|old(trust.trace)|..])
    ensures TP.Last(old(trust.state), trust.trace[|old(trust.trace)|..]) == trust.state && TP.TrustInv(env, trust.state)
    ensures r.Some? ==> && Aligned(env, trust.state) && trust.state.active.Some?
                        && (TP.PolicyAccepted(env, trust.state.active.value, key, now) <==> TP.Reloadable(trust.state))
                        && B.EnvelopeAccepted(env, raw, key, Some(TP.PolicyOf(env, trust.state.active.value).value.0),
                                              now)
                        && r == B.ConfigOf(env, raw)
    ensures trust.faults >= old(trust.faults)
    ensures trust.faults == old(trust.faults) ==>
              (r.Some? <==> PolicyAdmits(env, key, now, old(trust.state), raw, policyRaw))
  {
    hide TP.PolicyAccepted, B.EnvelopeAccepted, B.ConfigOf, B.ConfigOk, TP.PolicyOf, TP.Chain, TP.TrustInv,
        TP.AcceptPlan;
    ghost var t0, files := trust.trace, trust.state;
    TP.InvStoresFloor(env, files);
    PlanIsOfPolicy(env, key, now, files, policyRaw);
    AcceptedConfigIsOk(env);
    var policy := TP.AcceptTrustPolicy(env, trust, key, policyRaw, now);
    TP.AcceptTraceIsChain(env, files, key, policyRaw, now, t0, trust.trace);
    if policy.None? {
      return None;
    }
    EndsAligned(env, files, key, policyRaw, now, t0, trust.trace);
    hide Aligned;
    r := B.VerifyEnvelopeWithPolicy(env, raw, key, policy, now);
  }

  /** The trust half of `Run`: the config verified, with its digest, once the policy is in force. */
  method EstablishTrust(env: Env, key: string, now: int, trust: Device<TP.TrustFiles>, raw: string,
                        source: PolicySource)
      returns (r: Option<(Config, Digest)>)
    requires trust.Valid() && TP.CompactKeeps(env) && TP.TrustInv(env, trust.state)
    modifies trust
    ensures trust.Valid() && old(trust.trace) <= trust.trace && TP.TrustInv(env, trust.state)
    ensures TP.Chain(env, old(trust.state), trust.trace[|old(trust.trace)|..])
    ensures TP.Last(old(trust.state), trust.trace[|old(trust.trace)|..]) == trust.state
    // A config is only handed on when the policy that verified it is the active one and the floor.
    ensures r.Some? ==> && Aligned(env, trust.state) && r == B.ConfigOf(env, raw)
                        && B.ConfigOk(env, r.value.0) && |raw| <= B.MAX_CONFIG_BYTES
    // The release checks that follow read the policy from its file.
    ensures r.Some? ==> forall os, arch ::
              VerifyConfig(Context(env, key, now, os, arch, trust.state), raw)
              == if Lost(env, raw, trust.state) then None else r
    ensures trust.faults >= old(trust.faults)
    ensures trust.faults == old(trust.faults) ==>
              (r.Some? <==> Establishes(env, key, now, old(trust.state), raw, source))
  {
    hide TP.PolicyAccepted, B.EnvelopeAccepted, B.ConfigOf, B.ConfigOk, TP.Chain, TP.TrustInv, TP.Reloadable,
         PolicyAdmits;
    TP.InvStoresFloor(env, trust.state);
    TP.EmptyChain(env, trust.state);
    AcceptedConfigIsOk(env);
    assert trust.trace[|trust.trace|..] == [];
    var decoded := env.envelope(raw);
    if decoded.None? {
      return None;
    }
    if decoded.value.schemaVersion == "2.0" {
      var policyRaw := PolicyFile(trust.state, source);
      if policyRaw.None? {
        return None;
      }
      r := AcceptAndVerify(env, key, now, trust, raw, policyRaw.value);
    } else {
      if trust.state.state.Unreadable? || TP.FloorEpoch(trust.state.state) > 0 {
        return None;
      }
      r := B.VerifyEnvelopeWithPolicy(env, raw, key, None, now);
    }
  }
}
