/** `Run` as a whole, any number of runs after one another, and what the trust floor means for releases
(prestarter/prestarter.go). */
module Runs {
  import opened Wrappers
  import opened Text
  import opened Environment
  import opened Devices
  import opened Releases
  import opened Prestarter
  import opened Switch
  import TP = TrustPolicy
  import B = Bootstrap

  // ---------------------------------------------------------------- releases and the epoch floor

  /** The epoch an envelope is bound to; version 1 envelopes belong to the time before delegation. */
  function EnvelopeEpoch(e: Envelope): UInt64 {
    if e.schemaVersion == "2.0" then e.trustEpoch else 0
  }

  /** Every release a run accepts was signed at the stored floor, by the one active bootstrap key its envelope
  names, or is a version 1 envelope while there is no floor. */
  lemma AcceptedAtTheFloor(c: Context, d: Disk, r: Record)
    requires Aligned(c.env, c.trust) && ReleaseValid(c, d, r)
    ensures var raw := d.releases[r.release].config.value;
            var e := c.env.envelope(raw).value;
            && EnvelopeEpoch(e) == TP.FloorEpoch(c.trust.state)
            && if e.schemaVersion == "2.0" then
                 var keys := TP.PolicyOf(c.env, c.trust.active.value).value.0.keys;
                 e.payload.Some? && e.signature.Some? && exists i :: B.SoleActiveSigner(c.env, keys, i, e, c.now)
               else
                 // ... and then the pinned root has signed its bare payload.
                 && (c.trust.state.NoState? || (c.trust.state.Floor? && c.trust.state.epoch == 0))
                 && e.schemaVersion == "1.0" && e.payload.Some? && e.signature.Some? && c.env.rootKey(c.key).Some?
                 && c.env.verify(c.env.rootKey(c.key).value, e.payload.value, e.signature.value)
  {
    var raw := d.releases[r.release].config.value;
    var e := c.env.envelope(raw).value;
    VerifiedConfig(c, raw);
    if e.schemaVersion == "2.0" {
      B.AcceptedBySoleActiveSigner(c.env, raw, c.key, c.trust.active.value, c.now);
    }
  }

  /** The directory holds a version 2 envelope. */
  predicate Delegated(env: Env, dir: Directory) {
    && dir.config.Some? && env.envelope(dir.config.value).Some?
    && env.envelope(dir.config.value).value.schemaVersion == "2.0"
  }

  /** Between the write of the floor and that of the policy, the previous policy still decides: the releases that
  verify are the version 2 ones that verified before, all of them signed for an epoch below the new floor. Presenting
  the policy again completes the plan. */
  lemma PreviousPolicyStillDecides(c: Context, raw: string, now: int)
    requires TP.TrustInv(c.env, c.trust) && |TP.AcceptPlan(c.env, c.trust, c.key, raw, now)| == 2
    ensures var plan := TP.AcceptPlan(c.env, c.trust, c.key, raw, now);
            var between := c.(trust := plan[0]);
            && TP.FloorEpoch(c.trust.state) < TP.FloorEpoch(plan[0].state)
            && (forall d: Disk, r: Record ::
                  ReleaseValid(between, d, r) <==> ReleaseValid(c, d, r) && Delegated(c.env, d.releases[r.release]))
            && (forall d: Disk, r: Record | ReleaseValid(between, d, r) ::
                  SignedBefore(c.env, d.releases[r.release], TP.FloorEpoch(plan[0].state)))
            && TP.AcceptPlan(c.env, plan[0], c.key, raw, now) == [plan[1]]
  {
    hide TP.PolicyAccepted, TP.PolicyOf, B.ConfigOf, B.EnvelopeAccepted;
    var plan := TP.AcceptPlan(c.env, c.trust, c.key, raw, now);
    var between := c.(trust := plan[0]);
    assert plan[0].active == c.trust.active && TP.FloorEpoch(plan[0].state) > 0;
    forall d: Disk, r: Record
      ensures ReleaseValid(between, d, r) <==> ReleaseValid(c, d, r) && Delegated(c.env, d.releases[r.release])
    {
      if r.release in d.releases && d.releases[r.release].config.Some? {
        var config := d.releases[r.release].config.value;
        assert VerifyConfig(between, config) ==
               if Delegated(c.env, d.releases[r.release]) then VerifyConfig(c, config) else None;
      }
    }
    forall d: Disk, r: Record | ReleaseValid(between, d, r)
      ensures SignedBefore(c.env, d.releases[r.release], TP.FloorEpoch(plan[0].state))
    {
      B.AcceptedBySoleActiveSigner(c.env, d.releases[r.release].config.value, c.key, c.trust.active.value, c.now);
    }
  }

  // ---------------------------------------------------------------- Run

  /** The config passes every check `Run` makes before it touches the launcher. */
  predicate Installable(env: Env, key: string, now: int, os: string, arch: string,
                        files: TP.TrustFiles, raw: string, source: PolicySource)
  {
    && Establishes(env, key, now, files, raw, source) && B.ConfigOf(env, raw).Some?
    && var cfg := B.ConfigOf(env, raw).value.0;
    && (env.envelope(raw).value.schemaVersion == "2.0" ==> Lower(cfg.profilePublicKey) == Lower(key))
    && B.SelectTarget(cfg.targets, os, arch).Some?
  }

  /** Which configs that is, spelled out. */
  lemma InstallableExactly(env: Env, key: string, now: int, os: string, arch: string,
                           files: TP.TrustFiles, raw: string, source: PolicySource)
    ensures Installable(env, key, now, os, arch, files, raw, source) <==>
              && env.envelope(raw).Some? && B.ConfigOf(env, raw).Some?
              && var e, cfg := env.envelope(raw).value, B.ConfigOf(env, raw).value.0;
              && (exists t :: t in cfg.targets && t.os == os && t.arch == arch)
              && if e.schemaVersion == "2.0" then
                   && Lower(cfg.profilePublicKey) == Lower(key)
                   && exists policyRaw ::
                        && (if source.Installed? then files.active == Some(policyRaw)
                            else source.content == Some(policyRaw))
                        && TP.AcceptPlan(env, files, key, policyRaw, now) != []
                        && TP.PolicyOf(env, policyRaw).Some?
                        && B.EnvelopeAccepted(env, raw, key, Some(TP.PolicyOf(env, policyRaw).value.0), now)
                 else
                   && (files.state.NoState? || (files.state.Floor? && files.state.epoch == 0))
                   && B.EnvelopeAccepted(env, raw, key, None, now)
  {
    hide TP.AcceptPlan, TP.PolicyOf, B.EnvelopeAccepted, B.ConfigOf, Lower;
    if B.ConfigOf(env, raw).Some? {
      B.SelectsIfThere(B.ConfigOf(env, raw).value.0.targets, os, arch);
    }
    if PolicyFile(files, source).Some? {
      PlanIsOfPolicy(env, key, now, files, PolicyFile(files, source).value);
    }
  }

  /** The record the config `raw` asks for. */
  function Wanted(c: Context, raw: string): Record
    requires B.ConfigOf(c.env, raw).Some?
  {
    Desired(c, B.ConfigOf(c.env, raw).value.1, raw)
  }

  /** What a run that got past verification leaves: every crash was safe, success is the new launcher, and a failed
  start left the old one current, two generations up, or nothing if there was nothing. */
  ghost predicate SafelySwitched(c: Context, d: Disk, e: Disk, want: Record, t: seq<Disk>, from: nat,
                                 started: bool, result: Result<(), Error>)
  {
    && CrashSafe(c, d, want, t, from)
    && (result.Success? ==> started && SwitchedTo(c, d, e, want))
    && (result == Failure(StartFailed) ==> !started)
    && (result == Failure(StartFailed) && Current(c, d).Some? && Current(c, d).value.release != want.release ==>
          Current(c, e).Some? && RaisedByTwo(Current(c, d).value, Current(c, e).value))
    && (result == Failure(StartFailed) && d.slot0.None? && d.slot1.None? ==>
          e.slot0.None? && e.slot1.None? && Current(c, e).None?)
  }

  /** `prepareAndStart` is assumed to leave slots and releases alone; `started` is its outcome. */
  method Run(env: Env, key: string, now: int, os: string, arch: string,
             trust: Device<TP.TrustFiles>, dev: Device<Disk>, raw: string, source: PolicySource, started: bool)
      returns (r: Outcome)
    requires trust.Valid() && TP.CompactKeeps(env) && TP.TrustInv(env, trust.state)
    requires dev.Valid() && Parity(dev.state)
    modifies trust, dev
    ensures trust.Valid() && old(trust.trace) <= trust.trace && TP.TrustInv(env, trust.state)
    ensures TP.Chain(env, old(trust.state), trust.trace[|old(trust.trace)|..])
    ensures TP.Last(old(trust.state), trust.trace[|old(trust.trace)|..]) == trust.state
    ensures dev.Valid() && old(dev.trace) <= dev.trace && Parity(dev.state)
    ensures forall k | |old(dev.trace)| <= k < |dev.trace| :: Parity(dev.trace[k])
    // The launcher is only touched by a config verified against the floor, and then crash-safely.
    ensures r.Refused? ==> dev.trace == old(dev.trace)
    // A delegated config names the pinned root as the key of its profile.
    ensures r.Switched? ==>
              && env.envelope(raw).Some? && B.ConfigOf(env, raw).Some?
              && var cfg := B.ConfigOf(env, raw).value.0;
              && (env.envelope(raw).value.schemaVersion == "2.0" ==> Lower(cfg.profilePublicKey) == Lower(key))
              && exists t :: t in cfg.targets && t.os == os && t.arch == arch
    ensures r.Switched? ==>
              var c := Context(env, key, now, os, arch, trust.state);
              && B.ConfigOf(env, raw).Some? && Aligned(env, trust.state)
              && VerifyConfig(c, raw) == (if Lost(env, raw, trust.state) then None else B.ConfigOf(env, raw))
              && (r.result == Failure(NotVerifiedAfterInstall) ==> Lost(env, raw, trust.state))
              && SafelySwitched(c, old(dev.state), dev.state, Wanted(c, raw), dev.trace, |old(dev.trace)|, started,
                                r.result)
    // When nothing fails, exactly the installable configs get past verification, and the outcome is the one wanted.
    ensures trust.faults >= old(trust.faults) && dev.faults >= old(dev.faults)
    ensures trust.faults == old(trust.faults) ==>
              (r.Switched? <==> Installable(env, key, now, os, arch, old(trust.state), raw, source))
    ensures r.Switched? && dev.faults == old(dev.faults) && !Lost(env, raw, trust.state) ==>
              var c := Context(env, key, now, os, arch, trust.state);
              r.result == QuietOutcome(c, old(dev.state), Wanted(c, raw), started)
  {
    hide ReleaseValid, CrashSafe, SwitchedTo, TP.Chain, TP.TrustInv, Safe, VerifyConfig, Current, RaisedByTwo,
         Establishes, QuietOutcome, B.ConfigOk, B.ConfigOf, Lost;
    var verified := EstablishTrust(env, key, now, trust, raw, source);
    if verified.None? {
      return Refused;
    }
    ConfigHasEnvelope(env, raw);
    var (cfg, digest) := verified.value;
    var decoded := env.envelope(raw);
    if decoded.Some? && decoded.value.schemaVersion == "2.0" && Lower(cfg.profilePublicKey) != Lower(key) {
      return Refused;
    }
    var target := B.SelectTarget(cfg.targets, os, arch);
    if target.None? {
      return Refused;
    }
    ConfigTargets(env, cfg, os, arch);
    B.SelectsIfThere(cfg.targets, os, arch);
    var c := Context(env, key, now, os, arch, trust.state);
    assert Wanted(c, raw) == Desired(c, digest, raw);
    assert !Lost(env, raw, trust.state) ==> Prepared(c, target.value.components, digest, raw);
    hide Prepared, Desired;
    ghost var before, t0 := dev.state, dev.trace;
    var result := SwitchTo(c, dev, target.value.components, digest, raw, started);
    CrashSafeKeepsParity(c, before, Desired(c, digest, raw), dev.trace, |t0|);
    r := Switched(result);
  }

  lemma ConfigHasEnvelope(env: Env, raw: string)
    ensures B.ConfigOf(env, raw).Some? ==> env.envelope(raw).Some?
  {
  }

  lemma ConfigTargets(env: Env, cfg: Config, os: string, arch: string)
    requires B.ConfigOk(env, cfg) && B.SelectTarget(cfg.targets, os, arch).Some?
    ensures B.ComponentsOk(env, B.SelectTarget(cfg.targets, os, arch).value.components)
  {
    B.SelectsTheOnlyTarget(env, cfg.targets, os, arch);
  }

  lemma CrashSafeKeepsParity(c: Context, d: Disk, want: Record, t: seq<Disk>, from: nat)
    requires CrashSafe(c, d, want, t, from)
    ensures forall k | from <= k < |t| :: Parity(t[k])
  {
    hide Safe, ReleaseValid, Current;
  }

  /** One invocation of the program; each may be cut short anywhere. */
  datatype Invocation = Invocation(key: string, now: int, os: string, arch: string, raw: string,
                                   source: PolicySource, started: bool)

  /** One invocation and what became of it: the trust files it ended with, the launcher before and after it, and
  where its steps lie in the trace. */
  datatype Entry = Entry(call: Invocation, outcome: Outcome, trust: TP.TrustFiles,
                         before: Disk, after: Disk, from: nat, to: nat)

  function At(env: Env, e: Entry): Context {
    Context(env, e.call.key, e.call.now, e.call.os, e.call.arch, e.trust)
  }

  /** The steps of the run are those of `t` between `from` and `to`, and they are what `Run` promises. */
  ghost predicate Recorded(env: Env, e: Entry, t: seq<Disk>) {
    && 0 < e.from <= e.to <= |t| && t[e.from - 1] == e.before && t[e.to - 1] == e.after
    && (e.outcome.Refused? ==> e.from == e.to)
    && (e.outcome.Switched? ==>
          && B.ConfigOf(env, e.call.raw).Some? && Aligned(env, e.trust)
          && SafelySwitched(At(env, e), e.before, e.after, Wanted(At(env, e), e.call.raw), t[..e.to], e.from,
                            e.call.started, e.outcome.result))
  }

  lemma RecordedLater(env: Env, e: Entry, t: seq<Disk>, u: seq<Disk>)
    requires Recorded(env, e, t) && t <= u
    ensures Recorded(env, e, u)
  {
    hide SafelySwitched, Aligned, B.ConfigOf;
    assert t[..e.to] == u[..e.to];
  }

  /** No release signed for an epoch below `epoch` verifies, on whatever disk and with whatever record. */
  ghost predicate Retired(c: Context, epoch: UInt64) {
    forall d: Disk, r: Record | r.release in d.releases && SignedBefore(c.env, d.releases[r.release], epoch) ::
      !ReleaseValid(c, d, r)
  }

  /** The directory holds an envelope of an earlier epoch. */
  predicate SignedBefore(env: Env, dir: Directory, epoch: UInt64) {
    && dir.config.Some? && env.envelope(dir.config.value).Some?
    && EnvelopeEpoch(env.envelope(dir.config.value).value) < epoch
  }

  lemma FloorRetires(c: Context, s: TP.StateFile)
    requires Aligned(c.env, c.trust) && TP.Ratchets(s, c.trust.state)
    ensures Retired(c, TP.FloorEpoch(s))
  {
    hide ReleaseValid, Aligned;
    forall d: Disk, r: Record | r.release in d.releases && SignedBefore(c.env, d.releases[r.release], TP.FloorEpoch(s))
      ensures !ReleaseValid(c, d, r)
    {
      if ReleaseValid(c, d, r) {
        AcceptedAtTheFloor(c, d, r);
      }
    }
  }

  /** Once the floor has passed a release's epoch, it never verifies again, whatever key, clock, disk or record is used,
  in any later state of the trust files in which the active policy is the one the floor names. */
  lemma RetiredForGood(env: Env, files: TP.TrustFiles, calls: seq<TP.Call>, i: nat, j: nat, c: Context)
    requires TP.CompactKeeps(env) && TP.TrustInv(env, files) && c.env == env && Aligned(env, c.trust)
    ensures var h := TP.History(env, files, calls);
            i <= j < |h| && c.trust == h[j] ==> Retired(c, TP.FloorEpoch(h[i].state))
  {
    hide TP.History, TP.TrustInv, TP.Ratchets, TP.Chain, Aligned, Retired;
    TP.InvStoresFloor(env, files);
    TP.HistoryIsChain(env, files, calls);
    var h := TP.History(env, files, calls);
    if i <= j < |h| && c.trust == h[j] {
      TP.ChainRatchetsAt(env, files, h, i, j);
      FloorRetires(c, h[i].state);
    }
  }

  lemma ChainIsRatchet(env: Env, files: TP.TrustFiles, t: seq<TP.TrustFiles>)
    requires TP.StoredFloor(files.state) && TP.Chain(env, files, t)
    ensures TP.Ratchets(files.state, TP.Last(files, t).state)
  {
    hide TP.Chain;
    TP.ChainRatchets(env, files, t, 0, |t|);
    assert t[..0] == [] && t[..|t|] == t;
  }

  lemma RatchetsTwice(s: TP.StateFile, t: TP.StateFile, u: TP.StateFile)
    requires TP.Ratchets(s, t) && TP.Ratchets(t, u)
    ensures TP.Ratchets(s, u)
  {
  }

  /** Where run `n` begins: where the one before it ended. */
  function Begin(log: seq<Entry>, n: nat): nat
    requires n <= |log|
  {
    if n == 0 then 1 else log[n - 1].to
  }

  /** The log lists the runs made so far, each as `Run` promises it; together they account for every step of `t`. */
  ghost predicate Accounts(env: Env, log: seq<Entry>, runs: seq<Invocation>, t: seq<Disk>) {
    && |log| <= |runs| && |t| == Begin(log, |log|)
    && forall n | 0 <= n < |log| :: log[n].call == runs[n] && Recorded(env, log[n], t) && log[n].from == Begin(log, n)
  }

  lemma OneMoreRun(env: Env, log: seq<Entry>, e: Entry, runs: seq<Invocation>, t: seq<Disk>, u: seq<Disk>)
    requires |log| < |runs| && e.call == runs[|log|] && e.from == |t| && e.to == |u| && t <= u
    ensures Accounts(env, log, runs, t) && Recorded(env, e, u) ==> Accounts(env, log + [e], runs, u)
  {
    hide Recorded;
    if !Accounts(env, log, runs, t) || !Recorded(env, e, u) {
      return;
    }
    var all := log + [e];
    forall n | 0 <= n < |all|
      ensures all[n].call == runs[n] && Recorded(env, all[n], u) && all[n].from == Begin(all, n)
    {
      assert Begin(all, n) == Begin(log, n);
      if n < |log| {
        RecordedLater(env, log[n], t, u);
      }
    }
  }

  /** A run that gets past verification accepts no release of an epoch that the floor had passed when it, or any run
  before it, ended. */
  ghost predicate Retires(env: Env, log: seq<Entry>) {
    forall m, n | 0 <= m <= n < |log| && log[n].outcome.Switched? ::
      Retired(At(env, log[n]), TP.FloorEpoch(log[m].trust.state))
  }

  /** Every run so far ended with a floor that the floor in `files` follows. */
  ghost predicate Leads(log: seq<Entry>, files: TP.TrustFiles) {
    forall m | 0 <= m < |log| :: TP.Ratchets(log[m].trust.state, files.state)
  }

  lemma OneMoreFloor(env: Env, log: seq<Entry>, e: Entry, files: TP.TrustFiles)
    requires Retires(env, log) && Leads(log, files)
    requires TP.Ratchets(files.state, e.trust.state) && (e.outcome.Switched? ==> Aligned(env, e.trust))
    ensures Retires(env, log + [e]) && Leads(log + [e], e.trust)
  {
    hide Aligned, Retired, TP.FloorEpoch;
    forall m | 0 <= m <= |log|
      ensures TP.Ratchets((log + [e])[m].trust.state, e.trust.state)
    {
      if m < |log| {
        RatchetsTwice(log[m].trust.state, files.state, e.trust.state);
      }
    }
    var all := log + [e];
    forall m, n | 0 <= m <= n < |all| && all[n].outcome.Switched?
      ensures Retired(At(env, all[n]), TP.FloorEpoch(all[m].trust.state))
    {
      if n == |log| {
        FloorRetires(At(env, e), all[m].trust.state);
      } else {
        assert all[n] == log[n] && all[m] == log[m];
      }
    }
  }

  /** Any sequence of runs from an empty root.  A run that is cut short is one whose later steps all fail, so the
  runs below include those that end at any of their crash points.  Every run is as safe as `Run` says, on the disk
  the runs before it left; the trust files ratchet; and what the floor has retired no later run accepts. */
  method RunRepeatedly(env: Env, trust: Device<TP.TrustFiles>, dev: Device<Disk>, runs: seq<Invocation>)
      returns (ghost log: seq<Entry>)
    requires TP.CompactKeeps(env) && trust.Valid() && trust.trace == [TP.TrustFiles(TP.NoState, None)]
    requires dev.Valid() && dev.trace == [Disk(None, None, None, map[])]
    modifies trust, dev
    ensures forall k | 0 <= k < |dev.trace| :: Parity(dev.trace[k])
    ensures forall i, j | 0 <= i <= j < |trust.trace| ::
              TP.TrustInv(env, trust.trace[j]) && TP.Ratchets(trust.trace[i].state, trust.trace[j].state)
    ensures |log| == |runs| && Accounts(env, log, runs, dev.trace) && Retires(env, log)
  {
    hide TP.Chain, TP.TrustInv, TP.Ratchets, SafelySwitched, ReleaseValid, Aligned, VerifyConfig, QuietOutcome, Lost,
         Recorded, Accounts, Retires, Leads, B.ConfigOf, Installable, TP.FloorEpoch;
    ghost var start := TP.TrustFiles(TP.NoState, None);
    TP.EmptyFilesAreFine(env);
    TP.EmptyChain(env, start);
    assert trust.trace[1..] == [];
    log := [];
    EmptyLog(env, runs, dev.trace, trust.state);
    for n := 0 to |runs|
      invariant trust.Valid() && TP.TrustInv(env, trust.state) && dev.Valid() && Parity(dev.state)
      invariant forall k | 0 <= k < |dev.trace| :: Parity(dev.trace[k])
      invariant trust.trace[0] == start && TP.Chain(env, start, trust.trace[1..])
      invariant TP.Last(start, trust.trace[1..]) == trust.state
      invariant |log| == n && Accounts(env, log, runs, dev.trace) && Retires(env, log) && Leads(log, trust.state)
    {
      ghost var files, t, d, u := trust.state, trust.trace, dev.state, dev.trace;
      var i := runs[n];
      var outcome := Run(env, i.key, i.now, i.os, i.arch, trust, dev, i.raw, i.source, i.started);
      ghost var e := Entry(i, outcome, trust.state, d, dev.state, |u|, |dev.trace|);
      TP.ChainConcat(env, start, t[1..], trust.trace[|t|..]);
      assert trust.trace[1..] == t[1..] + trust.trace[|t|..];
      TP.InvStoresFloor(env, files);
      ChainIsRatchet(env, files, trust.trace[|t|..]);
      NowRecorded(env, e, dev.trace);
      OneMoreRun(env, log, e, runs, u, dev.trace);
      OneMoreFloor(env, log, e, files);
      log := log + [e];
    }
    TP.ChainFromEmpty(env, trust.trace);
  }

  lemma EmptyLog(env: Env, runs: seq<Invocation>, t: seq<Disk>, files: TP.TrustFiles)
    requires |t| == 1
    ensures Accounts(env, [], runs, t) && Retires(env, []) && Leads([], files)
  {
  }

  lemma NowRecorded(env: Env, e: Entry, t: seq<Disk>)
    requires 0 < e.from <= e.to == |t| && t[e.from - 1] == e.before && t[e.to - 1] == e.after
    requires e.outcome.Refused? ==> e.from == e.to
    requires e.outcome.Switched? ==>
               && B.ConfigOf(env, e.call.raw).Some? && Aligned(env, e.trust)
               && SafelySwitched(At(env, e), e.before, e.after, Wanted(At(env, e), e.call.raw), t, e.from,
                                 e.call.started, e.outcome.result)
    ensures Recorded(env, e, t)
  {
    hide SafelySwitched, Aligned, B.ConfigOf;
    assert t[..e.to] == t;
  }
}
