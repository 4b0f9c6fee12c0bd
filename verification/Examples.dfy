/** Concrete launchers on which a property fails that holds of all others (prestarter/prestarter.go,
prestarter/trust_policy.go). */
module Examples {
  import opened Wrappers
  import opened Text
  import opened Environment
  import opened Releases
  import opened Prestarter
  import opened Switch
  import TP = TrustPolicy
  import B = Bootstrap

  const ZEROS: Digest := seq(64, _ => '0')
  const ONES: Digest := seq(64, _ => '1')
  const KEY: string := seq(32, _ => 'k')
  const SIGNATURE: string := seq(64, _ => 's')

  const LONG: string := seq(TP.MAX_POLICY_BYTES + 1, _ => ' ')

  const ARTIFACT := Artifact("https://example.org/x", ONES, 1)

  const TARGET := Target("linux", "amd64",
                         [Component("runtime", ARTIFACT), Component("desktop", ARTIFACT), Component("guard", ARTIFACT)])

  const CONFIG := Config("1.0", "project", "profile", "stable", "key", ARTIFACT, ARTIFACT, [TARGET], [])

  const POLICY := Policy("1.0", TP.TRUST_DOMAIN, 1, "now", "later",
                         [TrustKey("k", "bootstrap", "key", "active", "now", "")])

  function Instant(s: string): int {
    if s == "later" then 10 else 0
  }

  function PayloadIn(s: string): string {
    if s == "other" then "second" else "first"
  }

  /** The envelopes "old" and "new" carry one payload, "other" carries another; every policy file says the same, and
  re-marshalling one makes it a byte too long. */
  function Env0(): Env {
    Env(s => if s == "old" || s == "second" then ZEROS else ONES,
        (k, m, s) => true,
        s => Some(KEY),
        s => Some(KEY),
        s => KEY,
        s => Some(Instant(s)),
        s => Some(PolicyEnvelope("1.0", Some("policy"), Some(SIGNATURE))),
        s => Some(POLICY),
        s => Some(Envelope("", 0, "", "1.0", Some(PayloadIn(s)), Some(SIGNATURE))),
        s => Some(CONFIG),
        s => LONG,
        s => true,
        c => true)
  }

  function Context0(): Context {
    Context(Env0(), "key", 0, "linux", "amd64", TP.TrustFiles(TP.NoState, None))
  }

  const CURRENT := Record(2, ONES, "linux-amd64", ONES + "-linux-amd64", ZEROS)

  const DIRECTORY := Directory(Some("old"), map["runtime" := "x", "launcher-desktop" := "x", "guard" := "x"])

  const DISK := Disk(Some(CURRENT), None, None, map[CURRENT.release := DIRECTORY])

  /** The same release, current at the last generation but one. */
  const LAST := CURRENT.(generation := 0xFFFF_FFFF_FFFF_FFFE)

  const LAST_DISK := DISK.(slot0 := Some(LAST))

  lemma ConfigIsOk()
    ensures B.ConfigOk(Env0(), CONFIG)
  {
    assert B.ArtifactOk(Env0(), ARTIFACT);
    assert B.ComponentsOk(Env0(), TARGET.components);
    assert B.TargetOk(Env0(), TARGET) && B.TargetsOk(Env0(), CONFIG.targets);
    assert B.ValidID("project") && B.ValidID("profile") && B.ValidID("stable");
  }

  lemma ConfigVerifies(raw: string)
    requires |raw| <= 10
    ensures VerifyConfig(Context0(), raw) == Some((CONFIG, if raw == "other" then ZEROS else ONES))
    ensures B.SelectTarget(CONFIG.targets, "linux", "amd64") == Some(TARGET)
  {
    var c := Context0();
    ConfigIsOk();
    hide B.ConfigOk;
    assert B.EnvelopeAccepted(c.env, raw, c.key, None, c.now);
  }

  lemma CurrentIsValid()
    ensures ReleaseValid(Context0(), DISK, CURRENT)
  {
    var c := Context0();
    ConfigVerifies("old");
    ComponentsAreThere();
    hide VerifyConfig, ComponentsPresent;
    assert c.env.sha("old") == ZEROS;
    assert DirectoryValid(c, DIRECTORY, ONES, ZEROS);
    hide DirectoryValid;
    assert Platform(c) == "linux-amd64";
  }

  lemma ComponentsAreThere()
    ensures ComponentsPresent(Context0(), DIRECTORY.files, TARGET.components)
  {
    var c := Context0();
    assert ComponentName(c, "runtime") == "runtime" && ComponentName(c, "guard") == "guard";
    assert ComponentName(c, "desktop") == "launcher-desktop";
    assert HashFile(c.env, Some("x"), ARTIFACT);
  }

  lemma LastIsValid()
    ensures ReleaseValid(Context0(), LAST_DISK, LAST)
  {
    hide ReleaseValid;
    CurrentIsValid();
    GenerationDoesNotMatter(Context0(), DISK, CURRENT, LAST.generation);
    SameReleasesSameVerdicts(Context0(), DISK, LAST_DISK);
  }

  /** Crash safety fails here: the release "new" would replace the current one's directory, and one of the states on
  the way leaves neither current. */
  lemma ResignedPayloadIsExposed()
    ensures Current(Context0(), DISK) == Some(CURRENT)
    ensures !Protected(Context0(), DISK, Desired(Context0(), ONES, "new"))
    ensures exists e :: Installing(Context0(), DISK, e, Desired(Context0(), ONES, "new"))
                        && !Safe(Context0(), e, CURRENT, Desired(Context0(), ONES, "new"))
  {
    CurrentIsValid();
    var want := Desired(Context0(), ONES, "new");
    assert "linux" + "-" + "amd64" == "linux-amd64" && want.release == CURRENT.release;
    assert ZEROS[0] != ONES[0] && "old" != "new";
    assert Env0().sha("new") == ONES && Env0().sha("old") == ZEROS;
    SafeExactlyWhenProtected(Context0(), DISK, ONES, "new");
  }

  /** The rollback fails here though nothing else does: the switch takes the last generation, and taking it back
  would need one more. */
  lemma LastGenerationStays()
    ensures Prepared(Context0(), TARGET.components, ZEROS, "other")
    ensures QuietOutcome(Context0(), LAST_DISK, Desired(Context0(), ZEROS, "other"), false)
            == Failure(RollbackFailed)
  {
    LastIsValid();
    ConfigVerifies("other");
    hide VerifyConfig, ReleaseValid;
    var want := Desired(Context0(), ZEROS, "other");
    assert ZEROS[0] != ONES[0];
    assert want.release[0] == '0' && CURRENT.release[0] == '1';
  }

  /** A policy is accepted and in force here, and cannot be read again. */
  lemma OversizedPolicyIsLost()
    ensures TP.CompactKeeps(Env0())
    ensures var plan := TP.AcceptPlan(Env0(), TP.TrustFiles(TP.NoState, None), "key", "p", 0);
            && plan != [] && plan[|plan| - 1].active.Some?
            && !TP.PolicyAccepted(Env0(), plan[|plan| - 1].active.value, "key", 0)
  {
    var k := POLICY.keys[0];
    assert TP.ValidTrustID("k") && TP.KeyOk(Env0(), k, 10);
    assert POLICY.keys[0].status == "active";
    assert TP.KeysOk(Env0(), POLICY.keys, 10);
    assert Env0().parseTime("later") == Some(10) && Env0().parseTime("now") == Some(0);
    assert TP.PolicyOk(Env0(), POLICY, 0);
    assert TP.PolicyAccepted(Env0(), "p", "key", 0);
  }
}
