/** The root-signed trust policy and the ratchet that keeps its epoch from going back
(prestarter/trust_policy.go). */
module TrustPolicy {
  import opened Wrappers
  import opened Text
  import opened Environment
  import opened Devices

  const TRUST_DOMAIN := "launcher.trust.v1"
  const MAX_POLICY_BYTES := 128 * 1024
  const POLICY_PREFIX := "Launcher-Trust-Policy-v1\n"
  const BOOTSTRAP_PREFIX := "Launcher-Bootstrap-v2\n"

  // ---------------------------------------------------------------- verification

  predicate IsTrustIdChar(c: char) {
    'a' <= c <= 'z' || 'A' <= c <= 'Z' || '0' <= c <= '9' || c == '-' || c == '_' || c == '.'
  }

  predicate ValidTrustID(s: string) {
    s != "" && forall i | 0 <= i < |s| :: IsTrustIdChar(s[i])
  }

  /** The rules for one delegated key that do not involve the other keys. */
  predicate KeyOk(env: Env, k: TrustKey, expiry: int) {
    && |k.id| <= 100 && ValidTrustID(k.id)
    && k.role in {"bootstrap", "component", "game", "release"}
    && env.hex(k.publicKey).Some? && |env.hex(k.publicKey).value| == 32
    && k.status in {"active", "verify-only", "revoked"}
    && env.parseTime(k.notBefore).Some? && env.parseTime(k.notBefore).value <= expiry
    && (k.status == "verify-only" ==>
          && env.parseTime(k.verifyUntil).Some?
          && var since, until := env.parseTime(k.notBefore).value, env.parseTime(k.verifyUntil).value;
          since < until <= expiry && until - since <= 90 * DAY)
  }

  predicate SameKey(a: TrustKey, b: TrustKey) {
    a.id == b.id || Lower(a.publicKey) == Lower(b.publicKey)
  }

  predicate DistinctKeys(keys: seq<TrustKey>) {
    forall i, j | 0 <= i < j < |keys| :: !SameKey(keys[i], keys[j])
  }

  predicate SomeActive(keys: seq<TrustKey>) {
    exists i | 0 <= i < |keys| :: keys[i].status == "active"
  }

  predicate KeysOk(env: Env, keys: seq<TrustKey>, expiry: int) {
    && (forall i | 0 <= i < |keys| :: KeyOk(env, keys[i], expiry))
    && DistinctKeys(keys)
    && SomeActive(keys)
  }

  predicate WindowOk(issued: int, expiry: int, now: int) {
    issued <= now + 5 * MINUTE && now < expiry && issued < expiry && expiry - issued <= 90 * DAY
  }

  predicate PolicyOk(env: Env, p: Policy, now: int) {
    && p.schemaVersion == "1.0" && p.domain == TRUST_DOMAIN && p.epoch != 0 && 0 < |p.keys| <= 128
    && env.parseTime(p.issuedAt).Some? && env.parseTime(p.expiresAt).Some?
    && WindowOk(env.parseTime(p.issuedAt).value, env.parseTime(p.expiresAt).value, now)
    && KeysOk(env, p.keys, env.parseTime(p.expiresAt).value)
  }

  /** The policy a file holds and the digest of its signed bytes, before any check of signature or time. */
  function PolicyOf(env: Env, raw: string): Option<(Policy, Digest)> {
    match env.policyEnvelope(raw)
    case None => None
    case Some(e) =>
      if e.payload.None? || env.policy(e.payload.value).None? then None
      else Some((env.policy(e.payload.value).value, env.sha(e.payload.value)))
  }

  predicate SignedByRoot(env: Env, e: PolicyEnvelope, rootHex: string) {
    && env.rootKey(rootHex).Some? && |env.rootKey(rootHex).value| == 32
    && e.schemaVersion == "1.0"
    && e.payload.Some? && |e.payload.value| <= 96 * 1024
    && e.rootSignature.Some? && |e.rootSignature.value| == 64
    && env.verify(env.rootKey(rootHex).value, POLICY_PREFIX + e.payload.value, e.rootSignature.value)
  }

  predicate PolicyAccepted(env: Env, raw: string, rootHex: string, now: int) {
    && 0 < |raw| <= MAX_POLICY_BYTES
    && env.policyEnvelope(raw).Some? && SignedByRoot(env, env.policyEnvelope(raw).value, rootHex)
    && PolicyOf(env, raw).Some? && PolicyOk(env, PolicyOf(env, raw).value.0, now)
  }

  /** What is required of one key, spelled out. */
  lemma KeyOkExactly(env: Env, k: TrustKey, expiry: int)
    ensures KeyOk(env, k, expiry) <==>
              && 1 <= |k.id| <= 100
              && (forall c | c in k.id ::
                    'a' <= c <= 'z' || 'A' <= c <= 'Z' || '0' <= c <= '9' || c in {'-', '_', '.'})
              && (k.role == "bootstrap" || k.role == "component" || k.role == "game" || k.role == "release")
              && env.hex(k.publicKey).Some? && |env.hex(k.publicKey).value| == 32
              && env.parseTime(k.notBefore).Some?
              && var since := env.parseTime(k.notBefore).value;
              && since <= expiry
              && (|| k.status == "active" || k.status == "revoked"
                  || (&& k.status == "verify-only" && env.parseTime(k.verifyUntil).Some?
                      && var until := env.parseTime(k.verifyUntil).value;
                      since < until <= expiry && until <= since + 90 * 24 * 60 * 60 * 1_000_000_000))
  {
    if forall c | c in k.id :: 'a' <= c <= 'z' || 'A' <= c <= 'Z' || '0' <= c <= '9' || c in {'-', '_', '.'} {
      assert forall i | 0 <= i < |k.id| :: k.id[i] in k.id;
    }
  }

  /** No two keys share an id or, whatever its case, a public key; at least one key is active. */
  lemma KeysOkExactly(env: Env, keys: seq<TrustKey>, expiry: int)
    ensures KeysOk(env, keys, expiry) <==>
              && (forall k | k in keys :: KeyOk(env, k, expiry))
              && (forall i, j | 0 <= i < |keys| && 0 <= j < |keys| && i != j ::
                    keys[i].id != keys[j].id && Lower(keys[i].publicKey) != Lower(keys[j].publicKey))
              && exists k :: k in keys && k.status == "active"
  {
    hide KeyOk, Lower;
    if KeysOk(env, keys, expiry) {
      forall i, j | 0 <= i < |keys| && 0 <= j < |keys| && i != j
        ensures !SameKey(keys[i], keys[j])
      {
        assert i < j || !SameKey(keys[j], keys[i]);
      }
      var i :| 0 <= i < |keys| && keys[i].status == "active";
      assert keys[i] in keys;
    }
  }

  /** Which policy files are accepted: every size, prefix and date. */
  lemma PolicyAcceptedExactly(env: Env, raw: string, rootHex: string, now: int)
    ensures PolicyAccepted(env, raw, rootHex, now) <==>
              && 1 <= |raw| <= 131072
              && env.rootKey(rootHex).Some? && |env.rootKey(rootHex).value| == 32
              && env.policyEnvelope(raw).Some?
              && var e := env.policyEnvelope(raw).value;
              && e.schemaVersion == "1.0" && e.payload.Some? && |e.payload.value| <= 98304
              && e.rootSignature.Some? && |e.rootSignature.value| == 64
              && env.verify(env.rootKey(rootHex).value, "Launcher-Trust-Policy-v1\n" + e.payload.value,
                            e.rootSignature.value)
              && env.policy(e.payload.value).Some?
              && var p := env.policy(e.payload.value).value;
              && p.schemaVersion == "1.0" && p.domain == "launcher.trust.v1" && p.epoch >= 1 && 1 <= |p.keys| <= 128
              && env.parseTime(p.issuedAt).Some? && env.parseTime(p.expiresAt).Some?
              && var issued, expiry := env.parseTime(p.issuedAt).value, env.parseTime(p.expiresAt).value;
              && issued <= now + 5 * 60 * 1_000_000_000 && now < expiry
              && issued < expiry <= issued + 90 * 24 * 60 * 60 * 1_000_000_000
              && KeysOk(env, p.keys, expiry)
  {
    hide KeysOk;
  }

  /** The keys are checked in one pass that remembers the ids and public keys already seen. */
  method CheckKeys(env: Env, keys: seq<TrustKey>, expiry: int) returns (ok: bool)
    ensures ok <==> KeysOk(env, keys, expiry)
  {
    hide KeyOk, Lower;
    var ids: set<string>, pubs: set<string> := {}, {};
    var active := 0;
    for n := 0 to |keys|
      invariant forall i | 0 <= i < n :: KeyOk(env, keys[i], expiry)
      invariant DistinctKeys(keys[..n])
      invariant ids == set i | 0 <= i < n :: keys[i].id
      invariant pubs == set i | 0 <= i < n :: Lower(keys[i].publicKey)
      invariant active >= 0 && (active > 0 <==> SomeActive(keys[..n]))
    {
      var k := keys[n];
      assert keys[..n + 1] == keys[..n] + [k];
      if !KeyOk(env, k, expiry) {
        return false;
      }
      if k.id in ids || Lower(k.publicKey) in pubs {
        assert exists i | 0 <= i < n :: SameKey(keys[i], keys[n]);
        return false;
      }
      ids, pubs := ids + {k.id}, pubs + {Lower(k.publicKey)};
      if k.status == "active" {
        active := active + 1;
        assert keys[..n + 1][n].status == "active";
      }
    }
    assert keys[..|keys|] == keys;
    return active > 0;
  }

  method VerifyTrustPolicy(env: Env, raw: string, rootHex: string, now: int) returns (r: Option<(Policy, Digest)>)
    ensures r == if PolicyAccepted(env, raw, rootHex, now) then PolicyOf(env, raw) else None
    // What is returned is in force at `now`, and was signed by the root key.
    ensures r.Some? ==>
              var p := r.value.0;
              && env.parseTime(p.issuedAt).Some? && env.parseTime(p.expiresAt).Some?
              && env.parseTime(p.issuedAt).value <= now + 300_000_000_000 && now < env.parseTime(p.expiresAt).value
              && env.parseTime(p.issuedAt).value < env.parseTime(p.expiresAt).value
    ensures r.Some? ==>
              && env.rootKey(rootHex).Some? && env.policyEnvelope(raw).Some?
              && var e := env.policyEnvelope(raw).value;
              && e.payload.Some? && e.rootSignature.Some? && r.value.1 == env.sha(e.payload.value)
              && env.policy(e.payload.value) == Some(r.value.0)
              && env.verify(env.rootKey(rootHex).value, "Launcher-Trust-Policy-v1\n" + e.payload.value,
                            e.rootSignature.value)
  {
    var e := env.policyEnvelope(raw);
    if !(0 < |raw| <= MAX_POLICY_BYTES) || e.None? || !SignedByRoot(env, e.value, rootHex) || PolicyOf(env, raw).None? {
      return None;
    }
    var p := PolicyOf(env, raw).value.0;
    if p.schemaVersion != "1.0" || p.domain != TRUST_DOMAIN || p.epoch == 0 || p.keys == [] || |p.keys| > 128 {
      return None;
    }
    var issued, expiry := env.parseTime(p.issuedAt), env.parseTime(p.expiresAt);
    if issued.None? || expiry.None? || !WindowOk(issued.value, expiry.value, now) {
      return None;
    }
    var ok := CheckKeys(env, p.keys, expiry.value);
    r := if ok then PolicyOf(env, raw) else None;
  }

  /** Whether key `k` may have signed at `signedAt`. */
  predicate Permits(env: Env, k: TrustKey, signedAt: int, now: int, requireActive: bool) {
    && k.status != "revoked"
    && (requireActive ==> k.status == "active")
    && (env.parseTime(k.notBefore).Some? ==> env.parseTime(k.notBefore).value <= signedAt)
    && signedAt <= now + 5 * MINUTE
    && (k.status == "verify-only" ==>
          && env.parseTime(k.verifyUntil).Some?
          && signedAt < env.parseTime(k.verifyUntil).value && now < env.parseTime(k.verifyUntil).value)
  }

  /** The first listed key with this role, id and public key decides. */
  predicate Authorize(env: Env, keys: seq<TrustKey>, role: string, id: string, pub: string,
                      signedAt: int, now: int, requireActive: bool)
  {
    if keys == [] then false
    else if keys[0].role == role && keys[0].id == id && Lower(keys[0].publicKey) == Lower(pub) then
      Permits(env, keys[0], signedAt, now, requireActive)
    else
      Authorize(env, keys[1..], role, id, pub, signedAt, now, requireActive)
  }

  /** In any list of keys, the first with this role, id and public key, whatever its case, decides. */
  lemma {:induction false} AuthorizeExactly(env: Env, keys: seq<TrustKey>, role: string, id: string, pub: string,
                                            signedAt: int, now: int, requireActive: bool)
    ensures Authorize(env, keys, role, id, pub, signedAt, now, requireActive) <==>
              exists i ::
                && 0 <= i < |keys| && keys[i].role == role && keys[i].id == id
                && Lower(keys[i].publicKey) == Lower(pub) && Permits(env, keys[i], signedAt, now, requireActive)
                && forall j | 0 <= j < i ::
                     !(keys[j].role == role && keys[j].id == id && Lower(keys[j].publicKey) == Lower(pub))
  {
    hide Permits, Lower;
    if keys != [] {
      AuthorizeExactly(env, keys[1..], role, id, pub, signedAt, now, requireActive);
      assert forall i | 0 <= i < |keys[1..]| :: keys[1..][i] == keys[i + 1];
      if i :| && 0 <= i < |keys[1..]| && keys[1..][i].role == role && keys[1..][i].id == id
              && Lower(keys[1..][i].publicKey) == Lower(pub) && Permits(env, keys[1..][i], signedAt, now, requireActive)
              && forall j | 0 <= j < i :: !(keys[1..][j].role == role && keys[1..][j].id == id
                                            && Lower(keys[1..][j].publicKey) == Lower(pub)) {
        assert keys[i + 1] == keys[1..][i];
        assert forall j | 0 < j < i + 1 :: keys[j] == keys[1..][j - 1];
      }
    }
  }

  /** In an accepted policy the key that decides is the only one with that id. */
  lemma {:induction false} AuthorizeAsksTheKey(env: Env, keys: seq<TrustKey>, i: nat,
                                               signedAt: int, now: int, requireActive: bool)
    requires DistinctKeys(keys) && i < |keys|
    ensures var k := keys[i];
            Authorize(env, keys, k.role, k.id, k.publicKey, signedAt, now, requireActive)
            == Permits(env, k, signedAt, now, requireActive)
  {
    if i > 0 {
      assert !SameKey(keys[0], keys[i]);
      assert forall a, b | 0 <= a < b < |keys[1..]| :: keys[1..][a] == keys[a + 1] && keys[1..][b] == keys[b + 1];
      AuthorizeAsksTheKey(env, keys[1..], i - 1, signedAt, now, requireActive);
    }
  }

  /** Which key may have signed what and when. */
  lemma PermitsExactly(env: Env, k: TrustKey, signedAt: int, now: int, requireActive: bool)
    ensures Permits(env, k, signedAt, now, requireActive) <==>
              && k.status != "revoked" && !(requireActive && k.status != "active")
              && !(env.parseTime(k.notBefore).Some? && signedAt < env.parseTime(k.notBefore).value)
              && signedAt <= now + 5 * 60 * 1_000_000_000
              && (k.status != "verify-only" ||
                  (&& env.parseTime(k.verifyUntil).Some?
                   && signedAt < env.parseTime(k.verifyUntil).value && now < env.parseTime(k.verifyUntil).value))
  {
  }

  // ---------------------------------------------------------------- the ratchet

  /** trust-state.json: absent, unreadable, or the floor that revocation has reached. */
  datatype StateFile = NoState | Unreadable | Floor(epoch: UInt64, digest: string, root: string)

  datatype TrustFiles = TrustFiles(state: StateFile, active: Option<string>)

  function FloorEpoch(s: StateFile): UInt64 {
    if s.Floor? then s.epoch else 0
  }

  /** The newcomer must not go back, contradict the policy already bound to its epoch, or change root. */
  predicate MayFollow(s: StateFile, epoch: UInt64, digest: string, root: string) {
    && !s.Unreadable?
    && FloorEpoch(s) <= epoch
    && (s.Floor? ==> (s.epoch == epoch ==> s.digest == digest) && s.root == root)
  }

  /** The states the two files pass through, in order, while a policy is accepted; none when it is refused. */
  function AcceptPlan(env: Env, files: TrustFiles, rootHex: string, raw: string, now: int): seq<TrustFiles> {
    if !PolicyAccepted(env, raw, rootHex, now) then []
    else
      var (p, digest) := PolicyOf(env, raw).value;
      var floor := Floor(p.epoch, digest, env.sha(env.rootBytes(rootHex)));
      if !MayFollow(files.state, p.epoch, digest, floor.root) then []
      else
        var done := TrustFiles(floor, Some(env.compact(raw)));
        if FloorEpoch(files.state) < p.epoch then [files.(state := floor), done] else [done]
  }

  /** A policy is refused if and only if it does not verify, the stored state cannot be read, or it goes below the
  floor, contradicts what its epoch was bound to, or comes from another root. The writes are then these. */
  lemma AcceptPlanExactly(env: Env, files: TrustFiles, rootHex: string, raw: string, now: int)
    requires StoredFloor(files.state)
    ensures var plan, s := AcceptPlan(env, files, rootHex, raw, now), files.state;
            && (plan != [] <==>
                  && PolicyAccepted(env, raw, rootHex, now) && PolicyOf(env, raw).Some? && s != Unreadable
                  && var (p, digest) := PolicyOf(env, raw).value;
                     s.NoState? || (&& s.epoch <= p.epoch && s.root == env.sha(env.rootBytes(rootHex))
                                    && (s.epoch < p.epoch || s.digest == digest)))
            && (plan != [] ==>
                  var (p, digest) := PolicyOf(env, raw).value;
                  && plan[|plan| - 1] == TrustFiles(Floor(p.epoch, digest, env.sha(env.rootBytes(rootHex))),
                                                    Some(env.compact(raw)))
                  && |plan| == (if s.Floor? && s.epoch == p.epoch then 1 else 2)
                  && (|plan| == 2 ==> plan[0].active == files.active && plan[0].state == plan[1].state))
  {
    AcceptedHasEpoch(env, raw, rootHex, now);
    hide PolicyAccepted, PolicyOf;
  }

  lemma PolicyOfExactly(env: Env, raw: string, p: Policy, digest: Digest)
    ensures PolicyOf(env, raw) == Some((p, digest)) <==>
              && env.policyEnvelope(raw).Some? && env.policyEnvelope(raw).value.payload.Some?
              && var payload := env.policyEnvelope(raw).value.payload.value;
                 env.policy(payload) == Some(p) && env.sha(payload) == digest
  {
  }

  ghost predicate StoredFloor(s: StateFile) {
    s.Floor? ==> s.epoch > 0
  }

  lemma AcceptedHasEpoch(env: Env, raw: string, rootHex: string, now: int)
    ensures PolicyAccepted(env, raw, rootHex, now) ==> PolicyOf(env, raw).Some? && PolicyOf(env, raw).value.0.epoch > 0
    ensures PolicyAccepted(env, raw, rootHex, now) ==>
              env.rootKey(rootHex).Some? && |env.rootKey(rootHex).value| == 32
  {
    hide KeysOk;
  }

  method AcceptTrustPolicy(env: Env, dev: Device<TrustFiles>, rootHex: string, raw: string, now: int)
      returns (r: Option<Policy>)
    requires dev.Valid() && StoredFloor(dev.state.state)
    modifies dev
    ensures dev.Valid()
    // Whatever fails, and wherever the call is cut short, the files went through a prefix of the plan.
    ensures exists n :: 0 <= n <= |AcceptPlan(env, old(dev.state), rootHex, raw, now)|
                        && dev.trace == old(dev.trace) + AcceptPlan(env, old(dev.state), rootHex, raw, now)[..n]
    ensures r.Some? ==>
              && AcceptPlan(env, old(dev.state), rootHex, raw, now) != []
              && dev.trace == old(dev.trace) + AcceptPlan(env, old(dev.state), rootHex, raw, now)
              && r.value == PolicyOf(env, raw).value.0
    // When nothing fails, whatever may follow the floor is accepted.
    ensures dev.faults >= old(dev.faults)
    ensures dev.faults == old(dev.faults) ==> (r.Some? <==> AcceptPlan(env, old(dev.state), rootHex, raw, now) != [])
  {
    AcceptedHasEpoch(env, raw, rootHex, now);
    hide PolicyAccepted, PolicyOf;
    ghost var plan := AcceptPlan(env, dev.state, rootHex, raw, now);
    ghost var before := dev.trace;
    assert before + plan[..0] == before;
    var verified := VerifyTrustPolicy(env, raw, rootHex, now);
    if verified.None? {
      return None;
    }
    var (p, digest) := verified.value;
    var root := env.sha(env.rootBytes(rootHex));
    var previous := dev.state.state;
    if previous.Unreadable? {
      return None;
    }
    var epoch := FloorEpoch(previous);
    if epoch > p.epoch || (epoch == p.epoch && epoch > 0 && previous.digest != digest)
        || (epoch > 0 && previous.root != root) {
      return None;
    }
    var directoryMade := dev.Try();
    if !directoryMade {
      return None;
    }
    if epoch < p.epoch {
      var stored := dev.Step(dev.state.(state := Floor(p.epoch, digest, root)));
      if !stored {
        return None;
      }
      assert dev.trace == before + plan[..1];
    }
    var activated := dev.Step(dev.state.(active := Some(env.compact(raw))));
    if !activated {
      return None;
    }
    assert dev.trace == before + plan[..|plan|];
    r := Some(p);
  }

  /** Re-marshalling a policy file leaves what it says unchanged. Its length may change either way: space goes, but
  the encoder spells `<`, `>` and `&` with six characters. */
  ghost predicate CompactKeeps(env: Env) {
    forall raw | env.policyEnvelope(raw).Some? ::
      env.policyEnvelope(env.compact(raw)) == env.policyEnvelope(raw) && env.compact(raw) != ""
  }

  /** The active policy file is short enough to be read again. */
  predicate Reloadable(files: TrustFiles) {
    files.active.Some? ==> |files.active.value| <= MAX_POLICY_BYTES
  }

  /** A re-marshalled policy file says the same, and is accepted again if and only if it is not too long. */
  lemma CompactIsAccepted(env: Env, raw: string, rootHex: string, now: int)
    requires CompactKeeps(env) && PolicyAccepted(env, raw, rootHex, now)
    ensures PolicyOf(env, raw).Some? && PolicyOf(env, env.compact(raw)) == PolicyOf(env, raw)
    ensures PolicyAccepted(env, env.compact(raw), rootHex, now) <==> |env.compact(raw)| <= MAX_POLICY_BYTES
  {
    hide PolicyOk, SignedByRoot;
    assert env.policyEnvelope(env.compact(raw)) == env.policyEnvelope(raw);
  }

  /** The active policy never outruns the floor, and at the floor's epoch it is the policy the floor names. */
  ghost predicate TrustInv(env: Env, files: TrustFiles) {
    && StoredFloor(files.state)
    && (files.active.Some? ==>
          && files.state.Floor?
          && PolicyOf(env, files.active.value).Some?
          && var (p, digest) := PolicyOf(env, files.active.value).value;
          p.epoch <= files.state.epoch && (p.epoch == files.state.epoch ==> digest == files.state.digest))
  }

  /** A floor only rises, keeps its root, and never binds one epoch to two digests. */
  ghost predicate Ratchets(s: StateFile, t: StateFile) {
    s.Floor? ==> t.Floor? && s.epoch <= t.epoch && s.root == t.root && (s.epoch == t.epoch ==> s.digest == t.digest)
  }

  function Last(files: TrustFiles, s: seq<TrustFiles>): TrustFiles {
    if s == [] then files else s[|s| - 1]
  }

  /** State `k` of `s` keeps the invariant and ratchets from the state before it. */
  ghost predicate Linked(env: Env, files: TrustFiles, s: seq<TrustFiles>, k: nat)
    requires k < |s|
  {
    TrustInv(env, s[k]) && Ratchets(Last(files, s[..k]).state, s[k].state)
  }

  ghost predicate Chain(env: Env, files: TrustFiles, s: seq<TrustFiles>) {
    forall k | 0 <= k < |s| :: Linked(env, files, s, k)
  }

  lemma ChainConcat(env: Env, files: TrustFiles, s: seq<TrustFiles>, t: seq<TrustFiles>)
    requires Chain(env, files, s) && Chain(env, Last(files, s), t)
    ensures Chain(env, files, s + t)
  {
    forall k | 0 <= k < |s + t|
      ensures Linked(env, files, s + t, k)
    {
      if k < |s| {
        assert Linked(env, files, s, k);
        assert (s + t)[..k] == s[..k];
      } else {
        assert Linked(env, Last(files, s), t, k - |s|);
        assert (s + t)[..k] == s + t[..k - |s|];
        assert Last(files, s + t[..k - |s|]) == Last(Last(files, s), t[..k - |s|]);
      }
    }
  }

  lemma ChainPrefix(env: Env, files: TrustFiles, s: seq<TrustFiles>, n: nat)
    requires Chain(env, files, s) && n <= |s|
    ensures Chain(env, files, s[..n])
  {
    forall k | 0 <= k < n
      ensures Linked(env, files, s[..n], k)
    {
      assert Linked(env, files, s, k);
      assert s[..n][..k] == s[..k];
    }
  }

  lemma ChainEnds(env: Env, files: TrustFiles, s: seq<TrustFiles>)
    requires TrustInv(env, files) && Chain(env, files, s)
    ensures TrustInv(env, Last(files, s))
  {
    hide TrustInv, Ratchets;
    if s != [] {
      assert Linked(env, files, s, |s| - 1);
    }
  }

  lemma PlanIsChain(env: Env, files: TrustFiles, rootHex: string, raw: string, now: int)
    requires CompactKeeps(env) && TrustInv(env, files)
    ensures Chain(env, files, AcceptPlan(env, files, rootHex, raw, now))
  {
    hide PolicyAccepted, PolicyOf;
    var plan := AcceptPlan(env, files, rootHex, raw, now);
    if plan != [] {
      AcceptedHasEpoch(env, raw, rootHex, now);
      CompactIsAccepted(env, raw, rootHex, now);
      assert plan[..0] == [];
      assert Linked(env, files, plan, 0);
      if |plan| == 2 {
        assert plan[..1] == [plan[0]];
        assert Linked(env, files, plan, 1);
      }
    }
  }

  lemma AcceptTraceIsChain(env: Env, files: TrustFiles, rootHex: string, raw: string, now: int,
                           before: seq<TrustFiles>, after: seq<TrustFiles>)
    requires CompactKeeps(env) && TrustInv(env, files) && before != [] && before[|before| - 1] == files
    requires exists n :: 0 <= n <= |AcceptPlan(env, files, rootHex, raw, now)|
                         && after == before + AcceptPlan(env, files, rootHex, raw, now)[..n]
    ensures |after| >= |before| && Chain(env, files, after[|before|..])
    ensures Last(files, after[|before|..]) == after[|after| - 1] && TrustInv(env, after[|after| - 1])
  {
    hide TrustInv, AcceptPlan, Ratchets;
    var plan := AcceptPlan(env, files, rootHex, raw, now);
    var n :| 0 <= n <= |plan| && after == before + plan[..n];
    PlanIsChain(env, files, rootHex, raw, now);
    assert after[|before|..] == plan[..n];
    ChainPrefix(env, files, plan, n);
    if n > 0 {
      assert Linked(env, files, plan, n - 1);
    }
  }

  lemma EmptyChain(env: Env, files: TrustFiles)
    ensures Chain(env, files, [])
  {
  }

  lemma EmptyFilesAreFine(env: Env)
    ensures TrustInv(env, TrustFiles(NoState, None))
  {
  }

  lemma InvStoresFloor(env: Env, files: TrustFiles)
    requires TrustInv(env, files)
    ensures StoredFloor(files.state)
    ensures files.state.NoState? ==> files.active.None?
  {
  }

  /** One call of AcceptTrustPolicy, cut short after `steps` of its writes. */
  datatype Call = Call(rootHex: string, raw: string, now: int, steps: nat)

  function CallTrace(env: Env, files: TrustFiles, c: Call): seq<TrustFiles> {
    var plan := AcceptPlan(env, files, c.rootHex, c.raw, c.now);
    plan[..if c.steps <= |plan| then c.steps else |plan|]
  }

  /** Every state the two files pass through, after `files`, under a sequence of calls. */
  function History(env: Env, files: TrustFiles, calls: seq<Call>): seq<TrustFiles>
    decreases |calls|
  {
    if calls == [] then []
    else
      var h := CallTrace(env, files, calls[0]);
      h + History(env, Last(files, h), calls[1..])
  }

  lemma {:induction false} HistoryIsChain(env: Env, files: TrustFiles, calls: seq<Call>)
    requires CompactKeeps(env) && TrustInv(env, files)
    ensures Chain(env, files, History(env, files, calls))
    decreases |calls|
  {
    hide AcceptPlan, TrustInv, Ratchets;
    if calls != [] {
      var c := calls[0];
      var plan := AcceptPlan(env, files, c.rootHex, c.raw, c.now);
      var h := CallTrace(env, files, c);
      PlanIsChain(env, files, c.rootHex, c.raw, c.now);
      ChainPrefix(env, files, plan, |h|);
      ChainEnds(env, files, h);
      HistoryIsChain(env, Last(files, h), calls[1..]);
      ChainConcat(env, files, h, History(env, Last(files, h), calls[1..]));
    }
  }

  lemma {:induction false} ChainRatchets(env: Env, files: TrustFiles, s: seq<TrustFiles>, i: nat, j: nat)
    requires StoredFloor(files.state) && Chain(env, files, s) && i <= j <= |s|
    ensures Ratchets(Last(files, s[..i]).state, Last(files, s[..j]).state)
  {
    if i < j {
      ChainRatchets(env, files, s, i, j - 1);
      assert Linked(env, files, s, j - 1);
      if i < j - 1 {
        assert Linked(env, files, s, j - 2);
      }
    }
  }

  /** Over any sequence of calls, with any inputs, times and crashes: the stored epoch never goes back, the
  root never changes, no epoch is bound to two digests, and the active policy never outruns the floor. */
  lemma TrustRatchet(env: Env, files: TrustFiles, calls: seq<Call>)
    requires CompactKeeps(env) && TrustInv(env, files)
    ensures var h := History(env, files, calls);
            forall i, j | 0 <= i <= j < |h| ::
              && TrustInv(env, h[i]) && TrustInv(env, h[j])
              && Ratchets(files.state, h[i].state) && Ratchets(h[i].state, h[j].state)
              && FloorEpoch(h[i].state) <= FloorEpoch(h[j].state)
  {
    HistoryIsChain(env, files, calls);
    var h := History(env, files, calls);
    forall i, j | 0 <= i <= j < |h|
      ensures && TrustInv(env, h[i]) && TrustInv(env, h[j])
              && Ratchets(files.state, h[i].state) && Ratchets(h[i].state, h[j].state)
              && FloorEpoch(h[i].state) <= FloorEpoch(h[j].state)
    {
      ChainRatchetsAt(env, files, h, i, j);
    }
  }

  lemma ChainRatchetsAt(env: Env, files: TrustFiles, h: seq<TrustFiles>, i: nat, j: nat)
    requires StoredFloor(files.state) && Chain(env, files, h) && i <= j < |h|
    ensures TrustInv(env, h[i]) && TrustInv(env, h[j])
    ensures Ratchets(files.state, h[i].state) && Ratchets(h[i].state, h[j].state)
    ensures FloorEpoch(h[i].state) <= FloorEpoch(h[j].state)
  {
    assert Linked(env, files, h, i) && Linked(env, files, h, j);
    ChainRatchets(env, files, h, 0, i + 1);
    ChainRatchets(env, files, h, i + 1, j + 1);
  }

  /** A completed call leaves the active policy and the floor in agreement on the accepted policy. The active file
  verifies again if and only if re-marshalling did not make it too long. */
  lemma AcceptedPolicyIsTheFloor(env: Env, files: TrustFiles, rootHex: string, raw: string, now: int)
    requires CompactKeeps(env)
    requires AcceptPlan(env, files, rootHex, raw, now) != []
    ensures var plan := AcceptPlan(env, files, rootHex, raw, now);
            var t := plan[|plan| - 1];
            && t.active.Some? && PolicyOf(env, t.active.value) == PolicyOf(env, raw) && PolicyOf(env, raw).Some?
            && t.state.Floor? && t.state.digest == PolicyOf(env, raw).value.1
            && t.state.epoch == PolicyOf(env, raw).value.0.epoch
            && (PolicyAccepted(env, t.active.value, rootHex, now) <==> Reloadable(t))
  {
    hide PolicyAccepted, PolicyOf;
    CompactIsAccepted(env, raw, rootHex, now);
  }

  /** The ratchet, for a run that began with no files at all. */
  lemma ChainFromEmpty(env: Env, t: seq<TrustFiles>)
    requires t != [] && t[0] == TrustFiles(NoState, None) && Chain(env, t[0], t[1..])
    ensures forall i, j | 0 <= i <= j < |t| :: TrustInv(env, t[j]) && Ratchets(t[i].state, t[j].state)
  {
    hide TrustInv;
    EmptyFilesAreFine(env);
    forall i, j | 0 <= i <= j < |t|
      ensures TrustInv(env, t[j]) && Ratchets(t[i].state, t[j].state)
    {
      if i > 0 {
        ChainRatchetsAt(env, t[0], t[1..], i - 1, j - 1);
      } else if j > 0 {
        ChainRatchetsAt(env, t[0], t[1..], j - 1, j - 1);
      }
    }
  }
}
