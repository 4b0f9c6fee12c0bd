/** The signed documents of the launcher, and the primitives that read and check them.

Hashing, signatures, JSON, base64, hexadecimal and time parsing are functions that nothing here looks
into.  A lemma that needs a fact about one of them names it among its `requires`. */
module Environment {
  import opened Wrappers
  import opened Text

  type UInt64 = n: int | 0 <= n < 0x1_0000_0000_0000_0000

  /** Go's `x + 1` on `uint64`. */
  function Increment(n: UInt64): UInt64 {
    (n + 1) % 0x1_0000_0000_0000_0000
  }

  // Times and durations are integers, in nanoseconds.
  const MINUTE := 60_000_000_000
  const DAY := 24 * 60 * MINUTE

  datatype TrustKey = TrustKey(id: string, role: string, publicKey: string, status: string,
                               notBefore: string, verifyUntil: string)

  datatype Policy = Policy(schemaVersion: string, domain: string, epoch: UInt64,
                           issuedAt: string, expiresAt: string, keys: seq<TrustKey>)

  /** `payload` and `rootSignature` are the decoded bytes, `None` when the encoding is invalid. */
  datatype PolicyEnvelope = PolicyEnvelope(schemaVersion: string, payload: Option<string>,
                                           rootSignature: Option<string>)

  datatype Envelope = Envelope(keyID: string, trustEpoch: UInt64, signedAt: string, schemaVersion: string,
                               payload: Option<string>, signature: Option<string>)

  datatype Artifact = Artifact(url: string, sha256: string, size: int)

  datatype Component = Component(name: string, artifact: Artifact)

  datatype Target = Target(os: string, arch: string, components: seq<Component>)

  datatype InstallerTarget = InstallerTarget(os: string, arch: string, prestarter: Artifact)

  datatype Config = Config(schemaVersion: string, projectID: string, profileID: string, channel: string,
                           profilePublicKey: string, manifest: Artifact, javaManifest: Artifact,
                           targets: seq<Target>, installerTargets: seq<InstallerTarget>)

  datatype Env = Env(
    sha: string -> Digest,
    /** Ed25519: public key, message, signature. */
    verify: (string, string, string) -> bool,
    hex: string -> Option<string>,
    /** The configured root key, trimmed and decoded. */
    rootKey: string -> Option<string>,
    /** The bytes `hex.DecodeString` yields for the untrimmed root key, whatever error it reports. */
    rootBytes: string -> string,
    parseTime: string -> Option<int>,
    policyEnvelope: string -> Option<PolicyEnvelope>,
    policy: string -> Option<Policy>,
    envelope: string -> Option<Envelope>,
    config: string -> Option<Config>,
    /** What `json.Marshal` makes of a raw JSON message. */
    compact: string -> string,
    artifactUrlOk: string -> bool,
    /** The scalar rules of a bootstrap config that involve URLs, host names and branding. */
    scalarsOk: Config -> bool)

  /** A regular file with the signed size and hash. */
  predicate HashFile(env: Env, content: Option<string>, a: Artifact) {
    content.Some? && |content.value| == a.size && env.sha(content.value) == a.sha256
  }
}
