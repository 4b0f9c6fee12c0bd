# Verified models of the launcher

Dafny models of the parts of the launcher that must not go wrong, with proofs of what they promise. `dafny verify
dfyconfig.toml` checks everything.

## What is modelled

**Switching releases** (`prestarter/prestarter.go`). Two slots, `active-0.json` and `active-1.json`, hold a record
with a generation each; the current release is the highest record that still verifies. `Releases` says when a record
verifies, `Prestarter` has the operations step by step, `Switch` proves what a crash between any two steps leaves and
how a failed start is taken back, `Runs` covers whole runs and any number of them.

**The standalone installer** (`prestarter/installer/installer.go`). A second implementation of the two slots, which
stores and provisions first and commits with one last write: `Installer`, `InstallerOps`, `InstallerRuns`.
`Directories` holds what both share: stages, quarantine and publication by rename.

**The trust policy** (`prestarter/trust_policy.go`, `prestarter/config.go`). `TrustPolicy` is the root-signed policy
with its durable epoch floor, `Bootstrap` the signed configuration and its envelopes.

**Downloads** (`prestarter/storage.go`). `Storage` is the resumable download with its `.part` and `.etag` files,
against an origin that is any function from requests to answers; `Ranges` is the header grammar it relies on.

**Codecs and drivers** (`e2e/scripts`). `Nbt`, `NbtBytes`, `NbtReader` and `World` read, print and rewrite a
`level.dat`; `Framing` and `Login` are the compressed packet stream and the LOGIN phase; `Der` converts ECDSA
signatures; `Startup` and `Gameplay` are the two observers that decide whether a launch passed.

## How

A `Device` is a durable store that changes in atomic steps. Its ghost `trace` lists the state after every step, so a
property of all states a call appends is a property of every crash point. Any step may fail; the ghost counter
`faults` lets each operation also promise what it achieves when nothing fails. `missed` counts the removals whose
failure the program does not look at. A run that is cut short is one whose later steps all fail. `SmallWrites` takes
one such step apart into file operations.

A switch is called crash-safe when in every state it passes through the slots keep their parity and, if it is
`Protected`, the old or the new release is current and the old record keeps its slot until the new one is committed.

What a rule of the code accepts is stated once more, without the names of the rule, by a lemma called `...Exactly`
beside it: sizes, prefixes, dates, file names, packet numbers and byte orders are literals there.

Hashing, signatures, JSON, base64, time parsing and zlib are functions nothing here looks into. What a proof needs of
them it names: `CompactKeeps` (re-marshalling keeps what a policy file says, not its length), `TimesHaveNoNewline`,
`JsonNeverStartsWithL`, `Inverse` and `Modest` (zlib), and, of SHA-256, only that the configs in play do not collide
(`BundleDiffers`, `CollisionFree`).

What the proofs found:

- A switch is crash-safe exactly when it is `Protected`. Re-signing the payload of the current release quarantines the
  directory the current record points at (`Switch.SafeExactlyWhenProtected`, `Examples.ResignedPayloadIsExposed`).
- Storing a bundle in the standalone installer is safe exactly when its release name differs from the current one or
  it carries the pinned config: re-signing the current payload is exposed there too
  (`InstallerRuns.StoreSafeExactly`).
- A failed start can be undone exactly when the state before it is `Undoable`; otherwise the run reports the failed
  rollback (`Switch.UndoableIsTakenBack`, `Examples.LastGenerationStays`).
- An accepted policy file that re-marshalling lengthens beyond 128 KiB is in force but no longer readable, and every
  delegated release stops verifying (`TrustPolicy.AcceptedPolicyIsTheFloor`, `Examples.OversizedPolicyIsLost`).
- Starting a download over is safe exactly when no validator and no nonempty part were left behind; a removal that
  fails is not noticed (`Storage.RestartsSafelyExactly`, `Storage.StaleValidatorBreaksThePrefix`).
- A part that received every byte but ended in a reading error is fetched again from nothing
  (`Storage.FinishedPartIsNotResumed`).
- A timeout that takes any bytes of a packet makes the LOGIN client lose its place: it misses logins it would have
  heard (`Login.InStepExactly`, `Login.LossyRoundLosesTheLogin`).
- Between the write of the floor and that of the policy, the previous policy still decides what verifies
  (`Runs.PreviousPolicyStillDecides`).
- `StartupObserver.conclude` compares the two sample hashes once more; qualifying samples always differ.
- The converter is more lenient than DER: lengths need not be minimal, and INTEGER bodies are read as unsigned.

## Model

| member | source | states |
|---|---|---|
| Runs.Run | prestarter/prestarter.go:74-187 | A whole run: the trust files only move along the ratchet; the launcher is touched only by a config verified under the policy the floor names; it is crash-safe; success means the new release is current; a start reported as failed leaves the old release current two generations up, or nothing on a first installation. Without faults exactly the installable configs get past verification, and the state before the run decides the outcome: overflow, success, the start undone, or the rollback refused. A delegated config is installed only if it names the pinned root key as the key of its profile |
| Switch.SwitchTo | prestarter/prestarter.go:158-186 | The install, activate, start, take-back sequence: crash-safe at every step; without faults it ends for a verified config exactly as the initial state and the outcome of the start decide |
| Switch.SafeExactlyWhenProtected | prestarter/prestarter.go:242-289 | Installing over a current release keeps old-or-new current in every intermediate state if and only if the new release has another name or is already verified |
| Examples.ResignedPayloadIsExposed | prestarter/prestarter.go:253-257 | A concrete launcher where crash safety fails: the current payload signed anew is installed over its own directory |
| Examples.LastGenerationStays | prestarter/prestarter.go:170-176 | A concrete launcher where the rollback fails although nothing else does: the switch takes the last generation |
| Examples.OversizedPolicyIsLost | prestarter/trust_policy.go:214-220 | A concrete policy that is accepted and in force and cannot be verified again from its file |
| Switch.UnprotectedSwitchIsExposed | prestarter/prestarter.go:253-257 | For every unprotected switch the quarantine rename already leaves neither the old nor the new release current |
| Runs.AcceptedAtTheFloor | prestarter/prestarter.go:299-347 | Every release a run accepts carries the floor's epoch and the signature of the one active bootstrap key its envelope names, or is a version 1 envelope while there is no floor, its bare payload signed by the pinned root key |
| Runs.RetiredForGood | prestarter/prestarter.go:299-347 | Once the floor has passed a release's epoch, no key, clock or record makes that release verify again in any later state of the trust files in which the active policy is the one the floor names; between the write of the floor and that of the policy the old policy still decides |
| Runs.RunRepeatedly | prestarter/prestarter.go:92-187 | Any sequence of runs from an empty root, those cut short included: slots keep their parity, trust files ratchet, every run is crash-safe and ends as Run promises on the disk its predecessors left, and a run that gets past verification accepts no release of an epoch the floor had passed when it, or any run before it, ended |
| TrustPolicy.TrustRatchet | prestarter/trust_policy.go:173-218 | Over any sequence of calls with any inputs, times and crashes: the stored epoch never decreases, the root never changes, no epoch has two digests, the active policy never outruns the floor |
| InstallerRuns.Operate | prestarter/installer/installer.go:461-628 | Any sequence of installs, updates and rollbacks under any clocks, those cut short included: parity always holds; when the configs in play do not collide under SHA-256 and no plain install brings another identity, the identity of whatever is current never changes |
| InstallerRuns.RollbackTwiceReturns | prestarter/installer/installer.go:559-628 | Two rollbacks, the second possibly under another clock, end at the original release with its generation raised by two; only generation overflow can prevent it |
| Storage.GetArtifact | prestarter/storage.go:148-211 | Against any origin a path is handed out only for bytes of the signed length whose SHA-256 is the signed one; in every state on the way the cache holds what it held, nothing, or such bytes; a good cached or offline copy is enough, and an honest origin is enough once the bytes held reach the size |
| Storage.Download | prestarter/storage.go:176-210 | Without faults, against any honest origin, whatever errors it answers and wherever its bodies break off, the download succeeds exactly when the bytes held reach the size within five attempts, at the first attempt where they do; otherwise it leaves exactly the bytes that the answers count for; the cache only ever receives bytes of the signed length and digest |
| Storage.KeptExactlyWhenClean | prestarter/storage.go:226-313 | An honest answer costs no byte already held if and only if it is clean: a failed connection, an encoded body, or the bytes asked for, cut off anywhere but behind the last; a clean one adds all it delivers |
| Storage.ProgressGrows | prestarter/storage.go:181-210 | As long as the answers are clean, no attempt loses what an earlier one kept |
| Nbt.ParseThenEncode | e2e/scripts/prepare-vanilla-1171-void-world.py:45-97 | Whatever the reader accepts is a well-formed tree and prints back to exactly the bytes consumed |
| Nbt.EncodeThenParse | e2e/scripts/prepare-vanilla-1171-void-world.py:45-97 | Every well-formed tree prints, and the reader finds that tree wherever its bytes stand in a file |
| World.PrepareTwice | e2e/scripts/prepare-vanilla-1171-void-world.py:107-132 | Preparation succeeds exactly for files that parse to a rewritable world, and preparing the result changes no byte |
| Login.LoginFollowsTheScript | e2e/scripts/minecraft-login-probe.py:172-242 | For every server script, with Set Compression anywhere, the client decodes the concatenated bytes to that script up to its first terminal message |
| Login.ClientRepliesToWhatItHears | e2e/scripts/minecraft-login-probe.py:221-240 | The client sent exactly one answer per query heard, under the threshold then in force, and Login Acknowledged exactly when it heard Login Success last; packet and byte counts are those of what it heard |
| Login.ServerReadsTheReplies | e2e/scripts/minecraft-login-probe.py:221-240 | The server reads back, frame by frame and under the threshold then in force, packet 2 with the transaction id of each query heard, in order, and packet 3 exactly if the last message was Login Success |
| Der.DerToP1363 | e2e/scripts/device-trust-crypto.py:39-64 | A signature is accepted exactly when it is consumed entirely and both numbers fit; the result is the two numbers as fixed-width big-endian halves |
| Startup.PassedNeedsEvidence | e2e/scripts/staged_readiness.py:295-325 | After any ticks the verdict is passed if and only if two different frames of the current window, two seconds apart, were sampled, changes and sightings are at most 12 seconds old, and the process did not fail |
| Gameplay.GameplayObserver.Watch | e2e/scripts/staged_matching.py:538-650 | After any ticks, passed implies join, input, advanced ticks, moved position and changed frame with no failure; a failure is never taken back; the player is then at least 0.22 blocks away |
| TrustPolicy.CheckKeys | prestarter/trust_policy.go:99-133 | The single pass accepts exactly key lists whose keys are each valid, pairwise distinct in id and public key, with at least one active |
| TrustPolicy.KeyOkExactly | prestarter/trust_policy.go:99-129 | What is required of one delegated key: id, role, key length, status and times |
| TrustPolicy.KeysOkExactly | prestarter/trust_policy.go:97-133 | No two keys share an id or a public key, and one is active |
| TrustPolicy.PolicyAcceptedExactly | prestarter/trust_policy.go:58-136 | The policy files that are accepted, with every size, prefix, date and limit |
| TrustPolicy.PermitsExactly | prestarter/trust_policy.go:137-161 | Which key may have signed what and when |
| TrustPolicy.AuthorizeExactly | prestarter/trust_policy.go:137-161 | In any list the first key with the role, the id and the public key decides |
| TrustPolicy.AcceptPlanExactly | prestarter/trust_policy.go:190-218 | A policy is refused if and only if it does not verify, the state is unreadable, or it goes back, contradicts its epoch or changes the root; the writes otherwise |
| TrustPolicy.VerifyTrustPolicy | prestarter/trust_policy.go:58-136 | Returns the policy and payload digest exactly for root-signed policies inside their validity window; what it returns is in force at that time and signed by the root key over prefix and payload |
| TrustPolicy.AuthorizeAsksTheKey | prestarter/trust_policy.go:137-161 | In an accepted policy the decision for a key depends on that key alone, although the scan stops at the first match |
| TrustPolicy.AcceptTrustPolicy | prestarter/trust_policy.go:190-253 | Whatever fails, the two files go through a prefix of floor-then-policy; success means the whole of it, and without faults every admissible policy is accepted |
| TrustPolicy.PlanIsChain | prestarter/trust_policy.go:188-218 | Each write keeps the invariant that the active policy is covered by the floor |
| TrustPolicy.HistoryIsChain | prestarter/trust_policy.go:173-218 | The invariant and the ratchet hold between every two successive states of any history |
| TrustPolicy.ChainFromEmpty | prestarter/trust_policy.go:173-218 | The same for every history that starts with no files |
| TrustPolicy.AcceptedPolicyIsTheFloor | prestarter/trust_policy.go:190-253 | After a successful return the active policy is the accepted one, with the digest and epoch the floor stores; its file verifies again if and only if re-marshalling left it within 128 KiB |
| Bootstrap.CheckComponents | prestarter/config.go:264-284 | Accepts exactly three valid components with three different roles |
| Bootstrap.CheckTargets | prestarter/config.go:254-285 | Accepts exactly lists of distinct supported platforms with complete components, and reports the platforms seen |
| Bootstrap.CheckInstallers | prestarter/config.go:291-301 | Accepts exactly installer lists of distinct known platforms with valid artifacts |
| Bootstrap.Validate | prestarter/config.go:205-303 | Accepts exactly the configs that meet the declarative rules, whatever the order of the scans |
| Bootstrap.HeaderOkExactly | prestarter/config.go:206-253 | The scalar rules of a config that need no URL |
| Bootstrap.ValidIDExactly | prestarter/config.go:180-190 | Which identifiers are valid |
| Bootstrap.ArtifactOkExactly | prestarter/config.go:191-204 | Which artifacts are valid |
| Bootstrap.ComponentsOkExactly | prestarter/config.go:264-284 | A target has three components, one for each role, in any order |
| Bootstrap.TargetsOkExactly | prestarter/config.go:252-285 | Every target is a supported platform of its own |
| Bootstrap.InstallersOkExactly | prestarter/config.go:291-302 | Every installer is for one of the targets, and a platform has at most one |
| Bootstrap.FindsTheOnlyInstaller | prestarter/config.go:304-311 | The scan finds the installer of a platform, the only one |
| Bootstrap.SelectsTheOnlyTarget | prestarter/config.go:304-319 | In a valid config a platform has at most one target and the scan finds it |
| Bootstrap.OneComponentPerRole | prestarter/config.go:264-284 | A valid target holds exactly one component for each role |
| Bootstrap.VerifyEnvelopeWithPolicy | prestarter/config.go:117-179 | Returns config and payload digest exactly for accepted envelopes; in version 1 the pinned root key has signed the bare payload |
| Bootstrap.VersionOneExactly | prestarter/config.go:117-179 | A version 1 envelope is accepted if and only if the pinned root key signed its bare payload and the config is valid |
| Bootstrap.VersionTwoExactly | prestarter/config.go:117-179 | Under an accepted policy a version 2 envelope is accepted if and only if an active bootstrap key of that policy, with the id it names, signed header and payload in its time |
| Bootstrap.OnlyTwoVersions | prestarter/config.go:131-141 | No other version is accepted, and version 2 only with a policy |
| Bootstrap.AcceptedBySoleActiveSigner | prestarter/config.go:147-170 | An accepted version 2 envelope was signed at the policy's epoch by an active bootstrap key that is the only one with its id |
| Bootstrap.SigningBytesInjective | prestarter/trust_policy.go:295-301 | Equal signed bytes mean equal key id, epoch, signing time and payload |
| Bootstrap.AcceptedEnvelopesShareNoSignature | prestarter/config.go:146-173 | The same for any two envelopes accepted under any two accepted policies at any two times |
| Bootstrap.SigningDomainsDisjoint | prestarter/trust_policy.go:295-301 | Messages signed as version 1 bootstraps, version 2 bootstraps and trust policies never coincide |
| Devices.Device.Step | prestarter/storage.go:343-370 | An atomic replacement either happens as a whole or is reported as failed |
| Devices.Device.StepAndFlush | prestarter/storage.go:343-370 | A replacement followed by a directory flush may be reported as failed although it happened |
| SmallWrites.AtomicSmallWrite | prestarter/storage.go:343-370 | File operation by file operation: at every crash point the target holds its old content or the new, other files are untouched, and temporary files are left only by a missed removal |
| Directories.StageStep | prestarter/prestarter.go:258-275 | Changing a stage touches no release and no quarantined directory |
| Directories.QuarantineStep | prestarter/prestarter.go:253-257 | The rename into quarantine keeps the old directory's contents and every other release |
| Directories.PublishStep | prestarter/prestarter.go:276-284 | The rename of a filled stage replaces only its own release, with the old directory still kept |
| Directories.ReleaseNameIsPlain | prestarter/prestarter.go:243-246 | A digest-based release name is never a stage nor in another release's quarantine, so the steps above cannot alias |
| Releases.CurrentIsTheUniqueMaximum | prestarter/prestarter.go:349-369 | current is the verified record above every other verified one; two never tie, scan order does not matter, none is returned exactly when none verifies |
| Releases.ReleaseValidExactly | prestarter/prestarter.go:320-348 | A release verifies if and only if its record has the right names, its directory the pinned config, and for the target of this platform every component is there under its file name with the signed size and hash |
| Releases.ValidReleaseHasAllFiles | prestarter/prestarter.go:337-347 | A release that verifies has the files of all three roles |
| Releases.DamagedDoesNotVerify | prestarter/prestarter.go:342-346 | A directory with one component missing or altered verifies for no record |
| Releases.VerifyConfigExactly | prestarter/prestarter.go:299-319 | Version 2 verifies under the active policy, version 1 only while no floor is stored |
| Releases.VerifiedConfig | prestarter/prestarter.go:299-319 | What a verified config says is its signed payload; in version 1 the pinned root signed it |
| Releases.ReplacingKeepsOthers | prestarter/prestarter.go:320-348 | While one release is replaced the verdict on every record of another release stays the same, in both directions |
| Releases.CurrentWhileReplacing | prestarter/prestarter.go:242-289 | During a replacement current is the record it was, or a higher record of the new release that the other slot already held |
| Prestarter.CurrentRecord | prestarter/prestarter.go:349-369 | The scan over both slots returns that record |
| Prestarter.CleanupInterruptedStages | prestarter/prestarter.go:213-240 | Only stages disappear, and after success none is left |
| Prestarter.MakeRoom | prestarter/prestarter.go:253-261 | What occupies the release name is kept in quarantine, and an empty stage is opened |
| Prestarter.FillStage | prestarter/prestarter.go:263-275 | After success the stage holds every component with its signed hash and the signed config; no release is touched |
| Prestarter.Publish | prestarter/prestarter.go:276-288 | The filled stage becomes the release and verifies |
| Prestarter.InstallComponents | prestarter/prestarter.go:242-289 | A verified release is left alone; otherwise only this release is replaced, the installed one verifies, and a verified config can fail only through I/O or a download; after success every component has its file, under its own name, with the signed size and hash, and a directory that did not verify, in particular one with a component missing or altered, has gone to quarantine |
| Prestarter.FilledIsValid | prestarter/prestarter.go:285-287 | A directory filled from a verified config always passes the release check |
| Prestarter.Activate | prestarter/prestarter.go:370-397 | Refuses unverified records and generation overflow without a write, leaves an already active release alone, and otherwise announces, commits to one slot and clears, in that order; complete without faults |
| Prestarter.ActivationPlanExactly | prestarter/prestarter.go:377-397 | The journal names old and new release, the next generation goes into the slot of its parity, everything else stays |
| Prestarter.FitsExactly | prestarter/prestarter.go:374-383 | Only the last generation stands in the way of an activation |
| Prestarter.CommitTakesOver | prestarter/prestarter.go:374-394 | The commit, not the announcement, changes current; it makes the new record current, except that with nothing current before, a record above generation 1 that came back to life in slot 0 stays above it |
| Switch.InstallAndActivate | prestarter/prestarter.go:159-169 | Crash-safe as a whole; success leaves the wanted release current and, if it is another release, the old record verified in the other slot |
| Switch.SafeDuringInstall | prestarter/prestarter.go:242-289 | In every state of the installation the old record verifies, its slot is untouched, and old or new is current |
| Switch.SafeDuringActivation | prestarter/prestarter.go:370-397 | In every state of the activation old or new is current, and the old slot is unchanged until the new record is committed |
| Switch.ActivationSwitches | prestarter/prestarter.go:370-397 | Where a committed activation leads, whether or not another record came back to life |
| Switch.CommitOutranksTheVerified | prestarter/prestarter.go:377-383 | A commit's generation exceeds that of every record that verified when the switch began |
| Switch.RevivedIsDesired | prestarter/prestarter.go:349-369 | A record that did not verify and verifies after the installation is the installed release itself |
| Switch.DeactivateFailedFirstRun | prestarter/prestarter.go:399-423 | Withdraws generation 1 from slot 1 only if it is still exactly the active record, and nothing else; without faults exactly then |
| Switch.TakeBack | prestarter/prestarter.go:170-184 | Follows the rollback plan, possibly cut short; reports the original error only if the rollback was possible and got as far as its commit, and always if it was possible and nothing failed |
| Switch.TakeBackRestores | prestarter/prestarter.go:172-176 | Every state of the rollback is safe, and from the commit on the old release, config hash included, is current two generations up |
| Switch.FirstRunUndone | prestarter/prestarter.go:177-181 | After a first installation the rollback plan ends with both slots empty |
| Switch.UndoableIsTakenBack | prestarter/prestarter.go:170-185 | After any switch the rollback is possible if and only if the state before it allowed: nothing current and no higher leftover record of the new release; an active release of the same name; or two generations left |
| Runs.FloorRetires | prestarter/prestarter.go:299-347 | Trust files in agreement accept no release below any floor their own floor follows |
| Runs.PreviousPolicyStillDecides | prestarter/trust_policy.go:206-217 | Between the write of the floor and that of the policy exactly the version 2 releases that verified before verify, all signed for an epoch below the new floor; presenting the policy again completes the acceptance |
| Runs.InstallableExactly | prestarter/prestarter.go:105-140 | The configs that get past verification: for version 2 the profile key is the pinned root and the policy may follow the floor |
| Switch.AcceptAndVerify | prestarter/prestarter.go:116-124 | The policy is in force, as floor and as active policy, before it verifies the config; without faults exactly when the policy may follow the floor and accepts the config |
| Switch.EstablishTrust | prestarter/prestarter.go:105-133 | A config is handed on only under trust files in agreement; the release checks that follow verify it too, unless the policy file has become too long to read; without faults exactly the admissible configs are handed on |
| Ranges.ContentRangeRoundTrip | prestarter/storage.go:315-331 | Every range announceable in 63 bits is read back as announced (section 14.4 of RFC 9110) |
| Ranges.ParseContentRangeExactly | prestarter/storage.go:315-331 | A range is accepted if and only if the header spells it, in order and inside the complete length |
| Ranges.ParseIntExactly | prestarter/storage.go:315-331 | An optional sign, decimal digits, 64 bits |
| Ranges.StrongETagExactly | prestarter/storage.go:332-342 | Quotes around visible characters |
| Storage.AcceptedExactly | prestarter/storage.go:247-276 | Which answers are taken: the whole object, or exactly its rest under the same validator, never encoded |
| Storage.RequestExactly | prestarter/storage.go:226-246 | A request goes on where a nonempty unfinished part with a strong validator ends, or asks for everything |
| Storage.RemovePartial | prestarter/storage.go:234-237 | Part goes before validator; a missed removal is exactly a file left behind |
| Storage.CopyBody | prestarter/storage.go:295-295 | At every moment the part is the old part and a beginning of the data, however the pieces fall |
| Storage.Receive | prestarter/storage.go:278-304 | The validator is stored before the part is opened; at most one excess byte is taken; it fails exactly on a local fault or a body that breaks off |
| Storage.ReceivingKeepsPrefix | prestarter/storage.go:278-295 | In every state of an accepted answer the part is a prefix of what the stored validator names |
| Storage.Exchange | prestarter/storage.go:247-313 | What an answer does to the files, and when the attempt succeeds, is decided by the answer alone when nothing local fails |
| Storage.Fetch | prestarter/storage.go:212-314 | Prefix invariant at every crash point as long as no removal was missed; the part never exceeds the size by more than one byte; success leaves exactly the signed size |
| Storage.HonestAttempt | prestarter/storage.go:226-313 | A request starts exactly at the retained length; whatever an honest origin answers, the attempt leaves exactly the bytes counted for it, and completes exactly at the signed size without a reading error |
| Storage.Attempt | prestarter/storage.go:185-200 | Only hash-verified bytes are promoted; with an honest origin, wherever its answer breaks off, and no fault promotion happens exactly when the bytes are complete and ended cleanly |
| Storage.Promote | prestarter/storage.go:192-199 | The checked part becomes the cached object in one step, and its validator goes afterwards |
| Storage.ProgressStays | prestarter/storage.go:181-210 | Once complete, the count of kept bytes never changes |
| Storage.CopyToCache | prestarter/storage.go:77-122 | The cache receives only bytes checked after copying, or is left alone |
| Storage.FinishedPartIsNotResumed | prestarter/storage.go:228-237 | Why a whole part behind a reading error counts for nothing: the next attempt asks from the first byte |
| Storage.RestartsSafelyExactly | prestarter/storage.go:234-304 | Starting over keeps the prefix invariant against every honest answer and at every crash point if and only if no validator and no nonempty part were left behind |
| Storage.StaleValidatorBreaksThePrefix | prestarter/storage.go:234-304 | A concrete run of states, from a full part and its tag through a missed removal to a part its tag does not name |
| Installer.CurrentRecord | prestarter/installer/installer.go:273-288 | The scan over both slots returns the specified record |
| Installer.RecordValidExactly | prestarter/installer/installer.go:242-271 | A record verifies if and only if it is well formed and its directory holds the pinned config and the binary signed for this platform, and its offline objects are complete |
| Installer.ConfigVerifiedExactly | prestarter/installer/installer.go:140-157 | Version 2 verifies under the policy beside it, anything else without one |
| Installer.VerifiedConfig | prestarter/installer/installer.go:140-157 | What a verified config says is its signed payload; in version 1 the embedded root key signed it |
| Installer.OfflineOkExactly | prestarter/installer/installer.go:211-225 | Every component and both manifests are there, in their places, with the signed size and hash |
| Installer.BinaryOkExactly | prestarter/installer/installer.go:197-203 | The binary is the one signed for this platform |
| Installer.BundleOkExactly | prestarter/installer/installer.go:176-210 | The bundles that may be installed |
| Installer.CurrentIsTheUniqueMaximum | prestarter/installer/installer.go:273-288 | current verifies, sits in the slot of its parity, outranks a verified record in the other slot, and does not depend on scan order |
| Installer.CurrentWhileReplacing | prestarter/installer/installer.go:315-384 | While a bundle is stored current stays, or becomes a higher record of the bundle's release that the other slot already held |
| InstallerOps.FillStage | prestarter/installer/installer.go:338-349 | The stage ends as the bundle's directory with its policy only if the config is delegated; without faults exactly for usable bundles |
| InstallerOps.BuildRelease | prestarter/installer/installer.go:333-352 | A release appears whole or not at all |
| InstallerOps.StoreRelease | prestarter/installer/installer.go:327-388 | Afterwards the bundle's copy or a sound directory is in place; a sound one is left alone, another is never deleted; the binary has the signed size and hash |
| InstallerOps.StoreObjects | prestarter/installer/installer.go:389-416 | Afterwards the offline objects of this release are complete; complete ones are left alone, and releases are untouched; complete means every component and both manifests with the signed size and hash |
| InstallerOps.PublishObjects | prestarter/installer/installer.go:401-414 | Only a verified tree replaces the offline objects |
| InstallerOps.Store | prestarter/installer/installer.go:315-418 | Afterwards the disk holds everything the record pins, and what was sound and complete is left alone in every state; a verified bundle fails to be stored only through a fault |
| InstallerOps.StoredVerifies | prestarter/installer/installer.go:242-271 | What is stored passes the slot check, for every generation, unless the installed config is another one with the same SHA-256 |
| InstallerOps.StagedExactly | prestarter/installer/installer.go:162-175 | The directory is the bundle's; its policy only goes with version 2 |
| InstallerOps.StoredRecordExactly | prestarter/installer/installer.go:315-326 | The record names payload and platform and pins the config file and the signed binary |
| InstallerRuns.Install | prestarter/installer/installer.go:461-545 | Refusals write nothing; every state but the last leaves the slots alone; without faults it succeeds exactly when permitted, provisioned and given its shortcut; a successful update keeps project, profile, channel and profile key |
| InstallerRuns.IdentityExactly | prestarter/installer/installer.go:492-494 | The identity is project, profile, channel and profile key |
| InstallerRuns.PermittedExactly | prestarter/installer/installer.go:474-506 | An installation is permitted if and only if the bundle verifies, a generation is left, and an update keeps the identity |
| InstallerRuns.NothingCommittedEarly | prestarter/installer/installer.go:507-543 | Until the last write no slot changes, and current stays what it was or becomes a higher record of the bundle's release that the other slot already held |
| InstallerRuns.StoreSafeExactly | prestarter/installer/installer.go:315-418 | Storing a bundle over a current release keeps the old or the new release current in every intermediate state if and only if the release name differs or the bundle carries the config the current record pins |
| InstallerRuns.OtherConfigIsExposed | prestarter/installer/installer.go:357-361 | For every other bundle the quarantine rename is a state in which neither release is current |
| InstallerRuns.CommitIsCurrent | prestarter/installer/installer.go:500-543 | After the last write the new record is current, at the previous generation plus one |
| InstallerRuns.Rollback | prestarter/installer/installer.go:555-628 | At most one write, of the specified record; without faults exactly when there is one and both later steps succeed |
| InstallerRuns.RollbackRecordExactly | prestarter/installer/installer.go:575-612 | A rollback goes to the older verified record of another release with the same identity in the other slot, or is refused |
| InstallerRuns.RollbackTakesOver | prestarter/installer/installer.go:579-621 | The older release becomes current, and the record it replaced stays verified in the other slot |
| InstallerRuns.CurrentHasIdentity | prestarter/installer/installer.go:479-495 | Under the invariant the current record's directory carries the pinned identity: project, profile, channel and profile key |
| InstallerRuns.InstallKeepsIdentity | prestarter/installer/installer.go:479-543 | Every state of an update of the same identity keeps the invariant |
| InstallerRuns.RollbackKeeps | prestarter/installer/installer.go:590-621 | A rollback keeps parity and identity |
| InstallerRuns.FirstInstallDecides | prestarter/installer/installer.go:478-495 | With empty slots the first installation may bring any identity |
| InstallerRuns.ClockDecidesIdentity | prestarter/installer/installer.go:273-288 | When the clock retires the active record but not the other slot's, that one is current, and updates are judged by its identity |
| NbtReader.Reader.TakeBytes | e2e/scripts/prepare-vanilla-1171-void-world.py:31-36 | The position moves exactly past the bytes returned, and not at all when they run out |
| NbtReader.Reader.Name | e2e/scripts/prepare-vanilla-1171-void-world.py:41-43 | Reads exactly the names the grammar allows and stops right behind them |
| NbtReader.Reader.Payload | e2e/scripts/prepare-vanilla-1171-void-world.py:45-72 | The moving reader finds exactly what the position-based grammar finds, and stops where it stops |
| NbtReader.Reader.ListPayload | e2e/scripts/prepare-vanilla-1171-void-world.py:56-61 | The element loop reads exactly a list |
| NbtReader.Reader.CompoundPayload | e2e/scripts/prepare-vanilla-1171-void-world.py:62-71 | The field loop reads exactly a compound with distinct names |
| NbtBytes.NumbersExactly | e2e/scripts/prepare-vanilla-1171-void-world.py:48-49 | Tags 1 to 6 take 1, 2, 4, 8, 4 and 8 bytes; the first four are their big-endian two's complement sums |
| NbtBytes.ArraysExactly | e2e/scripts/prepare-vanilla-1171-void-world.py:50-53 | Tags 7, 11 and 12 are a four-byte count and elements of 1, 4 or 8 bytes |
| NbtBytes.NamesExactly | e2e/scripts/prepare-vanilla-1171-void-world.py:41-43 | A name is a two-byte length and that many bytes of UTF-8 |
| NbtBytes.ListsExactly | e2e/scripts/prepare-vanilla-1171-void-world.py:56-61 | A list is the tag of its elements, a four-byte count of at most 64 Mi, and the elements |
| NbtBytes.NothingElseIsRead | e2e/scripts/prepare-vanilla-1171-void-world.py:46-72 | There is no other tag, and nothing below level 64 |
| NbtBytes.IntegersPrintExactly | e2e/scripts/prepare-vanilla-1171-void-world.py:85-86 | An integer is printed as the bytes of its tag's size that stand for it, if there are any |
| NbtBytes.OthersPrintExactly | e2e/scripts/prepare-vanilla-1171-void-world.py:75-90 | Floats, arrays and strings, byte by byte |
| NbtBytes.ContainersPrintExactly | e2e/scripts/prepare-vanilla-1171-void-world.py:91-96 | Lists and compounds, around their parts |
| NbtBytes.PartsPrintExactly | e2e/scripts/prepare-vanilla-1171-void-world.py:93-96 | Element by element and field by field, in order |
| NbtBytes.ValidUtf8Exactly | e2e/scripts/prepare-vanilla-1171-void-world.py:41-43 | The texts accepted are exactly the UTF-8 encodings of sequences of Unicode scalar values |
| Nbt.ParseItems | e2e/scripts/prepare-vanilla-1171-void-world.py:57-61 | A list of n elements consumes at least n bytes, so parsing terminates whatever length is announced |
| Nbt.ItemsThenEncode | e2e/scripts/prepare-vanilla-1171-void-world.py:56-93 | Parsed elements are well formed and print back |
| Nbt.FieldsThenEncode | e2e/scripts/prepare-vanilla-1171-void-world.py:62-96 | Parsed fields are well formed, distinct, and print back in their order |
| Nbt.ItemsParse | e2e/scripts/prepare-vanilla-1171-void-world.py:56-93 | Printed elements parse back |
| Nbt.FieldsParse | e2e/scripts/prepare-vanilla-1171-void-world.py:62-96 | Printed fields parse back in order, up to the end tag |
| World.PutMeansAssign | e2e/scripts/prepare-vanilla-1171-void-world.py:128-131 | Assignment to a dict key changes that key alone, keeps the order, appends only a new key, and is a no-op for an equal value |
| World.AssignMeansAssign | e2e/scripts/prepare-vanilla-1171-void-world.py:100-131 | An assignment through nested dicts is seen at its path, leaves every incomparable path alone, and keeps the compounds above |
| World.AssignSame | e2e/scripts/prepare-vanilla-1171-void-world.py:128-131 | Assigning what is already there changes nothing at any depth |
| World.AssignKeepsOrder | e2e/scripts/prepare-vanilla-1171-void-world.py:128-131 | No dict loses or reorders a key; only the one assigned into can gain one, at its end |
| World.Prepare | e2e/scripts/prepare-vanilla-1171-void-world.py:107-132 | The step-by-step walk and the four assignments compute the specified file, with the same refusals |
| World.RewritableExactly | e2e/scripts/prepare-vanilla-1171-void-world.py:116-127 | A world is rewritten if and only if its generator is the flat one and has settings with a list of layers |
| World.PathsExactly | e2e/scripts/prepare-vanilla-1171-void-world.py:116-131 | Where the script looks and writes, key by key, and what |
| World.AsciiExactly | e2e/scripts/prepare-vanilla-1171-void-world.py:116-131 | Keys and texts are bytes by their ASCII codes |
| World.GetExactly | e2e/scripts/prepare-vanilla-1171-void-world.py:100-104 | With distinct names a lookup finds exactly the field of that name |
| World.RewriteFrame | e2e/scripts/prepare-vanilla-1171-void-world.py:116-131 | The four entries have their new values and every path off them is unchanged |
| World.RewriteKeepsOrder | e2e/scripts/prepare-vanilla-1171-void-world.py:128-131 | Field order survives the whole rewrite |
| World.RewriteIdempotent | e2e/scripts/prepare-vanilla-1171-void-world.py:128-131 | Rewriting twice is rewriting once |
| World.RootPrints | e2e/scripts/prepare-vanilla-1171-void-world.py:107-115 | A parsed file prints back to itself |
| World.RootRoundTrip | e2e/scripts/prepare-vanilla-1171-void-world.py:132-132 | A well-formed root prints and parses back to its last byte |
| World.PreparedParses | e2e/scripts/prepare-vanilla-1171-void-world.py:148-154 | The output parses completely, to the rewritten tree under the same name |
| Framing.VarintBytes | e2e/scripts/minecraft-login-probe.py:49-59 | The loop yields the specified encoding of the low 32 bits, for negative numbers too |
| Framing.DecodeVarintBytes | e2e/scripts/minecraft-login-probe.py:62-72 | The loop decodes exactly what the recursive reading does, with its two failures |
| Framing.VarintRoundTrip | e2e/scripts/minecraft-login-probe.py:49-72 | Every 32-bit number is read back, wherever it stands |
| Framing.VarintExactly | e2e/scripts/minecraft-login-probe.py:49-59 | A number is written as the shortest bytes that are read as its low 32 bits |
| Framing.DecodeVarintExactly | e2e/scripts/minecraft-login-probe.py:62-72 | What one to five bytes stand for, seven bits each; when they are too long or not enough |
| Framing.FramedExactly | e2e/scripts/minecraft-login-probe.py:105-119 | A frame, byte by byte, below and above the threshold |
| Framing.ReadFrameExactly | e2e/scripts/minecraft-login-probe.py:75-97 | Whole frames of at most 8 MiB are taken from a stream |
| Framing.DeframeExactly | e2e/scripts/minecraft-login-probe.py:129-151 | A frame holds what follows a zero, or what decompresses to the announced length, not below the threshold |
| Framing.FrameRoundTrip | e2e/scripts/minecraft-login-probe.py:109-153 | Framing and reading agree for every payload within the limits, on both sides of any threshold, with exactly one exception: an empty payload at threshold zero, unless it compresses to nothing |
| Framing.EmptyPayloadAtZero | e2e/scripts/minecraft-login-probe.py:114-135 | The exception: at threshold zero an empty payload is read back as its compressed form |
| Login.Socket.Recv | e2e/scripts/minecraft-login-probe.py:92-96 | Bytes arrive in pieces of any size, in order, and stop only at the end of the stream |
| Login.Socket.ReadVarint | e2e/scripts/minecraft-login-probe.py:75-85 | Byte-by-byte reading decodes what stands at the position |
| Login.Socket.ReadExact | e2e/scripts/minecraft-login-probe.py:88-97 | Exactly the announced bytes, however they arrive |
| Login.Socket.ReceivePacket | e2e/scripts/minecraft-login-probe.py:122-153 | The packet, the framing errors and the byte count the stream determines |
| Login.Socket.Send | e2e/scripts/minecraft-login-probe.py:156-159 | Appends one frame under the given threshold |
| Login.Socket.Respond | e2e/scripts/minecraft-login-probe.py:202-242 | The branch for each packet id, with its answer and the next threshold |
| Login.ReactExactly | e2e/scripts/minecraft-login-probe.py:202-242 | What the client does about packets 0 to 5 and all others |
| Login.EndingExactly | e2e/scripts/minecraft-login-probe.py:191-200 | How the phase ends where the connection is closed or reset |
| Login.Socket.EnterConfiguration | e2e/scripts/minecraft-login-probe.py:172-242 | For every stream, every schedule of timeouts and every number of bytes they take, outcome, counts and bytes sent are exactly those that listening round by round determines |
| Login.MessageArrives | e2e/scripts/minecraft-login-probe.py:122-153 | Every sendable message is received as sent |
| Login.RepliesAfter | e2e/scripts/minecraft-login-probe.py:215-240 | A message is answered under the threshold its predecessors set, whatever follows |
| Login.InStepIsTalk | e2e/scripts/minecraft-login-probe.py:182-190 | Over any schedule of timeouts that lose no bytes the outcome is that of the undisturbed conversation, or that conversation cut short by the deadline |
| Login.DeadlineCounts | e2e/scripts/minecraft-login-probe.py:182-190 | When the deadline ends the conversation, packets heard and rounds that timed out add up to the rounds there were |
| Login.InStepExactly | e2e/scripts/minecraft-login-probe.py:186-190 | The client understands every script if and only if a timeout takes no byte: for every number of bytes lost before the first packet there is a script whose login it misses |
| Login.EveryLossMatters | e2e/scripts/minecraft-login-probe.py:186-190 | The same after any uncompressed beginning of a script, for any number of bytes lost there |
| Login.LossyRoundLosesTheLogin | e2e/scripts/minecraft-login-probe.py:182-190 | Carried to schedules: a client that heard everything up to one lossy timeout, and loses nothing later, still misses the login |
| Der.ReadDerLength | e2e/scripts/device-trust-crypto.py:26-36 | Reads short and long lengths of up to four octets, and refuses the rest |
| Der.ReadsExactlySignatures | e2e/scripts/device-trust-crypto.py:39-63 | The reader accepts exactly the layouts of a sequence of two INTEGERs with nothing after it, with unique bodies |
| Der.Strip | e2e/scripts/device-trust-crypto.py:57-58 | The loop drops leading zero octets down to the last octet |
| Der.StrippedFits | e2e/scripts/device-trust-crypto.py:57-61 | A stripped value fits the width exactly when its number does |
| Der.PaddedIsBigEndian | e2e/scripts/device-trust-crypto.py:61-61 | Padding on the left gives the fixed-width big-endian number |
| Der.ConvertEncoded | e2e/scripts/device-trust-crypto.py:39-64 | For all r and s below 2^256 the converter inverts the DER encoder (section 2.2.3 of RFC 3279, section 8.1.3 of X.690) |
| Der.EncodedReads | e2e/scripts/device-trust-crypto.py:39-63 | The encoder's output reads back to its two numbers |
| Startup.StartupObserver.constructor | e2e/scripts/staged_readiness.py:204-230 | Starts without samples; blocked, with a reason that is never empty, exactly when the host check fails |
| Startup.StartupObserver.Tick | e2e/scripts/staged_readiness.py:232-293 | The whole next state for every observation, including the faults that block and those that are only noted |
| Startup.TicksKeepEvidence | e2e/scripts/staged_readiness.py:232-281 | Over any ticks: at most two samples, of the current window, different and at least two seconds apart |
| Startup.RemembersTheLooks | e2e/scripts/staged_readiness.py:259-270 | After any ticks the observer remembers the last frame captured, when the last frame came that differs from the one before it, and when the window was last found |
| Startup.KeptExactly | e2e/scripts/staged_readiness.py:271-281 | A frame is kept if it is the first, or a different one at least two seconds later |
| Startup.TicksExactly | e2e/scripts/staged_readiness.py:232-293 | When a tick changes nothing, fails or blocks |
| Startup.VerdictExactly | e2e/scripts/staged_readiness.py:295-325 | Which verdicts are blocked, and what fails at once |
| Startup.StoppedStays | e2e/scripts/staged_readiness.py:233-243 | A blocked or failed observer never changes again |
| Gameplay.Shortfall | e2e/scripts/staged_matching.py:625-634 | No shortfall is found exactly when the evidence proves movement |
| Gameplay.GameplayObserver.Tick | e2e/scripts/staged_matching.py:538-650 | What counts as joined, as input sent and as measured; when a tick passes, fails, blocks or is skipped, exactly; what it records, exactly; and that nothing recorded before the input changes after it |
| Gameplay.GameplayObserver.Probe | e2e/scripts/staged_matching.py:559-634 | The same for the observation proper, stopping where an exception interrupts it |
| Gameplay.GameplayObserver.Act | e2e/scripts/staged_matching.py:593-615 | Input counts as sent exactly when position, ticks and frame were recorded and no exception came between |

## Left out

- Cryptography, zlib, JSON, base64, hexadecimal and time parsing: abstract functions, as above.
- The rules for URLs, host names and branding in a config: two abstract predicates (`artifactUrlOk`, `scalarsOk`).
- Process locks, symbolic-link and directory-type checks, permissions: one writer at a time is assumed.
- Atomic, ordered renames and writes are assumed; torn writes are not modelled. Removing or copying a directory tree
  is one step, except that an interrupted copy of offline objects may leave any tree in its stage.
- `prepareAndStart`, `provision` and `createShortcut`: outcomes that are assumed not to touch slots or releases.
- Installing a component takes its bytes as an answer checked against the signed hash; how they are downloaded is
  `Storage`. A failed download, and a name already taken in quarantine or among the stages, count as faults.
- Command-line checks of `Run`: user name, launch profile, offline root.
- `prepareRecord`, Managed Java, Desktop configuration files: single writes without a protocol of their own.
- `switch.journal` is written and removed as in the code; nothing reads it for recovery.
- `Repair` and the walk over offline directories, `VerifyInstalled`, uninstallation: mostly validation of files.
- The installer decodes some JSON leniently where the Prestarter is strict: both are the same abstract function here.
- Devices.Device.Step: one step of a device is atomic by assumption; `SmallWrites` justifies it for small files, a
  rename justifies itself, and directory trees are taken as above.
- Devices.Device.StepAndFlush: as for a step; what a lost flush loses at a power failure is not modelled.
- Time stands still within one run; between runs it is arbitrary.
- HTTP client, TLS, redirects, request timeouts: an origin is a function of attempt and request; a cancelled context
  counts as a fault.
- TrustPolicy.AuthorizeAsksTheKey: an unparsable start time counts as no lower bound; accepted policies have none.
- InstallerRuns.CommitIsCurrent: when nothing was current, a leftover record of the same release may rank above the
  new one, as in the code.
- World.Prepare: the nested dicts are values, assigned along paths; aliasing between them is not modelled. Compression
  and replacement of `level.dat` are not part of this model.
- Nbt.ParseThenEncode: floats are their raw bits and strings the bytes of valid UTF-8.
- Login.Socket.EnterConfiguration: sending does not fail.
- The CONFIGURATION phase and the plain status probe: fixed exchanges without changing framing.
- Startup.StartupObserver.Tick: whether the log is fatal is an observation. The texts that decide it differ in
  language between two functions of the script, so no claim is made about early detection of a crash.
- Gameplay.GameplayObserver.Tick: RCON answers, screenshots, windows and log scans are observations; coordinates are
  real numbers, so rounding at exactly 0.22 blocks is not modelled.
- Certification and acceptance scripts, the Swift helper, the front end: field-by-field checks or I/O.
