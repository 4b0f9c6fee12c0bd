/** How one named directory among others is replaced: through a stage with a name of its own, with the old
directory kept in quarantine.  Both installers of the launcher do this (prestarter/prestarter.go,
prestarter/installer/installer.go). */
module Directories {
  import opened Text

  predicate SameAt<V(==)>(m: map<string, V>, n: map<string, V>, name: string) {
    (name in m <==> name in n) && (name in m ==> m[name] == n[name])
  }

  predicate IsStage(name: string) {
    HasPrefix(name, ".incomplete-")
  }

  function BrokenName(release: string, nanos: nat): string {
    release + ".broken-" + Decimal(nanos)
  }

  /** The clock always offers a quarantine name that is not taken. */
  lemma {:induction false} FreshName(names: set<string>, release: string, from: nat) returns (nanos: nat)
    ensures nanos >= from && BrokenName(release, nanos) !in names
    decreases |names|
  {
    var name := BrokenName(release, from);
    if name !in names {
      return from;
    }
    nanos := FreshName(names - {name}, release, from + 1);
    var prefix := release + ".broken-";
    assert name[|prefix|..] == Decimal(from) && BrokenName(release, nanos)[|prefix|..] == Decimal(nanos);
    DecimalValue(from);
    DecimalValue(nanos);
  }

  predicate IsBroken(name: string, release: string) {
    HasPrefix(name, release + ".broken-")
  }

  /** Release names built from digests for one platform are neither stages nor in each other's quarantine. */
  lemma ReleaseNameIsPlain(digest: string, other: string, platform: string)
    requires ValidDigest(digest) && ValidDigest(other)
    ensures !IsStage(digest + "-" + platform)
    ensures !IsBroken(digest + "-" + platform, other + "-" + platform)
    ensures (digest + "-" + platform)[0] != '.'
  {
    assert IsLowerHex(digest[0]) && (digest + "-" + platform)[0] == digest[0];
    assert ".incomplete-"[0] == '.';
    assert |digest + "-" + platform| < |other + "-" + platform + ".broken-"|;
  }

  /** The directory `m` has for `release` is still there, in place or in quarantine. */
  predicate Survives<V(==)>(m: map<string, V>, n: map<string, V>, release: string) {
    release in m ==>
      || (release in n && n[release] == m[release])
      || exists name | name in n :: IsBroken(name, release) && n[name] == m[release]
  }

  /** Between `m` and `n` only stages came and went, and `release` was replaced, its old directory kept. */
  ghost predicate Replaces<V>(m: map<string, V>, n: map<string, V>, release: string) {
    && (forall name | name != release && !IsStage(name) && (name in m || !IsBroken(name, release)) ::
        SameAt(m, n, name))
    && Survives(m, n, release)
  }

  lemma NothingReplaced<V>(m: map<string, V>, release: string)
    ensures Replaces(m, m, release)
  {
  }

  /** A stage is created, filled or removed. */
  lemma StageStep<V>(m: map<string, V>, n: map<string, V>, p: map<string, V>, release: string, stage: string)
    requires Replaces(m, n, release) && release != "" && release[0] != '.' && IsStage(stage)
    requires forall name | name != stage :: SameAt(n, p, name)
    ensures Replaces(m, p, release)
  {
    assert stage[0] == '.' && stage != release;
    assert SameAt(n, p, release);
    forall name | IsBroken(name, release)
      ensures SameAt(n, p, name)
    {
      assert name[0] == release[0];
    }
    forall name | name != release && !IsStage(name) && (name in m || !IsBroken(name, release))
      ensures SameAt(m, p, name)
    {
      assert SameAt(m, n, name) && SameAt(n, p, name);
    }
  }

  /** The directory of `release` moves into quarantine. */
  lemma QuarantineStep<V>(m: map<string, V>, n: map<string, V>, p: map<string, V>, release: string, nanos: nat)
    requires Replaces(m, n, release) && release != "" && release[0] != '.'
    requires release in n && BrokenName(release, nanos) !in n
    requires release in m ==>
               || n[release] == m[release]
               || exists name | name in n :: IsBroken(name, release) && n[name] == m[release]
    requires p == (n - {release})[BrokenName(release, nanos) := n[release]]
    ensures Replaces(m, p, release) && release !in p
  {
    var broken := BrokenName(release, nanos);
    assert IsBroken(broken, release) && |broken| > |release| && broken[0] == release[0];
    assert broken in p;
    assert broken !in m by {
      assert broken in m ==> SameAt(m, n, broken);
    }
    forall name | name != release && !IsStage(name) && (name in m || !IsBroken(name, release))
      ensures SameAt(m, p, name)
    {
      assert SameAt(m, n, name);
    }
  }

  /** A filled stage is renamed to `release`, which nothing occupies. */
  lemma PublishStep<V>(m: map<string, V>, n: map<string, V>, p: map<string, V>, release: string, stage: string)
    requires Replaces(m, n, release) && release !in n
    requires release != "" && release[0] != '.' && IsStage(stage) && stage in n
    requires p == (n - {stage})[release := n[stage]]
    ensures Replaces(m, p, release)
  {
    assert stage[0] == '.';
    if release in m {
      var name :| name in n && IsBroken(name, release) && n[name] == m[release];
      assert name[0] == release[0] && |name| > |release|;
      assert name in p && p[name] == m[release];
    }
    forall name | name != release && !IsStage(name) && (name in m || !IsBroken(name, release))
      ensures SameAt(m, p, name)
    {
      assert SameAt(m, n, name);
    }
  }
}
