/** The resumable, content-addressed download (prestarter/storage.go). */
module Storage {
  import opened Wrappers
  import opened Environment
  import opened Devices
  import opened Ranges

  /** The three files of one object: the verified copy, the partial download and the validator it belongs to. */
  datatype Files = Files(cache: Option<string>, part: Option<string>, etag: Option<string>)

  /** `start` is 0 for a plain GET; otherwise Range asks for the bytes from `start` on, If-Range names `validator`. */
  datatype Request = Request(start: nat, validator: string)

  /** `contentLength` is negative when unknown; `broken` says that reading past `body` fails instead of ending. */
  datatype Reply = NoReply
                 | Reply(status: int, contentEncoding: string, contentRange: string, contentLength: int,
                         etag: string, body: string, broken: bool)

  /** What the server answers to the request of each attempt; an arbitrary function is an arbitrary adversary. */
  type Origin = (nat, Request) -> Reply

  const ATTEMPTS := 5

  // ---------------------------------------------------------------- what an attempt starts from

  predicate Resumable(f: Files, size: int) {
    f.part.Some? && 0 < |f.part.value| < size && f.etag.Some? && StrongETag(f.etag.value)
  }

  /** The bytes the next attempt will not ask for again. */
  function Retained(f: Files, size: int): nat {
    if Resumable(f, size) then |f.part.value| else 0
  }

  function RequestFor(f: Files, size: int): Request {
    if Resumable(f, size) then Request(|f.part.value|, f.etag.value) else Request(0, "")
  }

  // ---------------------------------------------------------------- steps on the partial files

  /** Files removed, nothing else. */
  predicate OnlyRemoves(f: Files, g: Files) {
    g.cache == f.cache && (g.part == f.part || g.part.None?) && (g.etag == f.etag || g.etag.None?)
  }

  /** Failures are counted, and a call without any misses nothing. */
  twostate predicate Counted(dev: Device<Files>)
    reads dev
  {
    dev.faults >= old(dev.faults) && dev.missed >= old(dev.missed)
    && (dev.faults == old(dev.faults) ==> dev.missed == old(dev.missed))
  }

  /** Removes the part, then the validator. A removal that fails goes unnoticed. */
  method RemovePartial(dev: Device<Files>)
    requires dev.Valid()
    modifies dev
    ensures dev.Valid() && old(dev.trace) <= dev.trace
    ensures forall k | |old(dev.trace)| <= k < |dev.trace| :: OnlyRemoves(old(dev.state), dev.trace[k])
    ensures OnlyRemoves(old(dev.state), dev.state)
    ensures Counted(dev) && (dev.missed == old(dev.missed) <==> dev.state.part.None? && dev.state.etag.None?)
    ensures dev.missed == old(dev.missed) ==> dev.faults == old(dev.faults)
  {
    if dev.state.part.Some? {
      dev.Discard(dev.state.(part := None));
    }
    if dev.state.etag.Some? {
      dev.Discard(dev.state.(etag := None));
    }
  }

  /** The part holds `base` and a beginning of `data`; the other files are as in `f`. */
  predicate Appending(f: Files, g: Files, base: string, data: string) {
    g.cache == f.cache && g.etag == f.etag && g.part.Some? && base <= g.part.value && g.part.value <= base + data
  }

  /** `io.CopyBuffer`: appends in pieces of any size up to the buffer's. */
  method CopyBody(dev: Device<Files>, data: string) returns (ok: bool)
    requires dev.Valid() && dev.state.part.Some?
    modifies dev
    ensures dev.Valid() && old(dev.trace) <= dev.trace
    ensures forall k | |old(dev.trace)| <= k < |dev.trace| ::
              Appending(old(dev.state), dev.trace[k], old(dev.state).part.value, data)
    ensures Appending(old(dev.state), dev.state, old(dev.state).part.value, data)
    ensures ok ==> dev.state.part.value == old(dev.state).part.value + data
    ensures dev.missed == old(dev.missed) && dev.faults == old(dev.faults) + if ok then 0 else 1
  {
    ghost var f, base := dev.state, dev.state.part.value;
    var at := 0;
    assert base == base + data[..0];
    while at < |data|
      invariant 0 <= at <= |data| && dev.Valid() && old(dev.trace) <= dev.trace
      invariant forall k | |old(dev.trace)| <= k < |dev.trace| :: Appending(f, dev.trace[k], base, data)
      invariant Appending(f, dev.state, base, data) && dev.state.part.value == base + data[..at]
      invariant dev.missed == old(dev.missed) && dev.faults == old(dev.faults)
    {
      var piece: nat := *;
      var room := if |data| - at < 65536 then |data| - at else 65536;
      piece := if 1 <= piece <= room then piece else room;
      assert base + data[..at] + data[at..at + piece] == base + data[..at + piece];
      assert base + data == base + data[..at + piece] + data[at + piece..];
      ok := dev.Step(dev.state.(part := Some(dev.state.part.value + data[at..at + piece])));
      if !ok {
        return false;
      }
      at := at + piece;
    }
    assert data[..|data|] == data;
    ok := true;
  }

  // ---------------------------------------------------------------- fetch

  /** The checks on a 206 answer to a request for the bytes from `start` on. */
  predicate RangeAccepted(a: Reply, start: nat, validator: string, size: int)
    requires a.Reply?
  {
    && a.status == 206
    && ParseContentRange(a.contentRange).Some?
    && var (low, high, total) := ParseContentRange(a.contentRange).value;
       && low == start && total == size && low <= high < size
       && (a.contentLength >= 0 ==> a.contentLength == high - low + 1)
       && a.etag == validator
  }

  predicate WholeAccepted(a: Reply, size: int)
    requires a.Reply?
  {
    a.status == 200 && a.contentRange == "" && (a.contentLength >= 0 ==> a.contentLength == size)
  }

  predicate Plain(a: Reply)
    requires a.Reply?
  {
    a.contentEncoding == "" || a.contentEncoding == "identity"
  }

  /** The part of a body that is read: one byte more than the signed size allows, so that excess is noticed. */
  function Taken(a: Reply, start: nat, size: int): string
    requires a.Reply? && start <= size
  {
    if |a.body| <= size - start + 1 then a.body else a.body[..size - start + 1]
  }

  /** Opens the part and appends the body; for a fresh download the validator is stored first. */
  method Receive(dev: Device<Files>, start: nat, a: Reply, size: int) returns (ok: bool)
    requires dev.Valid() && a.Reply? && start <= size && (start > 0 ==> dev.state.part.Some?)
    modifies dev
    ensures dev.Valid() && old(dev.trace) <= dev.trace
    ensures forall k | |old(dev.trace)| <= k < |dev.trace| :: Receiving(old(dev.state), dev.trace[k], start, a, size)
    ensures Receiving(old(dev.state), dev.state, start, a, size)
    ensures Counted(dev) && dev.missed == old(dev.missed)
    // It fails on a local fault, or when the body breaks off in a reading error.
    ensures ok <==> dev.faults == old(dev.faults) && !(a.broken && |a.body| < size - start + 1)
    ensures dev.faults == old(dev.faults) ==>
              && dev.state.part == Some(Base(old(dev.state), start) + Taken(a, start, size))
              && dev.state.etag == Tag(old(dev.state), start, a)
  {
    if start == 0 && StrongETag(a.etag) {
      ok := dev.StepAndFlush(dev.state.(etag := Some(a.etag)));
      if !ok {
        return;
      }
    }
    ok := dev.Try();
    if !ok {
      return;
    }
    if start == 0 {
      ok := dev.Step(dev.state.(part := Some("")));
      if !ok {
        return;
      }
    }
    var data := Taken(a, start, size);
    ok := CopyBody(dev, data);
    var synced := dev.Try();
    var readFailed := a.broken && |a.body| < size - start + 1;
    ok := ok && synced && !readFailed;
  }

  function Base(f: Files, start: nat): string {
    if start > 0 && f.part.Some? then f.part.value else ""
  }

  function Tag(f: Files, start: nat, a: Reply): Option<string>
    requires a.Reply?
  {
    if start == 0 && StrongETag(a.etag) then Some(a.etag) else f.etag
  }

  /** A state while an answer is being received: the new validator comes first, then a beginning of the body. */
  predicate Receiving(f: Files, g: Files, start: nat, a: Reply, size: int)
    requires a.Reply? && start <= size
  {
    && g.cache == f.cache
    && ((g.part == f.part && (g.etag == f.etag || g.etag == Tag(f, start, a)))
        || (&& g.etag == Tag(f, start, a) && g.part.Some? && Base(f, start) <= g.part.value
            && g.part.value <= Base(f, start) + Taken(a, start, size)))
  }

  /** Every tag the origin sends names one byte string, and every body it sends with a tag is from that string. */
  ghost predicate Names(origin: Origin, rep: string -> string) {
    forall k, request :: NamesIts(origin(k, request), rep)
  }

  predicate NamesIts(a: Reply, rep: string -> string) {
    a.Reply? && StrongETag(a.etag) ==>
      && (a.status == 200 ==> a.body <= rep(a.etag))
      && (a.status == 206 && ParseContentRange(a.contentRange).Some? ==>
            var low := ParseContentRange(a.contentRange).value.0;
            low <= |rep(a.etag)| && a.body <= rep(a.etag)[low..])
  }

  /** A part with a validator is a beginning of what that validator names. */
  predicate PrefixInv(rep: string -> string, f: Files) {
    f.part.Some? && f.part.value != "" && f.etag.Some? ==> f.part.value <= rep(f.etag.value)
  }

  /** The answer passes the checks for a request from `start` on. */
  predicate Accepted(a: Reply, start: nat, validator: string, size: int)
    requires a.Reply?
  {
    Plain(a) && if start > 0 then RangeAccepted(a, start, validator, size) else WholeAccepted(a, size)
  }

  /** Which answers are taken: to a plain request the whole object, to a range request exactly the rest of the object
  under the same validator, and neither with a content coding. */
  lemma AcceptedExactly(a: Reply, start: nat, validator: string, size: int)
    requires a.Reply?
    ensures Accepted(a, start, validator, size) <==>
              && (a.contentEncoding == "" || a.contentEncoding == "identity")
              && if start == 0 then
                   a.status == 200 && a.contentRange == "" && (a.contentLength < 0 || a.contentLength == size)
                 else
                   && a.status == 206 && a.etag == validator
                   && exists high :: && ParseContentRange(a.contentRange) == Some((start, high, size))
                                     && start <= high < size
                                     && (a.contentLength < 0 || a.contentLength == high + 1 - start)
  {
    hide ParseContentRange;
    if start > 0 && ParseContentRange(a.contentRange).Some? {
      var (low, high, total) := ParseContentRange(a.contentRange).value;
      assert low == start && total == size ==> ParseContentRange(a.contentRange) == Some((start, high, size));
    }
  }

  /** What an attempt asks for: to go on where a nonempty, unfinished part with a strong validator ends, or else
  everything. */
  lemma RequestExactly(f: Files, size: int)
    ensures var r := RequestFor(f, size);
            && (r == Request(0, "") || (r.start > 0 && f.part.Some? && f.etag == Some(r.validator)
                                        && |f.part.value| == r.start))
            && (r.start > 0 <==>
                  f.part.Some? && 0 < |f.part.value| < size && f.etag.Some? && StrongETag(f.etag.value))
            && Retained(f, size) == r.start
  {
    hide StrongETag;
  }

  /** `f` is what an attempt from `start` on appends to. */
  predicate Prepared(f: Files, start: nat, validator: string) {
    if start > 0 then f.part.Some? && |f.part.value| == start && f.etag == Some(validator) && StrongETag(validator)
    else f.part.None? && f.etag.None?
  }

  lemma ReceivingKeepsPrefix(f: Files, g: Files, start: nat, validator: string, a: Reply, size: int,
                             rep: string -> string)
    requires a.Reply? && start <= size && Receiving(f, g, start, a, size)
    requires PrefixInv(rep, f) && Prepared(f, start, validator)
    requires Accepted(a, start, validator, size) && NamesIts(a, rep)
    ensures PrefixInv(rep, g)
  {
    hide ParseContentRange;
    if g.part != f.part && g.etag.Some? {
      assert Taken(a, start, size) <= a.body;
      PrefixGrows(Base(f, start), Taken(a, start, size), a.body, g.part.value, rep(g.etag.value));
    }
  }

  /** Appending to a prefix of `whole` what `whole` continues with gives a prefix of `whole`. */
  lemma PrefixGrows(base: string, data: string, body: string, part: string, whole: string)
    requires base <= whole && data <= body && body <= whole[|base|..] && part <= base + data
    ensures part <= whole
  {
    assert whole == base + whole[|base|..];
    assert base + data <= base + whole[|base|..];
  }

  /** Seen from the state `f` before an attempt: the cache is untouched, the part never exceeds the signed size by
  more than the one byte that shows an excess, and, if `trusted`, it belongs to its validator. */
  ghost predicate Sound(f: Files, g: Files, size: int, rep: string -> string, trusted: bool) {
    && g.cache == f.cache
    && (g.part.Some? ==> g.part == f.part || |g.part.value| <= size + 1)
    && (trusted ==> PrefixInv(rep, g))
  }

  ghost predicate SoundTrace(f: Files, t: seq<Files>, from: nat, size: int, rep: string -> string, trusted: bool) {
    forall k | from <= k < |t| :: Sound(f, t[k], size, rep, trusted)
  }

  lemma SoundTraceJoin(f: Files, g: Files, t: seq<Files>, u: seq<Files>, from: nat,
                       size: int, rep: string -> string, trusted: bool)
    requires SoundTrace(f, t, from, size, rep, trusted) && Sound(f, g, size, rep, trusted)
    requires t <= u && SoundTrace(g, u, |t|, size, rep, trusted)
    ensures SoundTrace(f, u, from, size, rep, trusted)
  {
    forall k | from <= k < |u|
      ensures Sound(f, u[k], size, rep, trusted)
    {
      assert k < |t| ==> u[k] == t[k];
    }
  }

  lemma RemovingIsSound(f: Files, t: seq<Files>, from: nat, size: int, rep: string -> string, trusted: bool)
    requires trusted ==> PrefixInv(rep, f)
    requires forall k | from <= k < |t| :: OnlyRemoves(f, t[k])
    ensures SoundTrace(f, t, from, size, rep, trusted)
  {
  }

  lemma ReceivingIsSound(f: Files, t: seq<Files>, from: nat, start: nat, validator: string, a: Reply,
                         size: int, rep: string -> string, trusted: bool)
    requires a.Reply? && start <= size && Accepted(a, start, validator, size)
    requires start > 0 ==> f.part.Some? && |f.part.value| == start
    requires trusted ==> PrefixInv(rep, f) && Prepared(f, start, validator) && NamesIts(a, rep)
    requires forall k | from <= k < |t| :: Receiving(f, t[k], start, a, size)
    ensures SoundTrace(f, t, from, size, rep, trusted)
  {
    hide Accepted, NamesIts, PrefixInv, Prepared;
    forall k | from <= k < |t|
      ensures Sound(f, t[k], size, rep, trusted)
    {
      if trusted {
        ReceivingKeepsPrefix(f, t[k], start, validator, a, size, rep);
      }
    }
  }

  function NewTag(f: Files, start: nat, a: Reply): Option<string>
    requires a.Reply?
  {
    if start > 0 then f.etag else if StrongETag(a.etag) then Some(a.etag) else None
  }

  function Emptied(f: Files): Files {
    f.(part := None, etag := None)
  }

  /** How the answer `a` to a request from `start` on ends an attempt, when nothing local fails. */
  predicate ExchangeEnds(f: Files, g: Files, ok: bool, start: nat, validator: string, a: Reply, size: int)
    requires start <= size
  {
    if a.NoReply? || !Plain(a) then !ok && g == f
    else if !Accepted(a, start, validator, size) then !ok && g == Emptied(f)
    else
      var total := Base(f, start) + Taken(a, start, size);
      if a.broken && |a.body| < size - start + 1 then !ok && g == Files(f.cache, Some(total), NewTag(f, start, a))
      else if |total| > size then !ok && g == Emptied(f)
      else ok == (|total| == size) && g == Files(f.cache, Some(total), NewTag(f, start, a))
  }

  /** What an attempt does with the answer to its request. */
  method Exchange(dev: Device<Files>, start: nat, validator: string, a: Reply, size: int,
                  ghost rep: string -> string, ghost trusted: bool) returns (ok: bool)
    requires dev.Valid() && start < size
    requires start > 0 ==> dev.state.part.Some? && |dev.state.part.value| == start
    requires trusted ==> Prepared(dev.state, start, validator) && NamesIts(a, rep) && PrefixInv(rep, dev.state)
    modifies dev
    ensures dev.Valid() && old(dev.trace) <= dev.trace
    ensures SoundTrace(old(dev.state), dev.trace, |old(dev.trace)|, size, rep, trusted)
    ensures Sound(old(dev.state), dev.state, size, rep, trusted)
    ensures ok ==> dev.state.part.Some? && |dev.state.part.value| == size
    // A body that is too long or too short is refused.
    ensures ok ==> a.Reply? && start + |a.body| == size
    ensures Counted(dev)
    ensures dev.faults == old(dev.faults) && (start == 0 ==> Emptied(old(dev.state)) == old(dev.state)) ==>
              ExchangeEnds(old(dev.state), dev.state, ok, start, validator, a, size)
  {
    hide SoundTrace, PrefixInv, NamesIts, ParseContentRange;
    ghost var f, t0 := dev.state, dev.trace;
    RemovingIsSound(f, t0, |t0|, size, rep, trusted);
    if a.NoReply? || !(a.contentEncoding == "" || a.contentEncoding == "identity") {
      return false;
    }
    if start > 0 {
      if a.status == 200 || a.status == 416 || !RangeAccepted(a, start, validator, size) {
        RemovePartial(dev);
        RemovingIsSound(f, dev.trace, |t0|, size, rep, trusted);
        RemovingIsSound(f, [dev.state], 0, size, rep, trusted);
        SoundOne(f, dev.state, size, rep, trusted);
        return false;
      }
    } else {
      if !WholeAccepted(a, size) {
        return false;
      }
    }
    ok := Receive(dev, start, a, size);
    ghost var g, t1 := dev.state, dev.trace;
    ReceivingIsSound(f, t1, |t0|, start, validator, a, size, rep, trusted);
    ReceivingIsSound(f, [g], 0, start, validator, a, size, rep, trusted);
    SoundOne(f, g, size, rep, trusted);
    if !ok {
      return false;
    }
    if start + |Taken(a, start, size)| > size {
      RemovePartial(dev);
      RemovingIsSound(g, dev.trace, |t1|, size, rep, trusted);
      RemovingIsSound(g, [dev.state], 0, size, rep, trusted);
      SoundOne(g, dev.state, size, rep, trusted);
      SoundTraceJoin(f, g, t1, dev.trace, |t0|, size, rep, trusted);
      return false;
    }
    ok := start + |Taken(a, start, size)| == size;
  }

  lemma SoundOne(f: Files, g: Files, size: int, rep: string -> string, trusted: bool)
    requires SoundTrace(f, [g], 0, size, rep, trusted)
    ensures Sound(f, g, size, rep, trusted)
  {
    assert [g][0] == g;
  }

  /** One attempt. The prefix invariant rests on stale files being really gone: on no removal failing unnoticed. */
  method Fetch(dev: Device<Files>, size: int, attempt: nat, origin: Origin, ghost rep: string -> string)
      returns (ok: bool)
    requires dev.Valid() && size > 0
    modifies dev
    ensures dev.Valid() && old(dev.trace) <= dev.trace && Counted(dev)
    ensures var trusted := dev.missed == old(dev.missed) && Names(origin, rep) && PrefixInv(rep, old(dev.state));
            && SoundTrace(old(dev.state), dev.trace, |old(dev.trace)|, size, rep, trusted)
            && Sound(old(dev.state), dev.state, size, rep, trusted)
    ensures ok ==> dev.state.part.Some? && |dev.state.part.value| == size
    ensures var request := RequestFor(old(dev.state), size);
            ok ==> origin(attempt, request).Reply? && request.start + |origin(attempt, request).body| == size
    // Without local failures the answer alone decides how the attempt ends.
    ensures dev.faults == old(dev.faults) ==>
              var f, request := old(dev.state), RequestFor(old(dev.state), size);
              ExchangeEnds(if request.start > 0 then f else Emptied(f), dev.state, ok,
                           request.start, request.validator, origin(attempt, request), size)
  {
    hide SoundTrace, PrefixInv, NamesIts, ExchangeEnds, Names, StrongETag;
    ghost var f, t0 := dev.state, dev.trace;
    ghost var trusted := Names(origin, rep) && PrefixInv(rep, f);
    var start, validator := 0, "";
    if dev.state.part.Some? && 0 < |dev.state.part.value| < size {
      if dev.state.etag.Some? && StrongETag(dev.state.etag.value) {
        start, validator := |dev.state.part.value|, dev.state.etag.value;
      }
    }
    if start == 0 {
      RemovePartial(dev);
    }
    ghost var g, t1 := dev.state, dev.trace;
    trusted := trusted && dev.missed == old(dev.missed);
    RemovingIsSound(f, t1, |t0|, size, rep, trusted);
    RemovingIsSound(f, [g], 0, size, rep, trusted);
    SoundOne(f, g, size, rep, trusted);
    var a := origin(attempt, Request(start, validator));
    if trusted {
      NamesOne(origin, rep, attempt, Request(start, validator));
    }
    ok := Exchange(dev, start, validator, a, size, rep, trusted);
    SoundTraceJoin(f, g, t1, dev.trace, |t0|, size, rep, trusted);
    LessTrust(f, dev.trace, |t0|, dev.state, size, rep, trusted,
              dev.missed == old(dev.missed) && Names(origin, rep) && PrefixInv(rep, f));
  }

  lemma LessTrust(f: Files, t: seq<Files>, from: nat, g: Files, size: int, rep: string -> string, trusted: bool,
                  less: bool)
    requires SoundTrace(f, t, from, size, rep, trusted) && Sound(f, g, size, rep, trusted)
    requires less ==> trusted
    ensures SoundTrace(f, t, from, size, rep, less) && Sound(f, g, size, rep, less)
  {
  }

  lemma NamesOne(origin: Origin, rep: string -> string, attempt: nat, request: Request)
    requires Names(origin, rep)
    ensures NamesIts(origin(attempt, request), rep)
  {
  }

  // ---------------------------------------------------------------- artifact

  /** `g` is a state of the whole operation begun in `f`: the cache only ever receives verified bytes. */
  ghost predicate ArtifactState(env: Env, art: Artifact, f: Files, g: Files, rep: string -> string, trusted: bool) {
    && (g.cache == f.cache || g.cache.None? || HashFile(env, g.cache, art))
    && (g.part.Some? ==> g.part == f.part || |g.part.value| <= art.size + 1)
    && (trusted ==> PrefixInv(rep, g))
  }

  ghost predicate ArtifactTrace(env: Env, art: Artifact, f: Files, t: seq<Files>, from: nat,
                                rep: string -> string, trusted: bool)
  {
    forall k | from <= k < |t| :: ArtifactState(env, art, f, t[k], rep, trusted)
  }

  lemma SoundIsArtifact(env: Env, art: Artifact, f: Files, g: Files, t: seq<Files>, from: nat, rep: string -> string,
                        trusted: bool)
    requires SoundTrace(f, t, from, art.size, rep, trusted) && Sound(f, g, art.size, rep, trusted)
    ensures ArtifactTrace(env, art, f, t, from, rep, trusted) && ArtifactState(env, art, f, g, rep, trusted)
  {
    hide PrefixInv, HashFile;
    forall k | from <= k < |t|
      ensures ArtifactState(env, art, f, t[k], rep, trusted)
    {
      assert Sound(f, t[k], art.size, rep, trusted);
    }
  }

  lemma ArtifactJoin(env: Env, art: Artifact, f: Files, g: Files, h: Files, t: seq<Files>, u: seq<Files>, from: nat,
                     rep: string -> string, trusted: bool, still: bool)
    requires ArtifactTrace(env, art, f, t, from, rep, trusted) && ArtifactState(env, art, f, g, rep, trusted)
    requires t <= u && (still ==> trusted)
    requires ArtifactTrace(env, art, g, u, |t|, rep, still) && ArtifactState(env, art, g, h, rep, still)
    ensures ArtifactTrace(env, art, f, u, from, rep, still) && ArtifactState(env, art, f, h, rep, still)
  {
    hide PrefixInv, HashFile;
    forall k | from <= k < |u|
      ensures ArtifactState(env, art, f, u[k], rep, still)
    {
      if k < |t| {
        assert u[k] == t[k];
      } else {
        assert ArtifactState(env, art, g, u[k], rep, still);
      }
    }
  }

  /** No step, or one step to a good state. */
  lemma ArtifactStep(env: Env, art: Artifact, f: Files, g: Files, h: Files, t: seq<Files>, u: seq<Files>, from: nat,
                     rep: string -> string, trusted: bool)
    requires ArtifactTrace(env, art, f, t, from, rep, trusted) && ArtifactState(env, art, f, g, rep, trusted)
    requires (u == t && h == g) || (u == t + [h] && ArtifactState(env, art, g, h, rep, trusted))
    ensures ArtifactTrace(env, art, f, u, from, rep, trusted) && ArtifactState(env, art, f, h, rep, trusted)
  {
    hide PrefixInv, HashFile;
    if u != t {
      assert forall k | |t| <= k < |u| :: u[k] == h;
      ArtifactJoin(env, art, f, g, h, t, u, from, rep, trusted, trusted);
    }
  }

  // ---------------------------------------------------------------- progress against an honest origin

  function ResumeRequest(n: nat, tag: string): Request {
    Request(n, if n > 0 then tag else "")
  }

  /** Whatever the server answers to a request for `whole` from `n` on, cut off anywhere or an error of any kind: an
  answer that passes the checks carries the tag and continues with what comes next in `whole`. */
  predicate HonestReply(a: Reply, n: nat, whole: string, tag: string) {
    a.Reply? && n < |whole| && Accepted(a, n, tag, |whole|) ==> a.etag == tag && a.body <= whole[n..]
  }

  /** The bytes held after this answer to a request from `n` on. A failed connection or an encoded body costs nothing,
  a refused answer costs the part, and so does a reading error behind the last byte. */
  function After(n: nat, size: nat, tag: string, a: Reply): nat {
    if a.NoReply? || !Plain(a) then n
    else if !Accepted(a, n, tag, size) || (a.broken && n + |a.body| >= size) then 0
    else n + |a.body|
  }

  ghost predicate Honest(origin: Origin, whole: string, tag: string) {
    StrongETag(tag) && forall k, n | 0 <= n < |whole| :: HonestReply(origin(k, ResumeRequest(n, tag)), n, whole, tag)
  }

  /** Whatever would be resumed belongs to the representation the origin serves. */
  predicate HonestFiles(f: Files, whole: string, tag: string) {
    Resumable(f, |whole|) ==> f.etag == Some(tag) && f.part.value <= whole
  }

  /** The bytes held after `k` attempts that began with `start` bytes, as their answers decide. */
  function Progress(origin: Origin, size: nat, tag: string, start: nat, k: nat): nat {
    if k == 0 then start
    else
      var n := Progress(origin, size, tag, start, k - 1);
      if n >= size then n else After(n, size, tag, origin(k - 1, ResumeRequest(n, tag)))
  }

  lemma {:induction false} ProgressStays(origin: Origin, size: nat, tag: string, start: nat, j: nat, k: nat)
    requires j <= k && Progress(origin, size, tag, start, j) >= size
    ensures Progress(origin, size, tag, start, k) == Progress(origin, size, tag, start, j)
  {
    hide After;
    if j < k {
      ProgressStays(origin, size, tag, start, j, k - 1);
    }
  }

  /** A failed connection, an encoded body, or the bytes asked for, cut off anywhere but behind the last. */
  predicate Clean(a: Reply, n: nat, size: nat, tag: string) {
    a.Reply? && Plain(a) ==> Accepted(a, n, tag, size) && (a.broken ==> n + |a.body| < size)
  }

  /** An honest answer costs bytes already held if and only if it is not clean; a clean one adds all it delivers. */
  lemma KeptExactlyWhenClean(a: Reply, n: nat, whole: string, tag: string)
    requires n < |whole| && HonestReply(a, n, whole, tag)
    ensures After(n, |whole|, tag, a) >= n <==> n == 0 || Clean(a, n, |whole|, tag)
    ensures After(n, |whole|, tag, a) <= |whole|
    ensures Clean(a, n, |whole|, tag) ==>
              After(n, |whole|, tag, a) == n + if a.Reply? && Plain(a) then |a.body| else 0
  {
    hide Accepted;
  }

  /** As long as the answers are clean, no attempt loses what an earlier one kept. */
  lemma {:induction false} ProgressGrows(origin: Origin, whole: string, tag: string, start: nat, j: nat, k: nat)
    requires j <= k && start <= |whole| && Honest(origin, whole, tag)
    requires forall i: nat | i < k :: CleanAt(origin, |whole|, tag, start, i)
    ensures Progress(origin, |whole|, tag, start, j) <= Progress(origin, |whole|, tag, start, k) <= |whole|
    decreases k
  {
    hide After, Clean, HonestReply;
    if k > 0 {
      ProgressGrows(origin, whole, tag, start, if j < k then j else k - 1, k - 1);
      var n := Progress(origin, |whole|, tag, start, k - 1);
      assert CleanAt(origin, |whole|, tag, start, k - 1);
      if n < |whole| {
        KeptExactlyWhenClean(origin(k - 1, ResumeRequest(n, tag)), n, whole, tag);
      }
    }
  }

  /** The answer to attempt `k`, at what is held by then, is clean. */
  predicate CleanAt(origin: Origin, size: nat, tag: string, start: nat, k: nat) {
    var n := Progress(origin, size, tag, start, k);
    Clean(origin(k, ResumeRequest(n, tag)), n, size, tag)
  }

  /** The answer alone decides what is held after an attempt; nothing is asked for twice, and the attempt ends well only
  when everything is there. */
  lemma HonestAttempt(f: Files, g: Files, ok: bool, a: Reply, whole: string, tag: string)
    requires |whole| > 0 && StrongETag(tag) && HonestFiles(f, whole, tag)
    requires HonestReply(a, Retained(f, |whole|), whole, tag)
    requires var request := RequestFor(f, |whole|);
             ExchangeEnds(if request.start > 0 then f else Emptied(f), g, ok, request.start, request.validator, a,
                          |whole|)
    ensures RequestFor(f, |whole|) == ResumeRequest(Retained(f, |whole|), tag)
    ensures var n := After(Retained(f, |whole|), |whole|, tag, a);
            && n <= |whole| && (ok <==> n == |whole|)
            && (ok ==> g.part == Some(whole))
            && (!ok ==> HonestFiles(g, whole, tag) && Retained(g, |whole|) == n)
  {
    hide ParseContentRange, StrongETag;
    var start := Retained(f, |whole|);
    if a.Reply? && Accepted(a, start, tag, |whole|) {
      var base := if start > 0 then f.part.value else "";
      PrefixGrows(base, a.body, a.body, base + a.body, whole);
      if start + |a.body| == |whole| {
        assert base + a.body == whole;
      }
    }
  }

  // ---------------------------------------------------------------- the retry loop

  /** Everything the contract of a download assumes about the origin and the files for progress to be certain. */
  ghost predicate Serves(env: Env, art: Artifact, origin: Origin, whole: string, tag: string) {
    |whole| == art.size && env.sha(whole) == art.sha256 && Honest(origin, whole, tag)
  }

  lemma ServesOne(env: Env, art: Artifact, origin: Origin, whole: string, tag: string, k: nat, n: nat)
    requires Serves(env, art, origin, whole, tag) && n < |whole|
    ensures StrongETag(tag) && HonestReply(origin(k, ResumeRequest(n, tag)), n, whole, tag)
  {
  }

  datatype AttemptResult = Promoted | Again | Fatal

  /** One round of the retry loop: fetch, check the hash, promote the part to the cache. */
  method Attempt(env: Env, dev: Device<Files>, art: Artifact, k: nat, origin: Origin,
                 ghost rep: string -> string, ghost whole: string, ghost tag: string)
      returns (r: AttemptResult)
    requires dev.Valid() && art.size > 0
    modifies dev
    ensures dev.Valid() && old(dev.trace) <= dev.trace && Counted(dev)
    ensures var trusted := dev.missed == old(dev.missed) && Names(origin, rep) && PrefixInv(rep, old(dev.state));
            && ArtifactTrace(env, art, old(dev.state), dev.trace, |old(dev.trace)|, rep, trusted)
            && ArtifactState(env, art, old(dev.state), dev.state, rep, trusted)
    ensures r.Promoted? ==> HashFile(env, dev.state.cache, art)
    ensures r.Fatal? ==> dev.faults > old(dev.faults)
    ensures dev.faults == old(dev.faults) && Serves(env, art, origin, whole, tag)
            && HonestFiles(old(dev.state), whole, tag) ==>
              var start := Retained(old(dev.state), |whole|);
              var n := After(start, |whole|, tag, origin(k, ResumeRequest(start, tag)));
              && (r.Promoted? <==> n == |whole|) && !r.Fatal? && n <= |whole|
              && (r.Promoted? ==> dev.state.cache == Some(whole))
              && (r.Again? ==> Retained(dev.state, |whole|) == n && HonestFiles(dev.state, whole, tag))
  {
    hide ArtifactTrace, ArtifactState, SoundTrace, Sound, HashFile, Names, PrefixInv, HonestFiles, Serves, ExchangeEnds,
         RequestFor, Retained, ResumeRequest;
    ghost var f, t0 := dev.state, dev.trace;
    var ok := Fetch(dev, art.size, k, origin, rep);
    ghost var g, t1 := dev.state, dev.trace;
    ghost var trusted := dev.missed == old(dev.missed) && Names(origin, rep) && PrefixInv(rep, f);
    SoundIsArtifact(env, art, f, g, t1, |t0|, rep, trusted);
    PrefixOfArtifact(env, art, f, g, rep, trusted);
    if dev.faults == old(dev.faults) && Serves(env, art, origin, whole, tag) && HonestFiles(f, whole, tag) {
      HonestFetch(env, f, g, ok, art, origin, k, whole, tag);
    }
    if !ok {
      return Again;
    }
    if !HashFile(env, dev.state.part, art) {
      RemovePartial(dev);
      RemovingIsArtifact(env, art, g, dev.trace, |t1|, rep, trusted);
      RemovingIsArtifact(env, art, g, [dev.state], 0, rep, trusted);
      ArtifactOne(env, art, g, dev.state, rep, trusted);
      ArtifactJoin(env, art, f, g, dev.state, t1, dev.trace, |t0|, rep, trusted, trusted);
      WeakerTrust(env, art, f, dev.trace, |t0|, dev.state, rep, trusted,
                  dev.missed == old(dev.missed) && Names(origin, rep) && PrefixInv(rep, f));
      return Again;
    }
    var promoted := Promote(env, dev, art, rep, trusted);
    ArtifactJoin(env, art, f, g, dev.state, t1, dev.trace, |t0|, rep, trusted, trusted);
    WeakerTrust(env, art, f, dev.trace, |t0|, dev.state, rep, trusted,
                dev.missed == old(dev.missed) && Names(origin, rep) && PrefixInv(rep, f));
    r := if promoted then Promoted else Fatal;
  }

  /** A part of the signed size and hash becomes the cached object; its validator goes. */
  method Promote(env: Env, dev: Device<Files>, art: Artifact, ghost rep: string -> string, ghost trusted: bool)
      returns (ok: bool)
    requires dev.Valid() && HashFile(env, dev.state.part, art) && (trusted ==> PrefixInv(rep, dev.state))
    modifies dev
    ensures dev.Valid() && old(dev.trace) <= dev.trace && Counted(dev)
    ensures ArtifactTrace(env, art, old(dev.state), dev.trace, |old(dev.trace)|, rep, trusted)
    ensures ArtifactState(env, art, old(dev.state), dev.state, rep, trusted)
    ensures ok ==> dev.state.cache == old(dev.state).part && dev.state.part.None?
    ensures !ok ==> dev.faults > old(dev.faults)
  {
    hide ArtifactTrace, ArtifactState, HashFile, PrefixInv;
    ghost var g, t := dev.state, dev.trace;
    NothingYet(env, art, g, t, rep, trusted);
    PromotionIsArtifact(env, art, g, rep, trusted);
    ok := dev.Step(dev.state.(cache := dev.state.part, part := None));
    ArtifactStep(env, art, g, g, dev.state, t, dev.trace, |t|, rep, trusted);
    if !ok {
      return;
    }
    ghost var h, u := dev.state, dev.trace;
    if dev.state.etag.Some? {
      UntaggingIsArtifact(env, art, h, rep, trusted);
      dev.Discard(dev.state.(etag := None));
      ArtifactStep(env, art, g, h, dev.state, u, dev.trace, |t|, rep, trusted);
    }
    ok := dev.Try();
  }

  lemma RemovingIsArtifact(env: Env, art: Artifact, f: Files, t: seq<Files>, from: nat, rep: string -> string,
                           trusted: bool)
    requires trusted ==> PrefixInv(rep, f)
    requires forall k | from <= k < |t| :: OnlyRemoves(f, t[k])
    ensures ArtifactTrace(env, art, f, t, from, rep, trusted)
  {
    hide HashFile;
  }

  lemma ArtifactOne(env: Env, art: Artifact, f: Files, g: Files, rep: string -> string, trusted: bool)
    requires ArtifactTrace(env, art, f, [g], 0, rep, trusted)
    ensures ArtifactState(env, art, f, g, rep, trusted)
  {
    assert [g][0] == g;
  }

  lemma PrefixOfArtifact(env: Env, art: Artifact, f: Files, g: Files, rep: string -> string, trusted: bool)
    requires ArtifactState(env, art, f, g, rep, trusted)
    ensures trusted ==> PrefixInv(rep, g)
  {
  }

  lemma PromotionIsArtifact(env: Env, art: Artifact, g: Files, rep: string -> string, trusted: bool)
    requires HashFile(env, g.part, art)
    ensures ArtifactState(env, art, g, g.(cache := g.part, part := None), rep, trusted)
  {
  }

  lemma UntaggingIsArtifact(env: Env, art: Artifact, g: Files, rep: string -> string, trusted: bool)
    requires g.part.None?
    ensures ArtifactState(env, art, g, g.(etag := None), rep, trusted)
  {
  }

  lemma HonestFetch(env: Env, f: Files, g: Files, ok: bool, art: Artifact, origin: Origin, k: nat, whole: string,
                    tag: string)
    requires art.size > 0 && Serves(env, art, origin, whole, tag) && HonestFiles(f, whole, tag)
    requires var request := RequestFor(f, art.size);
             ExchangeEnds(if request.start > 0 then f else Emptied(f), g, ok,
                          request.start, request.validator, origin(k, request), art.size)
    ensures var start := Retained(f, |whole|);
            var n := After(start, |whole|, tag, origin(k, ResumeRequest(start, tag)));
            && n <= |whole| && (ok <==> n == |whole|)
            && (ok ==> g.part == Some(whole) && HashFile(env, g.part, art))
            && (!ok ==> Retained(g, |whole|) == n && HonestFiles(g, whole, tag))
  {
    hide ExchangeEnds, HonestReply, StrongETag;
    var start := Retained(f, |whole|);
    ServesOne(env, art, origin, whole, tag, k, start);
    assert RequestFor(f, |whole|) == ResumeRequest(start, tag);
    HonestAttempt(f, g, ok, origin(k, ResumeRequest(start, tag)), whole, tag);
  }

  /** The retry loop. */
  method TryRepeatedly(env: Env, dev: Device<Files>, art: Artifact, origin: Origin,
                       ghost rep: string -> string, ghost whole: string, ghost tag: string)
      returns (ok: bool, ghost tries: nat)
    requires dev.Valid() && art.size > 0
    modifies dev
    ensures dev.Valid() && old(dev.trace) <= dev.trace && Counted(dev) && tries <= ATTEMPTS
    ensures var trusted := dev.missed == old(dev.missed) && Names(origin, rep) && PrefixInv(rep, old(dev.state));
            && ArtifactTrace(env, art, old(dev.state), dev.trace, |old(dev.trace)|, rep, trusted)
            && ArtifactState(env, art, old(dev.state), dev.state, rep, trusted)
    ensures ok ==> HashFile(env, dev.state.cache, art)
    // With an honest origin and no local failure: done at the first attempt that completes the bytes; otherwise what
    // the answers left is kept.
    ensures dev.faults == old(dev.faults) && Serves(env, art, origin, whole, tag)
            && HonestFiles(old(dev.state), whole, tag) ==>
              var start := Retained(old(dev.state), |whole|);
              && (ok <==> Progress(origin, |whole|, tag, start, ATTEMPTS) == |whole|)
              && (ok ==> dev.state.cache == Some(whole) && Completes(origin, |whole|, tag, start, tries))
              && (!ok ==> Retained(dev.state, |whole|) == Progress(origin, |whole|, tag, start, ATTEMPTS)
                          && HonestFiles(dev.state, whole, tag))
  {
    hide ArtifactTrace, ArtifactState, HashFile, Names, PrefixInv, HonestFiles, Serves, Retained, ResumeRequest,
        Progress, After;
    ProgressStep(origin, |whole|, tag, Retained(dev.state, |whole|), 0);
    ghost var f, t0 := dev.state, dev.trace;
    ghost var start, size := Retained(f, |whole|), |whole|;
    ghost var honest := Serves(env, art, origin, whole, tag) && HonestFiles(f, whole, tag);
    ok, tries := false, 0;
    NothingYet(env, art, f, t0, rep, Names(origin, rep) && PrefixInv(rep, f));
    RetainedIsShort(env, art, origin, f, whole, tag);
    for attempt := 0 to ATTEMPTS
      invariant dev.Valid() && t0 <= dev.trace && tries == attempt
      invariant Counted(dev)
      invariant var trusted := dev.missed == old(dev.missed) && Names(origin, rep) && PrefixInv(rep, f);
                && ArtifactTrace(env, art, f, dev.trace, |t0|, rep, trusted)
                && ArtifactState(env, art, f, dev.state, rep, trusted)
      invariant dev.faults == old(dev.faults) && honest ==>
                  && Retained(dev.state, size) == Progress(origin, size, tag, start, attempt)
                  && HonestFiles(dev.state, whole, tag)
                  && forall k: nat | k <= attempt :: Progress(origin, size, tag, start, k) < size
    {
      // A cancelled context ends the download; like a local fault, it can come at any time.
      var live := dev.Try();
      if !live {
        return false, tries;
      }
      ghost var g, t, m := dev.state, dev.trace, dev.missed;
      ghost var before := m == old(dev.missed) && Names(origin, rep) && PrefixInv(rep, f);
      var r := Attempt(env, dev, art, attempt, origin, rep, whole, tag);
      tries := attempt + 1;
      ghost var after := dev.missed == old(dev.missed) && Names(origin, rep) && PrefixInv(rep, f);
      AttemptJoins(env, art, f, g, dev.state, t, dev.trace, |t0|, rep, Names(origin, rep), before, dev.missed == m,
                   after);
      ProgressStep(origin, size, tag, start, attempt);
      if r.Promoted? {
        if dev.faults == old(dev.faults) && honest {
          ProgressStays(origin, size, tag, start, attempt + 1, ATTEMPTS);
        }
        return true, tries;
      }
      if r.Fatal? {
        return false, tries;
      }
    }
  }

  /** The online part of `artifact`. */
  method Download(env: Env, dev: Device<Files>, art: Artifact, origin: Origin,
                  ghost rep: string -> string, ghost whole: string, ghost tag: string)
      returns (ok: bool, ghost tries: nat)
    requires dev.Valid() && art.size > 0
    modifies dev
    ensures dev.Valid() && old(dev.trace) <= dev.trace && Counted(dev) && tries <= 5
    ensures var trusted := dev.missed == old(dev.missed) && Names(origin, rep) && PrefixInv(rep, old(dev.state));
            && ArtifactTrace(env, art, old(dev.state), dev.trace, |old(dev.trace)|, rep, trusted)
            && ArtifactState(env, art, old(dev.state), dev.state, rep, trusted)
    // Success is bytes of the signed size and hash; the cache never received anything else on the way.
    ensures ok ==> dev.state.cache.Some? && |dev.state.cache.value| == art.size
                   && env.sha(dev.state.cache.value) == art.sha256
    ensures forall k | |old(dev.trace)| <= k < |dev.trace| ::
              var cache := dev.trace[k].cache;
              || cache == old(dev.state).cache || cache.None?
              || (|cache.value| == art.size && env.sha(cache.value) == art.sha256)
    // With an honest origin and no local failure: done at the first attempt that completes the bytes; otherwise what
    // the answers left is kept.
    ensures dev.faults == old(dev.faults) && Serves(env, art, origin, whole, tag)
            && HonestFiles(old(dev.state), whole, tag) ==>
              var start := Retained(old(dev.state), |whole|);
              && (ok <==> Progress(origin, |whole|, tag, start, 5) == |whole|)
              && (ok ==> dev.state.cache == Some(whole) && Completes(origin, |whole|, tag, start, tries))
              && (!ok ==> Retained(dev.state, |whole|) == Progress(origin, |whole|, tag, start, 5)
                          && HonestFiles(dev.state, whole, tag))
  {
    hide ArtifactTrace, ArtifactState, Names, PrefixInv, HonestFiles, Serves, Retained, Progress, Completes;
    ghost var f, from := dev.state, |dev.trace|;
    ok, tries := TryRepeatedly(env, dev, art, origin, rep, whole, tag);
    CacheOnlyReceivesChecked(env, art, f, dev.trace, from, rep,
                             dev.missed == old(dev.missed) && Names(origin, rep) && PrefixInv(rep, f));
  }

  /** What the states of an operation say about the cache. */
  lemma CacheOnlyReceivesChecked(env: Env, art: Artifact, f: Files, t: seq<Files>, from: nat, rep: string -> string,
                                 trusted: bool)
    requires ArtifactTrace(env, art, f, t, from, rep, trusted)
    ensures forall k | from <= k < |t| ::
              var cache := t[k].cache;
              || cache == f.cache || cache.None? || (|cache.value| == art.size && env.sha(cache.value) == art.sha256)
  {
    forall k | from <= k < |t|
      ensures ArtifactState(env, art, f, t[k], rep, trusted)
    {
    }
  }

  /** The steps of one more attempt extend those of the download so far. */
  lemma AttemptJoins(env: Env, art: Artifact, f: Files, g: Files, h: Files, t: seq<Files>, u: seq<Files>, from: nat,
                     rep: string -> string, names: bool, trusted: bool, clean: bool, still: bool)
    requires ArtifactTrace(env, art, f, t, from, rep, trusted) && ArtifactState(env, art, f, g, rep, trusted)
    requires var kept := clean && names && PrefixInv(rep, g);
             ArtifactTrace(env, art, g, u, |t|, rep, kept) && ArtifactState(env, art, g, h, rep, kept)
    requires t <= u && (still ==> trusted && clean && names)
    ensures ArtifactTrace(env, art, f, u, from, rep, still) && ArtifactState(env, art, f, h, rep, still)
  {
    hide ArtifactTrace, ArtifactState, PrefixInv;
    PrefixOfArtifact(env, art, f, g, rep, trusted);
    WeakerTrust(env, art, g, u, |t|, h, rep, clean && names && PrefixInv(rep, g), still);
    ArtifactJoin(env, art, f, g, h, t, u, from, rep, trusted, still);
  }

  lemma ProgressStep(origin: Origin, size: nat, tag: string, start: nat, k: nat)
    ensures Progress(origin, size, tag, start, 0) == start
    ensures var n := Progress(origin, size, tag, start, k);
            n < size ==>
              Progress(origin, size, tag, start, k + 1) == After(n, size, tag, origin(k, ResumeRequest(n, tag)))
  {
  }

  /** `tries` is the first number of attempts after which the whole object is held. */
  predicate Completes(origin: Origin, size: nat, tag: string, start: nat, tries: nat) {
    && Progress(origin, size, tag, start, tries) == size
    && forall k | 0 <= k < tries :: Progress(origin, size, tag, start, k) < size
  }

  lemma NothingYet(env: Env, art: Artifact, f: Files, t: seq<Files>, rep: string -> string, trusted: bool)
    requires trusted ==> PrefixInv(rep, f)
    ensures ArtifactTrace(env, art, f, t, |t|, rep, trusted) && ArtifactState(env, art, f, f, rep, trusted)
  {
  }

  lemma RetainedIsShort(env: Env, art: Artifact, origin: Origin, f: Files, whole: string, tag: string)
    requires art.size > 0
    ensures Serves(env, art, origin, whole, tag) ==> Retained(f, |whole|) < |whole|
  {
  }

  lemma WeakerTrust(env: Env, art: Artifact, f: Files, t: seq<Files>, from: nat, g: Files, rep: string -> string,
                    trusted: bool, less: bool)
    requires ArtifactTrace(env, art, f, t, from, rep, trusted) && ArtifactState(env, art, f, g, rep, trusted)
    requires less ==> trusted
    ensures ArtifactTrace(env, art, f, t, from, rep, less) && ArtifactState(env, art, f, g, rep, less)
  {
  }

  /** `durableCopy` of an offline source into the cache: checked before and after copying, then renamed. */
  method CopyToCache(env: Env, dev: Device<Files>, source: Option<string>, art: Artifact) returns (ok: bool)
    requires dev.Valid()
    modifies dev
    ensures dev.Valid()
    ensures || (dev.trace == old(dev.trace) && dev.state == old(dev.state))
            || (&& HashFile(env, source, art) && HashFile(env, dev.state.cache, art)
                && dev.state == old(dev.state).(cache := dev.state.cache) && dev.trace == old(dev.trace) + [dev.state])
    ensures ok ==> HashFile(env, dev.state.cache, art)
    ensures dev.missed == old(dev.missed) && dev.faults >= old(dev.faults)
    ensures dev.faults == old(dev.faults) ==> (ok <==> HashFile(env, source, art))
    ensures dev.state.cache == old(dev.state).cache
            || (&& dev.state.cache.Some? && |dev.state.cache.value| == art.size
                && env.sha(dev.state.cache.value) == art.sha256)
  {
    if !HashFile(env, source, art) {
      return false;
    }
    // The source may change while it is being copied; what was copied is checked again.
    var copied: Option<string> := *;
    if !HashFile(env, copied, art) {
      dev.Fail();
      return false;
    }
    ok := dev.StepAndFlush(dev.state.(cache := copied));
  }

  /** The cached object, an offline copy, or a download, in this order. */
  method Supply(env: Env, dev: Device<Files>, art: Artifact, sources: seq<Option<string>>, offline: bool,
                origin: Origin, ghost rep: string -> string, ghost whole: string, ghost tag: string)
      returns (ok: bool)
    requires dev.Valid() && art.size > 0
    modifies dev
    ensures dev.Valid() && old(dev.trace) <= dev.trace
    ensures ok ==> HashFile(env, dev.state.cache, art)
    ensures ArtifactTrace(env, art, old(dev.state), dev.trace, |old(dev.trace)|, rep,
                          dev.missed == old(dev.missed) && Names(origin, rep) && PrefixInv(rep, old(dev.state)))
    ensures HashFile(env, old(dev.state).cache, art) ==> ok && dev.trace == old(dev.trace)
    // When nothing local fails, the cache, a good offline copy, or an honest origin that completes the bytes is enough.
    ensures Counted(dev)
    ensures dev.faults == old(dev.faults) && !ok ==> forall n | 0 <= n < |sources| :: !HashFile(env, sources[n], art)
    ensures dev.faults == old(dev.faults) && !offline && Serves(env, art, origin, whole, tag)
            && HonestFiles(old(dev.state), whole, tag) ==>
              (Progress(origin, |whole|, tag, Retained(old(dev.state), |whole|), ATTEMPTS) == |whole| ==> ok)
    // Offline, nothing but a candidate with the signed hash can supply the object.
    ensures offline && ok && !HashFile(env, old(dev.state).cache, art) ==>
              exists n | 0 <= n < |sources| :: HashFile(env, sources[n], art)
  {
    hide ArtifactTrace, ArtifactState, HashFile, Names, PrefixInv;
    ghost var f, t0 := dev.state, dev.trace;
    ghost var trusted := Names(origin, rep) && PrefixInv(rep, f);
    NothingYet(env, art, f, t0, rep, trusted);
    if HashFile(env, dev.state.cache, art) {
      return true;
    }
    var directoryMade := dev.Try();
    if !directoryMade {
      return false;
    }
    if dev.state.cache.Some? {
      UncachingIsArtifact(env, art, f, rep, trusted);
      var cleared := dev.Step(dev.state.(cache := None));
      ArtifactStep(env, art, f, f, dev.state, t0, dev.trace, |t0|, rep, trusted);
      if !cleared {
        return false;
      }
    }
    ghost var g, t := dev.state, dev.trace;
    for n := 0 to |sources|
      invariant dev.Valid() && dev.state == g && dev.trace == t && dev.missed == old(dev.missed)
                && dev.faults == old(dev.faults)
      invariant forall k | 0 <= k < n :: !HashFile(env, sources[k], art)
    {
      if HashFile(env, sources[n], art) {
        PrefixOfArtifact(env, art, f, g, rep, trusted);
        ok := CopyToCache(env, dev, sources[n], art);
        if dev.trace != t {
          CachingIsArtifact(env, art, g, dev.state.cache, rep, trusted);
        }
        ArtifactStep(env, art, f, g, dev.state, t, dev.trace, |t0|, rep, trusted);
        return ok;
      }
    }
    if offline {
      return false;
    }
    PrefixOfArtifact(env, art, f, g, rep, trusted);
    SamePartialFiles(f, g, whole, tag);
    ghost var m := dev.missed;
    ghost var tries;
    ok, tries := Download(env, dev, art, origin, rep, whole, tag);
    ghost var after := dev.missed == old(dev.missed) && trusted;
    WeakerTrust(env, art, g, dev.trace, |t|, dev.state, rep,
                dev.missed == m && Names(origin, rep) && PrefixInv(rep, g), after);
    ArtifactJoin(env, art, f, g, dev.state, t, dev.trace, |t0|, rep, trusted, after);
  }

  /** `artifact`: the cached object, an offline copy, or a download; `sources` are the offline candidates. */
  method GetArtifact(env: Env, dev: Device<Files>, art: Artifact, sources: seq<Option<string>>, offline: bool,
                     origin: Origin, ghost rep: string -> string, ghost whole: string, ghost tag: string)
      returns (ok: bool)
    requires dev.Valid() && art.size > 0
    modifies dev
    ensures dev.Valid() && old(dev.trace) <= dev.trace
    // Success hands out bytes of the signed size and hash; the cache never held anything else on the way.
    ensures ok ==> dev.state.cache.Some? && |dev.state.cache.value| == art.size
                   && env.sha(dev.state.cache.value) == art.sha256
    ensures forall k | |old(dev.trace)| <= k < |dev.trace| ::
              var cache := dev.trace[k].cache;
              || cache == old(dev.state).cache || cache.None?
              || (|cache.value| == art.size && env.sha(cache.value) == art.sha256)
    ensures ArtifactTrace(env, art, old(dev.state), dev.trace, |old(dev.trace)|, rep,
                          dev.missed == old(dev.missed) && Names(origin, rep) && PrefixInv(rep, old(dev.state)))
    ensures var cache := old(dev.state).cache;
            cache.Some? && |cache.value| == art.size && env.sha(cache.value) == art.sha256 ==>
              ok && dev.trace == old(dev.trace)
    // When nothing local fails, the cache, a good offline copy, or an honest origin that completes the bytes is enough.
    ensures Counted(dev)
    ensures dev.faults == old(dev.faults) && !ok ==>
              forall n | 0 <= n < |sources| && sources[n].Some? ::
                |sources[n].value| != art.size || env.sha(sources[n].value) != art.sha256
    ensures dev.faults == old(dev.faults) && !offline && Serves(env, art, origin, whole, tag)
            && HonestFiles(old(dev.state), whole, tag) ==>
              (Progress(origin, |whole|, tag, Retained(old(dev.state), |whole|), 5) == |whole| ==> ok)
    // Offline, nothing but a candidate with the signed hash can supply the object.
    ensures offline && ok && dev.trace != old(dev.trace) ==>
              exists n | 0 <= n < |sources| ::
                sources[n].Some? && |sources[n].value| == art.size && env.sha(sources[n].value) == art.sha256
  {
    hide ArtifactTrace, ArtifactState, Names, PrefixInv, HonestFiles, Serves, Retained, Progress;
    ghost var f, from := dev.state, |dev.trace|;
    ok := Supply(env, dev, art, sources, offline, origin, rep, whole, tag);
    CacheOnlyReceivesChecked(env, art, f, dev.trace, from, rep,
                             dev.missed == old(dev.missed) && Names(origin, rep) && PrefixInv(rep, f));
  }

  lemma SamePartialFiles(f: Files, g: Files, whole: string, tag: string)
    requires g == f.(cache := g.cache)
    ensures HonestFiles(g, whole, tag) == HonestFiles(f, whole, tag) && Retained(g, |whole|) == Retained(f, |whole|)
  {
  }

  lemma UncachingIsArtifact(env: Env, art: Artifact, g: Files, rep: string -> string, trusted: bool)
    requires trusted ==> PrefixInv(rep, g)
    ensures ArtifactState(env, art, g, g.(cache := None), rep, trusted)
  {
  }

  lemma CachingIsArtifact(env: Env, art: Artifact, g: Files, source: Option<string>, rep: string -> string,
                          trusted: bool)
    requires HashFile(env, source, art)
    requires trusted ==> PrefixInv(rep, g)
    ensures ArtifactState(env, art, g, g.(cache := source), rep, trusted)
  {
  }

  // ---------------------------------------------------------------- what the conditions are needed for

  /** An attempt that received every byte but ends in a reading error fails, and the next one starts again from
  nothing. */
  lemma FinishedPartIsNotResumed(f: Files, g: Files, ok: bool, start: nat, validator: string, a: Reply, size: int)
    requires start < size && ExchangeEnds(f, g, ok, start, validator, a, size)
    requires a.Reply? && Accepted(a, start, validator, size) && (start > 0 ==> f.part.Some? && |f.part.value| == start)
    requires a.broken && |a.body| == size - start
    ensures !ok && Retained(g, size) == 0 && RequestFor(g, size) == Request(0, "")
  {
    hide ParseContentRange, StrongETag;
  }

  /** A full answer is received, with the prefix invariant before it and an origin that keeps its tags' word. */
  predicate FreshAnswer(rep: string -> string, f: Files, g: Files, a: Reply, size: nat) {
    && a.Reply? && PrefixInv(rep, f) && NamesIts(a, rep) && Accepted(a, 0, "", size)
    && Receiving(f, g, 0, a, size)
  }

  /** Starting over from the files `f` keeps the prefix invariant, whatever the answer and wherever a crash comes. */
  ghost predicate RestartsSafely(f: Files, size: nat) {
    forall rep, a, g | FreshAnswer(rep, f, g, a, size) :: PrefixInv(rep, g)
  }

  /** It does if and only if both stale files are gone, or what is left of the part is empty: a validator left behind
  adopts an untagged body, and a part left behind is adopted by the new validator. */
  lemma RestartsSafelyExactly(f: Files, size: nat)
    requires size > 0
    ensures RestartsSafely(f, size) <==> f.etag.None? && (f.part.None? || f.part.value == "")
  {
    if f.etag.Some? {
      ValidatorLeft(f, size);
    } else if f.part.Some? && f.part.value != "" {
      PartLeft(f, size);
    } else {
      forall rep, a, g | FreshAnswer(rep, f, g, a, size)
        ensures PrefixInv(rep, g)
      {
        NothingLeft(rep, f, g, a, size);
      }
    }
  }

  lemma NothingLeft(rep: string -> string, f: Files, g: Files, a: Reply, size: nat)
    requires FreshAnswer(rep, f, g, a, size) && f.etag.None? && (f.part.None? || f.part.value == "")
    ensures PrefixInv(rep, g)
  {
    hide ParseContentRange;
    if g.part != f.part && g.etag.Some? {
      assert Taken(a, 0, size) <= a.body;
      PrefixGrows("", Taken(a, 0, size), a.body, g.part.value, rep(g.etag.value));
    }
  }

  lemma ValidatorLeft(f: Files, size: nat)
    requires size > 0 && f.etag.Some?
    ensures !RestartsSafely(f, size)
  {
    var whole := if f.part.Some? then f.part.value else "";
    var rep: string -> string := _ => whole;
    var body := if whole != "" && whole[0] == 'x' then "y" else "x";
    var a := Reply(200, "", "", -1, "", body, false);
    var g := f.(part := Some(body));
    assert Taken(a, 0, size) == body && "" + body == body;
    assert whole != "" ==> body[0] != whole[0];
    assert FreshAnswer(rep, f, g, a, size);
  }

  lemma PartLeft(f: Files, size: nat)
    requires f.etag.None? && f.part.Some? && f.part.value != ""
    ensures !RestartsSafely(f, size)
  {
    var rep: string -> string := _ => "";
    var a := Reply(200, "", "", -1, "\"t\"", "", false);
    var g := f.(etag := Some("\"t\""));
    assert FreshAnswer(rep, f, g, a, size);
  }

  /** A run of states in which it happens: the part is too long to be resumed, its removal works, that of the
  validator is missed, and the untagged answer lands under a tag that names another string. */
  lemma StaleValidatorBreaksThePrefix()
    ensures var rep: string -> string := _ => "xx";
            var f0 := Files(None, Some("xx"), Some("\"t\""));
            var f, g := f0.(part := None), f0.(part := Some("y"));
            && PrefixInv(rep, f0) && RequestFor(f0, 1) == Request(0, "") && OnlyRemoves(f0, f)
            && FreshAnswer(rep, f, g, Reply(200, "", "", 1, "", "y", false), 1) && !PrefixInv(rep, g)
  {
    var rep: string -> string := _ => "xx";
    var f := Files(None, None, Some("\"t\""));
    var a := Reply(200, "", "", 1, "", "y", false);
    assert "y"[0] != "xx"[0];
    assert Taken(a, 0, 1) == "y" && "" + "y" == "y";
    assert FreshAnswer(rep, f, f.(part := Some("y")), a, 1);
  }
}
