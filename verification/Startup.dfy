/** Deciding that the main menu really came up (e2e/scripts/staged_readiness.py).

Windows, frames, logs and clocks are observations; any of them may be missing, wrong or late. */
module Startup {
  import opened Wrappers

  datatype Sample = Sample(sha: string, pid: int, observed: real)

  /** An exception that `tick` handles: the one that says the display is gone, or one that is only noted. */
  datatype Fault = DisplayGone(text: string) | Noted

  /** The result of looking for the game window, and of capturing its menu. */
  datatype Found = NoWindow | Window(pid: int) | WindowFault(fault: Fault)
  datatype Captured = NoMenu | Menu(sha: string) | CaptureFault(fault: Fault)

  /** What one tick sees; the four times are the successive clock readings. */
  datatype Look = Look(due: real, probed: real, fatal: bool, ready: bool, found: Found, seen: real,
                       captured: Captured, now: real)

  /** `blocked` is the reason the observer gave up, empty while it has not. */
  datatype State = State(samples: seq<Sample>, windowPid: Option<int>, failed: bool, blocked: string, lastProbe: real,
                         lastHash: Option<string>, lastChange: Option<real>, lastSeen: Option<real>)

  const START := State([], None, false, "", 0.0, None, None, None)

  const NO_DISPLAY := "display check blocked"

  predicate Quiet(s: State, look: Look) {
    s.blocked != "" || s.failed || look.due - s.lastProbe < 2.0
  }

  /** The reason kept of a fault: the beginning of its text. An empty text does not block. */
  function Reason(f: Fault): string {
    if f.Noted? then "" else if |f.text| > 240 then f.text[..240] else f.text
  }

  /** A captured menu frame counts as evidence if it is the first, or a different one at least two seconds later. */
  predicate Qualifies(samples: seq<Sample>, sha: string, now: real) {
    && |samples| < 2
    && (samples == [] || (sha != samples[|samples| - 1].sha && now - samples[|samples| - 1].observed >= 2.0))
  }

  /** The effect of one tick. */
  function Next(s: State, look: Look): State {
    if Quiet(s, look) then s
    else
      var probed := s.(lastProbe := look.probed);
      if look.fatal then probed.(failed := true)
      else if !look.ready then probed
      else
        match look.found
        case NoWindow => probed
        case WindowFault(fault) => probed.(blocked := Reason(fault))
        case Window(pid) =>
          var kept := if s.windowPid.Some? && s.windowPid.value != pid then [] else s.samples;
          var seen := probed.(samples := kept, windowPid := Some(pid), lastSeen := Some(look.seen));
          match look.captured
          case NoMenu => seen
          case CaptureFault(fault) => seen.(blocked := Reason(fault))
          case Menu(sha) =>
            WithFrame(seen, sha, pid, look.now)
  }

  /** A menu frame was captured: a change is noted, and a qualifying frame is kept. */
  function WithFrame(s: State, sha: string, pid: int, now: real): State {
    var changed := if s.lastHash == Some(sha) then s else s.(lastHash := Some(sha), lastChange := Some(now));
    if Qualifies(s.samples, sha, now) then changed.(samples := s.samples + [Sample(sha, pid, now)]) else changed
  }

  class StartupObserver {
    var samples: seq<Sample>
    var windowPid: Option<int>
    var failed: bool
    var blocked: string
    var lastProbe: real
    var lastHash: Option<string>
    var lastChange: Option<real>
    var lastSeen: Option<real>

    ghost function Contents(): State
      reads this
    {
      State(samples, windowPid, failed, blocked, lastProbe, lastHash, lastChange, lastSeen)
    }

    /** `ready` and `blockers` are the verdict on the host; some reason is given whenever it is not ready. */
    constructor (ready: bool, blockers: string)
      ensures Contents() == START.(blocked := blocked) && (blocked == "" <==> ready)
      ensures !ready && blockers != "" ==> blocked == blockers
    {
      samples, windowPid, failed := [], None, false;
      blocked := if ready then "" else if blockers != "" then blockers else NO_DISPLAY;
      lastProbe, lastHash, lastChange, lastSeen := 0.0, None, None, None;
    }

    method Tick(look: Look)
      modifies this
      ensures Contents() == Next(old(Contents()), look)
    {
      hide WithFrame;
      if blocked != "" || failed || look.due - lastProbe < 2.0 {
        return;
      }
      lastProbe := look.probed;
      if look.fatal {
        failed := true;
        return;
      }
      if !look.ready {
        return;
      }
      match look.found {
        case NoWindow => return;
        case WindowFault(fault) =>
          if fault.DisplayGone? {
            blocked := Reason(fault);
          }
          return;
        case Window(pid) =>
          if windowPid.Some? && pid != windowPid.value {
            samples := [];
          }
          windowPid := Some(pid);
          lastSeen := Some(look.seen);
          match look.captured {
            case NoMenu => return;
            case CaptureFault(fault) =>
              if fault.DisplayGone? {
                blocked := Reason(fault);
              }
              return;
            case Menu(sha) =>
              NoteFrame(sha, pid, look.now);
          }
      }
    }

    method NoteFrame(sha: string, pid: int, now: real)
      modifies this
      ensures Contents() == WithFrame(old(Contents()), sha, pid, now)
    {
      if lastHash != Some(sha) {
        lastChange := Some(now);
        lastHash := Some(sha);
      }
      if |samples| < 2
        && (samples == [] || (sha != samples[|samples| - 1].sha && now - samples[|samples| - 1].observed >= 2.0)) {
        samples := samples + [Sample(sha, pid, now)];
      }
    }
  }

  // ---------------------------------------------------------------- what the samples prove

  /** At most two samples, all of the current window; two are different frames at least two seconds apart. */
  predicate Evidence(s: State) {
    && |s.samples| <= 2
    && (forall i | 0 <= i < |s.samples| :: s.windowPid == Some(s.samples[i].pid))
    && (|s.samples| == 2 ==>
          s.samples[0].sha != s.samples[1].sha && s.samples[1].observed - s.samples[0].observed >= 2.0)
    && (s.lastHash.Some? ==> s.lastChange.Some?)
    && (s.samples != [] ==> s.lastHash.Some? && s.lastSeen.Some?)
  }

  function Watched(s: State, looks: seq<Look>): State
    decreases |looks|
  {
    if looks == [] then s else Watched(Next(s, looks[0]), looks[1..])
  }

  lemma {:induction false} TicksKeepEvidence(s: State, looks: seq<Look>)
    requires Evidence(s)
    ensures Evidence(Watched(s, looks))
    decreases |looks|
  {
    if looks != [] {
      TicksKeepEvidence(Next(s, looks[0]), looks[1..]);
    }
  }

  // ---------------------------------------------------------------- what the looks say

  /** A tick that is due, of an observer that goes on, and finds the window ready. */
  predicate Sees(s: State, look: Look) {
    && s.blocked == "" && !s.failed && look.due >= s.lastProbe + 2.0
    && !look.fatal && look.ready && look.found.Window?
  }

  datatype Shot = Shot(sha: string, at: real)

  /** The menu frames captured during the ticks, with their times. */
  function Frames(s: State, looks: seq<Look>): seq<Shot>
    decreases |looks|
  {
    if looks == [] then []
    else
      var n := |looks| - 1;
      Frames(s, looks[..n]) + if Sees(Watched(s, looks[..n]), looks[n]) && looks[n].captured.Menu?
                              then [Shot(looks[n].captured.sha, looks[n].now)] else []
  }

  /** The times at which the window was found. */
  function Sightings(s: State, looks: seq<Look>): seq<real>
    decreases |looks|
  {
    if looks == [] then []
    else
      var n := |looks| - 1;
      Sightings(s, looks[..n]) + if Sees(Watched(s, looks[..n]), looks[n]) then [looks[n].seen] else []
  }

  lemma {:induction false} WatchedLast(s: State, looks: seq<Look>)
    requires looks != []
    ensures Watched(s, looks) == Next(Watched(s, looks[..|looks| - 1]), looks[|looks| - 1])
    decreases |looks|
  {
    hide Next;
    var n := |looks| - 1;
    if n > 0 {
      WatchedLast(Next(s, looks[0]), looks[1..]);
      assert looks[1..][..n - 1] == looks[..n][1..];
    } else {
      assert looks[..0] == [] && looks[1..] == [];
    }
  }

  /** Frame `i` differs from the one before it, and those after it do not differ any more. */
  predicate LastChange(frames: seq<Shot>, i: nat) {
    && i < |frames| && (i > 0 ==> frames[i - 1].sha != frames[i].sha)
    && forall j | i <= j < |frames| :: frames[j].sha == frames[i].sha
  }

  /** There is only one such frame. */
  lemma OneLastChange(frames: seq<Shot>, i: nat, k: nat)
    requires LastChange(frames, i) && i < k
    ensures !LastChange(frames, k)
  {
    if k < |frames| {
      assert frames[k - 1].sha == frames[k].sha;
    }
  }

  /** One frame more is the last change if it differs; otherwise that is where it was. */
  lemma OneFrameMore(frames: seq<Shot>, f: Shot, i: nat)
    ensures frames == [] || frames[|frames| - 1].sha != f.sha ==> LastChange(frames + [f], |frames|)
    ensures LastChange(frames, i) && frames[|frames| - 1].sha == f.sha ==> LastChange(frames + [f], i)
  {
  }

  /** What one tick makes the observer remember. */
  lemma TickRemembers(s: State, look: Look)
    ensures var t := Next(s, look);
            && (Sees(s, look) && look.captured.Menu? ==>
                  && t.lastHash == Some(look.captured.sha)
                  && t.lastChange == if s.lastHash == Some(look.captured.sha) then s.lastChange else Some(look.now))
            && (!(Sees(s, look) && look.captured.Menu?) ==> t.lastHash == s.lastHash && t.lastChange == s.lastChange)
            && t.lastSeen == if Sees(s, look) then Some(look.seen) else s.lastSeen
  {
  }

  /** After any ticks the observer remembers the last frame, when the last different one came, and when the window was
  last found. */
  lemma {:induction false} RemembersTheLooks(blocked: string, looks: seq<Look>)
    ensures var start := START.(blocked := blocked);
            var s, frames, sightings := Watched(start, looks), Frames(start, looks), Sightings(start, looks);
            && s.lastHash == (if frames == [] then None else Some(frames[|frames| - 1].sha))
            && (if frames == [] then s.lastChange == None
                else exists i: nat :: LastChange(frames, i) && s.lastChange == Some(frames[i].at))
            && s.lastSeen == if sightings == [] then None else Some(sightings[|sightings| - 1])
    decreases |looks|
  {
    var start, n := START.(blocked := blocked), |looks| - 1;
    if looks != [] {
      var s, frames := Watched(start, looks[..n]), Frames(start, looks[..n]);
      RemembersTheLooks(blocked, looks[..n]);
      WatchedLast(start, looks);
      TickRemembers(s, looks[n]);
      hide Next, Sees;
      if Sees(s, looks[n]) && looks[n].captured.Menu? {
        var f := Shot(looks[n].captured.sha, looks[n].now);
        var i: nat := 0;
        if frames != [] {
          i :| LastChange(frames, i) && s.lastChange == Some(frames[i].at);
        }
        OneFrameMore(frames, f, i);
        assert Frames(start, looks) == frames + [f];
        assert (frames + [f])[|frames|] == f && (i < |frames| ==> (frames + [f])[i] == frames[i]);
        if frames != [] && frames[|frames| - 1].sha == f.sha {
          assert LastChange(frames + [f], i) && Next(s, looks[n]).lastChange == Some((frames + [f])[i].at);
        } else {
          assert LastChange(frames + [f], |frames|);
          assert Next(s, looks[n]).lastChange == Some((frames + [f])[|frames|].at);
        }
      } else {
        assert Frames(start, looks) == frames;
      }
      hide LastChange;
    }
  }

  /** A frame is kept as a sample if it is the first, or the second at least two seconds after a different one. */
  lemma KeptExactly(s: State, sha: string, pid: int, now: real)
    ensures WithFrame(s, sha, pid, now).samples == s.samples +
            if |s.samples| == 0
               || (|s.samples| == 1 && sha != s.samples[0].sha && now >= s.samples[0].observed + 2.0)
            then [Sample(sha, pid, now)] else []
  {
  }

  /** A tick that is not due, or comes after the end, changes nothing; a fatal log ends the observation; a fault that
  the display is gone blocks it, with at most 240 characters of its text. */
  lemma TicksExactly(s: State, look: Look)
    ensures s.blocked != "" || s.failed || look.due < s.lastProbe + 2.0 ==> Next(s, look) == s
    ensures s.blocked == "" && !s.failed && look.due >= s.lastProbe + 2.0 ==>
              var t := Next(s, look);
              && t.lastProbe == look.probed && (t.failed <==> look.fatal)
              && (t.blocked != "" ==>
                    && !look.fatal && look.ready
                    && exists text ::
                         && (look.found == WindowFault(DisplayGone(text))
                             || (look.found.Window? && look.captured == CaptureFault(DisplayGone(text))))
                         && t.blocked <= text && |t.blocked| == if |text| <= 240 then |text| else 240)
              && (!look.fatal && look.ready && look.found.Window? && s.windowPid.Some? ==>
                    (s.windowPid.value != look.found.pid ==> |t.samples| <= 1))
  {
  }

  datatype Launch = Launch(exitCode: Option<int>, timedOut: bool, success: bool)

  datatype Verdict = Passed | Failed | Blocked

  /** `conclude`, after the run: `ready` and `fatal` are what the logs then say. */
  function Conclude(s: State, ready: bool, fatal: bool, launch: Launch, now: real): Verdict {
    if s.failed || fatal then Failed
    else if s.blocked != "" then Blocked
    else if !ready then Failed
    else if launch.exitCode.Some? && launch.exitCode.value != 0 && !launch.timedOut then Failed
    else if |s.samples| != 2 then Failed
    else if s.samples[0].sha == s.samples[1].sha then Failed
    else if s.lastChange.None? || now - s.lastChange.value > 12.0 then Failed
    else if s.lastSeen.None? || now - s.lastSeen.value > 12.0 then Failed
    else if !launch.timedOut && !launch.success then Failed
    else Passed
  }

  /** Whatever was observed: passed means two different frames of one window, at least two seconds apart, a frame
  change and a sighting of the window no more than twelve seconds old, and a process that did not fail. Frames
  that qualify are never equal, so the verdict asks for nothing more than this. */
  lemma PassedNeedsEvidence(blocked: string, looks: seq<Look>, ready: bool, fatal: bool, launch: Launch, now: real)
    ensures var s := Watched(START.(blocked := blocked), looks);
            Conclude(s, ready, fatal, launch, now) == Passed <==>
              && !s.failed && s.blocked == "" && ready && !fatal
              && |s.samples| == 2 && s.windowPid == Some(s.samples[0].pid) && s.windowPid == Some(s.samples[1].pid)
              && s.samples[0].sha != s.samples[1].sha && s.samples[1].observed - s.samples[0].observed >= 2.0
              && s.lastChange.Some? && now - s.lastChange.value <= 12.0
              && s.lastSeen.Some? && now - s.lastSeen.value <= 12.0
              && (launch.timedOut || (launch.success && (launch.exitCode.None? || launch.exitCode.value == 0)))
  {
    TicksKeepEvidence(START.(blocked := blocked), looks);
  }

  /** The other two verdicts: a fatal log fails; without one, a blocked observer decides nothing; and whatever else does
  not pass fails. */
  lemma VerdictExactly(s: State, ready: bool, fatal: bool, launch: Launch, now: real)
    ensures Conclude(s, ready, fatal, launch, now) == Blocked <==> !s.failed && !fatal && s.blocked != ""
    ensures s.failed || fatal || (s.blocked == "" && (!ready || |s.samples| != 2)) ==>
              Conclude(s, ready, fatal, launch, now) == Failed
  {
  }

  /** A blocked observer, or one that saw a fatal log, never changes again. */
  lemma {:induction false} StoppedStays(s: State, looks: seq<Look>)
    requires s.failed || s.blocked != ""
    ensures Watched(s, looks) == s
    decreases |looks|
  {
    if looks != [] {
      StoppedStays(s, looks[1..]);
    }
  }
}
