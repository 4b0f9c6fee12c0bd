/** Deciding that a player really moved in the world (e2e/scripts/staged_matching.py). */
module Gameplay {
  import opened Wrappers

  datatype Status = Pending | Passed | Failed | Blocked

  datatype Reason = ServerEnded | ServerCrashed | ClientCrashed | TicksStoodStill | PlayerStoodStill | FrameStoodStill

  datatype Position = Position(x: real, y: real, z: real)

  /** Where an exception interrupts a tick. Up to `Window` the points are common; the later ones belong to the action
  or to the measurement after it. */
  datatype Point = Server | Log | Online | Window | ReadPosition | ReadTicks | Screenshot | Input

  datatype Fault = Fault(point: Point, gui: bool)

  /** What one tick sees; `now`, `later` and `acted` are clock readings: at its start, before the measurement after
  the action, and right after the input. */
  datatype Look = Look(now: real, serverEnded: bool, serverCrashed: bool, clientFatal: bool,
                       connected: bool, joinLogged: bool, online: bool, window: Option<int>,
                       position: Position, ticks: int, frame: string, acted: real, later: real,
                       fault: Option<Fault>)

  predicate FaultAt(look: Look, point: Point) {
    look.fault.Some? && look.fault.value.point == point
  }

  /** At least 0.22 blocks apart. */
  predicate ChangedPosition(a: Position, b: Position) {
    (a.x - b.x) * (a.x - b.x) + (a.y - b.y) * (a.y - b.y) + (a.z - b.z) * (a.z - b.z) >= 0.0484
  }

  datatype Evidence = Evidence(joined: bool, actionSent: bool, actionTime: Option<real>,
                               positionBefore: Option<Position>, positionAfter: Option<Position>,
                               ticksBefore: Option<int>, ticksAfter: Option<int>,
                               firstFrame: Option<string>, lastFrame: Option<string>)

  const NOTHING := Evidence(false, false, None, None, None, None, None, None, None)

  /** The player joined, real input was sent, and after it the server ticked on, moved the player and the picture
  changed. */
  predicate Proves(e: Evidence) {
    && e.joined && e.actionSent
    && e.ticksBefore.Some? && e.ticksAfter.Some? && e.ticksBefore.value < e.ticksAfter.value
    && e.positionBefore.Some? && e.positionAfter.Some? && ChangedPosition(e.positionBefore.value, e.positionAfter.value)
    && e.firstFrame.Some? && e.lastFrame.Some? && e.firstFrame != e.lastFrame
  }

  /** What the measured evidence falls short of, in the order the observer asks. */
  function Shortfall(e: Evidence): (r: Option<Reason>)
    requires e.ticksBefore.Some? && e.ticksAfter.Some? && e.positionBefore.Some? && e.positionAfter.Some?
    ensures e.joined && e.actionSent && e.firstFrame.Some? && e.lastFrame.Some? ==> (r.None? <==> Proves(e))
  {
    if e.ticksAfter.value <= e.ticksBefore.value then Some(TicksStoodStill)
    else if !ChangedPosition(e.positionBefore.value, e.positionAfter.value) then Some(PlayerStoodStill)
    else if e.firstFrame == e.lastFrame then Some(FrameStoodStill)
    else None
  }

  /** Everything a tick needs before it acts or measures is there. */
  predicate Clear(look: Look) {
    && look.connected && look.joinLogged && look.online && look.window.Some?
    && !FaultAt(look, Server) && !FaultAt(look, Log) && !FaultAt(look, Online) && !FaultAt(look, Window)
  }

  /** The evidence once this tick has measured after the action. */
  function Measured(e: Evidence, look: Look): Evidence {
    e.(joined := true, positionAfter := Some(look.position), ticksAfter := Some(look.ticks),
       lastFrame := Some(look.frame))
  }

  predicate MeasuresWhole(look: Look) {
    Clear(look) && !FaultAt(look, ReadPosition) && !FaultAt(look, ReadTicks) && !FaultAt(look, Screenshot)
  }

  /** The player is seen to be on the server. */
  predicate Joins(look: Look) {
    && look.connected && look.joinLogged && look.online
    && !FaultAt(look, Server) && !FaultAt(look, Log) && !FaultAt(look, Online)
  }

  /** Position, ticks and frame can be recorded, and the input be sent. */
  predicate Acts(look: Look) {
    MeasuresWhole(look) && !FaultAt(look, Input)
  }

  /** The measurement after the action is complete, at least a second after the input. */
  predicate Measures(e: Evidence, look: Look) {
    e.actionSent && e.actionTime.Some? && look.later - e.actionTime.value >= 1.0 && MeasuresWhole(look)
  }

  predicate Passes(e: Evidence, look: Look) {
    Measures(e, look) && Proves(Measured(e, look))
  }

  /** The tick gets as far as the point where the exception is raised. */
  predicate Interrupted(e: Evidence, look: Look) {
    look.fault.Some? &&
    match look.fault.value.point
    case Server => true
    case Log => true
    case Online => look.connected && look.joinLogged
    case Window => Joins(look)
    case Input => Clear(look) && !e.actionSent
    case _ => Clear(look) && (e.actionSent ==> e.actionTime.Some? && look.later - e.actionTime.value >= 1.0)
  }

  class GameplayObserver {
    var lastProbe: real
    var evidence: Evidence
    var failure: Option<Reason>
    var windowPid: Option<int>
    var status: Status

    /** Before the action the observer has measured all that the comparison afterwards needs. */
    ghost predicate Valid()
      reads this
    {
      && (evidence.actionSent ==> && evidence.joined && evidence.actionTime.Some? && evidence.positionBefore.Some?
                                  && evidence.ticksBefore.Some? && evidence.firstFrame.Some?)
      && (status == Passed ==> Proves(evidence) && failure.None?)
      && (status == Failed ==> failure.Some?)
    }

    constructor ()
      ensures Valid() && evidence == NOTHING && failure == None && status == Pending && lastProbe == 0.0
              && windowPid == None
    {
      lastProbe, evidence, failure, windowPid, status := 0.0, NOTHING, None, None, Pending;
    }

    /** A tick is skipped for good once there is a failure, and until the next probe is due. */
    predicate Skips(look: Look)
      reads this
    {
      failure.Some? || look.now - lastProbe < 1.5
    }

    /** The failure that ends the observation whatever was proved before. */
    predicate Dies(look: Look) {
      look.serverEnded || look.serverCrashed || look.clientFatal
    }

    /** What a tick records: being on the server; the measurement after the action when it is complete; and the
    input exactly when position, ticks and frame were recorded before it in the same tick. */
    ghost predicate Observed(e: Evidence, look: Look)
      reads this
    {
      && (evidence.joined <==> e.joined || Joins(look))
      && (Measures(e, look) ==> evidence == Measured(e, look))
      && (!e.actionSent ==>
            && (evidence.actionSent <==> Acts(look))
            && (Acts(look) ==> evidence == e.(joined := true, actionSent := true, actionTime := Some(look.acted),
                                              positionBefore := Some(look.position), ticksBefore := Some(look.ticks),
                                              firstFrame := Some(look.frame))))
    }

    method Tick(look: Look)
      requires Valid()
      modifies this
      ensures Valid()
      // A failure is final, and so is evidence that passed, unless a crash is seen later.
      ensures old(Skips(look)) ==>
                && evidence == old(evidence) && failure == old(failure)
                && status == old(status) && windowPid == old(windowPid)
      ensures !old(Skips(look)) && Dies(look) ==> status == Failed && failure.Some? && evidence == old(evidence)
      ensures !old(Skips(look)) && !Dies(look) && old(status) == Passed ==>
                status == Passed && evidence == old(evidence)
      // Otherwise a tick passes exactly when it measures everything, at least a second after the input, and that
      // proves it; a GUI fault on the way blocks the observer for the time being.
      ensures !old(Skips(look)) && !Dies(look) && old(status) != Passed ==>
                status == if Passes(old(evidence), look) then Passed
                          else if Interrupted(old(evidence), look) && look.fault.value.gui then Blocked else old(status)
      // A complete measurement that falls short ends the observation; nothing else but a crash does.
      ensures !old(Skips(look)) && !Dies(look) && old(status) != Passed ==>
                failure == if Measures(old(evidence), look) then Shortfall(Measured(old(evidence), look)) else None
      ensures lastProbe == if old(Skips(look)) then old(lastProbe) else look.now
      // A tick is due a second and a half after the last one, and passes a second after the input at the earliest.
      ensures old(failure).None? && look.now >= old(lastProbe) + 1.5 ==> lastProbe == look.now
      ensures old(failure).Some? || look.now < old(lastProbe) + 1.5 ==> evidence == old(evidence)
      // What counts as being on the server, as having sent input, and as the measurement before and after it.
      ensures evidence.joined && !old(evidence).joined ==> look.connected && look.joinLogged && look.online
      ensures evidence.actionSent && !old(evidence).actionSent ==>
                && evidence.joined && look.window.Some? && evidence.actionTime == Some(look.acted)
                && evidence.positionBefore == Some(look.position) && evidence.ticksBefore == Some(look.ticks)
                && evidence.firstFrame == Some(look.frame)
      ensures status == Passed && old(status) != Passed ==>
                && look.window.Some? && evidence.positionAfter == Some(look.position)
                && evidence.ticksAfter == Some(look.ticks) && evidence.lastFrame == Some(look.frame)
      ensures status == Passed && old(status) != Passed ==>
                && old(evidence).actionSent && look.later >= old(evidence).actionTime.value + 1.0
                && look.now >= old(lastProbe) + 1.5
      ensures !old(Skips(look)) && !Dies(look) && old(status) != Passed ==> Observed(old(evidence), look)
      // What was recorded before the input never changes after it.
      ensures old(evidence).actionSent ==>
                && evidence.actionSent && evidence.positionBefore == old(evidence).positionBefore
                && evidence.ticksBefore == old(evidence).ticksBefore && evidence.firstFrame == old(evidence).firstFrame
                && evidence.actionTime == old(evidence).actionTime
    {
      if failure.Some? || look.now - lastProbe < 1.5 {
        return;
      }
      lastProbe := look.now;
      if look.serverEnded {
        failure, status := Some(ServerEnded), Failed;
        return;
      }
      if look.serverCrashed {
        failure, status := Some(ServerCrashed), Failed;
        return;
      }
      if look.clientFatal {
        failure, status := Some(ClientCrashed), Failed;
        return;
      }
      if status == Passed {
        return;
      }
      var raised := Probe(look);
      if raised && look.fault.value.gui {
        status := Blocked;
      }
    }

    /** The observation proper; it stops where an exception interrupts it. */
    method Probe(look: Look) returns (raised: bool)
      requires Valid() && failure.None? && status != Passed && status != Failed
      modifies this
      ensures Valid() && lastProbe == old(lastProbe)
      ensures raised <==> Interrupted(old(evidence), look)
      ensures status == if Passes(old(evidence), look) then Passed else old(status)
      ensures failure == if Measures(old(evidence), look) then Shortfall(Measured(old(evidence), look)) else None
      ensures Observed(old(evidence), look)
      ensures old(evidence).actionSent ==>
                && evidence.actionSent && evidence.positionBefore == old(evidence).positionBefore
                && evidence.ticksBefore == old(evidence).ticksBefore && evidence.firstFrame == old(evidence).firstFrame
                && evidence.actionTime == old(evidence).actionTime
    {
      raised := FaultAt(look, Server) || FaultAt(look, Log);
      if raised || !look.connected || !look.joinLogged {
        return;
      }
      raised := FaultAt(look, Online);
      if raised || !look.online {
        return;
      }
      evidence := evidence.(joined := true);
      raised := FaultAt(look, Window);
      if raised || look.window.None? {
        return;
      }
      windowPid := look.window;
      if !evidence.actionSent {
        raised := Act(look);
        return;
      }
      if look.later - evidence.actionTime.value < 1.0 {
        return;
      }
      raised := FaultAt(look, ReadPosition);
      if raised {
        return;
      }
      evidence := evidence.(positionAfter := Some(look.position));
      raised := FaultAt(look, ReadTicks);
      if raised {
        return;
      }
      evidence := evidence.(ticksAfter := Some(look.ticks));
      raised := FaultAt(look, Screenshot);
      if raised {
        return;
      }
      evidence := evidence.(lastFrame := Some(look.frame));
      if evidence.ticksAfter.value <= evidence.ticksBefore.value {
        failure := Some(TicksStoodStill);
      } else if !ChangedPosition(evidence.positionBefore.value, evidence.positionAfter.value) {
        failure := Some(PlayerStoodStill);
      } else if evidence.firstFrame == evidence.lastFrame {
        failure := Some(FrameStoodStill);
      } else {
        status := Passed;
      }
    }

    /** Records position, ticks and frame, then sends real input to the window. */
    method Act(look: Look) returns (raised: bool)
      requires Valid() && evidence.joined && !evidence.actionSent && status != Passed
      modifies this`evidence
      ensures Valid() && evidence.joined
      ensures raised <==> look.fault.Some? && look.fault.value.point in {ReadPosition, ReadTicks, Screenshot, Input}
      ensures raised ==> !evidence.actionSent
      ensures !raised ==> evidence == old(evidence).(
                actionSent := true, actionTime := Some(look.acted), positionBefore := Some(look.position),
                ticksBefore := Some(look.ticks), firstFrame := Some(look.frame))
    {
      raised := FaultAt(look, ReadPosition);
      if raised {
        return;
      }
      evidence := evidence.(positionBefore := Some(look.position));
      raised := FaultAt(look, ReadTicks);
      if raised {
        return;
      }
      evidence := evidence.(ticksBefore := Some(look.ticks));
      raised := FaultAt(look, Screenshot);
      if raised {
        return;
      }
      evidence := evidence.(firstFrame := Some(look.frame));
      raised := FaultAt(look, Input);
      if raised {
        return;
      }
      evidence := evidence.(actionTime := Some(look.acted), actionSent := true);
    }

    /** Any number of ticks: passed is never reached without the evidence, and a failure is never taken back. */
    method Watch(looks: seq<Look>)
      requires Valid()
      modifies this
      ensures Valid() && (status == Passed ==> Proves(evidence) && failure.None?)
      // What passed means: input was sent to a player who is on the server, and after it the server ticked on, the
      // player is at least 0.22 blocks away from where he was, and the picture is another one.
      ensures status == Passed ==>
                && evidence.joined && evidence.actionSent && evidence.actionTime.Some?
                && evidence.ticksBefore.Some? && evidence.ticksAfter.Some?
                && evidence.ticksBefore.value < evidence.ticksAfter.value
                && evidence.firstFrame.Some? && evidence.lastFrame.Some?
                && evidence.firstFrame.value != evidence.lastFrame.value
                && evidence.positionBefore.Some? && evidence.positionAfter.Some?
                && var a, b := evidence.positionBefore.value, evidence.positionAfter.value;
                   var x, y, z := b.x - a.x, b.y - a.y, b.z - a.z;
                   x * x + y * y + z * z >= 0.22 * 0.22
      ensures old(failure).Some? ==> failure == old(failure) && evidence == old(evidence) && status == old(status)
    {
      for n := 0 to |looks|
        invariant Valid()
        invariant old(failure).Some? ==> failure == old(failure) && evidence == old(evidence) && status == old(status)
      {
        Tick(looks[n]);
      }
    }
  }
}
