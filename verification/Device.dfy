/** A durable store that changes only in atomic steps.

A crash stops the program between two steps and leaves the state that the last step produced.  Every
method that works on a `Device` therefore speaks about `trace`, the state after every step: a property
of all the states a call appends to `trace` is a property of every point at which the call can crash.

Any step may fail.  `faults` counts the failures, so that a call can also promise what it achieves when
nothing fails while it runs. */
module Devices {

  class Device<S> {
    var state: S
    ghost var trace: seq<S>
    ghost var faults: nat
    /** The failures among `faults` that went unnoticed: removals whose outcome the program does not look at. */
    ghost var missed: nat

    ghost predicate Valid()
      reads this
    {
      trace != [] && trace[|trace| - 1] == state
    }

    constructor (initial: S)
      ensures Valid() && state == initial && trace == [initial]
    {
      state := initial;
      trace, faults, missed := [initial], 0, 0;
    }

    /** One atomic step that either happens or is reported as failed. */
    method Step(next: S) returns (ok: bool)
      requires Valid()
      modifies this
      ensures Valid() && missed == old(missed)
      ensures state == (if ok then next else old(state))
      ensures trace == (if ok then old(trace) + [next] else old(trace))
      ensures faults == old(faults) + if ok then 0 else 1
    {
      ok := Try();
      if ok {
        state := next;
        trace := trace + [next];
      }
    }

    /** One atomic step followed by a directory flush: it may also be reported as failed after it happened. */
    method StepAndFlush(next: S) returns (ok: bool)
      requires Valid()
      modifies this
      ensures Valid() && missed == old(missed)
      ensures ok ==> state == next && trace == old(trace) + [next]
      ensures !ok ==> || (state == old(state) && trace == old(trace))
                      || (state == next && trace == old(trace) + [next])
      ensures faults == old(faults) + if ok then 0 else 1
    {
      ok := Step(next);
      if ok {
        ok := Try();
      }
    }

    /** A removal whose failure goes unnoticed. */
    method Discard(next: S)
      requires Valid()
      modifies this
      ensures Valid()
      ensures if missed == old(missed) then state == next && trace == old(trace) + [next] && faults == old(faults)
              else state == old(state) && trace == old(trace) && missed == old(missed) + 1 && faults == old(faults) + 1
    {
      var ok := Step(next);
      if !ok {
        missed := missed + 1;
      }
    }

    /** An operation that changes nothing durable, but may fail. */
    method Try() returns (ok: bool)
      modifies this`faults
      ensures faults == old(faults) + if ok then 0 else 1
    {
      ok := *;
      if !ok {
        Fail();
      }
    }

    method Fail()
      modifies this`faults
      ensures faults == old(faults) + 1
    {
      faults := faults + 1;
    }
  }
}
