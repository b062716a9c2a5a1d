/** The counters `pkg/retrier` and `pkg/httpretrier` both keep beside the select loop:
    attempts left and the next delay. */
module Pacing {
  import opened Common
  import opened SelectLoop
  import opened LoopObject
  import opened Backoff

  /** How an execution ends: the run with it, or not, or in a send that waits forever. */
  datatype Verdict = Last | Again | Stuck

  class Pace {
    const attempts: nat
    const delay: int
    const delayFactor: real
    const jitter: int
    const loop: Loop

    var nextDelay: real
    var remainingAttempts: nat
    ghost var waits: seq<int>         // the waits scheduled by this run

    /** What the option functions accept of 64-bit values. */
    predicate Configured() { attempts >= 1 && delay >= 1 && delayFactor >= 1.0 && 1 <= jitter < INT64_LIMIT }

    constructor (attempts: nat, delay: int, delayFactor: real, jitter: int)
      requires attempts >= 1 && delay >= 1 && delayFactor >= 1.0 && 1 <= jitter < INT64_LIMIT
      ensures Configured() && fresh(loop) && loop.resetTimer == None
      ensures this.attempts == attempts && this.delay == delay
      ensures this.delayFactor == delayFactor && this.jitter == jitter
    {
      this.attempts, this.delay, this.delayFactor, this.jitter := attempts, delay, delayFactor, jitter;
      loop := new Loop();
      nextDelay, remainingAttempts, waits := 0.0, 0, [];
    }

    /** The waits so far follow the schedule, and the next base is the one after them. */
    ghost predicate OnSchedule()
      reads this`nextDelay, this`waits
    {
      nextDelay == Base(delay, delayFactor, |waits|) && AllInBand(delay, delayFactor, jitter, waits)
    }

    /** The timer is armed with the waits scheduled, one for each execution but the last
        `due` ones. */
    ghost predicate Ticking(stop: nat -> bool, due: nat)
      reads this, loop
    {
      && Configured() && loop.Valid() && loop.stop == stop
      && |waits| + due == loop.now.runs && OnSchedule() && loop.Carries(waits)
    }

    /** Moreover the attempts left agree with the machine. */
    ghost predicate Paced(stop: nat -> bool, due: nat)
      reads this, loop
    {
      && Ticking(stop, due) && stop(attempts)
      && loop.now.runs <= attempts && remainingAttempts == attempts - loop.now.runs
    }

    method Begin(contextDone: bool, ghost stop: nat -> bool)
      requires Configured() && stop(attempts)
      modifies this, loop
      ensures Paced(stop, 0) && loop.now == loop.Entered() && loop.entered == contextDone
      ensures loop.leftover == loop.resetTimer == old(loop.resetTimer)
    {
      nextDelay, remainingAttempts := delay as real, attempts;
      waits := [];
      loop.Start(contextDone, stop);
    }

    /** An execution has ended: one attempt fewer. It was the last one allowed exactly when
        none is left, and the subtraction never wraps. */
    method Count(ghost stop: nat -> bool)
      requires Paced(stop, 0) && loop.now.pc == Executing
      modifies this`remainingAttempts, loop`acts, loop`now
      ensures Paced(stop, 1) && loop.Stepped(FinishTask)
      ensures remainingAttempts == 0 <==> loop.now.runs == attempts
    {
      loop.Reached();
      assert loop.now.runs < attempts;
      loop.FinishTask();
      remainingAttempts := remainingAttempts - 1;
    }

    /** An execution has ended the run without counting as an attempt. */
    ghost method Abandon(stop: nat -> bool)
      requires Paced(stop, 0) && loop.now.pc == Executing && stop(loop.now.runs + 1)
      modifies loop`acts, loop`now
      ensures Ticking(stop, 1) && loop.Stepped(FinishTask) && loop.now.pc == Returned(false)
    {
      loop.FinishTask();
    }

    /** Sends the next wait, and lets the base of the one after it grow. With a value left in
        the channel the send waits for a reader that does not exist. */
    method Schedule(ghost stop: nat -> bool) returns (v: Verdict)
      requires Paced(stop, 1) && loop.now.pc == Scheduling
      modifies this`nextDelay, this`waits, loop
      ensures loop.entered == old(loop.entered) && loop.leftover == old(loop.leftover)
      ensures loop.now.selects == old(loop.now.selects) && loop.now.runs == old(loop.now.runs)
      ensures v == if old(loop.resetTimer).None? then Again else Stuck
      ensures v == Again ==> Paced(stop, 0) && loop.now.pc == Selecting && |waits| == |old(waits)| + 1
      ensures v == Stuck ==> Paced(stop, 1) && SendBlocked(loop.now)
    {
      if loop.resetTimer.Some? {
        return Stuck;
      }
      BasesNeverShrink(delay, delayFactor, |waits|, |waits|);
      var wait := NextWait(nextDelay, jitter);
      loop.Send(wait);
      OneMoreInBand(delay, delayFactor, jitter, waits, wait);
      waits := waits + [wait];
      nextDelay := nextDelay * delayFactor;
      v := Again;
    }

    /** One select statement, which leaves the counters alone. */
    method Select(ghost stop: nat -> bool) returns (c: Case)
      requires Paced(stop, 0) && loop.now.pc == Selecting
      modifies loop
      ensures Paced(stop, 0) && loop.now.runs == old(loop.now.runs)
      ensures loop.entered == old(loop.entered) && loop.leftover == old(loop.leftover)
      ensures match c
        case ContextDone => loop.done && loop.now.pc == Returned(true) && loop.now.selects == old(loop.now.selects)
        case TimerReset => loop.now.pc == Selecting && loop.now.selects == old(loop.now.selects) + 1
        case TimerFired => loop.now.pc == Executing && loop.now.selects == old(loop.now.selects) + 1
    {
      c := loop.Select();
    }
  }
}
