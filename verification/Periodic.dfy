/** `pkg/periodic/periodic.go`: the endless instance of the select loop, one turn at a time. */
module Periodic {
  import opened Common
  import opened SelectLoop
  import opened LoopObject
  import opened Backoff

  datatype Rejection = BadInterval | BadJitter | BadTimeout | NilTask

  /** What `New` checks of its arguments. */
  function Rejected(interval: int, jitter: int, timeout: int, taskIsNil: bool): Option<Rejection> {
    if interval < 1 then Some(BadInterval)
    else if jitter < 0 then Some(BadJitter)
    else if timeout < 1 then Some(BadTimeout)
    else if taskIsNil then Some(NilTask)
    else None
  }

  /** Exactly what `New` accepts, and which complaint comes first. */
  lemma RejectedExactlyWhen(interval: int, jitter: int, timeout: int, taskIsNil: bool)
    ensures var r := Rejected(interval, jitter, timeout, taskIsNil);
      && (r == None <==> interval >= 1 && jitter >= 0 && timeout >= 1 && !taskIsNil)
      && (r == Some(BadInterval) <==> interval <= 0)
      && (r == Some(BadJitter) <==> interval > 0 && jitter < 0)
      && (r == Some(BadTimeout) <==> interval > 0 && jitter >= 0 && timeout <= 0)
  {
  }

  /** No execution is the last. */
  function Never(): nat -> bool { _ => false }

  /** How one turn of the loop, or the loop after some turns, stands. */
  datatype TurnResult = Stopped | Continues | Crashed | BlockedForever

  class Periodic {
    const interval: int
    const jitter: int
    const loop: Loop
    ghost var waits: seq<int>         // the waits scheduled since the start

    constructor (interval: int, jitter: int)
      requires Rejected(interval, jitter, 1, false) == None && interval < INT64_LIMIT && jitter < INT64_LIMIT
      ensures this.interval == interval && this.jitter == jitter && Configured() && waits == []
      ensures fresh(loop) && loop.resetTimer == None
    {
      this.interval, this.jitter := interval, jitter;
      loop := new Loop();
      waits := [];
    }

    /** What `New` accepts of 64-bit values. */
    predicate Configured() { 1 <= interval < INT64_LIMIT && 0 <= jitter < INT64_LIMIT }

    /** Every wait scheduled so far is the interval plus less than the jitter, as a 64-bit sum. */
    ghost predicate WaitsInBand()
      reads this
    {
      forall k :: 0 <= k < |waits| ==> Scheduled(interval as real, jitter, waits[k])
    }

    /** The loop is going on: one wait for each execution, and the timer armed with them. */
    ghost predicate InStep()
      reads this, loop
    {
      && Configured() && loop.Valid() && loop.stop == Never() && loop.now.pc == Selecting
      && |waits| == loop.now.runs && WaitsInBand() && loop.Carries(waits)
      && (jitter == 0 ==> loop.now.runs == 0)
    }

    /** What is so however far the loop has come. */
    ghost predicate Outcome(r: TurnResult)
      reads this, loop
    {
      && Configured() && loop.Valid() && loop.stop == Never() && WaitsInBand()
      && match r
         case Continues => InStep()
         case Stopped => loop.now.pc == Returned(true) && loop.done && |waits| == loop.now.runs
         case Crashed => jitter == 0 && loop.now.runs == 1 && waits == []
         case BlockedForever => SendBlocked(loop.now) && loop.leftover.Some? && jitter >= 1
    }

    method Start(contextDone: bool)
      requires Configured()
      modifies this, loop
      ensures InStep() && loop.now == loop.Entered() && loop.entered == contextDone
      ensures loop.leftover == old(loop.resetTimer)
    {
      waits := [];
      loop.Start(contextDone, Never());
    }

    /** `run`: the task, then the next wait. `rand.Int63n` panics on a jitter of zero,
        which `New` lets through. */
    method Execute() returns (r: TurnResult)
      requires Configured() && loop.Valid() && loop.stop == Never() && loop.now.pc == Executing
      requires |waits| == loop.now.runs && WaitsInBand() && (jitter == 0 ==> loop.now.runs == 0)
      modifies this`waits, loop
      ensures r != Stopped && Outcome(r) && loop.now.selects == old(loop.now.selects)
      ensures loop.now.runs == old(loop.now.runs) + 1
      ensures r == Crashed <==> jitter == 0
      ensures loop.leftover == old(loop.leftover) && loop.entered == old(loop.entered)
    {
      loop.FinishTask();
      if jitter == 0 {
        return Crashed;
      }
      if loop.resetTimer.Some? {
        loop.Reached();
        return BlockedForever;
      }
      var random :| 0 <= random < jitter;
      var wait := WrapInt64(interval + random);
      assert Scheduled(interval as real, jitter, wait);
      loop.Send(wait);
      waits := waits + [wait];
      r := Continues;
    }

    /** One turn of the endless loop. */
    method Turn() returns (r: TurnResult)
      requires InStep()
      modifies this`waits, loop
      ensures Outcome(r) && loop.leftover == old(loop.leftover) && loop.entered == old(loop.entered)
      ensures r == Continues ==> loop.now.selects == old(loop.now.selects) + 1
    {
      var c := loop.Select();
      match c {
        case ContextDone => r := Stopped;
        case TimerReset => r := Continues;
        case TimerFired => r := Execute();
      }
    }

    /** `Start` and the loop it runs, observed after any number of turns, whatever the
        timing and whatever earlier runs of the same object have left. Every execution was
        followed by one wait of the interval's band; the loop stops only when the context
        is done, panics only in its first execution and only on a jitter of zero, and blocks
        only on a value left in the channel. */
    method StartAndLoop(contextDone: bool, turns: nat) returns (r: TurnResult)
      requires Configured()
      modifies this, loop
      ensures Outcome(r) && loop.leftover == old(loop.resetTimer) && loop.entered == contextDone
      ensures r == Continues ==> loop.now.selects == turns
      ensures old(loop.resetTimer).None? ==> r != BlockedForever
    {
      Start(contextDone);
      r := Continues;
      var turn := 0;
      while turn < turns && r == Continues
        invariant turn <= turns && Outcome(r) && loop.leftover == old(loop.resetTimer) && loop.entered == contextDone
        invariant r == Continues ==> loop.now.selects == turn
      {
        r := Turn();
        turn := turn + 1;
      }
    }
  }

  /** Where interval and jitter fit 64 bits together, every wait of a run lies between the
      interval and less than the jitter above it. */
  lemma WaitsOfRun(p: Periodic, r: TurnResult, k: nat)
    requires p.Outcome(r) && k < |p.waits| && p.interval + p.jitter <= 9223372036854775808
    ensures p.interval <= p.waits[k] < p.interval + p.jitter
  {
    assert Scheduled(p.interval as real, p.jitter, p.waits[k]);
  }

  /** `New` lets a jitter of zero through, and the loop then reaches the execution in which
      it panics: within four steps of the machine, without any cancellation. */
  lemma ZeroJitterCrashes(interval: int, timeout: int)
    requires interval >= 1 && timeout >= 1
    ensures Rejected(interval, 0, timeout, false) == None
    ensures Legal(Never(), Entry(false, false), ReachSend) && Cancel !in ReachSend
    ensures var s := Run(Never(), Entry(false, false), ReachSend); s.pc == Scheduling && s.runs == 1
  {
    var s0 := Entry(false, false);
    var s3 := Step(Never(), Step(Never(), Step(Never(), s0, Expire), Deliver), TakeTimer);
    assert Legal(Never(), s3, [FinishTask]) && Run(Never(), s3, [FinishTask]) == Step(Never(), s3, FinishTask);
    assert [TakeTimer, FinishTask][1..] == [FinishTask];
    assert [Deliver, TakeTimer, FinishTask][1..] == [TakeTimer, FinishTask];
    assert ReachSend[1..] == [Deliver, TakeTimer, FinishTask];
  }
}
