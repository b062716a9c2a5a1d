/** `pkg/retrier/retrier.go`: run a task until it need not be retried. */
module Retrier {
  import opened Common
  import opened SelectLoop
  import opened LoopObject
  import opened Backoff
  import opened Pacing

  type TaskError = Option<string>   // None is a nil error

  /** `BlockedForever`: the loop waits in a send that nobody will ever receive. */
  datatype RunResult = Finished(error: TaskError) | MainContextCancelled | BlockedForever

  class Retrier {
    const retryIf: TaskError -> bool
    const pace: Pace
    var taskError: TaskError

    /** `task(k)` is the outcome of the k-th execution: is it the last? */
    function Stops(task: nat -> TaskError): nat -> bool {
      (k: nat) => k == pace.attempts || !retryIf(task(k))
    }

    constructor (pace: Pace, retryIf: TaskError -> bool)
      ensures this.pace == pace && this.retryIf == retryIf
    {
      this.pace, this.retryIf := pace, retryIf;
      taskError := None;
    }

    /** One execution of the task, and what follows from its outcome. */
    method Exec(task: nat -> TaskError, ghost stop: nat -> bool) returns (v: Verdict)
      requires pace.Paced(stop, 0) && pace.loop.now.pc == Executing
      requires var k := pace.loop.now.runs + 1; stop(k) <==> k == pace.attempts || !retryIf(task(k))
      modifies this, pace, pace.loop
      ensures pace.loop.entered == old(pace.loop.entered) && pace.loop.leftover == old(pace.loop.leftover)
      ensures pace.loop.now.selects == old(pace.loop.now.selects) && taskError == task(pace.loop.now.runs)
      ensures v == Last ==> pace.Paced(stop, 1) && pace.loop.now.pc == Returned(false)
      ensures v == Again ==> pace.Paced(stop, 0) && pace.loop.now.pc == Selecting
      ensures v == Stuck ==> pace.Paced(stop, 1) && SendBlocked(pace.loop.now)
    {
      taskError := task(pace.attempts - pace.remainingAttempts + 1);
      pace.Count(stop);
      if pace.remainingAttempts == 0 || !retryIf(taskError) {
        return Last;
      }
      v := pace.Schedule(stop);
    }

    /** What holds of a run that has returned, or that never will. */
    ghost predicate Outcome(task: nat -> TaskError, n: nat, r: RunResult)
      reads this, pace, pace.loop
    {
      && pace.loop.Valid() && pace.loop.stop == Stops(task) && EndsAt(Stops(task), n) && n <= pace.attempts
      && Within(pace.loop.now, n, pace.loop.leftover.Some?)
      && pace.remainingAttempts == pace.attempts - pace.loop.now.runs
      && AllInBand(pace.delay, pace.delayFactor, pace.jitter, pace.waits)
      && match r
         case Finished(error) =>
           && pace.loop.now.pc == Returned(false) && error == task(n) && |pace.waits| == n - 1
           && (pace.loop.leftover.None? ==> pace.loop.resetTimer == None)
         case MainContextCancelled =>
           && pace.loop.now.pc == Returned(true) && pace.loop.done && |pace.waits| == pace.loop.now.runs
         case BlockedForever =>
           && SendBlocked(pace.loop.now) && pace.loop.leftover.Some? && !Stops(task)(1)
    }

    /** One turn of the loop: wait, then take one of the cases that are ready. */
    method Turn(task: nat -> TaskError, ghost n: nat, ghost stop: nat -> bool) returns (r: Option<RunResult>)
      requires pace.Paced(stop, 0) && pace.loop.now.pc == Selecting
      requires stop == Stops(task) && EndsAt(stop, n) && n <= pace.attempts
      modifies this, pace, pace.loop
      ensures pace.loop.entered == old(pace.loop.entered) && pace.loop.leftover == old(pace.loop.leftover)
      ensures r.None? ==> pace.Paced(stop, 0) && pace.loop.now.pc == Selecting &&
                          pace.loop.now.selects > old(pace.loop.now.selects)
      ensures r.Some? ==> Outcome(task, n, r.value)
    {
      var c := pace.Select(stop);
      match c {
        case ContextDone =>
          CutShort(this, task, n);
          r := Some(MainContextCancelled);
        case TimerReset =>
          r := None;
        case TimerFired =>
          var v := Exec(task, stop);
          match v {
            case Again => r := None;
            case Last =>
              EndedByItself(this, task, n);
              r := Some(Finished(taskError));
            case Stuck =>
              StuckInSend(this, task, n);
              r := Some(BlockedForever);
          }
      }
    }

    /** Every execution of `Run`, whatever the timing and whatever earlier runs of the same
        object have left: a run of the select machine that always ends. Unless the context
        is done first, the task runs until the first outcome the predicate rejects or until
        `attempts` executions, the outcome of the last one is returned, and an empty channel
        is left empty for the next run. It blocks only on a value left in the channel, and
        only if the first execution is not the last. */
    method Run(task: nat -> TaskError, contextDone: bool) returns (r: RunResult, ghost n: nat)
      requires pace.Configured()
      modifies this, pace, pace.loop
      ensures Outcome(task, n, r)
      ensures pace.loop.entered == contextDone && pace.loop.leftover == old(pace.loop.resetTimer)
    {
      ghost var stop := Stops(task);
      pace.Begin(contextDone, stop);
      n := FirstEnd(stop, pace.attempts);
      while true
        invariant pace.Paced(stop, 0) && pace.loop.now.pc == Selecting
        invariant pace.loop.entered == contextDone && pace.loop.leftover == old(pace.loop.resetTimer)
        decreases 2 * n + 1 - pace.loop.now.selects
      {
        pace.loop.IsWithin(n);
        var result := Turn(task, n, stop);
        if result.Some? {
          r := result.value;
          return;
        }
      }
    }
  }

  // ---------- the three ways a run comes to rest ----------

  lemma CutShort(h: Retrier, task: nat -> TaskError, n: nat)
    requires h.pace.Paced(h.Stops(task), 0) && EndsAt(h.Stops(task), n) && n <= h.pace.attempts
    requires h.pace.loop.now.pc == Returned(true) && h.pace.loop.done
    ensures h.Outcome(task, n, MainContextCancelled)
  {
    h.pace.loop.IsWithin(n);
  }

  lemma EndedByItself(h: Retrier, task: nat -> TaskError, n: nat)
    requires h.pace.Paced(h.Stops(task), 1) && EndsAt(h.Stops(task), n) && n <= h.pace.attempts
    requires h.pace.loop.now.pc == Returned(false) && h.taskError == task(h.pace.loop.now.runs)
    ensures h.Outcome(task, n, Finished(h.taskError))
  {
    h.pace.loop.Reached();
    h.pace.loop.IsWithin(n);
  }

  lemma StuckInSend(h: Retrier, task: nat -> TaskError, n: nat)
    requires h.pace.Paced(h.Stops(task), 1) && EndsAt(h.Stops(task), n) && n <= h.pace.attempts
    requires SendBlocked(h.pace.loop.now)
    ensures h.Outcome(task, n, BlockedForever)
  {
    h.pace.loop.IsWithin(n);
  }

  /** What that means of the task: every outcome but the last was one to retry, and the last
      is the first that the predicate rejects, or that of the last attempt allowed. A run cut
      short had no such outcome yet. */
  lemma OutcomeMeaning(h: Retrier, task: nat -> TaskError, n: nat, r: RunResult)
    requires h.Outcome(task, n, r)
    ensures 1 <= n <= h.pace.attempts && (n == h.pace.attempts || !h.retryIf(task(n)))
    ensures forall k :: 1 <= k < n ==> h.retryIf(task(k))
    ensures r.Finished? ==> h.pace.loop.now.runs == n && r.error == task(n)
    ensures !r.Finished? ==> h.pace.loop.now.runs < n
    ensures r.BlockedForever? ==> h.pace.attempts > 1 && h.retryIf(task(1))
  {
    var stop := h.Stops(task);
    assert stop(n);
    forall k | 1 <= k < n ensures h.retryIf(task(k)) {
      assert !stop(k);
    }
    assert r.BlockedForever? ==> !stop(1);
  }

  /** The predicate a retrier starts with: retry every error. Such a run ends with the first
      success, or with the error of the last attempt. */
  predicate DefaultRetryIf(error: TaskError) { error.Some? }

  lemma DefaultOutcome(h: Retrier, task: nat -> TaskError, n: nat, r: RunResult)
    requires h.retryIf == DefaultRetryIf && h.Outcome(task, n, r) && r.Finished?
    ensures r.error == None <==> exists k :: 1 <= k <= h.pace.attempts && task(k) == None
    ensures forall k :: 1 <= k < n ==> task(k) != None
    ensures r.error != None ==> n == h.pace.attempts && r.error == task(h.pace.attempts)
  {
    OutcomeMeaning(h, task, n, r);
    assert r.error == None ==> task(n) == None;
    forall k | 1 <= k < n ensures task(k) != None {
      assert h.retryIf(task(k));
    }
    assert n == h.pace.attempts || !h.retryIf(task(n));
  }
}
