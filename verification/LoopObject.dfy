/** The fields the three packages' objects share (`timer`, `resetTimer`, the context) and
    the steps their loops take on them, each proved to be a step of the `SelectLoop`
    machine. */
module LoopObject {
  import opened Common
  import opened SelectLoop

  /** Which case of the select statement was taken. */
  datatype Case = ContextDone | TimerReset | TimerFired

  class Loop {
    var timer: Timer
    var armedFor: int                // the duration the timer was last armed with
    var resetTimer: Option<int>
    var done: bool                   // the context is done

    ghost var stop: nat -> bool      // which execution is the last of this run
    ghost var leftover: Option<int>  // what an earlier run left in the channel
    ghost var entered: bool          // whether the context was done on entry
    ghost var acts: seq<Action>      // the steps of this run so far
    ghost var now: State             // where the machine is after them

    ghost function Entered(): State
      reads this
    {
      Entry(leftover.Some?, entered)
    }

    /** The steps so far are a run of the machine. */
    ghost predicate OnTrack()
      reads this
    {
      Legal(stop, Entered(), acts) && now == Run(stop, Entered(), acts)
    }

    /** The fields are those of a machine state reached by legal steps. */
    ghost predicate Valid()
      reads this
    {
      OnTrack() && timer == now.timer && resetTimer.Some? == now.pending && done == now.cancelled
    }

    /** The last of the waits sent is in the channel, or else is what the timer was armed
        with. Before the first wait that is the nanosecond the run starts with, or the
        value an earlier run left behind. */
    ghost predicate Carries(waits: seq<int>)
      reads this
    {
      if resetTimer.Some? then
        if |waits| > 0 then resetTimer.value == waits[|waits| - 1] else resetTimer == leftover
      else
        if |waits| > 0 then armedFor == waits[|waits| - 1] else armedFor == 1 || Some(armedFor) == leftover
    }

    /** Some case of the select statement can be taken. */
    predicate Ready()
      reads this
    {
      done || resetTimer.Some? || timer.full
    }

    /** The same run, one step further. */
    twostate predicate Stepped(a: Action)
      reads this
    {
      && Valid() && stop == old(stop) && leftover == old(leftover) && entered == old(entered)
      && acts == old(acts) + [a] && now == Step(stop, old(now), a)
    }

    constructor ()
      ensures resetTimer == None && !done
    {
      timer, armedFor, resetTimer, done := Spent, 0, None, false;
      stop, leftover, entered, acts, now := _ => false, None, false, [], Entry(false, false);
    }

    /** `time.NewTimer` and a context derived from the caller's. Nothing drains the channel. */
    method Start(done: bool, ghost stop: nat -> bool)
      modifies this
      ensures Valid() && this.stop == stop && entered == done && acts == [] && now == Entered() && Carries([])
      ensures leftover == resetTimer == old(resetTimer)
    {
      timer, armedFor := NewTimer, 1;
      this.done := done;
      this.stop, leftover, entered, acts, now := stop, resetTimer, done, [], Entry(resetTimer.Some?, done);
    }

    /** Notes a legal step of the machine; the caller changes the fields to match. */
    ghost method Record(a: Action)
      requires OnTrack() && Enabled(now, a)
      modifies this`acts, this`now
      ensures OnTrack() && acts == old(acts) + [a] && now == Step(stop, old(now), a)
    {
      RunSnoc(stop, Entered(), acts, a);
      acts, now := acts + [a], Step(stop, now, a);
    }

    // ---------- the runtime and the caller ----------

    method Expires()
      requires Valid() && timer.active
      modifies this`timer, this`acts, this`now
      ensures Stepped(Expire)
    {
      timer := timer.(active := false, sending := true);
      Record(Expire);
    }

    method Arrives()
      requires Valid() && timer.sending
      modifies this`timer, this`acts, this`now
      ensures Stepped(Deliver)
    {
      timer := timer.(sending := false, full := true);
      Record(Deliver);
    }

    method Cancels()
      requires Valid() && !done
      modifies this`done, this`acts, this`now
      ensures Stepped(Cancel)
    {
      done := true;
      Record(Cancel);
    }

    lemma Reached()
      requires Valid()
      ensures Invariant(stop, now, leftover.Some?)
    {
      InvariantRun(stop, Entered(), acts, leftover.Some?);
    }

    /** How far the run can be, and what a send that blocks says about it. */
    lemma IsWithin(n: nat)
      requires Valid() && EndsAt(stop, n)
      ensures Within(now, n, leftover.Some?)
      ensures SendBlocked(now) ==> leftover.Some? && !stop(1)
    {
      Reached();
      InvariantWithin(stop, now, n, leftover.Some?);
    }

    /** While the loop waits, the timer is running or some case is ready. */
    lemma SomethingToCome()
      requires Valid() && now.pc == Selecting
      ensures timer.active || timer.sending || timer.full || resetTimer.Some?
    {
      Reached();
    }

    /** What the runtime and the caller may do while the loop waits in its select
        statement until some case is ready. */
    method Await()
      requires Valid() && now.pc == Selecting
      modifies this`timer, this`done, this`acts, this`now
      ensures Valid() && now.pc == Selecting && Ready()
      ensures now.runs == old(now.runs) && now.selects == old(now.selects) && old(acts) <= acts
    {
      var expires: bool, cancels: bool, arrives: bool := *, *, *;
      SomethingToCome();
      if timer.active && (expires || !Ready()) {
        Expires();
      }
      assert old(acts) <= acts;
      if !done && cancels {
        Cancels();
      }
      assert old(acts) <= acts;
      if timer.sending && (arrives || !Ready()) {
        Arrives();
      }
    }

    // ---------- the select cases ----------

    /** `case <-ctx.Done()` */
    method TakeDone()
      requires Valid() && now.pc == Selecting && done
      modifies this`acts, this`now
      ensures Stepped(Action.TakeDone)
    {
      Record(Action.TakeDone);
    }

    /** `case d := <-resetTimer: setTimer(d)`. The timer is freshly armed, unless an earlier
        run's value brought its own expiry along. */
    method TakeReset() returns (d: int)
      requires Valid() && now.pc == Selecting && resetTimer.Some?
      modifies this`timer, this`armedFor, this`resetTimer, this`acts, this`now
      ensures Stepped(Action.TakeReset) && d == old(resetTimer.value)
      ensures resetTimer == None && timer.active && armedFor == d && (leftover.None? ==> timer == NewTimer)
    {
      Reached();
      d := resetTimer.value;
      resetTimer := None;
      var stopped := timer.active;
      timer := timer.(active := false);
      if !stopped {
        timer := timer.(full := false);
      }
      timer, armedFor := timer.(active := true), d;
      Record(Action.TakeReset);
    }

    /** `case <-timer.C` */
    method TakeTimer()
      requires Valid() && now.pc == Selecting && timer.full
      modifies this`timer, this`acts, this`now
      ensures Stepped(Action.TakeTimer)
    {
      timer := timer.(full := false);
      Record(Action.TakeTimer);
    }

    /** One select statement: wait, then take any one of the cases that are ready. */
    method Select() returns (c: Case)
      requires Valid() && now.pc == Selecting
      modifies this
      ensures Valid() && stop == old(stop) && leftover == old(leftover) && entered == old(entered)
      ensures now.runs == old(now.runs) && forall waits :: old(Carries(waits)) ==> Carries(waits)
      ensures match c
        case ContextDone => done && now.pc == Returned(true) && now.selects == old(now.selects)
        case TimerReset => now.pc == Selecting && now.selects == old(now.selects) + 1
        case TimerFired => now.pc == Executing && now.selects == old(now.selects) + 1
    {
      Await();
      if {
        case done =>
          TakeDone();
          c := ContextDone;
        case resetTimer.Some? =>
          var d := TakeReset();
          c := TimerReset;
        case timer.full =>
          TakeTimer();
          c := TimerFired;
      }
    }

    // ---------- after the timer case ----------

    /** The task has returned. */
    ghost method FinishTask()
      requires Valid() && now.pc == Executing
      modifies this`acts, this`now
      ensures Stepped(Action.FinishTask)
    {
      Record(Action.FinishTask);
    }

    /** `resetTimer <- d`, when the channel has room. */
    method Send(d: int)
      requires Valid() && now.pc == Scheduling && resetTimer == None
      modifies this`resetTimer, this`acts, this`now
      ensures Stepped(Action.Send) && resetTimer == Some(d)
    {
      resetTimer := Some(d);
      Record(Action.Send);
    }
  }

  /** The execution that ends the run, when one up to `bound` does. */
  lemma FirstEnd(stop: nat -> bool, bound: nat) returns (n: nat)
    requires bound >= 1 && stop(bound)
    ensures EndsAt(stop, n) && n <= bound
  {
    n := 1;
    while !stop(n)
      invariant 1 <= n <= bound && NotLastBefore(stop, n)
      decreases bound - n
    {
      n := n + 1;
    }
  }
}
