/** The select loop that `pkg/retrier`, `pkg/httpretrier` and `pkg/periodic` each carry a
    copy of: a context, a one-slot `resetTimer` channel, and a timer with the semantics
    of Go up to 1.22. One machine, all interleavings of its steps with the runtime's. */
module SelectLoop {

  // ---------- the timer ----------

  /** `sending`: the timer has expired and the runtime is about to put a value into C.
      `full`: C holds a value. */
  datatype Timer = Timer(active: bool, sending: bool, full: bool)

  const NewTimer := Timer(true, false, false)
  const Spent := Timer(false, false, false)

  /** `setTimer`: stop; if that came too late, drain C without blocking; then reset. */
  function SetTimer(t: Timer): Timer {
    var drained := if t.active then t else t.(full := false);
    drained.(active := true)
  }

  /** Called in any state, `setTimer` leaves the timer armed with an empty channel, unless
      a value is on its way into C or was left there behind an armed timer. */
  lemma SetTimerArms(t: Timer)
    ensures SetTimer(t) == NewTimer <==> !t.sending && !(t.active && t.full)
  {
  }

  // ---------- the machine ----------

  datatype Pc =
    | Selecting           // blocked in the select statement
    | Executing           // the task is running
    | Scheduling          // about to send to resetTimer
    | Returned(cancelled: bool)

  /** `runs` counts finished task executions, `selects` the reset and timer cases taken. */
  datatype State = State(timer: Timer, pending: bool, cancelled: bool, pc: Pc, runs: nat, selects: nat)

  datatype Action =
    | Expire | Deliver | Cancel              // the runtime and the caller
    | TakeDone | TakeReset | TakeTimer       // the three select cases
    | FinishTask | Send                      // after the timer case

  /** Where a run starts; `pending` if an earlier run left a value in resetTimer. */
  function Entry(pending: bool, cancelled: bool): State {
    State(NewTimer, pending, cancelled, Selecting, 0, 0)
  }

  predicate Enabled(s: State, a: Action) {
    match a
    case Expire => s.timer.active
    case Deliver => s.timer.sending
    case Cancel => !s.cancelled
    case TakeDone => s.pc == Selecting && s.cancelled
    case TakeReset => s.pc == Selecting && s.pending
    case TakeTimer => s.pc == Selecting && s.timer.full
    case FinishTask => s.pc == Executing
    case Send => s.pc == Scheduling && !s.pending
  }

  /** `stop(k)`: the k-th execution is the last. */
  function Step(stop: nat -> bool, s: State, a: Action): State {
    match a
    case Expire => s.(timer := s.timer.(active := false, sending := true))
    case Deliver => s.(timer := s.timer.(sending := false, full := true))
    case Cancel => s.(cancelled := true)
    case TakeDone => s.(pc := Returned(true))
    case TakeReset => s.(pending := false, timer := SetTimer(s.timer), selects := s.selects + 1)
    case TakeTimer => s.(timer := s.timer.(full := false), pc := Executing, selects := s.selects + 1)
    case FinishTask => s.(pc := if stop(s.runs + 1) then Returned(false) else Scheduling, runs := s.runs + 1)
    case Send => s.(pending := true, pc := Selecting)
  }

  /** The actions can be taken one after the other. */
  predicate Legal(stop: nat -> bool, s: State, acts: seq<Action>)
    decreases |acts|
  {
    acts == [] || (Enabled(s, acts[0]) && Legal(stop, Step(stop, s, acts[0]), acts[1..]))
  }

  function Run(stop: nat -> bool, s: State, acts: seq<Action>): State
    decreases |acts|
  {
    if acts == [] then s else Run(stop, Step(stop, s, acts[0]), acts[1..])
  }

  lemma {:induction false} RunSnoc(stop: nat -> bool, s: State, acts: seq<Action>, a: Action)
    requires Legal(stop, s, acts) && Enabled(Run(stop, s, acts), a)
    ensures Legal(stop, s, acts + [a]) && Run(stop, s, acts + [a]) == Step(stop, Run(stop, s, acts), a)
    decreases |acts|
  {
    if acts == [] {
      assert [a][1..] == [];
    } else {
      RunSnoc(stop, Step(stop, s, acts[0]), acts[1..], a);
      assert (acts + [a])[1..] == acts[1..] + [a];
    }
  }

  // ---------- one token ----------

  function One(b: bool): nat { if b then 1 else 0 }

  /** Where the right to run the task next can be. */
  function Tokens(s: State): nat {
    One(s.timer.active) + One(s.timer.sending) + One(s.timer.full) + One(s.pending)
      + One(s.pc == Executing || s.pc == Scheduling)
  }

  ghost predicate NotLastBefore(stop: nat -> bool, n: nat) { forall k: nat :: 1 <= k < n ==> !stop(k) }

  /** The execution count at which a run that is not cancelled ends. */
  ghost predicate EndsAt(stop: nat -> bool, n: nat) { n >= 1 && stop(n) && NotLastBefore(stop, n) }

  /** What holds in every reachable state: one token more, at most, when an earlier run has
      left a value in the channel. */
  ghost predicate Invariant(stop: nat -> bool, s: State, leftover: bool) {
    && One(s.pc != Returned(false)) <= Tokens(s) <= One(s.pc != Returned(false)) + One(leftover)
    && s.selects + One(s.pending) + One(s.pc == Scheduling || s.pc == Returned(false)) ==
         2 * s.runs + One(s.pc == Executing) + One(leftover)
    && (s.pc == Returned(true) ==> s.cancelled)
    && if s.pc == Returned(false) then EndsAt(stop, s.runs) else NotLastBefore(stop, s.runs + 1)
  }

  lemma InvariantStep(stop: nat -> bool, s: State, a: Action, leftover: bool)
    requires Invariant(stop, s, leftover) && Enabled(s, a)
    ensures Invariant(stop, Step(stop, s, a), leftover)
  {
  }

  lemma {:induction false} InvariantRun(stop: nat -> bool, s: State, acts: seq<Action>, leftover: bool)
    requires Invariant(stop, s, leftover) && Legal(stop, s, acts)
    ensures Invariant(stop, Run(stop, s, acts), leftover)
    decreases |acts|
  {
    if acts != [] {
      InvariantStep(stop, s, acts[0], leftover);
      InvariantRun(stop, Step(stop, s, acts[0]), acts[1..], leftover);
    }
  }

  /** A state in which the goroutine is stuck forever: nobody else reads resetTimer. */
  predicate SendBlocked(s: State) { s.pc == Scheduling && s.pending }

  /** In every reachable state of a run entered with an empty channel: there is exactly
      one token; the send never blocks; the select's `setTimer` finds the timer spent and
      drained and arms it cleanly; and unless the loop has returned some step other than
      a cancellation can be taken. */
  lemma OneToken(stop: nat -> bool, cancelled: bool, acts: seq<Action>)
    requires Legal(stop, Entry(false, cancelled), acts)
    ensures var s := Run(stop, Entry(false, cancelled), acts);
      && (!s.pc.Returned? ==> Tokens(s) == 1)
      && !SendBlocked(s)
      && (Enabled(s, TakeReset) ==> s.timer == Spent && Step(stop, s, TakeReset).timer == NewTimer)
      && (!s.pc.Returned? ==> exists a :: a != Cancel && Enabled(s, a))
  {
    InvariantRun(stop, Entry(false, cancelled), acts, false);
    var s := Run(stop, Entry(false, cancelled), acts);
    if !s.pc.Returned? {
      var a := if s.timer.active then Expire else if s.timer.sending then Deliver else if s.timer.full then TakeTimer
               else if s.pending then TakeReset else if s.pc == Executing then FinishTask else Send;
      assert a != Cancel && Enabled(s, a);
    }
  }

  // ---------- a value left behind ----------

  /** Before the first execution ends, or after it ended a run that one execution ends. */
  predicate FirstRunOnly(s: State) { (s.runs == 0 && s.pc != Scheduling) || s.pc == Returned(false) }

  lemma {:induction false} FirstRunStays(stop: nat -> bool, s: State, acts: seq<Action>)
    requires stop(1) && FirstRunOnly(s) && Legal(stop, s, acts)
    ensures FirstRunOnly(Run(stop, s, acts))
    decreases |acts|
  {
    if acts != [] {
      FirstRunStays(stop, Step(stop, s, acts[0]), acts[1..]);
    }
  }

  const ReachSend: seq<Action> := [Expire, Deliver, TakeTimer, FinishTask]

  lemma BlocksOnLeftover(stop: nat -> bool, cancelled: bool)
    requires !stop(1)
    ensures Legal(stop, Entry(true, cancelled), ReachSend)
    ensures SendBlocked(Run(stop, Entry(true, cancelled), ReachSend))
  {
  }

  /** No interleaving started in `s` gets stuck in the send. */
  ghost predicate NeverBlocks(stop: nat -> bool, s: State) {
    forall acts :: Legal(stop, s, acts) ==> !SendBlocked(Run(stop, s, acts))
  }

  /** Exactly when no interleaving blocks the send: the channel is empty on entry, or the
      first execution is already the last. */
  lemma NeverBlocksExactlyWhen(stop: nat -> bool, pending: bool, cancelled: bool)
    ensures NeverBlocks(stop, Entry(pending, cancelled)) <==> !pending || stop(1)
  {
    var s := Entry(pending, cancelled);
    if !pending {
      forall acts | Legal(stop, s, acts) ensures !SendBlocked(Run(stop, s, acts)) {
        OneToken(stop, cancelled, acts);
      }
    } else if stop(1) {
      forall acts | Legal(stop, s, acts) ensures !SendBlocked(Run(stop, s, acts)) {
        FirstRunStays(stop, s, acts);
      }
    } else {
      BlocksOnLeftover(stop, cancelled);
    }
  }

  /** Runs that end by themselves leave the channel empty; a cancelled one may leave a
      value, which is what the next run of the same object then blocks on. */
  lemma LeftoverOnlyAfterCancel(stop: nat -> bool, cancelled: bool, acts: seq<Action>)
    requires Legal(stop, Entry(false, cancelled), acts)
    ensures var s := Run(stop, Entry(false, cancelled), acts);
      s.pc.Returned? && s.pending ==> s.pc == Returned(true) && s.cancelled
  {
    InvariantRun(stop, Entry(false, cancelled), acts, false);
  }

  lemma CancelCanLeaveValue(stop: nat -> bool) returns (acts: seq<Action>)
    requires !stop(1)
    ensures Legal(stop, Entry(false, false), acts)
    ensures var s := Run(stop, Entry(false, false), acts); s.pc == Returned(true) && s.pending
  {
    acts := [];
    var s := Entry(false, false);
    var all := ReachSend + [Send, Cancel, TakeDone];
    for i := 0 to |all|
      invariant acts == all[..i]
      invariant Legal(stop, Entry(false, false), acts) && s == Run(stop, Entry(false, false), acts)
      invariant s == match i
        case 0 => Entry(false, false)
        case 1 => State(Timer(false, true, false), false, false, Selecting, 0, 0)
        case 2 => State(Timer(false, false, true), false, false, Selecting, 0, 0)
        case 3 => State(Spent, false, false, Executing, 0, 1)
        case 4 => State(Spent, false, false, Scheduling, 1, 1)
        case 5 => State(Spent, true, false, Selecting, 1, 1)
        case 6 => State(Spent, true, true, Selecting, 1, 1)
        case _ => State(Spent, true, true, Returned(true), 1, 1)
    {
      RunSnoc(stop, Entry(false, false), acts, all[i]);
      s := Step(stop, s, all[i]);
      acts := acts + [all[i]];
    }
  }

  // ---------- how long a run can be ----------

  /** How far a run whose n-th execution is the last can be: returned after exactly n
      executions, or short of that; and how many select cases that took. */
  ghost predicate Within(s: State, n: nat, leftover: bool) {
    if s.pc == Returned(false) then s.runs == n && s.selects + One(s.pending) == 2 * n - 1 + One(leftover)
    else s.runs < n && s.selects < 2 * n + One(leftover)
  }

  lemma InvariantWithin(stop: nat -> bool, s: State, n: nat, leftover: bool)
    requires Invariant(stop, s, leftover) && EndsAt(stop, n)
    ensures Within(s, n, leftover)
    ensures SendBlocked(s) ==> leftover && !stop(1)
  {
  }

  /** Whatever the interleaving, a run that ends by itself ends after exactly the first
      `n` with `stop(n)` executions, and from an empty channel after exactly 2n - 1 select
      cases; one that was cancelled or is still going is short of that. */
  lemma RunOutcome(stop: nat -> bool, pending: bool, cancelled: bool, acts: seq<Action>, n: nat)
    requires Legal(stop, Entry(pending, cancelled), acts) && EndsAt(stop, n)
    ensures Within(Run(stop, Entry(pending, cancelled), acts), n, pending)
    ensures var s := Run(stop, Entry(pending, cancelled), acts);
      if s.pc == Returned(false) then s.runs == n else s.runs < n && s.selects < 2 * n + (if pending then 1 else 0)
    ensures !pending ==> var s := Run(stop, Entry(pending, cancelled), acts);
      s.pc == Returned(false) ==> !s.pending && s.selects == 2 * n - 1
  {
    InvariantRun(stop, Entry(pending, cancelled), acts, pending);
  }

  /** A task that is never told to stop is only ended by a cancellation. */
  lemma EndlessRun(stop: nat -> bool, cancelled: bool, acts: seq<Action>)
    requires Legal(stop, Entry(false, cancelled), acts) && forall k: nat :: !stop(k)
    ensures Run(stop, Entry(false, cancelled), acts).pc != Returned(false)
  {
    InvariantRun(stop, Entry(false, cancelled), acts, false);
  }

  /** How many steps are left at most when the n-th execution is the last. */
  function Remaining(s: State, n: nat): int {
    var left := 6 * (n - s.runs);
    One(!s.cancelled) +
      match s.pc
      case Returned(_) => 2 * One(s.timer.active) + One(s.timer.sending)
      case Executing => left - 5
      case Scheduling => left
      case Selecting =>
        if s.pending then left - 1
        else if s.timer.active then left - 2
        else if s.timer.sending then left - 3
        else left - 4
  }

  lemma RemainingFalls(stop: nat -> bool, s: State, a: Action, n: nat)
    requires Invariant(stop, s, false) && Enabled(s, a) && EndsAt(stop, n)
    ensures 0 <= Remaining(Step(stop, s, a), n) < Remaining(s, n)
  {
    InvariantStep(stop, s, a, false);
    InvariantWithin(stop, s, n, false);
    InvariantWithin(stop, Step(stop, s, a), n, false);
  }

  /** Every run ends: no interleaving takes more than 6n - 1 steps of any kind. */
  lemma {:induction false} EveryRunEnds(stop: nat -> bool, s: State, acts: seq<Action>, n: nat)
    requires Invariant(stop, s, false) && Legal(stop, s, acts) && EndsAt(stop, n)
    ensures |acts| <= Remaining(s, n)
    ensures Remaining(Entry(false, false), n) == 6 * n - 1
    decreases |acts|
  {
    InvariantWithin(stop, s, n, false);
    if acts != [] {
      InvariantStep(stop, s, acts[0], false);
      RemainingFalls(stop, s, acts[0], n);
      EveryRunEnds(stop, Step(stop, s, acts[0]), acts[1..], n);
    }
  }

  /** From an empty channel a run that is not cancelled can be carried on to its end. */
  lemma Completes(stop: nat -> bool, n: nat) returns (acts: seq<Action>)
    requires EndsAt(stop, n)
    ensures Legal(stop, Entry(false, false), acts)
    ensures var s := Run(stop, Entry(false, false), acts); s.pc == Returned(false) && s.runs == n
  {
    acts := [];
    var s := Entry(false, false);
    while !s.pc.Returned?
      invariant Legal(stop, Entry(false, false), acts) && s == Run(stop, Entry(false, false), acts)
      invariant Invariant(stop, s, false) && !s.cancelled
      decreases Remaining(s, n)
    {
      OneToken(stop, false, acts);
      var a :| a != Cancel && Enabled(s, a);
      RunSnoc(stop, Entry(false, false), acts, a);
      InvariantStep(stop, s, a, false);
      RemainingFalls(stop, s, a, n);
      s, acts := Step(stop, s, a), acts + [a];
    }
    InvariantWithin(stop, s, n, false);
  }
}
