/** `pkg/healthcheck/handler.go`: one goroutine per check, a buffered channel with room for
    all results, a wait group, and the loop that collects the results. All interleavings. */
module HealthCheck {
  import opened Common

  /** A check and what its `HealthCheck` call returns. */
  datatype Check = Check(id: string, err: Option<string>)

  const StatusOK: int := 200
  const StatusServiceUnavailable: int := 503

  function TextOf(c: Check): string { if c.err.Some? then c.err.value else "OK" }

  // ---------- collecting ----------

  /** The response status after the results of `order` have been read. */
  function Status(checks: seq<Check>, order: seq<nat>): int {
    if order == [] then StatusOK
    else
      var last := order[|order| - 1];
      if last < |checks| && checks[last].err.Some? then StatusServiceUnavailable
      else Status(checks, order[..|order| - 1])
  }

  /** The response body after the results of `order` have been read. */
  function Data(checks: seq<Check>, order: seq<nat>): map<string, string> {
    if order == [] then map[]
    else
      var last := order[|order| - 1];
      var before := Data(checks, order[..|order| - 1]);
      if last < |checks| then before[checks[last].id := TextOf(checks[last])] else before
  }

  /** The collecting loop: the channel holds `arrived`, in order. */
  method Collect(checks: seq<Check>, arrived: seq<nat>) returns (status: int, data: map<string, string>)
    requires forall k :: 0 <= k < |arrived| ==> arrived[k] < |checks|
    ensures status == Status(checks, arrived) && data == Data(checks, arrived)
    ensures status == if exists i: nat :: i in arrived && checks[i].err.Some? then 503 else 200
    ensures forall id :: id in data <==> exists k: nat :: LastWith(checks, arrived, id, k)
    ensures forall id, k: nat :: LastWith(checks, arrived, id, k) ==>
              data[id] == (match checks[arrived[k]].err case Some(text) => text case None => "OK")
  {
    StatusMeaning(checks, arrived);
    forall id {
      DataMeaning(checks, arrived, id);
    }
    status, data := StatusOK, map[];
    var channel := arrived;
    ghost var read := 0;
    while |channel| > 0
      invariant read <= |arrived| && channel == arrived[read..]
      invariant status == Status(checks, arrived[..read]) && data == Data(checks, arrived[..read])
      decreases |channel|
    {
      var r := checks[channel[0]];
      assert arrived[..read + 1][..read] == arrived[..read] && arrived[read] == channel[0];
      channel := channel[1..];
      data := data[r.id := "OK"];
      if r.err.Some? {
        status := StatusServiceUnavailable;
        data := data[r.id := r.err.value];
      }
      read := read + 1;
    }
    assert arrived[..read] == arrived;
  }

  // ---------- the machine ----------

  datatype Task = Unborn | Running | Sent | Finished

  /** The handler starts goroutines, then waits for the group; collects; returns. */
  datatype Phase = Spawning(next: nat) | Collecting | Closed

  datatype State = State(
    tasks: seq<Task>,      // one goroutine per check
    channel: seq<nat>,     // indices of the checks whose results are buffered
    wg: int,               // the wait group's counter
    phase: Phase,
    collected: seq<nat>)   // results read so far, in order

  datatype Action = Spawn | Send(i: nat) | Leave(i: nat) | Wake | Receive | Close

  function Start(n: nat): State { State(seq(n, _ => Unborn), [], n, Spawning(0), []) }

  predicate Enabled(n: nat, s: State, a: Action) {
    match a
    case Spawn => s.phase.Spawning? && s.phase.next < n
    case Send(i) => i < |s.tasks| && s.tasks[i] == Running && |s.channel| < n
    case Leave(i) => i < |s.tasks| && s.tasks[i] == Sent
    case Wake => s.phase == Spawning(n) && s.wg == 0
    case Receive => s.phase == Collecting && s.channel != []
    case Close => s.phase == Collecting && s.channel == []
  }

  function Step(s: State, a: Action): State {
    match a
    case Spawn =>
      if s.phase.Spawning? && s.phase.next < |s.tasks|
      then s.(tasks := s.tasks[s.phase.next := Running], phase := Spawning(s.phase.next + 1)) else s
    case Send(i) => if i < |s.tasks| then s.(tasks := s.tasks[i := Sent], channel := s.channel + [i]) else s
    case Leave(i) => if i < |s.tasks| then s.(tasks := s.tasks[i := Finished], wg := s.wg - 1) else s
    case Wake => s.(phase := Collecting)
    case Receive =>
      if s.channel == [] then s else s.(channel := s.channel[1..], collected := s.collected + [s.channel[0]])
    case Close => s.(phase := Closed)
  }

  predicate Legal(n: nat, s: State, acts: seq<Action>)
    decreases |acts|
  {
    acts == [] || (Enabled(n, s, acts[0]) && Legal(n, Step(s, acts[0]), acts[1..]))
  }

  function Run(s: State, acts: seq<Action>): State
    decreases |acts|
  {
    if acts == [] then s else Run(Step(s, acts[0]), acts[1..])
  }

  // ---------- the invariant ----------

  ghost predicate NoRepeats(order: seq<nat>) { forall i, j :: 0 <= i < j < |order| ==> order[i] != order[j] }

  /** Each of the numbers below `n` exactly once. */
  ghost predicate Permutation(order: seq<nat>, n: nat) {
    NoRepeats(order) && forall i: nat :: i in order <==> i < n
  }

  function Unfinished(tasks: seq<Task>): set<nat> {
    set i: nat | i < |tasks| && tasks[i] != Finished
  }

  ghost predicate Invariant(n: nat, s: State) {
    && |s.tasks| == n
    && (s.phase.Spawning? ==> s.phase.next <= n && s.collected == [])
    && (forall i :: 0 <= i < n ==> (s.tasks[i] == Unborn <==> s.phase.Spawning? && s.phase.next <= i))
    && NoRepeats(s.collected + s.channel)
    && (forall i: nat :: i in s.collected + s.channel <==> i < n && (s.tasks[i] == Sent || s.tasks[i] == Finished))
    && s.wg == |Unfinished(s.tasks)|
    && (!s.phase.Spawning? ==> Unfinished(s.tasks) == {})
    && (s.phase == Closed ==> s.channel == [])
  }

  lemma StartInvariant(n: nat)
    ensures Invariant(n, Start(n))
  {
    assert Unfinished(Start(n).tasks) == Below(n);
  }

  function Below(n: nat): (all: set<nat>)
    ensures forall i: nat :: i in all <==> i < n
    ensures |all| == n
  {
    if n == 0 then {} else Below(n - 1) + {n - 1}
  }

  function Elements(order: seq<nat>): set<nat> { set i | i in order }

  lemma {:induction false} ElementsCount(order: seq<nat>)
    requires NoRepeats(order)
    ensures |Elements(order)| == |order|
  {
    if order != [] {
      var init, last := order[..|order| - 1], order[|order| - 1];
      ElementsCount(init);
      assert order == init + [last];
      assert Elements(order) == Elements(init) + {last};
    }
  }

  /** Distinct numbers below `n` are at most `n`, and fewer when one is missing. */
  lemma RoomLeft(order: seq<nat>, n: nat, missing: nat)
    requires NoRepeats(order) && missing < n && missing !in order && forall i :: i in order ==> i < n
    ensures |order| < n
  {
    var all, some := Below(n), Elements(order);
    ElementsCount(order);
    assert some <= all - {missing};
    SubsetSize(some, all - {missing});
  }

  lemma {:induction false} SubsetSize(a: set<nat>, b: set<nat>)
    requires a <= b
    ensures |a| <= |b|
    decreases |a|
  {
    if a != {} {
      var x :| x in a;
      SubsetSize(a - {x}, b - {x});
    }
  }

  lemma OneMoreArrival(order: seq<nat>, i: nat)
    requires NoRepeats(order) && i !in order
    ensures NoRepeats(order + [i]) && forall x :: x in order + [i] <==> x in order || x == i
  {
  }

  lemma SpawnStep(n: nat, s: State)
    requires Invariant(n, s) && Enabled(n, s, Spawn)
    ensures Invariant(n, Step(s, Spawn))
  {
    assert Unfinished(Step(s, Spawn).tasks) == Unfinished(s.tasks);
  }

  lemma SendStep(n: nat, s: State, i: nat)
    requires Invariant(n, s) && Enabled(n, s, Send(i))
    ensures Invariant(n, Step(s, Send(i)))
  {
    var t := Step(s, Send(i));
    assert Unfinished(t.tasks) == Unfinished(s.tasks) && i in Unfinished(s.tasks);
    OneMoreArrival(s.collected + s.channel, i);
    assert t.collected + t.channel == (s.collected + s.channel) + [i];
  }

  lemma LeaveStep(n: nat, s: State, i: nat)
    requires Invariant(n, s) && Enabled(n, s, Leave(i))
    ensures Invariant(n, Step(s, Leave(i)))
  {
    assert i in Unfinished(s.tasks);
    assert Unfinished(Step(s, Leave(i)).tasks) == Unfinished(s.tasks) - {i};
  }

  lemma InvariantStep(n: nat, s: State, a: Action)
    requires Invariant(n, s) && Enabled(n, s, a)
    ensures Invariant(n, Step(s, a))
  {
    match a {
      case Spawn => SpawnStep(n, s);
      case Send(i) => SendStep(n, s, i);
      case Leave(i) => LeaveStep(n, s, i);
      case Wake =>
      case Receive => assert Step(s, a).collected + Step(s, a).channel == s.collected + s.channel;
      case Close =>
    }
  }

  lemma {:induction false} InvariantRun(n: nat, s: State, acts: seq<Action>)
    requires Invariant(n, s) && Legal(n, s, acts)
    ensures Invariant(n, Run(s, acts))
    decreases |acts|
  {
    if acts != [] {
      InvariantStep(n, s, acts[0]);
      InvariantRun(n, Step(s, acts[0]), acts[1..]);
    }
  }

  // ---------- what holds for every interleaving ----------

  /** In every reachable state: a goroutine about to send finds room in the channel; once
      the channel is closed no goroutine is left to send; and until then some step can be
      taken. */
  lemma NeverStuck(n: nat, acts: seq<Action>)
    requires Legal(n, Start(n), acts)
    ensures var s := Run(Start(n), acts);
      && |s.tasks| == n
      && (forall i: nat :: i < n && s.tasks[i] == Running ==> |s.channel| < n && s.phase.Spawning?)
      && (s.phase == Closed ==> forall i: nat :: i < n ==> s.tasks[i] == Finished)
      && (s.phase != Closed ==> exists a :: Enabled(n, s, a))
  {
    StartInvariant(n);
    InvariantRun(n, Start(n), acts);
    var s := Run(Start(n), acts);
    forall i: nat | i < n && s.tasks[i] == Running ensures |s.channel| < n && s.phase.Spawning? {
      RoomLeft(s.collected + s.channel, n, i);
      assert i in Unfinished(s.tasks);
    }
    forall i: nat | i < n && s.phase == Closed ensures s.tasks[i] == Finished {
      assert i !in Unfinished(s.tasks);
    }
    if s.phase.Spawning? {
      if s.phase.next < n {
        assert Enabled(n, s, Spawn);
      } else if Unfinished(s.tasks) != {} {
        var i :| i in Unfinished(s.tasks);
        assert Enabled(n, s, if s.tasks[i] == Running then Send(i) else Leave(i));
      } else {
        assert Enabled(n, s, Wake);
      }
    } else if s.phase == Collecting {
      assert Enabled(n, s, if s.channel == [] then Close else Receive);
    }
  }

  /** When the handler returns it has read every result exactly once. */
  lemma AllCollected(n: nat, acts: seq<Action>)
    requires Legal(n, Start(n), acts) && Run(Start(n), acts).phase == Closed
    ensures Permutation(Run(Start(n), acts).collected, n) && |Run(Start(n), acts).collected| == n
  {
    StartInvariant(n);
    InvariantRun(n, Start(n), acts);
    var s := Run(Start(n), acts);
    forall i: nat | i < n ensures i in s.collected {
      assert i !in Unfinished(s.tasks);
      assert i in s.collected + s.channel;
    }
    assert s.collected + s.channel == s.collected;
    ElementsCount(s.collected);
    assert Elements(s.collected) == Below(n);
  }

  // ---------- how long a run is ----------

  function Weight(t: Task): nat {
    match t case Unborn => 3 case Running => 2 case Sent => 1 case Finished => 0
  }

  function Left(tasks: seq<Task>): nat {
    if tasks == [] then 0 else Left(tasks[..|tasks| - 1]) + Weight(tasks[|tasks| - 1])
  }

  lemma {:induction false} LeftUpdate(tasks: seq<Task>, i: nat, t: Task)
    requires i < |tasks|
    ensures Left(tasks[i := t]) == Left(tasks) - Weight(tasks[i]) + Weight(t)
  {
    var n := |tasks| - 1;
    if i < n {
      LeftUpdate(tasks[..n], i, t);
      assert tasks[i := t][..n] == tasks[..n][i := t];
    } else {
      assert tasks[i := t][..n] == tasks[..n];
    }
  }

  lemma {:induction false} LeftAtStart(n: nat)
    ensures Left(Start(n).tasks) == 3 * n
  {
    if n > 0 {
      LeftAtStart(n - 1);
      assert Start(n).tasks[..n - 1] == Start(n - 1).tasks;
    }
  }

  lemma {:induction false} NothingLeft(tasks: seq<Task>)
    requires Unfinished(tasks) == {}
    ensures Left(tasks) == 0
  {
    if tasks != [] {
      var n := |tasks| - 1;
      assert n !in Unfinished(tasks);
      forall i: nat | i < n ensures i !in Unfinished(tasks[..n]) {
        assert i !in Unfinished(tasks);
      }
      NothingLeft(tasks[..n]);
    }
  }

  function Remaining(n: nat, s: State): int {
    Left(s.tasks) + (n - |s.collected|) + (match s.phase case Spawning(_) => 2 case Collecting => 1 case Closed => 0)
  }

  lemma {:induction false} EachStepCounts(n: nat, s: State, acts: seq<Action>)
    requires Invariant(n, s) && Legal(n, s, acts)
    ensures Remaining(n, Run(s, acts)) == Remaining(n, s) - |acts|
    decreases |acts|
  {
    if acts != [] {
      var a := acts[0];
      InvariantStep(n, s, a);
      match a {
        case Spawn => LeftUpdate(s.tasks, s.phase.next, Running);
        case Send(i) => LeftUpdate(s.tasks, i, Sent);
        case Leave(i) => LeftUpdate(s.tasks, i, Finished);
        case _ =>
      }
      EachStepCounts(n, Step(s, a), acts[1..]);
    }
  }

  /** Every interleaving returns, after exactly 4n + 2 steps. */
  lemma EveryRunReturns(n: nat, acts: seq<Action>)
    requires Legal(n, Start(n), acts)
    ensures |acts| <= 4 * n + 2
    ensures Run(Start(n), acts).phase == Closed <==> |acts| == 4 * n + 2
  {
    StartInvariant(n);
    InvariantRun(n, Start(n), acts);
    EachStepCounts(n, Start(n), acts);
    LeftAtStart(n);
    var s := Run(Start(n), acts);
    ElementsCount(s.collected + s.channel);
    SubsetSize(Elements(s.collected + s.channel), Below(n));
    if s.phase == Closed {
      NothingLeft(s.tasks);
      AllCollected(n, acts);
    }
  }

  // ---------- the response ----------

  lemma {:induction false} StatusMeaning(checks: seq<Check>, order: seq<nat>)
    ensures Status(checks, order) ==
            if exists i: nat :: i in order && i < |checks| && checks[i].err.Some? then 503 else 200
  {
    if order != [] {
      var init, last := order[..|order| - 1], order[|order| - 1];
      assert order == init + [last];
      StatusMeaning(checks, init);
      assert last in order;
    }
  }

  /** For every interleaving the status is 503 exactly when some check failed, and 200 otherwise. */
  lemma StatusForEveryRun(checks: seq<Check>, acts: seq<Action>)
    requires Legal(|checks|, Start(|checks|), acts) && Run(Start(|checks|), acts).phase == Closed
    ensures Status(checks, Run(Start(|checks|), acts).collected) ==
            if exists c :: c in checks && c.err.Some? then 503 else 200
  {
    var order := Run(Start(|checks|), acts).collected;
    AllCollected(|checks|, acts);
    StatusMeaning(checks, order);
    if c :| c in checks && c.err.Some? {
      var i: nat :| i < |checks| && checks[i] == c;
      assert i in order;
    }
  }

  ghost predicate InRange(checks: seq<Check>, order: seq<nat>) { forall k :: 0 <= k < |order| ==> order[k] < |checks| }

  /** Position `k` of `order` is the last one whose check has the id. */
  ghost predicate LastWith(checks: seq<Check>, order: seq<nat>, id: string, k: nat)
    requires InRange(checks, order)
  {
    k < |order| && checks[order[k]].id == id && forall j :: k < j < |order| ==> checks[order[j]].id != id
  }

  /** The response has an entry for each id read: the error text of the last check read with
      that id if it failed, and "OK" if it did not. */
  lemma {:induction false} DataMeaning(checks: seq<Check>, order: seq<nat>, id: string)
    requires InRange(checks, order)
    ensures id in Data(checks, order) <==> exists k: nat :: LastWith(checks, order, id, k)
    ensures forall k: nat :: LastWith(checks, order, id, k) ==>
              id in Data(checks, order) &&
              Data(checks, order)[id] == (match checks[order[k]].err case Some(text) => text case None => "OK")
  {
    if order != [] {
      var n := |order| - 1;
      var init, last := order[..n], order[n];
      assert order == init + [last];
      DataMeaning(checks, init, id);
      if checks[last].id == id {
        assert LastWith(checks, order, id, n);
      } else {
        forall k: nat ensures LastWith(checks, order, id, k) <==> LastWith(checks, init, id, k) {
        }
      }
    }
  }

  /** Two checks report the same: both pass, or both fail with the same text, or one fails with
      the text "OK" and the other passes. */
  predicate ReportAlike(a: Check, b: Check) {
    a.err == b.err || (a.err == Some("OK") && b.err == None) || (a.err == None && b.err == Some("OK"))
  }

  /** Checks sharing an id report the same. */
  ghost predicate NoClash(checks: seq<Check>) {
    forall i, j :: 0 <= i < |checks| && 0 <= j < |checks| && checks[i].id == checks[j].id ==>
      ReportAlike(checks[i], checks[j])
  }

  /** Without a clash the response has one entry for each id, with the text of any check of
      that id, whatever the order of arrival. */
  lemma DataWithoutClash(checks: seq<Check>, order: seq<nat>, id: string)
    requires NoClash(checks) && Permutation(order, |checks|)
    ensures id in Data(checks, order) <==> exists i: nat :: i < |checks| && checks[i].id == id
    ensures forall i: nat :: i < |checks| && checks[i].id == id ==>
              id in Data(checks, order) &&
              Data(checks, order)[id] == (match checks[i].err case Some(text) => text case None => "OK")
  {
    assert InRange(checks, order) by {
      forall k | 0 <= k < |order| ensures order[k] < |checks| {
        assert order[k] in order;
      }
    }
    DataMeaning(checks, order, id);
    forall i: nat | i < |checks| && checks[i].id == id
      ensures id in Data(checks, order) && Data(checks, order)[id] == TextOf(checks[i])
    {
      assert i in order;
      var at: nat :| at < |order| && order[at] == i;
      var k := LastAfter(checks, order, id, at);
    }
  }

  lemma {:induction false} LastAfter(checks: seq<Check>, order: seq<nat>, id: string, at: nat) returns (k: nat)
    requires InRange(checks, order) && at < |order| && checks[order[at]].id == id
    ensures LastWith(checks, order, id, k)
    decreases |order| - at
  {
    k := at;
    if j: nat :| at < j < |order| && checks[order[j]].id == id {
      k := LastAfter(checks, order, id, j);
    }
  }

  // ---------- every arrival order happens ----------

  lemma {:induction false} RunConcat(n: nat, s: State, a: seq<Action>, b: seq<Action>)
    requires Legal(n, s, a) && Legal(n, Run(s, a), b)
    ensures Legal(n, s, a + b) && Run(s, a + b) == Run(Run(s, a), b)
    decreases |a|
  {
    if a == [] {
      assert a + b == b;
    } else {
      assert (a + b)[1..] == a[1..] + b;
      RunConcat(n, Step(s, a[0]), a[1..], b);
    }
  }

  lemma RunSnoc(n: nat, s: State, acts: seq<Action>, a: Action)
    requires Legal(n, s, acts) && Enabled(n, Run(s, acts), a)
    ensures Legal(n, s, acts + [a]) && Run(s, acts + [a]) == Step(Run(s, acts), a)
  {
    assert [a][1..] == [];
    RunConcat(n, s, acts, [a]);
  }

  lemma SpawnAll(n: nat) returns (acts: seq<Action>)
    ensures Legal(n, Start(n), acts)
    ensures Run(Start(n), acts) == State(seq(n, _ => Running), [], n, Spawning(n), [])
  {
    acts := [];
    for k := 0 to n
      invariant Legal(n, Start(n), acts)
      invariant Run(Start(n), acts) == State(seq(n, i => if i < k then Running else Unborn), [], n, Spawning(k), [])
    {
      RunSnoc(n, Start(n), acts, Spawn);
      acts := acts + [Spawn];
    }
  }

  lemma SendAll(n: nat, order: seq<nat>, before: seq<Action>) returns (acts: seq<Action>)
    requires Permutation(order, n) && |order| == n
    requires Legal(n, Start(n), before) && Run(Start(n), before) == State(seq(n, _ => Running), [], n, Spawning(n), [])
    ensures Legal(n, Start(n), acts)
    ensures Run(Start(n), acts) == State(seq(n, _ => Sent), order, n, Spawning(n), [])
  {
    acts := before;
    for k := 0 to n
      invariant Legal(n, Start(n), acts)
      invariant Run(Start(n), acts) ==
        State(seq(n, i => if i in order[..k] then Sent else Running), order[..k], n, Spawning(n), [])
    {
      assert order[k] in order;
      RunSnoc(n, Start(n), acts, Send(order[k]));
      acts := acts + [Send(order[k])];
      assert order[..k + 1] == order[..k] + [order[k]];
    }
    assert order[..n] == order;
  }

  lemma LeaveAll(n: nat, order: seq<nat>, before: seq<Action>) returns (acts: seq<Action>)
    requires Legal(n, Start(n), before) && Run(Start(n), before) == State(seq(n, _ => Sent), order, n, Spawning(n), [])
    ensures Legal(n, Start(n), acts)
    ensures Run(Start(n), acts) == State(seq(n, _ => Finished), order, 0, Collecting, [])
  {
    acts := before;
    for k := 0 to n
      invariant Legal(n, Start(n), acts)
      invariant Run(Start(n), acts) ==
        State(seq(n, i => if i < k then Finished else Sent), order, n - k, Spawning(n), [])
    {
      RunSnoc(n, Start(n), acts, Leave(k));
      acts := acts + [Leave(k)];
    }
    RunSnoc(n, Start(n), acts, Wake);
    acts := acts + [Wake];
  }

  /** Every permutation of the checks is the order some run collects them in. */
  lemma EveryOrderHappens(n: nat, order: seq<nat>) returns (acts: seq<Action>)
    requires Permutation(order, n) && |order| == n
    ensures Legal(n, Start(n), acts) && Run(Start(n), acts).phase == Closed && Run(Start(n), acts).collected == order
  {
    acts := SpawnAll(n);
    acts := SendAll(n, order, acts);
    acts := LeaveAll(n, order, acts);
    for k := 0 to n
      invariant Legal(n, Start(n), acts)
      invariant Run(Start(n), acts) == State(seq(n, _ => Finished), order[k..], 0, Collecting, order[..k])
    {
      RunSnoc(n, Start(n), acts, Receive);
      acts := acts + [Receive];
      assert order[..k + 1] == order[..k] + [order[k]];
    }
    RunSnoc(n, Start(n), acts, Close);
    acts := acts + [Close];
    assert order[..n] == order;
  }

  // ---------- when the response does not depend on the order ----------

  ghost predicate SameForEveryRun(checks: seq<Check>) {
    forall a, b ::
      Legal(|checks|, Start(|checks|), a) && Run(Start(|checks|), a).phase == Closed &&
      Legal(|checks|, Start(|checks|), b) && Run(Start(|checks|), b).phase == Closed ==>
        Data(checks, Run(Start(|checks|), a).collected) == Data(checks, Run(Start(|checks|), b).collected)
  }

  /** The numbers below `n` with `last` at the end. */
  lemma OrderEndingIn(n: nat, last: nat) returns (order: seq<nat>)
    requires last < n
    ensures Permutation(order, n) && |order| == n && order[n - 1] == last
  {
    order := seq(n, k => if k == n - 1 then last else if k < last then k else k + 1);
    forall i: nat | i < n ensures i in order {
      var k := if i == last then n - 1 else if i < last then i else i - 1;
      assert order[k] == i;
    }
  }

  lemma SameWithoutClash(checks: seq<Check>, p: seq<nat>, q: seq<nat>)
    requires NoClash(checks) && Permutation(p, |checks|) && Permutation(q, |checks|)
    ensures Data(checks, p) == Data(checks, q)
  {
    var dp, dq := Data(checks, p), Data(checks, q);
    forall id ensures (id in dp <==> id in dq) && (id in dp ==> dp[id] == dq[id]) {
      DataWithoutClash(checks, p, id);
      DataWithoutClash(checks, q, id);
    }
    assert dp == dq;
  }

  /** Exactly when the response is the same for every interleaving: no two checks share an
      id and differ in what they report. */
  lemma ResponseSameExactlyWhen(checks: seq<Check>)
    ensures SameForEveryRun(checks) <==> NoClash(checks)
  {
    var n := |checks|;
    if NoClash(checks) {
      forall a, b |
        Legal(n, Start(n), a) && Run(Start(n), a).phase == Closed &&
        Legal(n, Start(n), b) && Run(Start(n), b).phase == Closed
        ensures Data(checks, Run(Start(n), a).collected) == Data(checks, Run(Start(n), b).collected)
      {
        AllCollected(n, a);
        AllCollected(n, b);
        SameWithoutClash(checks, Run(Start(n), a).collected, Run(Start(n), b).collected);
      }
    } else {
      var i, j :| 0 <= i < n && 0 <= j < n && checks[i].id == checks[j].id && TextOf(checks[i]) != TextOf(checks[j]);
      var p := OrderEndingIn(n, i);
      var q := OrderEndingIn(n, j);
      var a := EveryOrderHappens(n, p);
      var b := EveryOrderHappens(n, q);
      assert Data(checks, p)[checks[i].id] == TextOf(checks[i]) && Data(checks, q)[checks[i].id] == TextOf(checks[j]);
    }
  }
}
