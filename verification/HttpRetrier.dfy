/** `pkg/httpretrier/httpretrier.go`: retry an HTTP request, keeping track of the request
    body each attempt sends and of the response bodies that get closed. */
module HttpRetrier {
  import opened Common
  import opened SelectLoop
  import opened LoopObject
  import opened Backoff
  import opened Pacing

  // ---------- requests, replies and what happens to their bodies ----------

  datatype Body = NoBody | Unread(content: seq<int>) | Drained

  /** `call` says which client call returned it. */
  datatype Response = Response(call: nat, status: int)

  datatype Failure = ClientError(text: string) | GetBodyFailed | RequestCancelled

  datatype Reply = Reply(response: Option<Response>, error: Option<Failure>)

  type Client = nat -> Reply                     // the reply of the k-th call, from 1
  type GetBody = Option<nat -> Option<Body>>     // None: not set; the k-th call may fail

  datatype Event = ClientDo(sent: Body) | CloseResponse(response: Response)

  /** What `http.Client` promises: no error means a response, and its own one. */
  ghost predicate Honest(client: Client) {
    forall k :: (client(k).error.None? ==> client(k).response.Some?) &&
                (client(k).response.Some? ==> client(k).response.value.call == k)
  }

  predicate GetBodyFails(getBody: GetBody, k: nat) { getBody.Some? && getBody.value(k).None? }

  /** The body the k-th attempt sends: the request's own first, then what `GetBody`
      returned during the attempt before; without `GetBody` nothing at all. */
  function BodyOf(original: Body, getBody: GetBody, k: nat): Body {
    if k <= 1 then original
    else if getBody.None? || getBody.value(k - 1).None? then NoBody
    else getBody.value(k - 1).value
  }

  /** What the first `n` attempts do when each of them is retried. */
  function Retried(original: Body, getBody: GetBody, client: Client, n: nat): seq<Event> {
    if n == 0 then []
    else
      Retried(original, getBody, client, n - 1) + [ClientDo(BodyOf(original, getBody, n))] +
      (if client(n).error.None? && client(n).response.Some? then [CloseResponse(client(n).response.value)] else [])
  }

  class Request {
    const getBody: GetBody
    var body: Body

    constructor (body: Body, getBody: GetBody)
      ensures this.body == body && this.getBody == getBody
    {
      this.body, this.getBody := body, getBody;
    }
  }

  /** How many attempts a run in machine state `s` has retried, or was about to retry. */
  function RetriedIn(s: State): nat {
    if s.pc == Returned(false) && s.runs > 0 then s.runs - 1 else s.runs
  }

  /** The run has ended by itself with a reply of the client. */
  predicate Answered(getBody: GetBody, s: State) {
    s.pc == Returned(false) && s.runs > 0 && !GetBodyFails(getBody, s.runs)
  }

  /** What the log of a run that is in machine state `s`, between two attempts or at rest,
      has to be: the last attempt is not followed by anything, and does not reach the client
      when `GetBody` fails. */
  function LogAt(original: Body, getBody: GetBody, client: Client, s: State): seq<Event> {
    Retried(original, getBody, client, RetriedIn(s)) +
    if Answered(getBody, s) then [ClientDo(BodyOf(original, getBody, s.runs))] else []
  }

  type Predicate = (Option<Response>, Option<Failure>) -> bool

  /** Is the k-th attempt the last? */
  function StopsAt(attempts: nat, retryIf: Predicate, client: Client, getBody: GetBody): nat -> bool {
    (k: nat) => GetBodyFails(getBody, k) || k == attempts || !retryIf(client(k).response, client(k).error)
  }

  /** `BlockedForever`: `Do` never returns, because the goroutine it waits for cannot go on. */
  datatype DoResult = Replied(response: Option<Response>, error: Option<Failure>) | BlockedForever

  class HttpRetrier {
    const retryIf: Predicate
    const pace: Pace
    var doResponse: Option<Response>
    var doError: Option<Failure>
    ghost var log: seq<Event>
    ghost var stale: Option<Response>     // what the run before has left in doResponse

    function Stops(client: Client, getBody: GetBody): nat -> bool {
      StopsAt(pace.attempts, retryIf, client, getBody)
    }

    constructor (pace: Pace, retryIf: Predicate)
      ensures this.pace == pace && this.retryIf == retryIf
    {
      this.pace, this.retryIf := pace, retryIf;
      doResponse, doError, log, stale := None, None, [], None;
    }

    /** After `n` retried attempts: the body the next one will send, the log, and the
        response of the last client call. */
    ghost predicate Between(client: Client, r: Request, original: Body, n: nat)
      reads this, r
    {
      && r.body == BodyOf(original, r.getBody, n + 1) && log == Retried(original, r.getBody, client, n)
      && doResponse == LastResponse(client, n)
    }

    ghost function LastResponse(client: Client, n: nat): Option<Response>
      reads this`stale
    {
      if n == 0 then stale else client(n).response
    }

    /** How the last attempt, the n-th, leaves things. */
    ghost predicate Ended(client: Client, getBody: GetBody, original: Body, n: nat)
      reads this
    {
      n >= 1 &&
      if GetBodyFails(getBody, n) then
        && doResponse == LastResponse(client, n - 1) && doError == Some(GetBodyFailed)
        && log == Retried(original, getBody, client, n - 1)
      else
        && doResponse == client(n).response && doError == client(n).error
        && log == Retried(original, getBody, client, n - 1) + [ClientDo(BodyOf(original, getBody, n))]
    }

    /** What `Do` returns after verdict `v`, other than `Again`. */
    function ResultOf(v: Verdict): DoResult
      reads this`doResponse, this`doError
    {
      if v == Last then Replied(doResponse, doError) else BlockedForever
    }

    /** The three ways a run comes to rest. */
    ghost predicate AtRest(client: Client, r: Request, original: Body, stop: nat -> bool, result: DoResult)
      reads this, pace, pace.loop, r
    {
      var s := pace.loop.now;
      match result
      case BlockedForever =>
        pace.Ticking(stop, 1) && SendBlocked(s) && Between(client, r, original, s.runs)
      case Replied(response, error) =>
        && response == doResponse && error == doError
        && if s.pc == Returned(false) then pace.Ticking(stop, 1) && Ended(client, r.getBody, original, s.runs)
           else
             && s.pc == Returned(true) && pace.loop.done && error == Some(RequestCancelled)
             && pace.Ticking(stop, 0) && Between(client, r, original, s.runs)
    }

    /** Ready for another attempt. */
    ghost predicate GoingOn(client: Client, r: Request, original: Body, stop: nat -> bool)
      reads this, pace, pace.loop, r
    {
      pace.Paced(stop, 0) && pace.loop.now.pc == Selecting && Between(client, r, original, pace.loop.now.runs)
    }

    /** The k-th attempt up to its verdict. When `GetBody` fails the client is not called
        and no attempt is counted; otherwise the copy it made is handed back. */
    method Send(client: Client, r: Request, ghost original: Body, k: nat) returns (bodyRC: Option<Body>)
      requires k >= 1 && Between(client, r, original, k - 1)
      modifies this, r
      ensures bodyRC.None? <==> GetBodyFails(r.getBody, k)
      ensures bodyRC.Some? ==> bodyRC.value == BodyOf(original, r.getBody, k + 1)
      ensures Ended(client, r.getBody, original, k) && stale == old(stale)
    {
      bodyRC := Some(NoBody);
      if r.getBody.Some? {
        bodyRC := r.getBody.value(k);
        if bodyRC.None? {
          doError := Some(GetBodyFailed);
          return;
        }
      }
      var reply := client(k);
      log := log + [ClientDo(r.body)];
      r.body := if r.body.Unread? then Drained else r.body;
      doResponse, doError := reply.response, reply.error;
    }

    /** Between two attempts: close the response unless the call failed, and put the
        copy of the body back. */
    method Prepare(client: Client, r: Request, bodyRC: Body, ghost original: Body, ghost k: nat)
      requires k >= 1 && Ended(client, r.getBody, original, k) && !GetBodyFails(r.getBody, k)
      requires doError == None ==> doResponse.Some?
      requires bodyRC == BodyOf(original, r.getBody, k + 1)
      modifies this`log, r
      ensures Between(client, r, original, k)
    {
      if doError == None {
        log := log + [CloseResponse(doResponse.value)];
      }
      r.body := bodyRC;
    }

    /** The attempt is to be followed by another one. */
    method Retry(client: Client, r: Request, bodyRC: Body, ghost original: Body, ghost stop: nat -> bool, ghost k: nat)
      returns (v: Verdict)
      requires pace.Paced(stop, 1) && pace.loop.now.pc == Scheduling && (doError == None ==> doResponse.Some?)
      requires k == pace.loop.now.runs >= 1 && Ended(client, r.getBody, original, k) && !GetBodyFails(r.getBody, k)
      requires bodyRC == BodyOf(original, r.getBody, k + 1)
      modifies this`log, pace, pace.loop, r
      ensures pace.loop.entered == old(pace.loop.entered) && pace.loop.leftover == old(pace.loop.leftover)
      ensures pace.loop.now.selects == old(pace.loop.now.selects) && pace.loop.now.runs == k && v != Last
      ensures v == Again ==> GoingOn(client, r, original, stop)
      ensures v == Stuck ==> AtRest(client, r, original, stop, BlockedForever)
    {
      Prepare(client, r, bodyRC, original, k);
      v := pace.Schedule(stop);
    }

    /** The verdict on an attempt whose request was sent, and what follows from it. */
    method Settle(client: Client, r: Request, bodyRC: Body, ghost original: Body, ghost stop: nat -> bool, ghost k: nat)
      returns (v: Verdict)
      requires pace.Paced(stop, 0) && pace.loop.now.pc == Executing && (doError == None ==> doResponse.Some?)
      requires k == pace.loop.now.runs + 1 && Ended(client, r.getBody, original, k) && !GetBodyFails(r.getBody, k)
      requires stop(k) <==> k == pace.attempts || !retryIf(doResponse, doError)
      requires bodyRC == BodyOf(original, r.getBody, k + 1)
      modifies this`log, pace, pace.loop, r
      ensures pace.loop.entered == old(pace.loop.entered) && pace.loop.leftover == old(pace.loop.leftover)
      ensures pace.loop.now.selects == old(pace.loop.now.selects) && pace.loop.now.runs == k
      ensures v == Last ==> log == old(log)
      ensures if v == Again then GoingOn(client, r, original, stop) else AtRest(client, r, original, stop, ResultOf(v))
    {
      pace.Count(stop);
      if pace.remainingAttempts == 0 || !retryIf(doResponse, doError) {
        return Last;
      }
      v := Retry(client, r, bodyRC, original, stop, k);
    }

    /** The copy of the body could not be had: the run is over. */
    ghost method GiveUp(client: Client, r: Request, original: Body, stop: nat -> bool)
      requires pace.Paced(stop, 0) && pace.loop.now.pc == Executing
      requires var k := pace.loop.now.runs + 1; stop(k) && Ended(client, r.getBody, original, k)
      modifies pace.loop
      ensures pace.loop.entered == old(pace.loop.entered) && pace.loop.leftover == old(pace.loop.leftover)
      ensures pace.loop.now.selects == old(pace.loop.now.selects)
      ensures AtRest(client, r, original, stop, ResultOf(Last))
    {
      pace.Abandon(stop);
    }

    /** `run`: one attempt, and what follows from it. */
    method Attempt(client: Client, r: Request, ghost original: Body, ghost stop: nat -> bool) returns (v: Verdict)
      requires pace.Paced(stop, 0) && pace.loop.now.pc == Executing && Between(client, r, original, pace.loop.now.runs)
      requires var k := pace.loop.now.runs + 1;
        stop(k) == Stops(client, r.getBody)(k) && (client(k).error.None? ==> client(k).response.Some?)
      modifies this, pace, pace.loop, r
      ensures pace.loop.entered == old(pace.loop.entered) && pace.loop.leftover == old(pace.loop.leftover)
      ensures pace.loop.now.selects == old(pace.loop.now.selects) && stale == old(stale)
      ensures if v == Again then GoingOn(client, r, original, stop) else AtRest(client, r, original, stop, ResultOf(v))
    {
      var call := pace.attempts - pace.remainingAttempts + 1;
      var bodyRC := Send(client, r, original, call);
      if bodyRC.None? {
        GiveUp(client, r, original, stop);
        return Last;
      }
      v := Settle(client, r, bodyRC.value, original, stop, call);
    }

    /** What holds once `retry` has returned, or will never return. */
    ghost predicate Outcome(client: Client, getBody: GetBody, original: Body, n: nat, result: DoResult)
      reads this, pace, pace.loop
    {
      && pace.loop.Valid() && pace.loop.stop == Stops(client, getBody)
      && EndsAt(Stops(client, getBody), n) && n <= pace.attempts
      && Within(pace.loop.now, n, pace.loop.leftover.Some?)
      && AllInBand(pace.delay, pace.delayFactor, pace.jitter, pace.waits)
      && log == LogAt(original, getBody, client, pace.loop.now)
      && match result
         case Replied(response, error) =>
           && response == doResponse && error == doError
           && if pace.loop.now.pc == Returned(false) then
                && Ended(client, getBody, original, n) && |pace.waits| == n - 1
                && (pace.loop.leftover.None? ==> pace.loop.resetTimer == None)
              else
                && pace.loop.now.pc == Returned(true) && pace.loop.done
                && error == Some(RequestCancelled) && response == LastResponse(client, pace.loop.now.runs)
                && |pace.waits| == pace.loop.now.runs
         case BlockedForever =>
           && SendBlocked(pace.loop.now) && pace.loop.leftover.Some? && !Stops(client, getBody)(1)
    }

    /** At rest, everything `Do` promises is so. */
    lemma RestMeans(client: Client, r: Request, original: Body, stop: nat -> bool, n: nat, result: DoResult)
      requires stop == Stops(client, r.getBody) && EndsAt(stop, n) && n <= pace.attempts
      requires AtRest(client, r, original, stop, result)
      ensures Outcome(client, r.getBody, original, n, result)
    {
      pace.loop.Reached();
      pace.loop.IsWithin(n);
    }

    /** One turn of the loop: wait, then take one of the cases that are ready. */
    method Turn(client: Client, r: Request, ghost original: Body, ghost stop: nat -> bool)
      returns (result: Option<DoResult>)
      requires GoingOn(client, r, original, stop) && stop == Stops(client, r.getBody) && Honest(client)
      modifies this, pace, pace.loop, r
      ensures pace.loop.entered == old(pace.loop.entered) && pace.loop.leftover == old(pace.loop.leftover)
      ensures stale == old(stale)
      ensures result.None? ==> GoingOn(client, r, original, stop) && pace.loop.now.selects > old(pace.loop.now.selects)
      ensures result.Some? ==> AtRest(client, r, original, stop, result.value)
    {
      var c := pace.Select(stop);
      match c {
        case ContextDone =>
          doError := Some(RequestCancelled);
          result := Some(Replied(doResponse, doError));
        case TimerReset =>
          result := None;
        case TimerFired =>
          assert Between(client, r, original, pace.loop.now.runs);
          var v := Attempt(client, r, original, stop);
          result := if v == Again then None else Some(ResultOf(v));
      }
    }

    /** `Do`: the caller waits for the goroutine running `retry` and then reads the two
        result fields. Returns whatever the timing, unless an earlier cancelled run has
        left a value in the channel and the first attempt is to be retried. */
    method Do(client: Client, r: Request, contextDone: bool) returns (result: DoResult, ghost n: nat)
      requires pace.Configured() && Honest(client)
      modifies this, pace, pace.loop, r
      ensures Outcome(client, r.getBody, old(r.body), n, result)
      ensures pace.loop.entered == contextDone && pace.loop.leftover == old(pace.loop.resetTimer)
      ensures stale == old(doResponse)
    {
      ghost var stop, original := Stops(client, r.getBody), r.body;
      log, stale := [], doResponse;
      pace.Begin(contextDone, stop);
      n := FirstEnd(stop, pace.attempts);
      while true
        invariant GoingOn(client, r, original, stop)
        invariant pace.loop.entered == contextDone && pace.loop.leftover == old(pace.loop.resetTimer)
        invariant stale == old(doResponse)
        decreases 2 * n + 1 - pace.loop.now.selects
      {
        pace.loop.IsWithin(n);
        var turn := Turn(client, r, original, stop);
        if turn.Some? {
          RestMeans(client, r, original, stop, n, turn.value);
          return turn.value, n;
        }
      }
    }
  }

  /** What the outcome says of the attempts: each before the n-th could copy the body, was not
      the last allowed and had a reply to retry; the n-th could not, or was, or had none. */
  lemma OutcomeMeaning(h: HttpRetrier, client: Client, getBody: GetBody, original: Body, n: nat, result: DoResult)
    requires h.Outcome(client, getBody, original, n, result)
    ensures 1 <= n <= h.pace.attempts
    ensures forall k :: 1 <= k < n ==>
              (getBody.Some? ==> getBody.value(k).Some?) && h.retryIf(client(k).response, client(k).error)
    ensures (getBody.Some? && getBody.value(n).None?) || n == h.pace.attempts ||
            !h.retryIf(client(n).response, client(n).error)
    ensures result.Replied? && h.pace.loop.now.pc == Returned(false) ==>
            if getBody.Some? && getBody.value(n).None? then result.error == Some(GetBodyFailed)
            else result == Replied(client(n).response, client(n).error)
  {
    var stop := h.Stops(client, getBody);
    assert stop(n);
    forall k | 1 <= k < n
      ensures (getBody.Some? ==> getBody.value(k).Some?) && h.retryIf(client(k).response, client(k).error)
    {
      assert !stop(k) && !GetBodyFails(getBody, k);
    }
  }

  // ---------- response bodies ----------

  /** How often the response of call `k` was closed. */
  function Closings(log: seq<Event>, k: nat): nat {
    if log == [] then 0
    else Closings(log[..|log| - 1], k) +
         (var e := log[|log| - 1]; if e.CloseResponse? && e.response.call == k then 1 else 0)
  }

  lemma ClosingsSnoc(log: seq<Event>, e: Event, k: nat)
    ensures Closings(log + [e], k) == Closings(log, k) + if e.CloseResponse? && e.response.call == k then 1 else 0
  {
    assert (log + [e])[..|log|] == log;
  }

  /** What the n-th of the retried attempts adds. */
  lemma OneMoreRetried(original: Body, getBody: GetBody, client: Client, n: nat, k: nat)
    requires Honest(client) && n > 0
    ensures Closings(Retried(original, getBody, client, n), k) ==
            Closings(Retried(original, getBody, client, n - 1), k) + if n == k && client(n).error.None? then 1 else 0
  {
    var before := Retried(original, getBody, client, n - 1);
    var sent := ClientDo(BodyOf(original, getBody, n));
    ClosingsSnoc(before, sent, k);
    if client(n).error.None? {
      ClosingsSnoc(before + [sent], CloseResponse(client(n).response.value), k);
    } else {
      assert Retried(original, getBody, client, n) == before + [sent];
    }
  }

  lemma {:induction false} RetriedClosings(original: Body, getBody: GetBody, client: Client, n: nat, k: nat)
    requires Honest(client)
    ensures Closings(Retried(original, getBody, client, n), k) ==
            if 1 <= k <= n && client(k).error.None? then 1 else 0
  {
    if n > 0 {
      RetriedClosings(original, getBody, client, n - 1, k);
      OneMoreRetried(original, getBody, client, n, k);
    }
  }

  /** How often the client was called. */
  function Calls(log: seq<Event>): nat {
    if log == [] then 0 else Calls(log[..|log| - 1]) + if log[|log| - 1].ClientDo? then 1 else 0
  }

  lemma CallsSnoc(log: seq<Event>, e: Event)
    ensures Calls(log + [e]) == Calls(log) + if e.ClientDo? then 1 else 0
  {
    assert (log + [e])[..|log|] == log;
  }

  lemma OneMoreCall(original: Body, getBody: GetBody, client: Client, n: nat)
    requires n > 0
    ensures Calls(Retried(original, getBody, client, n)) == Calls(Retried(original, getBody, client, n - 1)) + 1
  {
    var before := Retried(original, getBody, client, n - 1);
    var sent := ClientDo(BodyOf(original, getBody, n));
    CallsSnoc(before, sent);
    if client(n).error.None? && client(n).response.Some? {
      CallsSnoc(before + [sent], CloseResponse(client(n).response.value));
    } else {
      assert Retried(original, getBody, client, n) == before + [sent];
    }
  }

  lemma {:induction false} RetriedCalls(original: Body, getBody: GetBody, client: Client, n: nat)
    ensures Calls(Retried(original, getBody, client, n)) == n
  {
    if n == 0 {
      assert Retried(original, getBody, client, n) == [];
    } else {
      OneMoreCall(original, getBody, client, n);
      RetriedCalls(original, getBody, client, n - 1);
    }
  }

  lemma LogCalls(original: Body, getBody: GetBody, client: Client, s: State)
    ensures Calls(LogAt(original, getBody, client, s)) == RetriedIn(s) + if Answered(getBody, s) then 1 else 0
  {
    var before := Retried(original, getBody, client, RetriedIn(s));
    RetriedCalls(original, getBody, client, RetriedIn(s));
    if Answered(getBody, s) {
      CallsSnoc(before, ClientDo(BodyOf(original, getBody, s.runs)));
    } else {
      assert LogAt(original, getBody, client, s) == before;
    }
  }

  lemma LogClosings(original: Body, getBody: GetBody, client: Client, s: State, k: nat)
    requires Honest(client)
    ensures Closings(LogAt(original, getBody, client, s), k) ==
            if 1 <= k <= RetriedIn(s) && client(k).error.None? then 1 else 0
  {
    var before := Retried(original, getBody, client, RetriedIn(s));
    RetriedClosings(original, getBody, client, RetriedIn(s), k);
    if Answered(getBody, s) {
      ClosingsSnoc(before, ClientDo(BodyOf(original, getBody, s.runs)), k);
    } else {
      assert LogAt(original, getBody, client, s) == before;
    }
  }

  /** No response leaks, however the run ends: of the client calls made, each that returned
      no error had its response closed exactly once, only that of the last call is open
      when it is handed to the caller, and no other response was closed. */
  lemma NoResponseLeaks(
    h: HttpRetrier, client: Client, getBody: GetBody, original: Body, n: nat, result: DoResult, k: nat)
    requires Honest(client) && h.Outcome(client, getBody, original, n, result)
    ensures var calls, answered := Calls(h.log), Answered(getBody, h.pace.loop.now);
      && Closings(h.log, k) == (if 1 <= k <= calls && client(k).error.None? && !(answered && k == calls) then 1 else 0)
      && (answered ==> calls == n && result == Replied(client(n).response, client(n).error))
  {
    LogCalls(original, getBody, client, h.pace.loop.now);
    LogClosings(original, getBody, client, h.pace.loop.now, k);
  }

  /** When `Do` returns no error, the response it returns is that of the last client call
      and has not been closed; every earlier call that returned no error had its response
      closed exactly once, and no other response was closed. */
  lemma ResponsesClosed(
    h: HttpRetrier, client: Client, getBody: GetBody, original: Body, n: nat, result: DoResult, k: nat)
    requires Honest(client) && h.Outcome(client, getBody, original, n, result)
    requires result.Replied? && result.error == None
    ensures result.response == client(n).response && result.response.Some?
    ensures Closings(h.log, k) == if 1 <= k < n && client(k).error.None? then 1 else 0
  {
    LogClosings(original, getBody, client, h.pace.loop.now, k);
  }

  // ---------- the log, event by event ----------

  /** The k-th client call sends: the first the original body, every later one what `GetBody`
      returned during the attempt before, or no body without `GetBody`. */
  predicate SendsDue(original: Body, getBody: GetBody, k: nat, sent: Body) {
    if k == 1 then sent == original
    else if getBody.None? then sent == NoBody
    else k >= 2 && sent == (match getBody.value(k - 1) case Some(copy) => copy case None => NoBody)
  }

  /** Position `i` holds a call that sends what is due, or closes the response of the call
      right before it, which returned no error. */
  ghost predicate InPlace(original: Body, getBody: GetBody, client: Client, log: seq<Event>, i: nat)
    requires i < |log|
  {
    match log[i]
    case ClientDo(sent) => SendsDue(original, getBody, Calls(log[..i]) + 1, sent)
    case CloseResponse(r) =>
      && i > 0 && log[i - 1].ClientDo? && client(Calls(log[..i])).error == None
      && client(Calls(log[..i])).response == Some(r)
  }

  ghost predicate AllInPlace(original: Body, getBody: GetBody, client: Client, log: seq<Event>) {
    forall i :: 0 <= i < |log| ==> InPlace(original, getBody, client, log, i)
  }

  lemma InPlaceSnoc(original: Body, getBody: GetBody, client: Client, log: seq<Event>, e: Event)
    requires AllInPlace(original, getBody, client, log)
    requires InPlace(original, getBody, client, log + [e], |log|)
    ensures AllInPlace(original, getBody, client, log + [e])
  {
    forall i | 0 <= i < |log + [e]| ensures InPlace(original, getBody, client, log + [e], i) {
      if i < |log| {
        assert InPlace(original, getBody, client, log, i);
        assert (log + [e])[..i] == log[..i];
      }
    }
  }

  lemma BodyOfIsDue(original: Body, getBody: GetBody, n: nat)
    requires n >= 1
    ensures SendsDue(original, getBody, n, BodyOf(original, getBody, n))
  {
  }

  lemma SendInPlace(original: Body, getBody: GetBody, client: Client, log: seq<Event>, n: nat)
    requires n >= 1 && Calls(log) == n - 1 && AllInPlace(original, getBody, client, log)
    ensures AllInPlace(original, getBody, client, log + [ClientDo(BodyOf(original, getBody, n))])
  {
    BodyOfIsDue(original, getBody, n);
    assert (log + [ClientDo(BodyOf(original, getBody, n))])[..|log|] == log;
    InPlaceSnoc(original, getBody, client, log, ClientDo(BodyOf(original, getBody, n)));
  }

  lemma CloseInPlace(original: Body, getBody: GetBody, client: Client, log: seq<Event>, r: Response)
    requires log != [] && log[|log| - 1].ClientDo? && AllInPlace(original, getBody, client, log)
    requires client(Calls(log)) == Reply(Some(r), None)
    ensures AllInPlace(original, getBody, client, log + [CloseResponse(r)])
  {
    assert (log + [CloseResponse(r)])[..|log|] == log;
    InPlaceSnoc(original, getBody, client, log, CloseResponse(r));
  }

  lemma {:induction false} RetriedInPlace(original: Body, getBody: GetBody, client: Client, n: nat)
    ensures AllInPlace(original, getBody, client, Retried(original, getBody, client, n))
  {
    if n > 0 {
      var before, sent := Retried(original, getBody, client, n - 1), ClientDo(BodyOf(original, getBody, n));
      RetriedInPlace(original, getBody, client, n - 1);
      RetriedCalls(original, getBody, client, n - 1);
      SendInPlace(original, getBody, client, before, n);
      if client(n).error.None? && client(n).response.Some? {
        CallsSnoc(before, sent);
        CloseInPlace(original, getBody, client, before + [sent], client(n).response.value);
      } else {
        assert Retried(original, getBody, client, n) == before + [sent];
      }
    }
  }

  /** Every event of every run is in place: each call sends the body due to it, and a response
      is closed right after the call it came from. */
  lemma EventsInPlace(h: HttpRetrier, client: Client, getBody: GetBody, original: Body, n: nat, result: DoResult)
    requires h.Outcome(client, getBody, original, n, result)
    ensures AllInPlace(original, getBody, client, h.log)
  {
    var s := h.pace.loop.now;
    var before := Retried(original, getBody, client, RetriedIn(s));
    RetriedInPlace(original, getBody, client, RetriedIn(s));
    if Answered(getBody, s) {
      RetriedCalls(original, getBody, client, RetriedIn(s));
      SendInPlace(original, getBody, client, before, s.runs);
    } else {
      assert h.log == before;
    }
  }

  // ---------- request bodies ----------

  ghost predicate AllSend(log: seq<Event>, body: Body) {
    forall e :: e in log && e.ClientDo? ==> e.sent == body
  }

  /** `GetBody` hands out unread copies of the original body. */
  ghost predicate Faithful(getBody: GetBody, original: Body) {
    getBody.Some? && forall k :: getBody.value(k) == Some(original)
  }

  lemma {:induction false} FaithfulCopies(original: Body, getBody: GetBody, client: Client, n: nat)
    requires Faithful(getBody, original)
    ensures AllSend(Retried(original, getBody, client, n), original)
  {
    if n > 0 {
      FaithfulCopies(original, getBody, client, n - 1);
    }
  }

  lemma {:induction false} OnlyEmpty(client: Client, n: nat)
    ensures AllSend(Retried(NoBody, None, client, n), NoBody)
  {
    if n > 0 {
      OnlyEmpty(client, n - 1);
    }
  }

  /** With a faithful `GetBody` every attempt of every run sends an unread copy of the
      original body, also when the run is cancelled. */
  lemma FaithfulBodies(h: HttpRetrier, client: Client, getBody: GetBody, original: Body, n: nat, result: DoResult)
    requires h.Outcome(client, getBody, original, n, result) && Faithful(getBody, original)
    ensures AllSend(h.log, original)
  {
    FaithfulCopies(original, getBody, client, RetriedIn(h.pace.loop.now));
  }

  /** Without `GetBody` a second attempt is sent without a body. */
  lemma {:induction false} SecondIsEmpty(original: Body, client: Client, n: nat)
    requires n >= 2
    ensures ClientDo(NoBody) in Retried(original, None, client, n)
  {
    if n > 2 {
      SecondIsEmpty(original, client, n - 1);
    } else {
      var sent := Retried(original, None, client, 1) + [ClientDo(NoBody)];
      assert sent[|sent| - 1] == ClientDo(NoBody) && sent <= Retried(original, None, client, 2);
    }
  }

  lemma LogWithoutGetBody(original: Body, client: Client, s: State)
    ensures AllSend(LogAt(original, None, client, s), original) <==>
            original == NoBody || RetriedIn(s) + (if Answered(None, s) then 1 else 0) <= 1
  {
    var log := LogAt(original, None, client, s);
    if original == NoBody {
      OnlyEmpty(client, RetriedIn(s));
    } else if RetriedIn(s) >= 2 {
      SecondIsEmpty(original, client, RetriedIn(s));
      assert ClientDo(NoBody) in log;
    } else if RetriedIn(s) == 1 {
      assert Retried(original, None, client, 0) == [];
      assert Answered(None, s) ==> ClientDo(NoBody) in log;
    } else {
      assert Retried(original, None, client, 0) == [];
    }
  }

  /** Without `GetBody` that is so of a run exactly when there is no body or the client is
      called at most once: any later attempt is sent without a body. Of a run that ends by
      itself it is so exactly when there is no body or the first attempt is the last. */
  lemma BodiesWithoutGetBody(h: HttpRetrier, client: Client, original: Body, n: nat, result: DoResult)
    requires h.Outcome(client, None, original, n, result)
    ensures AllSend(h.log, original) <==> original == NoBody || Calls(h.log) <= 1
    ensures h.Stops(client, None)(1) ==> AllSend(h.log, original)
    ensures h.pace.loop.now.pc == Returned(false) ==>
            (AllSend(h.log, original) <==> original == NoBody || h.Stops(client, None)(1))
  {
    LogWithoutGetBody(original, client, h.pace.loop.now);
    LogCalls(original, None, client, h.pace.loop.now);
    FirstIsLast(h.Stops(client, None), n);
  }

  lemma FirstIsLast(stop: nat -> bool, n: nat)
    requires EndsAt(stop, n)
    ensures n == 1 <==> stop(1)
  {
  }

  /** A reply that an honest client can give to the first call. */
  predicate HonestFirst(reply: Reply) {
    (reply.error.None? ==> reply.response.Some?) && (reply.response.Some? ==> reply.response.value.call == 1)
  }

  /** Every run, of every honest client, sends nothing but the original body. */
  ghost predicate AlwaysOriginal(attempts: nat, retryIf: Predicate, original: Body) {
    forall client, pending, cancelled, acts ::
      Honest(client) && Legal(StopsAt(attempts, retryIf, client, None), Entry(pending, cancelled), acts) ==>
      var s := Run(StopsAt(attempts, retryIf, client, None), Entry(pending, cancelled), acts);
      AllSend(LogAt(original, None, client, s), original)
  }

  /** For a request without `GetBody` this is what a caller has to know before the call:
      there is no body, or a single attempt is allowed, or no first reply is retried. */
  lemma OriginalWithoutGetBodyExactlyWhen(attempts: nat, retryIf: Predicate, original: Body)
    requires attempts >= 1
    ensures AlwaysOriginal(attempts, retryIf, original) <==>
            original == NoBody || attempts == 1 ||
            forall reply :: HonestFirst(reply) ==> !retryIf(reply.response, reply.error)
  {
    if original != NoBody && attempts > 1 && exists r :: HonestFirst(r) && retryIf(r.response, r.error) {
      var reply :| HonestFirst(reply) && retryIf(reply.response, reply.error);
      SecondAttemptHasNoBody(attempts, retryIf, original, reply);
    } else {
      forall client, pending, cancelled, acts |
        Honest(client) && Legal(StopsAt(attempts, retryIf, client, None), Entry(pending, cancelled), acts)
        ensures AllSend(LogAt(original, None, client,
                              Run(StopsAt(attempts, retryIf, client, None), Entry(pending, cancelled), acts)), original)
      {
        OriginalSent(StopsAt(attempts, retryIf, client, None), client, original, pending, cancelled, acts);
      }
    }
  }

  lemma OriginalSent(
    stop: nat -> bool, client: Client, original: Body, pending: bool, cancelled: bool, acts: seq<Action>)
    requires original == NoBody || stop(1)
    requires Legal(stop, Entry(pending, cancelled), acts)
    ensures AllSend(LogAt(original, None, client, Run(stop, Entry(pending, cancelled), acts)), original)
  {
    InvariantRun(stop, Entry(pending, cancelled), acts, pending);
    LogWithoutGetBody(original, client, Run(stop, Entry(pending, cancelled), acts));
  }

  /** An accepted first reply leads to a second attempt, which sends nothing. */
  lemma SecondAttemptHasNoBody(attempts: nat, retryIf: Predicate, original: Body, reply: Reply)
    requires original != NoBody && attempts > 1 && HonestFirst(reply) && retryIf(reply.response, reply.error)
    ensures !AlwaysOriginal(attempts, retryIf, original)
  {
    var client: Client := (k: nat) => if k == 1 then reply else Reply(Some(Response(k, 200)), None);
    var stop := StopsAt(attempts, retryIf, client, None);
    assert client(1) == reply && Honest(client);
    assert !stop(1);
    var n := FirstEnd(stop, attempts);
    var acts := Completes(stop, n);
    var s := Run(stop, Entry(false, false), acts);
    LogWithoutGetBody(original, client, s);
    assert n >= 2 && Answered(None, s) && RetriedIn(s) == n - 1;
    assert !AllSend(LogAt(original, None, client, s), original);
  }

  // ---------- the predicates the package ships ----------

  predicate DefaultRetryIf(r: Option<Response>, error: Option<Failure>) { error.Some? }

  predicate RetryIfForWriteRequests(r: Option<Response>, error: Option<Failure>) {
    error.Some? || (r.Some? && r.value.status in {429, 502, 503})
  }

  predicate RetryIfForReadRequests(r: Option<Response>, error: Option<Failure>) {
    error.Some? || (r.Some? && r.value.status in {404, 408, 409, 423, 425, 429, 500, 502, 503, 504, 507})
  }

  /** All three retry a failed call, so with any of them a request that has a body but no
      `GetBody` may be sent without its body as soon as two attempts are allowed. */
  lemma ShippedPredicates(attempts: nat, original: Body)
    requires attempts >= 1
    ensures AlwaysOriginal(attempts, DefaultRetryIf, original) <==> original == NoBody || attempts == 1
    ensures AlwaysOriginal(attempts, RetryIfForWriteRequests, original) <==> original == NoBody || attempts == 1
    ensures AlwaysOriginal(attempts, RetryIfForReadRequests, original) <==> original == NoBody || attempts == 1
  {
    var failed := Reply(None, Some(ClientError("")));
    assert HonestFirst(failed);
    OriginalWithoutGetBodyExactlyWhen(attempts, DefaultRetryIf, original);
    OriginalWithoutGetBodyExactlyWhen(attempts, RetryIfForWriteRequests, original);
    OriginalWithoutGetBodyExactlyWhen(attempts, RetryIfForReadRequests, original);
  }

  /** All three retry every failed call. Of the answers without an error the write predicate
      retries three, the read predicate those and eight more; none retries a success or a
      redirection. */
  lemma StatusesRetried(r: Response, reply: Option<Response>, e: Failure)
    ensures DefaultRetryIf(reply, Some(e)) && RetryIfForWriteRequests(reply, Some(e))
    ensures RetryIfForReadRequests(reply, Some(e))
    ensures !DefaultRetryIf(Some(r), None)
    ensures RetryIfForWriteRequests(Some(r), None) <==> r.status == 429 || r.status == 502 || r.status == 503
    ensures RetryIfForReadRequests(Some(r), None) <==>
            RetryIfForWriteRequests(Some(r), None) || r.status in {404, 408, 409, 423, 425, 500, 504, 507}
    ensures r.status < 400 ==> !RetryIfForReadRequests(Some(r), None)
  {
  }
}
