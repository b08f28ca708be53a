/**
  Requests to protected plugin routes with back-off after a 401
  (src/service/native-plugin-request-service.ts). A step is the code between two
  awaits; answers, clock readings and the order of steps are arbitrary.
 */
module NativeRequests {
  import opened Prelude

  type ServerId = string
  type Credential = Option<string>
  type RequestId = nat
  type CallId = nat

  datatype Failure = Failure(credential: Credential, until: int, attempts: nat)

  /** A JavaScript map: its entries, and its keys in insertion order. */
  datatype Failures = Failures(order: seq<ServerId>, entries: map<ServerId, Failure>)

  datatype Request = Request(serverId: ServerId, credential: Credential)

  /** A call waiting for the request that was registered for its server when it began. */
  datatype Waiting = Waiting(serverId: ServerId, credential: Credential, on: RequestId)

  datatype Outcome = Succeeded | Unauthorized | FailedOtherwise

  /** `inFlight` requests have no answer yet; `requests` is the registered one per server. */
  datatype State = State(
    failures: Failures,
    requests: map<ServerId, RequestId>,
    inFlight: map<RequestId, Request>,
    waiting: map<CallId, Waiting>,
    nextRequest: RequestId)

  datatype Event =
    | Call(call: CallId, serverId: ServerId, credential: Credential, now: int)
      /** A waiting call goes on once the request it waits for has its result. */
    | Resume(call: CallId, now: int)
    | Answer(request: RequestId, outcome: Outcome, now: int)
      /** The `finally` of the call that started the request. */
    | Settle(request: RequestId, serverId: ServerId)
    | ResetAccess(serverId: ServerId)

  const IDLE := State(Failures([], map[]), map[], map[], map[], 0)

  const MAX_FAILURES := 5000
  const MINUTE_MS := 60_000

  function Power2(exponent: nat): nat {
    if exponent == 0 then 1 else 2 * Power2(exponent - 1)
  }

  function RetryAfterMs(attempts: nat): int
    requires attempts >= 1
  {
    Min(30 * MINUTE_MS, 5 * MINUTE_MS * Power2(Min(attempts - 1, 3)))
  }

  // The failure map.

  function RemoveKey(order: seq<ServerId>, serverId: ServerId): seq<ServerId> {
    if order == [] then []
    else if order[0] == serverId then order[1..]
    else [order[0]] + RemoveKey(order[1..], serverId)
  }

  function Without(failures: Failures, serverId: ServerId): Failures {
    Failures(RemoveKey(failures.order, serverId), failures.entries - {serverId})
  }

  /** `Map.set`: a known key keeps its place, a new one goes to the end. */
  function Put(failures: Failures, serverId: ServerId, failure: Failure): Failures {
    Failures(
      if serverId in failures.entries then failures.order else failures.order + [serverId],
      failures.entries[serverId := failure])
  }

  /** The key that makes room when the map is full and the server is new to it. */
  function Evicted(failures: Failures, serverId: ServerId): Option<ServerId> {
    if |failures.order| >= MAX_FAILURES && serverId !in failures.entries then Some(failures.order[0]) else None
  }

  function NextFailure(failures: Failures, serverId: ServerId, credential: Credential, now: int): Failure {
    var attempts :=
      if serverId in failures.entries && failures.entries[serverId].credential == credential
      then failures.entries[serverId].attempts + 1 else 1;
    Failure(credential, now + RetryAfterMs(attempts), attempts)
  }

  function Recorded(failures: Failures, serverId: ServerId, credential: Credential, now: int): Failures {
    var failure := NextFailure(failures, serverId, credential, now);
    var evicted := Evicted(failures, serverId);
    Put(if evicted.Some? then Without(failures, evicted.value) else failures, serverId, failure)
  }

  predicate BacksOff(failures: Failures, serverId: ServerId, credential: Credential, now: int) {
    && serverId in failures.entries
    && failures.entries[serverId].credential == credential
    && failures.entries[serverId].until > now
  }

  // The steps.

  /** After any waiting: give up while backing off, otherwise start and register a request. */
  function Proceed(state: State, serverId: ServerId, credential: Credential, now: int): State {
    if BacksOff(state.failures, serverId, credential, now) then state
    else
      state.(requests := state.requests[serverId := state.nextRequest],
             inFlight := state.inFlight[state.nextRequest := Request(serverId, credential)],
             nextRequest := state.nextRequest + 1)
  }

  /** Whether an event can happen in a state; one that cannot changes nothing. */
  predicate Enabled(state: State, event: Event) {
    match event
    case Call(call, _, _, _) => call !in state.waiting
    case Resume(call, _) => call in state.waiting && state.waiting[call].on !in state.inFlight
    case Answer(request, _, _) => request in state.inFlight
    case Settle(request, serverId) =>
      serverId in state.requests && state.requests[serverId] == request && request !in state.inFlight
    case ResetAccess(_) => true
  }

  function Next(state: State, event: Event): State {
    if !Enabled(state, event) then state
    else
      match event
      case Call(call, serverId, credential, now) =>
        if serverId in state.requests
        then state.(waiting := state.waiting[call := Waiting(serverId, credential, state.requests[serverId])])
        else Proceed(state, serverId, credential, now)
      case Resume(call, now) =>
        var waiting := state.waiting[call];
        Proceed(state.(waiting := state.waiting - {call}), waiting.serverId, waiting.credential, now)
      case Answer(request, outcome, now) =>
        var answered := state.inFlight[request];
        var failures :=
          match outcome
          case Succeeded => Without(state.failures, answered.serverId)
          case Unauthorized => Recorded(state.failures, answered.serverId, answered.credential, now)
          case FailedOtherwise => state.failures;
        state.(failures := failures, inFlight := state.inFlight - {request})
      case Settle(_, serverId) => state.(requests := state.requests - {serverId})
      case ResetAccess(serverId) => state.(failures := Without(state.failures, serverId))
  }

  function Run(state: State, events: seq<Event>): State
    decreases |events|
  {
    if events == [] then state else Run(Next(state, events[0]), events[1..])
  }

  // What holds in every reachable state.

  /** The key order lists every entry once, and there are at most 5000. */
  ghost predicate WellFormed(failures: Failures) {
    && NoRepeats(failures.order)
    && (forall serverId :: serverId in failures.order <==> serverId in failures.entries)
    && |failures.order| <= MAX_FAILURES
    && forall serverId :: serverId in failures.entries ==> failures.entries[serverId].attempts >= 1
  }

  lemma {:induction false} RemoveKeyFacts(order: seq<ServerId>, serverId: ServerId)
    requires NoRepeats(order)
    ensures NoRepeats(RemoveKey(order, serverId))
    ensures forall other :: other in RemoveKey(order, serverId) <==> other in order && other != serverId
    ensures |RemoveKey(order, serverId)| == |order| - if serverId in order then 1 else 0
  {
    if order != [] {
      assert forall other :: other in order <==> other == order[0] || other in order[1..];
      if order[0] != serverId {
        var rest := RemoveKey(order[1..], serverId);
        RemoveKeyFacts(order[1..], serverId);
        assert forall i :: 0 <= i < |rest| ==> rest[i] in order[1..];
        assert order[0] !in order[1..];
      }
    }
  }

  lemma RecordedIsWellFormed(failures: Failures, serverId: ServerId, credential: Credential, now: int)
    requires WellFormed(failures)
    ensures WellFormed(Recorded(failures, serverId, credential, now))
  {
    var evicted := Evicted(failures, serverId);
    if evicted.Some? {
      RemoveKeyFacts(failures.order, evicted.value);
    }
  }

  lemma StepKeepsBound(state: State, event: Event)
    requires WellFormed(state.failures)
    ensures WellFormed(Next(state, event).failures)
  {
    if Enabled(state, event) {
      match event
      case Answer(request, outcome, now) =>
        var answered := state.inFlight[request];
        RemoveKeyFacts(state.failures.order, answered.serverId);
        RecordedIsWellFormed(state.failures, answered.serverId, answered.credential, now);
      case ResetAccess(serverId) => RemoveKeyFacts(state.failures.order, serverId);
      case _ =>
    }
  }

  /** Over every run the failure map keeps at most 5000 servers. */
  lemma {:induction false} FailuresStayBounded(state: State, events: seq<Event>)
    requires WellFormed(state.failures)
    ensures WellFormed(Run(state, events).failures)
    ensures |Run(state, events).failures.order| <= MAX_FAILURES
    decreases |events|
  {
    if events != [] {
      StepKeepsBound(state, events[0]);
      FailuresStayBounded(Next(state, events[0]), events[1..]);
    }
  }

  // The delays.

  /** Delays never shrink from one rejection to the next and lie between 5 and 30 minutes. */
  lemma DelaysGrow(attempts: nat)
    requires attempts >= 1
    ensures 5 * MINUTE_MS <= RetryAfterMs(attempts) <= RetryAfterMs(attempts + 1) <= 30 * MINUTE_MS
    ensures attempts >= 4 <==> RetryAfterMs(attempts) == 30 * MINUTE_MS
  {
    assert Power2(0) == 1 && Power2(1) == 2 && Power2(2) == 4 && Power2(3) == 8;
    assert Min(attempts - 1, 3) in {0, 1, 2, 3};
  }

  // Back-off over runs.

  /**
    Whether an event ends the back-off of a server for a credential: a success, a reset, an
    eviction by another server's rejection, or a rejection of a different credential.
   */
  predicate EndsBackOff(state: State, event: Event, serverId: ServerId, credential: Credential) {
    Enabled(state, event)
    && match event
       case Answer(request, outcome, _) =>
         var answered := state.inFlight[request];
         || (outcome.Succeeded? && answered.serverId == serverId)
         || (outcome.Unauthorized? && answered.serverId == serverId && answered.credential != credential)
         || (outcome.Unauthorized? && answered.serverId != serverId
             && Evicted(state.failures, answered.serverId) == Some(serverId))
       case ResetAccess(reset) => reset == serverId
       case _ => false
  }

  predicate NeverEnds(state: State, events: seq<Event>, serverId: ServerId, credential: Credential)
    decreases |events|
  {
    events == []
    || (!EndsBackOff(state, events[0], serverId, credential)
        && NeverEnds(Next(state, events[0]), events[1..], serverId, credential))
  }

  function ClockAfter(from: int, event: Event): int {
    if event.Settle? || event.ResetAccess? then from else event.now
  }

  /** The last clock reading of a run. */
  function Clock(from: int, events: seq<Event>): int
    decreases |events|
  {
    if events == [] then from else Clock(ClockAfter(from, events[0]), events[1..])
  }

  /** The clock readings of a run never go back. */
  predicate Timed(from: int, events: seq<Event>)
    decreases |events|
  {
    if events == [] then true
    else if events[0].Settle? || events[0].ResetAccess? then Timed(from, events[1..])
    else from <= events[0].now && Timed(events[0].now, events[1..])
  }

  /** The server backs off for the credential at least until the given time. */
  predicate HeldUntil(failures: Failures, serverId: ServerId, credential: Credential, until: int) {
    && serverId in failures.entries
    && failures.entries[serverId].credential == credential
    && failures.entries[serverId].until >= until
  }

  /** An entry was recorded at the latest now, so a new rejection cannot shorten it. */
  ghost predicate RecordedBefore(failures: Failures, now: int) {
    forall serverId :: serverId in failures.entries ==>
      var failure := failures.entries[serverId];
      failure.attempts >= 1 && failure.until <= now + RetryAfterMs(failure.attempts)
  }

  lemma StepKeepsBackOff(
      state: State, event: Event, serverId: ServerId, credential: Credential, until: int, from: int)
    requires RecordedBefore(state.failures, from)
    requires HeldUntil(state.failures, serverId, credential, until)
    requires !EndsBackOff(state, event, serverId, credential) && Timed(from, [event])
    ensures HeldUntil(Next(state, event).failures, serverId, credential, until)
  {
    if Enabled(state, event) && event.Answer? {
      var answered := state.inFlight[event.request];
      if answered.serverId == serverId && event.outcome.Unauthorized? {
        DelaysGrow(state.failures.entries[serverId].attempts);
      }
    }
  }

  lemma StepKeepsTimes(state: State, event: Event, from: int)
    requires RecordedBefore(state.failures, from) && Timed(from, [event])
    ensures RecordedBefore(Next(state, event).failures, ClockAfter(from, event))
  {
  }

  /** Over any run in which nothing ends the back-off, the entry stays and its end is never moved forward. */
  lemma {:induction false} BackOffPersists(
      state: State, events: seq<Event>, serverId: ServerId, credential: Credential, until: int, from: int)
    requires RecordedBefore(state.failures, from)
    requires HeldUntil(state.failures, serverId, credential, until)
    requires NeverEnds(state, events, serverId, credential) && Timed(from, events)
    ensures HeldUntil(Run(state, events).failures, serverId, credential, until)
    decreases |events|
  {
    if events != [] {
      var event := events[0];
      assert [event][1..] == [];
      StepKeepsBackOff(state, event, serverId, credential, until, from);
      StepKeepsTimes(state, event, from);
      BackOffPersists(
        Next(state, event), events[1..], serverId, credential, until, ClockAfter(from, event));
    }
  }

  /** The request an event starts, if it starts one. */
  function Started(state: State, event: Event): Option<Request> {
    if Next(state, event).nextRequest == state.nextRequest then None
    else if event.Call? then Some(Request(event.serverId, event.credential))
    else if event.Resume? && event.call in state.waiting then
      Some(Request(state.waiting[event.call].serverId, state.waiting[event.call].credential))
    else None
  }

  lemma BackOffHolds(state: State, rejected: RequestId, now: int, events: seq<Event>, event: Event)
    requires rejected in state.inFlight && RecordedBefore(state.failures, now)
    requires
      var after := Next(state, Answer(rejected, Unauthorized, now));
      var request := state.inFlight[rejected];
      && NeverEnds(after, events, request.serverId, request.credential) && Timed(now, events)
      && (event.Call? || event.Resume?)
      && event.now < after.failures.entries[request.serverId].until
    ensures
      var after := Next(state, Answer(rejected, Unauthorized, now));
      Started(Run(after, events), event) != Some(state.inFlight[rejected])
  {
    var request := state.inFlight[rejected];
    var after := Next(state, Answer(rejected, Unauthorized, now));
    StepKeepsTimes(state, Answer(rejected, Unauthorized, now), now);
    BackOffPersists(
      after, events, request.serverId, request.credential, after.failures.entries[request.serverId].until, now);
  }

  // What every reachable state satisfies.

  ghost predicate Sound(state: State, now: int) {
    && WellFormed(state.failures)
    && RecordedBefore(state.failures, now)
    && forall request :: request in state.inFlight ==> request < state.nextRequest
  }

  lemma {:induction false} SoundOverRuns(state: State, events: seq<Event>, from: int)
    requires Sound(state, from) && Timed(from, events)
    ensures from <= Clock(from, events) && Sound(Run(state, events), Clock(from, events))
    decreases |events|
  {
    if events != [] {
      var event := events[0];
      assert [event][1..] == [];
      StepKeepsBound(state, event);
      StepKeepsTimes(state, event, from);
      SoundOverRuns(Next(state, event), events[1..], ClockAfter(from, event));
    }
  }

  lemma SoundLater(state: State, from: int, now: int)
    requires Sound(state, from) && from <= now
    ensures Sound(state, now)
  {
  }

  /**
    Over every run from the start: between a recorded 401 and its end no request with that
    credential starts, unless the back-off was ended in one of the four ways before.
   */
  lemma {:induction false} NoRequestWhileBackingOff(
      history: seq<Event>, from: int, rejected: RequestId, now: int, events: seq<Event>, event: Event)
    requires Timed(from, history) && Clock(from, history) <= now
    requires rejected in Run(IDLE, history).inFlight
    requires
      var state := Run(IDLE, history);
      var after := Next(state, Answer(rejected, Unauthorized, now));
      var request := state.inFlight[rejected];
      && NeverEnds(after, events, request.serverId, request.credential) && Timed(now, events)
      && (event.Call? || event.Resume?)
      && event.now < after.failures.entries[request.serverId].until
    ensures
      var state := Run(IDLE, history);
      Started(Run(Next(state, Answer(rejected, Unauthorized, now)), events), event) != Some(state.inFlight[rejected])
  {
    SoundOverRuns(IDLE, history, from);
    BackOffHolds(Run(IDLE, history), rejected, now, events, event);
  }

  /** A 401 for another credential of the server ends the back-off, however long it had to go. */
  lemma OtherCredentialEndsBackOff(state: State, request: RequestId, now: int, credential: Credential, later: int)
    requires request in state.inFlight && state.inFlight[request].credential != credential
    ensures
      var after := Next(state, Answer(request, Unauthorized, now));
      !BacksOff(after.failures, state.inFlight[request].serverId, credential, later)
  {
  }

  /** A reset forgets the failure of its server, whatever the credential, and of no other server. */
  lemma ResetForgets(state: State, serverId: ServerId, credential: Credential, now: int)
    requires WellFormed(state.failures)
    ensures
      var after := Next(state, ResetAccess(serverId));
      && WellFormed(after.failures) && !BacksOff(after.failures, serverId, credential, now)
      && forall other | other != serverId ::
           BacksOff(after.failures, other, credential, now) <==> BacksOff(state.failures, other, credential, now)
  {
    RemoveKeyFacts(state.failures.order, serverId);
  }

  // The delays over runs.

  /** The server has been rejected at least so often in a row with the credential. */
  predicate RejectedAtLeast(failures: Failures, serverId: ServerId, credential: Credential, attempts: nat) {
    && serverId in failures.entries
    && failures.entries[serverId].credential == credential
    && failures.entries[serverId].attempts >= attempts
  }

  lemma {:induction false} AttemptsPersist(
      state: State, events: seq<Event>, serverId: ServerId, credential: Credential, attempts: nat)
    requires RejectedAtLeast(state.failures, serverId, credential, attempts)
    requires NeverEnds(state, events, serverId, credential)
    ensures RejectedAtLeast(Run(state, events).failures, serverId, credential, attempts)
    decreases |events|
  {
    if events != [] {
      AttemptsPersist(Next(state, events[0]), events[1..], serverId, credential, attempts);
    }
  }

  lemma {:induction false} DelaysAreMonotone(fewer: nat, more: nat)
    requires 1 <= fewer <= more
    ensures 5 * MINUTE_MS <= RetryAfterMs(fewer) <= RetryAfterMs(more) <= 30 * MINUTE_MS
    decreases more
  {
    hide RetryAfterMs;
    DelaysGrow(fewer);
    if fewer < more {
      DelaysAreMonotone(fewer, more - 1);
      DelaysGrow(more - 1);
    }
  }

  /**
    Over every run from the start in which nothing ends the back-off between two rejections of a
    server's credential, the later one waits at least as long as the earlier one.
   */
  lemma {:induction false} RepeatedRejectionWaitsLonger(
      history: seq<Event>, first: RequestId, firstAt: int, events: seq<Event>, second: RequestId, secondAt: int)
    requires first in Run(IDLE, history).inFlight
    requires
      var rejected := Next(Run(IDLE, history), Answer(first, Unauthorized, firstAt));
      var request := Run(IDLE, history).inFlight[first];
      && NeverEnds(rejected, events, request.serverId, request.credential)
      && second in Run(rejected, events).inFlight && Run(rejected, events).inFlight[second] == request
    ensures
      var serverId := Run(IDLE, history).inFlight[first].serverId;
      var once := Next(Run(IDLE, history), Answer(first, Unauthorized, firstAt));
      var again := Next(Run(once, events), Answer(second, Unauthorized, secondAt));
      && serverId in once.failures.entries && serverId in again.failures.entries
      && 5 * MINUTE_MS <= once.failures.entries[serverId].until - firstAt
      && once.failures.entries[serverId].until - firstAt <= again.failures.entries[serverId].until - secondAt
      && again.failures.entries[serverId].until - secondAt <= 30 * MINUTE_MS
  {
    hide RetryAfterMs;
    var state := Run(IDLE, history);
    var request := state.inFlight[first];
    FailuresStayBounded(IDLE, history);
    var once := Next(state, Answer(first, Unauthorized, firstAt));
    var attempts := once.failures.entries[request.serverId].attempts;
    AttemptsPersist(once, events, request.serverId, request.credential, attempts);
    DelaysAreMonotone(attempts, Run(once, events).failures.entries[request.serverId].attempts + 1);
  }

  // Calls that wait for a request.

  predicate IsWaiting(state: State, call: CallId, waiting: Waiting) {
    call in state.waiting && state.waiting[call] == waiting
  }

  lemma OneCallWaits(state: State, event: Event, serverId: ServerId)
    requires serverId in state.requests && event.Call? && event.serverId == serverId && event.call !in state.waiting
    ensures Next(state, event)
      == state.(waiting := state.waiting[event.call := Waiting(serverId, event.credential, state.requests[serverId])])
  {
  }

  /** Any number of calls made while a request is registered for their server send nothing and all wait for it. */
  lemma {:induction false} CallsAllWait(state: State, calls: seq<Event>, serverId: ServerId)
    requires serverId in state.requests
    requires forall i :: 0 <= i < |calls| ==>
      calls[i].Call? && calls[i].serverId == serverId && calls[i].call !in state.waiting
    requires forall i, j :: 0 <= i < j < |calls| ==> calls[i].call != calls[j].call
    ensures
      var after := Run(state, calls);
      && after == state.(waiting := after.waiting)
      && (forall call :: call in state.waiting ==> IsWaiting(after, call, state.waiting[call]))
      && forall i :: 0 <= i < |calls| ==>
           IsWaiting(after, calls[i].call, Waiting(serverId, calls[i].credential, state.requests[serverId]))
    decreases |calls|
  {
    if calls != [] {
      hide Next;
      var next, rest := Next(state, calls[0]), calls[1..];
      OneCallWaits(state, calls[0], serverId);
      assert forall i :: 0 <= i < |rest| ==> rest[i] == calls[i + 1];
      CallsAllWait(next, rest, serverId);
      var after := Run(next, rest);
      assert IsWaiting(next, calls[0].call, Waiting(serverId, calls[0].credential, state.requests[serverId]));
      forall i | 0 <= i < |calls|
        ensures IsWaiting(after, calls[i].call, Waiting(serverId, calls[i].credential, state.requests[serverId]))
      {
        if i > 0 {
          assert calls[i] == rest[i - 1];
        }
      }
    }
  }

  /** A request without an answer stays in flight, and a call waiting for it keeps waiting. */
  lemma {:induction false} WaitsForTheAnswer(
      state: State, events: seq<Event>, call: CallId, waiting: Waiting, request: Request)
    requires IsWaiting(state, call, waiting) && waiting.on in state.inFlight && state.inFlight[waiting.on] == request
    requires waiting.on < state.nextRequest
    requires forall event :: event in events && event.Answer? ==> event.request != waiting.on
    ensures IsWaiting(Run(state, events), call, waiting)
    ensures waiting.on in Run(state, events).inFlight && Run(state, events).inFlight[waiting.on] == request
    ensures !Sends(state, events, call)
    decreases |events|
  {
    if events != [] {
      assert events[0] in events;
      WaitsForTheAnswer(Next(state, events[0]), events[1..], call, waiting, request);
    }
  }

  lemma {:induction false} WaitsToResume(state: State, events: seq<Event>, call: CallId, waiting: Waiting)
    requires IsWaiting(state, call, waiting)
    requires forall event :: event in events && event.Resume? ==> event.call != call
    ensures IsWaiting(Run(state, events), call, waiting)
    ensures !Sends(state, events, call)
    decreases |events|
  {
    if events != [] {
      assert events[0] in events;
      WaitsToResume(Next(state, events[0]), events[1..], call, waiting);
    }
  }

  /** Somewhere in the run the call starts a request of its own. */
  predicate Sends(state: State, events: seq<Event>, call: CallId)
    decreases |events|
  {
    && events != []
    && (|| ((events[0].Call? || events[0].Resume?) && events[0].call == call && Started(state, events[0]).Some?)
        || Sends(Next(state, events[0]), events[1..], call))
  }

  lemma {:induction false} SendsInParts(state: State, front: seq<Event>, back: seq<Event>, call: CallId)
    ensures Sends(state, front + back, call) <==> Sends(state, front, call) || Sends(Run(state, front), back, call)
    decreases |front|
  {
    if front == [] {
      assert front + back == back;
    } else {
      assert (front + back)[0] == front[0] && (front + back)[1..] == front[1..] + back;
      SendsInParts(Next(state, front[0]), front[1..], back, call);
    }
  }

  /** How things go on after a call: what happens before a 401, when it arrives, what happens then, and when the call goes on. */
  datatype Continuation = Continuation(before: seq<Event>, answered: int, after: seq<Event>, resumed: int)

  /** The request ends in a 401 whose back-off still stands when the call goes on. */
  predicate EndsStanding(start: State, called: int, call: CallId, rejected: RequestId, request: Request, c: Continuation) {
    var next := Next(Run(start, c.before), Answer(rejected, Unauthorized, c.answered));
    && (forall event :: event in c.before && event.Answer? ==> event.request != rejected)
    && (forall event :: event in c.after && event.Resume? ==> event.call != call)
    && Timed(called, c.before) && Clock(called, c.before) <= c.answered
    && Timed(c.answered, c.after) && Clock(c.answered, c.after) <= c.resumed
    && NeverEnds(next, c.after, request.serverId, request.credential)
    && request.serverId in next.failures.entries && c.resumed < next.failures.entries[request.serverId].until
  }

  /** What the call itself does from its beginning until it has gone on. */
  predicate SendsInAll(state: State, begin: Event, call: CallId, rejected: RequestId, c: Continuation) {
    || Sends(state, [begin], call)
    || Sends(Next(state, begin), c.before + [Answer(rejected, Unauthorized, c.answered)] + c.after + [Resume(call, c.resumed)], call)
  }

  lemma SingleEvent(state: State, event: Event, call: CallId)
    ensures Run(state, [event]) == Next(state, event)
    ensures Sends(state, [event], call) <==>
      (event.Call? || event.Resume?) && event.call == call && Started(state, event).Some?
  {
    assert [event][1..] == [];
  }

  lemma {:induction false} RegisteredHoldsBack(
      state: State, called: int, call: CallId, rejected: RequestId, request: Request, c: Continuation)
    requires Sound(state, called) && call !in state.waiting
    requires rejected in state.inFlight && state.inFlight[rejected] == request
    requires request.serverId in state.requests && state.requests[request.serverId] == rejected
    requires EndsStanding(Next(state, Call(call, request.serverId, request.credential, called)), called, call, rejected, request, c)
    ensures !SendsInAll(state, Call(call, request.serverId, request.credential, called), call, rejected, c)
  {
    hide Timed, NeverEnds, Sends;
    var begin := Call(call, request.serverId, request.credential, called);
    var waiting := Waiting(request.serverId, request.credential, rejected);
    var answer, resume := Answer(rejected, Unauthorized, c.answered), Resume(call, c.resumed);
    var start := Next(state, begin);
    var waited := Run(start, c.before);
    var next := Next(waited, answer);
    SingleEvent(state, begin, call);
    SoundOverRuns(start, c.before, called);
    SoundLater(waited, Clock(called, c.before), c.answered);
    WaitsForTheAnswer(start, c.before, call, waiting, request);
    SingleEvent(waited, answer, call);
    WaitsToResume(next, c.after, call, waiting);
    BackOffHolds(waited, rejected, c.answered, c.after, resume);
    SingleEvent(Run(next, c.after), resume, call);
    SendsInParts(start, c.before + [answer] + c.after, [resume], call);
    SendsInParts(start, c.before + [answer], c.after, call);
    SendsInParts(start, c.before, [answer], call);
    RunInParts(start, c.before, [answer]);
    RunInParts(start, c.before + [answer], c.after);
  }

  lemma {:induction false} RunInParts(state: State, front: seq<Event>, back: seq<Event>)
    ensures Run(state, front + back) == Run(Run(state, front), back)
    decreases |front|
  {
    if front == [] {
      assert front + back == back;
    } else {
      assert (front + back)[0] == front[0] && (front + back)[1..] == front[1..] + back;
      RunInParts(Next(state, front[0]), front[1..], back);
    }
  }

  /** Where the call is not held back: let the registered request fail first, if there is one, and go on. */
  function WayAround(state: State, call: CallId, serverId: ServerId, called: int): Continuation {
    var before :=
      if serverId !in state.requests then []
      else if state.requests[serverId] in state.inFlight then
        [Answer(state.requests[serverId], FailedOtherwise, called), Resume(call, called)]
      else [Resume(call, called)];
    Continuation(before, called, [], called)
  }

  lemma NothingIsTimed(called: int)
    ensures Timed(called, []) && Clock(called, []) == called
  {
  }

  lemma WayAroundIsTimed(state: State, call: CallId, serverId: ServerId, called: int)
    ensures
      var c := WayAround(state, call, serverId, called);
      && c.answered == c.resumed == called && c.after == []
      && Timed(called, c.before) && Clock(called, c.before) == called
  {
    var resume := Resume(call, called);
    assert [resume][1..] == [];
    assert Timed(called, [resume]) && Clock(called, [resume]) == called;
    if serverId in state.requests {
      var failed := Answer(state.requests[serverId], FailedOtherwise, called);
      assert [failed, resume][1..] == [resume];
      assert Timed(called, [failed, resume]) && Clock(called, [failed, resume]) == called;
    }
  }

  lemma {:induction false} OthersHoldNobody(state: State, called: int, call: CallId, rejected: RequestId, request: Request)
    requires Sound(state, called) && call !in state.waiting
    requires rejected in state.inFlight && state.inFlight[rejected] == request
    requires !(request.serverId in state.requests && state.requests[request.serverId] == rejected)
    requires !BacksOff(state.failures, request.serverId, request.credential, called)
    ensures
      var c := WayAround(state, call, request.serverId, called);
      var begin := Call(call, request.serverId, request.credential, called);
      EndsStanding(Next(state, begin), called, call, rejected, request, c) && SendsInAll(state, begin, call, rejected, c)
  {
    var begin := Call(call, request.serverId, request.credential, called);
    var c := WayAround(state, call, request.serverId, called);
    var start := Next(state, begin);
    SingleEvent(state, begin, call);
    DelaysGrow(NextFailure(state.failures, request.serverId, request.credential, called).attempts);
    WayAroundIsTimed(state, call, request.serverId, called);
    hide Timed, Clock;
    assert Timed(called, []) && Clock(called, []) == called by { NothingIsTimed(called); }
    var answer, resume := Answer(rejected, Unauthorized, called), Resume(call, called);
    if request.serverId in state.requests {
      var registered := state.requests[request.serverId];
      var failed := Answer(registered, FailedOtherwise, called);
      var ready := if registered in state.inFlight then Next(start, failed) else start;
      SingleEvent(ready, resume, call);
      assert Started(ready, resume).Some?;
      if registered in state.inFlight {
        assert c.before == [failed] + [resume];
        SendsInParts(start, [failed], [resume], call);
        SingleEvent(start, failed, call);
        assert c.before[1..] == [resume];
      }
      assert Sends(start, c.before, call);
      SendsInParts(start, c.before, [answer] + c.after + [resume], call);
      assert c.before + [answer] + c.after + [resume] == c.before + ([answer] + c.after + [resume]);
    }
  }

  /**
    In every reachable state with a request in flight: a call made now with the same credential sends
    nothing in every continuation in which that request ends in a 401 still standing when the call goes
    on, if and only if that request is the one registered for the server.
   */
  lemma {:induction false} HeldBackExactlyWhenRegistered(
      history: seq<Event>, from: int, called: int, call: CallId, rejected: RequestId)
    requires Timed(from, history) && Clock(from, history) <= called
    requires call !in Run(IDLE, history).waiting && rejected in Run(IDLE, history).inFlight
    requires
      var request := Run(IDLE, history).inFlight[rejected];
      !BacksOff(Run(IDLE, history).failures, request.serverId, request.credential, called)
    ensures
      var state := Run(IDLE, history);
      var request := state.inFlight[rejected];
      var begin := Call(call, request.serverId, request.credential, called);
      (forall c :: EndsStanding(Next(state, begin), called, call, rejected, request, c) ==>
        !SendsInAll(state, begin, call, rejected, c))
      <==> request.serverId in state.requests && state.requests[request.serverId] == rejected
  {
    hide EndsStanding, SendsInAll;
    var state := Run(IDLE, history);
    var request := state.inFlight[rejected];
    var begin := Call(call, request.serverId, request.credential, called);
    SoundOverRuns(IDLE, history, from);
    SoundLater(state, Clock(from, history), called);
    if request.serverId in state.requests && state.requests[request.serverId] == rejected {
      forall c | EndsStanding(Next(state, begin), called, call, rejected, request, c)
        ensures !SendsInAll(state, begin, call, rejected, c)
      {
        RegisteredHoldsBack(state, called, call, rejected, request, c);
      }
    } else {
      OthersHoldNobody(state, called, call, rejected, request);
    }
  }

  /** Two calls that waited for the same success are both in flight afterwards. */
  function FanOut(serverId: ServerId, credential: Credential): seq<Event> {
    [Call(1, serverId, credential, 0), Call(2, serverId, credential, 0), Call(3, serverId, credential, 0),
     Answer(0, Succeeded, 0), Settle(0, serverId), Resume(2, 0), Resume(3, 0)]
  }

  lemma FanOutReaches(serverId: ServerId, credential: Credential)
    ensures Run(IDLE, FanOut(serverId, credential))
      == State(Failures([], map[]), map[serverId := 2],
               map[1 := Request(serverId, credential), 2 := Request(serverId, credential)], map[], 3)
  {
    var request := Request(serverId, credential);
    var none := Failures([], map[]);
    var events := FanOut(serverId, credential);
    var s1 := Next(IDLE, events[0]);
    assert s1 == State(none, map[serverId := 0], map[0 := request], map[], 1);
    var s3 := Next(Next(s1, events[1]), events[2]);
    var waiting := Waiting(serverId, credential, 0);
    assert s3 == s1.(waiting := map[2 := waiting, 3 := waiting]);
    var s5 := Next(Next(s3, events[3]), events[4]);
    assert s5 == State(none, map[], map[], map[2 := waiting, 3 := waiting], 1);
    var s6 := Next(s5, events[5]);
    assert s6 == State(none, map[serverId := 1], map[1 := request], map[3 := waiting], 2);
    var s7 := Next(s6, events[6]);
    assert s7 == State(none, map[serverId := 2], map[1 := request, 2 := request], map[], 3);
    calc {
      Run(IDLE, events);
      Run(s1, events[1..]);
      { assert events[1..][1..] == events[2..] && events[2..][1..] == events[3..]; }
      Run(s3, events[3..]);
      { assert events[3..][1..] == events[4..] && events[4..][1..] == events[5..]; }
      Run(s5, events[5..]);
      { assert events[5..][1..] == events[6..]; }
      Run(s6, events[6..]);
      { assert events[6..][1..] == []; }
      Run(s7, []);
      s7;
    }
  }

  /**
    The registered request matters: with two requests of one server in flight, a call made then
    waits for the later one, and sends its own request when that one succeeds, although the
    earlier one is still in flight and ends in a 401.
   */
  lemma EarlierRejectionHoldsNobody(serverId: ServerId, credential: Credential)
    ensures
      var two := Run(IDLE, FanOut(serverId, credential));
      var succeeded := Next(Next(two, Call(4, serverId, credential, 0)), Answer(2, Succeeded, 1));
      && 1 in two.inFlight && 1 in succeeded.inFlight
      && Started(succeeded, Resume(4, 2)) == Some(Request(serverId, credential))
      && BacksOff(Next(Next(succeeded, Resume(4, 2)), Answer(1, Unauthorized, 3)).failures, serverId, credential, 4)
  {
    FanOutReaches(serverId, credential);
    DelaysGrow(1);
  }
}
