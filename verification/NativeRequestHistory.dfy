/**
  The back-off told from the events alone: how many rejections in a row, how long
  to wait after them, and which calls are sent
  (src/service/native-plugin-request-service.ts).
 */
module NativeRequestHistory {
  import opened Prelude
  import opened NativeRequests

  function After(events: seq<Event>): State {
    Run(IDLE, events)
  }

  lemma AfterOneMore(front: seq<Event>, last: Event)
    ensures After(front + [last]) == Next(After(front), last)
  {
    hide Next;
    RunInParts(IDLE, front, [last]);
    assert [last][1..] == [];
  }

  /** The request whose 401 this event is. */
  function RejectedBy(before: State, event: Event): Option<Request> {
    if event.Answer? && event.request in before.inFlight && event.outcome.Unauthorized?
    then Some(before.inFlight[event.request]) else None
  }

  function SucceededBy(before: State, event: Event): Option<ServerId> {
    if event.Answer? && event.request in before.inFlight && event.outcome.Succeeded?
    then Some(before.inFlight[event.request].serverId) else None
  }

  /** A 401 of a server that has no failure makes room for it among 5000, at the cost of the first in order. */
  predicate MakesRoom(before: State, rejected: ServerId, serverId: ServerId) {
    && rejected !in before.failures.entries
    && |before.failures.order| >= 5000 && before.failures.order[0] == serverId
  }

  /**
    How many 401s the server's credential has had since the last success, reset, eviction or 401 of
    another credential of the server.
   */
  function Streak(events: seq<Event>, serverId: ServerId, credential: Credential): nat {
    if events == [] then 0
    else
      var front, last := events[..|events| - 1], events[|events| - 1];
      var rejected := RejectedBy(After(front), last);
      if rejected == Some(Request(serverId, credential)) then Streak(front, serverId, credential) + 1
      else if rejected.Some? && rejected.value.serverId == serverId then 0
      else if rejected.Some? && MakesRoom(After(front), rejected.value.serverId, serverId) then 0
      else if SucceededBy(After(front), last) == Some(serverId) || last == ResetAccess(serverId) then 0
      else Streak(front, serverId, credential)
  }

  /** When the server's credential was rejected last. */
  function LastRejected(events: seq<Event>, serverId: ServerId, credential: Credential): Option<int> {
    if events == [] then None
    else
      var front, last := events[..|events| - 1], events[|events| - 1];
      if RejectedBy(After(front), last) == Some(Request(serverId, credential)) then Some(last.now)
      else LastRejected(front, serverId, credential)
  }

  /** 5, 10, 20 and then always 30 minutes. */
  function Delay(streak: nat): int {
    if streak == 1 then 300_000 else if streak == 2 then 600_000 else if streak == 3 then 1_200_000 else 1_800_000
  }

  lemma RetryIsDelay(attempts: nat)
    requires attempts >= 1
    ensures RetryAfterMs(attempts) == Delay(attempts)
  {
    assert Power2(0) == 1 && Power2(1) == 2 && Power2(2) == 4 && Power2(3) == 8;
    assert Min(attempts - 1, 3) in {0, 1, 2, 3};
  }

  /** The stored failure of a server tells its streak and the end of its delay, and there is one exactly in a streak. */
  ghost predicate Told(events: seq<Event>, serverId: ServerId) {
    var entries := After(events).failures.entries;
    && (serverId in entries ==>
          var failure := entries[serverId];
          && failure.attempts == Streak(events, serverId, failure.credential) >= 1
          && LastRejected(events, serverId, failure.credential).Some?
          && failure.until == LastRejected(events, serverId, failure.credential).value + Delay(failure.attempts))
    && forall credential :: Streak(events, serverId, credential) > 0 ==>
         serverId in entries && entries[serverId].credential == credential
  }

  /** The streak after one more event, given the state before it. */
  function Continued(before: State, event: Event, serverId: ServerId, credential: Credential, streak: nat): nat {
    var rejected := RejectedBy(before, event);
    if rejected == Some(Request(serverId, credential)) then streak + 1
    else if rejected.Some? && rejected.value.serverId == serverId then 0
    else if rejected.Some? && MakesRoom(before, rejected.value.serverId, serverId) then 0
    else if SucceededBy(before, event) == Some(serverId) || event == ResetAccess(serverId) then 0
    else streak
  }

  lemma StreakOneMore(front: seq<Event>, last: Event, serverId: ServerId, credential: Credential)
    ensures Streak(front + [last], serverId, credential)
      == Continued(After(front), last, serverId, credential, Streak(front, serverId, credential))
    ensures LastRejected(front + [last], serverId, credential)
      == if RejectedBy(After(front), last) == Some(Request(serverId, credential)) then Some(last.now)
         else LastRejected(front, serverId, credential)
  {
    hide After, RejectedBy, SucceededBy, MakesRoom;
    var events := front + [last];
    assert events[..|events| - 1] == front && events[|events| - 1] == last;
  }

  /** One step of the failure map against one step of the streak. */
  lemma FailureStep(before: State, event: Event, serverId: ServerId, credential: Credential)
    requires WellFormed(before.failures)
    ensures
      var entries, after := before.failures.entries, Next(before, event).failures.entries;
      var known := serverId in entries && entries[serverId].credential == credential;
      if RejectedBy(before, event) == Some(Request(serverId, credential)) then
        && serverId in after && after[serverId].credential == credential
        && after[serverId].attempts == (if known then entries[serverId].attempts + 1 else 1)
        && after[serverId].until == event.now + Delay(after[serverId].attempts)
      else
        (serverId in after && after[serverId].credential == credential <==>
          known && Continued(before, event, serverId, credential, 1) == 1)
        && (serverId in after && after[serverId].credential == credential ==> after[serverId] == entries[serverId])
  {
    hide RetryAfterMs;
    if RejectedBy(before, event).Some? {
      var request := before.inFlight[event.request];
      RetryIsDelay(NextFailure(before.failures, request.serverId, request.credential, event.now).attempts);
      assert before.failures.order != [] ==> before.failures.order[0] in before.failures.order;
    }
  }

  lemma ToldOneMore(front: seq<Event>, last: Event, serverId: ServerId)
    requires Told(front, serverId) && WellFormed(After(front).failures)
    ensures Told(front + [last], serverId)
  {
    hide After, Streak, LastRejected, Next, RejectedBy, SucceededBy, MakesRoom;
    AfterOneMore(front, last);
    forall credential: Credential
      ensures
        var entries := After(front + [last]).failures.entries;
        (Streak(front + [last], serverId, credential) > 0 ==>
          serverId in entries && entries[serverId].credential == credential)
        && (serverId in entries && entries[serverId].credential == credential ==>
              && entries[serverId].attempts == Streak(front + [last], serverId, credential) >= 1
              && LastRejected(front + [last], serverId, credential).Some?
              && entries[serverId].until
                 == LastRejected(front + [last], serverId, credential).value + Delay(entries[serverId].attempts))
    {
      StreakOneMore(front, last, serverId, credential);
      FailureStep(After(front), last, serverId, credential);
    }
  }

  /**
    After every run the failure of a server counts exactly the 401s of its streak, and lasts 5, 10, 20 and
    then always 30 minutes from the last of them; outside a streak there is none.
   */
  lemma {:induction false} FailuresTellTheStreak(events: seq<Event>, serverId: ServerId)
    ensures Told(events, serverId)
  {
    hide RetryAfterMs, After, WellFormed;
    if events == [] {
      NothingHappened(serverId);
    } else {
      var front, last := events[..|events| - 1], events[|events| - 1];
      assert events == front + [last];
      FailuresTellTheStreak(front, serverId);
      Bounded(front);
      ToldOneMore(front, last, serverId);
    }
  }

  lemma NothingHappened(serverId: ServerId)
    ensures Told([], serverId)
  {
  }

  lemma Bounded(events: seq<Event>)
    ensures WellFormed(After(events).failures)
  {
    FailuresStayBounded(IDLE, events);
  }

  /** Right after a success the server has no failure, and no call for it backs off, whatever its credential. */
  lemma SuccessForgets(state: State, request: RequestId, now: int, credential: Credential, later: int)
    requires request in state.inFlight && WellFormed(state.failures)
    ensures
      var after := Next(state, Answer(request, Succeeded, now));
      var serverId := state.inFlight[request].serverId;
      && serverId !in after.failures.entries && !BacksOff(after.failures, serverId, credential, later)
      && (forall other :: other != serverId ==>
            (other in after.failures.entries <==> other in state.failures.entries)
            && (other in state.failures.entries ==> after.failures.entries[other] == state.failures.entries[other]))
      && WellFormed(after.failures)
  {
    RemoveKeyFacts(state.failures.order, state.inFlight[request].serverId);
  }

  /** At a recorded 401 the wait is the delay of its streak. */
  lemma {:induction false} WaitAfterRejection(history: seq<Event>, request: RequestId, now: int)
    requires request in After(history).inFlight
    ensures
      var Request(serverId, credential) := After(history).inFlight[request];
      var events := history + [Answer(request, Unauthorized, now)];
      var entries := After(events).failures.entries;
      && serverId in entries && entries[serverId].credential == credential
      && entries[serverId].attempts == Streak(events, serverId, credential)
      && entries[serverId].until - now == Delay(Streak(events, serverId, credential))
  {
    hide After, Next, Streak, LastRejected;
    var answer, rejected := Answer(request, Unauthorized, now), After(history).inFlight[request];
    FailuresTellTheStreak(history + [answer], rejected.serverId);
    AfterOneMore(history, answer);
    Bounded(history);
    StreakOneMore(history, answer, rejected.serverId, rejected.credential);
    FailureStep(After(history), answer, rejected.serverId, rejected.credential);
  }

  /** The call that is free to go on is sent, or answered as backing off. */
  predicate MayBeSent(history: seq<Event>, serverId: ServerId, credential: Credential, now: int) {
    var last := LastRejected(history, serverId, credential);
    Streak(history, serverId, credential) == 0
    || last.None? || last.value + Delay(Streak(history, serverId, credential)) <= now
  }

  lemma {:induction false} BackingOffExactly(history: seq<Event>, serverId: ServerId, credential: Credential, now: int)
    ensures BacksOff(After(history).failures, serverId, credential, now) <==> !MayBeSent(history, serverId, credential, now)
  {
    hide After;
    FailuresTellTheStreak(history, serverId);
  }

  /**
    Which calls send a request: one that finds no request registered for its server, or has waited for the one
    it found, sends its own if and only if its credential is in no streak of 401s or the wait after the last is over.
   */
  lemma {:induction false} SentExactly(history: seq<Event>, event: Event, serverId: ServerId, credential: Credential)
    requires
      || (event.Call? && event.call !in After(history).waiting && event.serverId == serverId
          && event.credential == credential && serverId !in After(history).requests)
      || (event.Resume? && event.call in After(history).waiting
          && After(history).waiting[event.call].on !in After(history).inFlight
          && After(history).waiting[event.call].serverId == serverId
          && After(history).waiting[event.call].credential == credential)
    ensures
      Started(After(history), event)
      == if MayBeSent(history, serverId, credential, event.now) then Some(Request(serverId, credential)) else None
  {
    hide After, MayBeSent;
    BackingOffExactly(history, serverId, credential, event.now);
  }

  /** A call that has gone on waits no longer, and no other call is touched. */
  lemma ResumedWaitsNoLonger(state: State, call: CallId, now: int)
    requires call in state.waiting && state.waiting[call].on !in state.inFlight
    ensures Next(state, Resume(call, now)).waiting == map other | other in state.waiting && other != call :: state.waiting[other]
  {
  }

  // Requests in flight and registered requests.

  /** The event starts the request with this number. */
  predicate Starts(events: seq<Event>, i: nat, request: RequestId, what: Request)
    requires i < |events|
  {
    After(events[..i]).nextRequest == request && Started(After(events[..i]), events[i]) == Some(what)
  }

  predicate Answers(event: Event, request: RequestId) {
    event.Answer? && event.request == request
  }

  predicate StartedUnanswered(events: seq<Event>, i: nat, request: RequestId, what: Request) {
    && i < |events| && Starts(events, i, request, what)
    && forall j :: i < j < |events| ==> !Answers(events[j], request)
  }

  lemma StartsInPrefix(front: seq<Event>, last: Event, i: nat, request: RequestId, what: Request)
    requires i <= |front|
    ensures i < |front| ==> (Starts(front + [last], i, request, what) <==> Starts(front, i, request, what))
    ensures i == |front| ==>
      (Starts(front + [last], i, request, what) <==>
        After(front).nextRequest == request && Started(After(front), last) == Some(what))
  {
    hide After, Started;
    assert (front + [last])[..i] == front[..i];
    assert front[..|front|] == front;
  }

  lemma UnansweredOneMore(front: seq<Event>, last: Event, i: nat, request: RequestId, what: Request)
    ensures StartedUnanswered(front + [last], i, request, what) <==>
      || (i < |front| && StartedUnanswered(front, i, request, what) && !Answers(last, request))
      || (i == |front| && After(front).nextRequest == request && Started(After(front), last) == Some(what))
  {
    hide Starts, Started, After, Answers;
    var events := front + [last];
    if i <= |front| {
      StartsInPrefix(front, last, i, request, what);
    }
    assert forall j :: 0 <= j < |front| ==> events[j] == front[j];
    assert events[|front|] == last;
  }

  lemma {:induction false} NumbersGrow(events: seq<Event>)
    ensures forall request :: request in After(events).inFlight ==> request < After(events).nextRequest
  {
    hide Recorded;
    if events != [] {
      var front, last := events[..|events| - 1], events[|events| - 1];
      assert events == front + [last];
      NumbersGrow(front);
      AfterOneMore(front, last);
    }
  }

  /** What is in flight is exactly what was started and not answered since. */
  lemma {:induction false} InFlightExactly(events: seq<Event>, request: RequestId, what: Request)
    ensures request in After(events).inFlight && After(events).inFlight[request] == what
      <==> exists i: nat :: StartedUnanswered(events, i, request, what)
  {
    hide StartedUnanswered, Recorded, BacksOff;
    if events == [] {
      assert !(exists i: nat :: StartedUnanswered([], i, request, what)) by { NothingStarted(request, what); }
    } else {
      var front, last := events[..|events| - 1], events[|events| - 1];
      assert events == front + [last];
      InFlightExactly(front, request, what);
      NumbersGrow(front);
      AfterOneMore(front, last);
      InFlightStep(After(front), last, request, what);
      forall i: nat
        ensures StartedUnanswered(events, i, request, what) <==>
          || (i < |front| && StartedUnanswered(front, i, request, what) && !Answers(last, request))
          || (i == |front| && After(front).nextRequest == request && Started(After(front), last) == Some(what))
      {
        UnansweredOneMore(front, last, i, request, what);
      }
      UnansweredIsBefore(front, request, what);
      if i: nat :| StartedUnanswered(front, i, request, what) && !Answers(last, request) {
        assert StartedUnanswered(events, i, request, what);
      }
      if After(front).nextRequest == request && Started(After(front), last) == Some(what) {
        assert StartedUnanswered(events, |front|, request, what);
      }
    }
  }

  lemma UnansweredIsBefore(events: seq<Event>, request: RequestId, what: Request)
    ensures forall i: nat :: StartedUnanswered(events, i, request, what) ==> i < |events|
  {
  }

  lemma NothingStarted(request: RequestId, what: Request)
    ensures forall i: nat :: !StartedUnanswered([], i, request, what)
  {
  }

  lemma InFlightStep(before: State, event: Event, request: RequestId, what: Request)
    requires forall other :: other in before.inFlight ==> other < before.nextRequest
    ensures
      var after := Next(before, event);
      request in after.inFlight && after.inFlight[request] == what <==>
        || (request in before.inFlight && before.inFlight[request] == what && !Answers(event, request))
        || (before.nextRequest == request && Started(before, event) == Some(what))
  {
    hide Recorded, BacksOff;
  }

  predicate StartsFor(events: seq<Event>, i: nat, request: RequestId, serverId: ServerId)
    requires i < |events|
  {
    var started := Started(After(events[..i]), events[i]);
    After(events[..i]).nextRequest == request && started.Some? && started.value.serverId == serverId
  }

  /** Another request of the server is started, or this one settles. */
  predicate Unregisters(events: seq<Event>, j: nat, request: RequestId, serverId: ServerId)
    requires j < |events|
  {
    var before := After(events[..j]);
    || (Started(before, events[j]).Some? && Started(before, events[j]).value.serverId == serverId)
    || (events[j] == Settle(request, serverId) && request !in before.inFlight)
  }

  predicate StartedUnsettled(events: seq<Event>, i: nat, request: RequestId, serverId: ServerId) {
    && i < |events| && StartsFor(events, i, request, serverId)
    && forall j :: i < j < |events| ==> !Unregisters(events, j, request, serverId)
  }

  lemma UnsettledOneMore(front: seq<Event>, last: Event, i: nat, request: RequestId, serverId: ServerId)
    ensures
      var before, events := After(front), front + [last];
      var starts := Started(before, last).Some? && Started(before, last).value.serverId == serverId;
      StartedUnsettled(events, i, request, serverId) <==>
        || (i < |front| && StartedUnsettled(front, i, request, serverId)
            && !starts && !(last == Settle(request, serverId) && request !in before.inFlight))
        || (i == |front| && before.nextRequest == request && starts)
  {
    hide Started, After;
    var before, events := After(front), front + [last];
    forall j | 0 <= j < |front|
      ensures StartsFor(events, j, request, serverId) <==> StartsFor(front, j, request, serverId)
      ensures Unregisters(events, j, request, serverId) <==> Unregisters(front, j, request, serverId)
    {
      assert events[..j] == front[..j] && events[j] == front[j];
    }
    assert events[..|front|] == front && events[|front|] == last;
    var starts := Started(before, last).Some? && Started(before, last).value.serverId == serverId;
    assert StartsFor(events, |front|, request, serverId) <==> before.nextRequest == request && starts;
    assert Unregisters(events, |front|, request, serverId)
      <==> starts || (last == Settle(request, serverId) && request !in before.inFlight);
    hide StartsFor, Unregisters;
  }

  lemma RegisteredStep(before: State, event: Event, request: RequestId, serverId: ServerId)
    ensures
      var after := Next(before, event);
      var starts := Started(before, event).Some? && Started(before, event).value.serverId == serverId;
      serverId in after.requests && after.requests[serverId] == request <==>
        || (before.nextRequest == request && starts)
        || (serverId in before.requests && before.requests[serverId] == request && !starts
            && !(event == Settle(request, serverId) && request !in before.inFlight))
  {
    hide Recorded, BacksOff;
  }

  /** The registered request of a server is exactly the last one started for it, until it has settled. */
  lemma {:induction false} RegisteredExactly(events: seq<Event>, request: RequestId, serverId: ServerId)
    ensures serverId in After(events).requests && After(events).requests[serverId] == request
      <==> exists i: nat :: StartedUnsettled(events, i, request, serverId)
  {
    if events == [] {
      assert !(exists i: nat :: StartedUnsettled([], i, request, serverId));
    } else {
      var front, last := events[..|events| - 1], events[|events| - 1];
      assert events == front + [last];
      var before := After(front);
      RegisteredExactly(front, request, serverId);
      AfterOneMore(front, last);
      RegisteredStep(before, last, request, serverId);
      hide StartedUnsettled, After, Started;
      var starts := Started(before, last).Some? && Started(before, last).value.serverId == serverId;
      forall i: nat
        ensures StartedUnsettled(events, i, request, serverId) <==>
          || (i < |front| && StartedUnsettled(front, i, request, serverId)
              && !starts && !(last == Settle(request, serverId) && request !in before.inFlight))
          || (i == |front| && before.nextRequest == request && starts)
      {
        UnsettledOneMore(front, last, i, request, serverId);
      }
      UnsettledIsBefore(front, request, serverId);
      if i: nat :| StartedUnsettled(front, i, request, serverId) {
        assert i < |front|;
        assert StartedUnsettled(events, i, request, serverId) <==>
          !starts && !(last == Settle(request, serverId) && request !in before.inFlight);
      }
      if before.nextRequest == request && starts {
        assert StartedUnsettled(events, |front|, request, serverId);
      }
    }
  }

  lemma UnsettledIsBefore(events: seq<Event>, request: RequestId, serverId: ServerId)
    ensures forall i: nat :: StartedUnsettled(events, i, request, serverId) ==> i < |events|
  {
  }

  // Which failure makes room.

  /** Since when the server has had a failure without a break. */
  function Since(events: seq<Event>, serverId: ServerId): nat {
    if events == [] then 0
    else
      var front := events[..|events| - 1];
      if serverId in After(front).failures.entries then Since(front, serverId) else |events|
  }

  lemma SinceIsPast(events: seq<Event>, serverId: ServerId)
    ensures Since(events, serverId) <= |events|
  {
  }

  /** The keys stand in the order in which their failures began. */
  predicate Chronological(events: seq<Event>, order: seq<ServerId>) {
    forall i, j :: 0 <= i < j < |order| ==> Since(events, order[i]) < Since(events, order[j])
  }

  lemma {:induction false} RemoveStaysChronological(events: seq<Event>, order: seq<ServerId>, key: ServerId)
    requires Chronological(events, order) && NoRepeats(order)
    ensures Chronological(events, RemoveKey(order, key))
  {
    hide Since;
    if order != [] && order[0] != key {
      var rest := order[1..];
      assert forall i :: 0 <= i < |rest| ==> rest[i] == order[i + 1];
      RemoveStaysChronological(events, rest, key);
      RemoveKeyFacts(rest, key);
      forall j | 0 <= j < |RemoveKey(rest, key)| ensures Since(events, order[0]) < Since(events, RemoveKey(rest, key)[j]) {
        assert RemoveKey(rest, key)[j] in rest;
      }
    }
  }

  lemma SinceOneMore(front: seq<Event>, last: Event, serverId: ServerId)
    ensures Since(front + [last], serverId)
      == if serverId in After(front).failures.entries then Since(front, serverId) else |front| + 1
  {
    hide After;
    assert (front + [last])[..|front|] == front;
  }

  /** The key an event takes out of the order. */
  function TakenOut(before: State, event: Event): Option<ServerId> {
    var rejected := RejectedBy(before, event);
    if rejected.Some? then Evicted(before.failures, rejected.value.serverId)
    else if event.ResetAccess? then Some(event.serverId)
    else SucceededBy(before, event)
  }

  /** The key an event adds at the end of the order. */
  function Added(before: State, event: Event): seq<ServerId> {
    var rejected := RejectedBy(before, event);
    if rejected.Some? && rejected.value.serverId !in before.failures.entries then [rejected.value.serverId] else []
  }

  lemma OrderOneMore(before: State, event: Event)
    requires WellFormed(before.failures)
    ensures
      var kept := if TakenOut(before, event).Some? then RemoveKey(before.failures.order, TakenOut(before, event).value)
                  else before.failures.order;
      Next(before, event).failures.order == kept + Added(before, event)
  {
    hide RetryAfterMs, RemoveKey;
  }

  lemma {:induction false} ChronologicalOneMore(front: seq<Event>, last: Event)
    requires Chronological(front, After(front).failures.order) && WellFormed(After(front).failures)
    ensures Chronological(front + [last], After(front + [last]).failures.order)
  {
    hide After, Since, Next, RemoveKey, TakenOut;
    var events, before, order := front + [last], After(front), After(front).failures.order;
    AfterOneMore(front, last);
    OrderOneMore(before, last);
    forall serverId: ServerId
      ensures Since(events, serverId) == if serverId in before.failures.entries then Since(front, serverId) else |front| + 1
      ensures Since(front, serverId) <= |front|
    {
      SinceOneMore(front, last, serverId);
      SinceIsPast(front, serverId);
    }
    assert forall i :: 0 <= i < |order| ==> order[i] in order;
    assert Chronological(events, order);
    var kept := order;
    if TakenOut(before, last).Some? {
      kept := RemoveKey(order, TakenOut(before, last).value);
      RemoveStaysChronological(events, order, TakenOut(before, last).value);
      RemoveKeyFacts(order, TakenOut(before, last).value);
    }
    assert forall i :: 0 <= i < |kept| ==> kept[i] in kept && kept[i] in before.failures.entries;
  }

  /** The failure that makes room is the one that has stood longest. */
  lemma {:induction false} OrderIsChronological(events: seq<Event>)
    ensures Chronological(events, After(events).failures.order)
  {
    hide After, Chronological;
    if events == [] {
      NothingInOrder();
    } else {
      var front, last := events[..|events| - 1], events[|events| - 1];
      assert events == front + [last];
      OrderIsChronological(front);
      Bounded(front);
      ChronologicalOneMore(front, last);
    }
  }

  lemma NothingInOrder()
    ensures Chronological([], After([]).failures.order)
  {
  }
}
