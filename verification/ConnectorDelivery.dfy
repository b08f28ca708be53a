/**
  Which frames of a connected game connector take effect, told from what was
  delivered and negotiated before (src/service/game-connector-websocket-service.ts).
 */
module ConnectorDelivery {
  import opened Prelude
  import opened RateWindow
  import opened ConnectorSessions

  const LOWER := "abcdefghijklmnopqrstuvwxyz"
  const UPPER := "ABCDEFGHIJKLMNOPQRSTUVWXYZ"
  const DIGITS := "0123456789"

  /** The pattern for names, character by character. */
  lemma EventNames(name: string)
    ensures IsEventName(name) <==>
      0 < |name| < 65 && name[0] in LOWER && forall c :: c in name ==> c in LOWER || c in UPPER || c in DIGITS
  {
    forall c: char
      ensures c in LOWER <==> 'a' <= c <= 'z'
      ensures c in UPPER <==> 'A' <= c <= 'Z'
      ensures c in DIGITS <==> '0' <= c <= '9'
    {
      LowerLetters(c);
      UpperLetters(c);
      Digits(c);
    }
    assert forall i :: 0 <= i < |name| ==> name[i] in name;
  }

  lemma LowerLetters(c: char)
    ensures c in LOWER <==> 'a' <= c <= 'z'
  {
    if 'a' <= c <= 'z' { assert LOWER[c as int - 'a' as int] == c; }
  }

  lemma UpperLetters(c: char)
    ensures c in UPPER <==> 'A' <= c <= 'Z'
  {
    if 'A' <= c <= 'Z' { assert UPPER[c as int - 'A' as int] == c; }
  }

  lemma Digits(c: char)
    ensures c in DIGITS <==> '0' <= c <= '9'
  {
    if '0' <= c <= '9' { assert DIGITS[c as int - '0' as int] == c; }
  }

  // What a session remembers is what its socket's log says.

  /** The session's last number is that of some delivery of its socket, or still 0. */
  ghost predicate Told(state: Connector) {
    forall serverId :: serverId in state.sessions ==>
      var session := state.sessions[serverId];
      session.lastEventSequence == 0 || WasDelivered(state.log, session.socket, session.lastEventSequence)
  }

  predicate WasDelivered(log: seq<LogEntry>, socket: Socket, sequence: int) {
    exists i :: 0 <= i < |log| && log[i].Delivered? && log[i].socket == socket && log[i].sequence == sequence
  }

  predicate NamesAreEventNames(log: seq<LogEntry>) {
    forall i :: 0 <= i < |log| && log[i].Negotiated? ==> forall name :: name in log[i].events ==> IsEventName(name)
  }

  lemma StaysDelivered(log: seq<LogEntry>, more: seq<LogEntry>, socket: Socket, sequence: int)
    requires WasDelivered(log, socket, sequence)
    ensures WasDelivered(log + more, socket, sequence)
  {
    var i :| 0 <= i < |log| && log[i].Delivered? && log[i].socket == socket && log[i].sequence == sequence;
    assert (log + more)[i] == log[i];
  }

  lemma ReceiveKeepsTold(state: Connector, socket: Socket, frame: Frame, now: int)
    requires Told(state) && socket in state.bound
    ensures Told(Next(state, Receive(socket, frame, now)))
  {
    hide WasDelivered, AcceptableFeatures, IsEventName, Tick, Allowed, Distinct;
    var serverId := state.bound[socket];
    var (sessions, verdict) := Received(state.sessions, serverId, socket, frame, now);
    var entries := Logged(socket, frame, verdict);
    var next := Next(state, Receive(socket, frame, now));
    forall other | other in next.sessions
      ensures next.sessions[other].lastEventSequence == 0
        || WasDelivered(next.log, next.sessions[other].socket, next.sessions[other].lastEventSequence)
    {
      var before := state.sessions[other];
      if before.lastEventSequence != 0 {
        StaysDelivered(state.log, entries, before.socket, before.lastEventSequence);
      }
      if next.sessions[other].lastEventSequence != before.lastEventSequence {
        JustDelivered(state.log, socket, frame.name, frame.sequence.value);
      }
    }
  }

  lemma JustDelivered(log: seq<LogEntry>, socket: Socket, name: string, sequence: int)
    ensures WasDelivered(log + [Delivered(socket, name, sequence)], socket, sequence)
  {
    var longer := log + [Delivered(socket, name, sequence)];
    assert longer[|log|] == Delivered(socket, name, sequence);
  }

  lemma StepKeepsTold(state: Connector, event: ConnectorEvent)
    requires Told(state) && NamesAreEventNames(state.log)
    ensures Told(Next(state, event)) && NamesAreEventNames(Next(state, event).log)
  {
    hide WasDelivered, IsEventName, Tick, Allowed;
    if event.Receive? && event.socket in state.bound {
      ReceiveKeepsTold(state, event.socket, event.frame, event.now);
    }
  }

  lemma {:induction false} ToldOverRuns(state: Connector, events: seq<ConnectorEvent>)
    requires Consistent(state) && Orderly(state.log) && Told(state) && NamesAreEventNames(state.log)
    ensures
      var end := Run(state, events);
      Consistent(end) && Orderly(end.log) && Told(end) && NamesAreEventNames(end.log)
    decreases |events|
  {
    hide Next, Consistent, Orderly, Told, NamesAreEventNames;
    if events != [] {
      StepKeepsOrder(state, events[0]);
      StepKeepsTold(state, events[0]);
      ToldOverRuns(Next(state, events[0]), events[1..]);
    }
  }

  lemma {:induction false} NegotiatedAreEventNames(log: seq<LogEntry>, socket: Socket, name: string)
    requires NamesAreEventNames(log) && name in LastNegotiated(log, socket)
    ensures IsEventName(name)
  {
    hide IsEventName;
    var last := log[|log| - 1];
    if !(last.Negotiated? && last.socket == socket) {
      NegotiatedAreEventNames(log[..|log| - 1], socket, name);
    }
  }

  lemma TheStart()
    ensures Consistent(EMPTY_CONNECTOR) && Orderly([]) && Told(EMPTY_CONNECTOR) && NamesAreEventNames([])
  {
  }

  /**
    After every run, an event frame on the current session and within the allowance is delivered if and only if
    its name is in the list the socket negotiated last, and its number is a positive safe integer above every
    number delivered for the socket before. Otherwise it leaves no trace but the tick of the allowance.
   */
  lemma {:induction false} DeliveredExactly(
      events: seq<ConnectorEvent>, socket: Socket, serverId: ServerId, name: string, sequence: Option<int>, now: int)
    requires IsCurrent(Run(EMPTY_CONNECTOR, events).sessions, serverId, socket)
    requires Allowed(Tick(Run(EMPTY_CONNECTOR, events).sessions[serverId].window, now))
    ensures
      var before := Run(EMPTY_CONNECTOR, events);
      var after := Next(before, Receive(socket, Event(name, sequence), now));
      after.log ==
        if && name in LastNegotiated(before.log, socket)
           && sequence.Some? && 1 <= sequence.value <= 9_007_199_254_740_991
           && forall i :: 0 <= i < |before.log| && before.log[i].Delivered? && before.log[i].socket == socket ==>
                before.log[i].sequence < sequence.value
        then before.log + [Delivered(socket, name, sequence.value)]
        else before.log
  {
    hide IsEventName, Tick, Allowed, Orderly, LastNegotiated;
    TheStart();
    ToldOverRuns(EMPTY_CONNECTOR, events);
    var before := Run(EMPTY_CONNECTOR, events);
    var session := before.sessions[serverId];
    if name in LastNegotiated(before.log, socket) {
      NegotiatedAreEventNames(before.log, socket, name);
    }
    assert before.bound[socket] == serverId;
  }

  /** Within the allowance a feature list is negotiated if and only if it has at most 64 names and all are well formed. */
  lemma {:induction false} NegotiatedExactly(
      events: seq<ConnectorEvent>, socket: Socket, serverId: ServerId, names: seq<string>, now: int)
    requires IsCurrent(Run(EMPTY_CONNECTOR, events).sessions, serverId, socket)
    requires Allowed(Tick(Run(EMPTY_CONNECTOR, events).sessions[serverId].window, now))
    ensures
      var before := Run(EMPTY_CONNECTOR, events);
      var after := Next(before, Receive(socket, Features(names), now));
      if |names| <= 64 && forall name :: name in names ==> IsEventName(name) then
        && after.log == before.log + [Negotiated(socket, Distinct(names))]
        && LastNegotiated(after.log, socket) == Distinct(names)
        && after.sessions[serverId].events == Distinct(names)
      else after.log == before.log && after.sessions[serverId].events == before.sessions[serverId].events
  {
    hide IsEventName, Tick, Allowed, Orderly, Distinct;
    TheStart();
    ToldOverRuns(EMPTY_CONNECTOR, events);
    var before := Run(EMPTY_CONNECTOR, events);
    assert before.bound[socket] == serverId;
    AppendedLog(before.log, Negotiated(socket, Distinct(names)), socket);
  }

  // When the allowance is left.

  /** How many of the times are after the given one. */
  function CountAfter(times: seq<int>, bound: int): nat
    decreases |times|
  {
    if times == [] then 0 else CountAfter(times[1..], bound) + if times[0] > bound then 1 else 0
  }

  function TickAll(window: Window, times: seq<int>): Window
    decreases |times|
  {
    if times == [] then window else TickAll(Tick(window, times[0]), times[1..])
  }

  lemma {:induction false} WindowCounts(window: Window, times: seq<int>, bound: int)
    requires Ordered(window.startedAt, times) && bound < TickAll(window, times).startedAt
    ensures TickAll(window, times).messages
      <= CountAfter(times, bound) + if bound < window.startedAt then window.messages else 0
    decreases |times|
  {
    if times != [] {
      WindowCounts(Tick(window, times[0]), times[1..], bound);
    }
  }

  /** In a session that opened with an empty window, a frame is refused only after 120 others in the last minute. */
  lemma RefusedOnlyWhenBusy(openedAt: int, times: seq<int>, now: int)
    requires Ordered(openedAt, times) && CountAfter(times, now - 60_000) < 120
    ensures Allowed(Tick(TickAll(Window(openedAt, 0), times), now))
  {
    var window := TickAll(Window(openedAt, 0), times);
    if now - window.startedAt < RATE_WINDOW_MS {
      WindowCounts(Window(openedAt, 0), times, now - 60_000);
    }
  }

  /** The window of a session that stays current is that of the frames that reached it. */
  lemma {:induction false} SessionTicks(state: Connector, events: seq<ConnectorEvent>, serverId: ServerId, socket: Socket)
    requires Consistent(state) && Orderly(state.log)
    requires IsCurrent(state.sessions, serverId, socket) && IsCurrent(Run(state, events).sessions, serverId, socket)
    ensures Run(state, events).sessions[serverId].window
      == TickAll(state.sessions[serverId].window, TickTimes(state, events, socket))
    decreases |events|
  {
    hide Next, Received, Tick, Allowed, Orderly;
    if events != [] {
      var next, rest := Next(state, events[0]), events[1..];
      StepKeepsOrder(state, events[0]);
      StepTicks(state, events[0], serverId);
      if IsCurrent(next.sessions, serverId, socket) {
        SessionTicks(next, rest, serverId, socket);
        var times := TickTimes(next, rest, socket);
        if Ticks(state, events[0], socket) {
          assert ([events[0].now] + times)[1..] == times;
        } else {
          assert TickTimes(state, events, socket) == times;
        }
      } else {
        NotBackAgain(next, rest, serverId, socket);
      }
    }
  }

  lemma {:induction false} NotBackAgain(state: Connector, events: seq<ConnectorEvent>, serverId: ServerId, socket: Socket)
    requires Consistent(state) && Orderly(state.log) && IsReplaced(state, socket)
    ensures !IsCurrent(Run(state, events).sessions, serverId, socket)
  {
    ReplacedStaysOut(state, events, socket);
    OrderOverRuns(state, events);
  }

  // Which socket holds a server's session, told from the events alone.

  /** The first authentication of a socket, the one that counts. */
  predicate Binds(events: seq<ConnectorEvent>, i: nat)
    requires i < |events|
  {
    events[i].Authenticate? && forall j :: 0 <= j < i && events[j].Authenticate? ==> events[j].socket != events[i].socket
  }

  predicate TakesAway(events: seq<ConnectorEvent>, i: nat, serverId: ServerId, socket: Socket)
    requires i < |events|
  {
    || events[i] == Close(socket)
    || events[i] == ConnectorEvent.Prune(serverId)
    || (Binds(events, i) && events[i].serverId == serverId)
  }

  predicate Holds(events: seq<ConnectorEvent>, serverId: ServerId, socket: Socket) {
    exists i: nat :: i < |events| && Binds(events, i) && events[i].serverId == serverId && events[i].socket == socket
      && forall j: nat :: i < j < |events| ==> !TakesAway(events, j, serverId, socket)
  }

  predicate Authenticated(events: seq<ConnectorEvent>, socket: Socket) {
    exists i :: 0 <= i < |events| && events[i].Authenticate? && events[i].socket == socket
  }

  lemma {:induction false} RunAppended(state: Connector, events: seq<ConnectorEvent>, last: ConnectorEvent)
    ensures Run(state, events + [last]) == Next(Run(state, events), last)
    decreases |events|
  {
    hide Next;
    if events == [] {
      assert events + [last] == [last];
    } else {
      assert (events + [last])[1..] == events[1..] + [last];
      RunAppended(Next(state, events[0]), events[1..], last);
    }
  }

  lemma HoldsAppended(events: seq<ConnectorEvent>, last: ConnectorEvent, serverId: ServerId, socket: Socket)
    ensures
      var longer := events + [last];
      Holds(longer, serverId, socket) <==>
        if Binds(longer, |events|) && last.serverId == serverId then last.socket == socket
        else Holds(events, serverId, socket) && last != Close(socket) && last != ConnectorEvent.Prune(serverId)
  {
    var longer := events + [last];
    assert forall i :: 0 <= i < |events| ==> longer[i] == events[i];
    forall i: nat | i < |events|
      ensures Binds(longer, i) == Binds(events, i)
      ensures TakesAway(longer, i, serverId, socket) == TakesAway(events, i, serverId, socket)
    {
      BindsEarly(events, last, i);
    }
    if Binds(longer, |events|) && last.serverId == serverId {
      assert TakesAway(longer, |events|, serverId, socket);
      if last.socket == socket {
        assert Holds(longer, serverId, socket);
      }
    } else if Holds(events, serverId, socket) && last != Close(socket) && last != ConnectorEvent.Prune(serverId) {
      var i: nat :| i < |events| && Binds(events, i) && events[i].serverId == serverId && events[i].socket == socket
        && forall j: nat :: i < j < |events| ==> !TakesAway(events, j, serverId, socket);
      assert Binds(longer, i);
    } else if Holds(longer, serverId, socket) {
      HeldBefore(events, last, serverId, socket);
    }
  }

  lemma HeldBefore(events: seq<ConnectorEvent>, last: ConnectorEvent, serverId: ServerId, socket: Socket)
    requires Holds(events + [last], serverId, socket)
    requires !(Binds(events + [last], |events|) && last.serverId == serverId)
    ensures Holds(events, serverId, socket) && last != Close(socket) && last != ConnectorEvent.Prune(serverId)
  {
    var longer := events + [last];
    assert forall i :: 0 <= i < |events| ==> longer[i] == events[i];
    var i: nat :| i < |longer| && Binds(longer, i) && longer[i].serverId == serverId && longer[i].socket == socket
      && forall j: nat :: i < j < |longer| ==> !TakesAway(longer, j, serverId, socket);
    BindsEarly(events, last, i);
    assert !TakesAway(longer, |events|, serverId, socket);
    forall j: nat | i < j < |events|
      ensures !TakesAway(events, j, serverId, socket)
    {
      BindsEarly(events, last, j);
      assert !TakesAway(longer, j, serverId, socket);
    }
  }

  lemma BindsEarly(events: seq<ConnectorEvent>, last: ConnectorEvent, i: nat)
    requires i < |events|
    ensures Binds(events + [last], i) == Binds(events, i)
  {
    assert forall j :: 0 <= j < |events| ==> (events + [last])[j] == events[j];
  }

  lemma AuthenticatedAppended(events: seq<ConnectorEvent>, last: ConnectorEvent, socket: Socket)
    ensures Authenticated(events + [last], socket)
      <==> Authenticated(events, socket) || (last.Authenticate? && last.socket == socket)
    ensures Binds(events + [last], |events|) <==> last.Authenticate? && !Authenticated(events, last.socket)
  {
    var longer := events + [last];
    assert longer[|events|] == last && forall j :: 0 <= j < |events| ==> longer[j] == events[j];
    if Authenticated(events, socket) {
      var i :| 0 <= i < |events| && events[i].Authenticate? && events[i].socket == socket;
      assert longer[i].Authenticate? && longer[i].socket == socket;
    }
  }

  /**
    After every run a socket holds the session of a server if and only if its first authentication was for that
    server, and since then it was not closed, the server was not pruned and no other socket authenticated for it.
   */
  lemma {:induction false} HeldExactly(events: seq<ConnectorEvent>, serverId: ServerId, socket: Socket)
    ensures IsCurrent(Run(EMPTY_CONNECTOR, events).sessions, serverId, socket) <==> Holds(events, serverId, socket)
    ensures socket in Run(EMPTY_CONNECTOR, events).bound <==> Authenticated(events, socket)
    decreases |events|
  {
    if events != [] {
      hide Holds, Authenticated, Binds, Run, OnSession;
      var before, last := events[..|events| - 1], events[|events| - 1];
      assert events == before + [last];
      HeldExactly(before, serverId, socket);
      RunAppended(EMPTY_CONNECTOR, before, last);
      HoldsAppended(before, last, serverId, socket);
      AuthenticatedAppended(before, last, socket);
      if last.Authenticate? {
        HeldExactly(before, serverId, last.socket);
      }
    }
  }

  /**
    A frame is refused for its rate only when the socket has sent 120 in the minute before, counted from its
    authentication: a new session starts with the whole allowance.
   */
  lemma {:induction false} LetThroughUnlessBusy(
      state: Connector, socket: Socket, serverId: ServerId, openedAt: int, events: seq<ConnectorEvent>,
      frame: Frame, now: int)
    requires Consistent(state) && Orderly(state.log) && socket !in state.bound && Timed(openedAt, events)
    requires
      var started := Next(state, Authenticate(socket, serverId, openedAt));
      && IsCurrent(Run(started, events).sessions, serverId, socket)
      && CountAfter(TickTimes(started, events, socket), now - 60_000) < 120
    ensures
      var before := Run(Next(state, Authenticate(socket, serverId, openedAt)), events);
      Received(before.sessions, serverId, socket, frame, now).1 != RateLimited
  {
    hide OnSession, Tick, Orderly, TickTimes, CountAfter, InMinute;
    var started := Next(state, Authenticate(socket, serverId, openedAt));
    StepKeepsOrder(state, Authenticate(socket, serverId, openedAt));
    SessionTicks(started, events, serverId, socket);
    LetThroughIsPassed(started, events, serverId, openedAt, 0);
    RefusedOnlyWhenBusy(openedAt, TickTimes(started, events, socket), now);
    var before := Run(started, events);
    OnSessionRefusal(before.sessions[serverId], frame, now);
  }

  lemma OnSessionRefusal(session: Session, frame: Frame, now: int)
    ensures OnSession(session, frame, now).1 == RateLimited <==> !Allowed(Tick(session.window, now))
  {
  }
}
