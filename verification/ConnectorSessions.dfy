/**
  Authenticated game-connector sessions: replacement, feature negotiation, event
  sequencing and pruning (src/service/game-connector-websocket-service.ts).
 */
module ConnectorSessions {
  import opened Prelude
  import opened RateWindow

  type Socket = nat
  type ServerId = string

  datatype Session = Session(socket: Socket, events: seq<string>, window: Window, lastEventSequence: int)

  /** A parsed frame; `sequence` is absent when the number is not an integer. */
  datatype Frame =
    | Malformed
    | Features(names: seq<string>)
    | Event(name: string, sequence: Option<int>)
    | OtherFrame

  datatype Verdict = Unauthorized | RateLimited | Accepted | Invalid

  /** What the server did for a socket, oldest first. */
  datatype LogEntry =
    | Negotiated(socket: Socket, events: seq<string>)
    | Delivered(socket: Socket, name: string, sequence: int)

  /** `bound` remembers the server each socket authenticated for; a socket does so at most once. */
  datatype Connector = Connector(
    sessions: map<ServerId, Session>, bound: map<Socket, ServerId>, log: seq<LogEntry>)

  datatype ConnectorEvent =
    | Authenticate(socket: Socket, serverId: ServerId, now: int)
    | Receive(socket: Socket, frame: Frame, now: int)
    | Close(socket: Socket)
    | Prune(serverId: ServerId)

  const EMPTY_CONNECTOR := Connector(map[], map[], [])

  const MAX_FEATURES := 64
  const MAX_SAFE_INTEGER := 0x1F_FFFF_FFFF_FFFF

  /** `/^[a-z][A-Za-z0-9]{0,63}$/` */
  predicate IsEventName(name: string) {
    && 1 <= |name| <= 64
    && 'a' <= name[0] <= 'z'
    && forall i :: 1 <= i < |name| ==>
         'A' <= name[i] <= 'Z' || 'a' <= name[i] <= 'z' || '0' <= name[i] <= '9'
  }

  predicate AcceptableFeatures(names: seq<string>) {
    |names| <= MAX_FEATURES && forall name :: name in names ==> IsEventName(name)
  }

  predicate AcceptableEvent(session: Session, name: string, sequence: Option<int>) {
    && IsEventName(name)
    && sequence.Some? && -MAX_SAFE_INTEGER <= sequence.value <= MAX_SAFE_INTEGER
    && sequence.value > session.lastEventSequence
    && name in session.events
  }

  /** A frame on the session it belongs to. */
  function OnSession(session: Session, frame: Frame, now: int): (Session, Verdict) {
    var ticked := session.(window := Tick(session.window, now));
    if !Allowed(ticked.window) then (ticked, RateLimited)
    else if frame.Features? && AcceptableFeatures(frame.names) then
      (ticked.(events := Distinct(frame.names)), Accepted)
    else if frame.Event? && AcceptableEvent(ticked, frame.name, frame.sequence) then
      (ticked.(lastEventSequence := frame.sequence.value), Accepted)
    else (ticked, Invalid)
  }

  predicate IsCurrent(sessions: map<ServerId, Session>, serverId: ServerId, socket: Socket) {
    serverId in sessions && sessions[serverId].socket == socket
  }

  /** `handleAuthenticatedMessage`, up to the handlers' own work. */
  function Received(
      sessions: map<ServerId, Session>, serverId: ServerId, socket: Socket, frame: Frame, now: int)
    : (map<ServerId, Session>, Verdict)
  {
    if frame.Malformed? then (sessions, Invalid)
    else if !IsCurrent(sessions, serverId, socket) then (sessions, Unauthorized)
    else
      var (session, verdict) := OnSession(sessions[serverId], frame, now);
      (sessions[serverId := session], verdict)
  }

  function Logged(socket: Socket, frame: Frame, verdict: Verdict): seq<LogEntry> {
    if verdict != Accepted then []
    else if frame.Features? then [Negotiated(socket, Distinct(frame.names))]
    else if frame.Event? && frame.sequence.Some? then [Delivered(socket, frame.name, frame.sequence.value)]
    else []
  }

  /** The `close` handler looks at every session and deletes those of the closed socket. */
  function WithoutSocket(sessions: map<ServerId, Session>, socket: Socket): map<ServerId, Session> {
    map serverId | serverId in sessions && sessions[serverId].socket != socket :: sessions[serverId]
  }

  function Next(state: Connector, event: ConnectorEvent): Connector {
    match event
    case Authenticate(socket, serverId, now) =>
      if socket in state.bound then state
      else
        state.(sessions := state.sessions[serverId := Session(socket, [], Window(now, 0), 0)],
               bound := state.bound[socket := serverId])
    case Receive(socket, frame, now) =>
      if socket !in state.bound then state
      else
        var (sessions, verdict) := Received(state.sessions, state.bound[socket], socket, frame, now);
        state.(sessions := sessions, log := state.log + Logged(socket, frame, verdict))
    case Close(socket) =>
      state.(sessions := WithoutSocket(state.sessions, socket))
    case Prune(serverId) =>
      state.(sessions := state.sessions - {serverId})
  }

  function Run(state: Connector, events: seq<ConnectorEvent>): Connector
    decreases |events|
  {
    if events == [] then state else Run(Next(state, events[0]), events[1..])
  }

  /** The feature list a socket negotiated last. */
  function LastNegotiated(log: seq<LogEntry>, socket: Socket): seq<string> {
    if log == [] then []
    else
      var last := log[|log| - 1];
      if last.Negotiated? && last.socket == socket then last.events
      else LastNegotiated(log[..|log| - 1], socket)
  }

  /** Deliveries of one socket carry increasing positive numbers and negotiated events only. */
  ghost predicate Orderly(log: seq<LogEntry>) {
    forall i :: 0 <= i < |log| && log[i].Delivered? ==>
      && log[i].sequence > 0
      && log[i].name in LastNegotiated(log[..i], log[i].socket)
      && forall j :: 0 <= j < i && log[j].Delivered? && log[j].socket == log[i].socket ==>
           log[j].sequence < log[i].sequence
  }

  /** Each session belongs to the server its socket authenticated for and remembers that socket's log. */
  ghost predicate Consistent(state: Connector) {
    && (forall i :: 0 <= i < |state.log| ==> state.log[i].socket in state.bound)
    && forall serverId :: serverId in state.sessions ==>
         var session := state.sessions[serverId];
         && session.socket in state.bound && state.bound[session.socket] == serverId
         && session.events == LastNegotiated(state.log, session.socket)
         && session.lastEventSequence >= 0
         && forall i :: 0 <= i < |state.log| && state.log[i].Delivered? && state.log[i].socket == session.socket ==>
              state.log[i].sequence <= session.lastEventSequence
  }

  lemma {:induction false} UnboundNegotiatedNothing(log: seq<LogEntry>, socket: Socket)
    requires forall i :: 0 <= i < |log| ==> log[i].socket != socket
    ensures LastNegotiated(log, socket) == []
  {
    if log != [] {
      UnboundNegotiatedNothing(log[..|log| - 1], socket);
    }
  }

  lemma AppendedLog(log: seq<LogEntry>, entry: LogEntry, socket: Socket)
    ensures LastNegotiated(log + [entry], socket)
      == if entry.Negotiated? && entry.socket == socket then entry.events else LastNegotiated(log, socket)
  {
    assert (log + [entry])[..|log|] == log;
  }

  lemma OrderlyExtends(log: seq<LogEntry>, entry: LogEntry)
    requires Orderly(log)
    requires entry.Delivered? ==>
      && entry.sequence > 0 && entry.name in LastNegotiated(log, entry.socket)
      && forall j :: 0 <= j < |log| && log[j].Delivered? && log[j].socket == entry.socket ==>
           log[j].sequence < entry.sequence
    ensures Orderly(log + [entry])
  {
    var longer := log + [entry];
    forall i | 0 <= i <= |log| ensures longer[..i] == log[..i] {}
    assert log[..|log|] == log;
  }

  lemma StepKeepsOrder(state: Connector, event: ConnectorEvent)
    requires Consistent(state) && Orderly(state.log)
    ensures Consistent(Next(state, event)) && Orderly(Next(state, event).log)
  {
    match event
    case Authenticate(socket, serverId, now) =>
      if socket !in state.bound {
        UnboundNegotiatedNothing(state.log, socket);
      }
    case Receive(socket, frame, now) =>
      if socket in state.bound {
        ReceiveKeepsOrder(state, socket, frame, now);
      }
    case Close(socket) =>
    case Prune(serverId) =>
  }

  lemma {:induction false} ReceiveKeepsOrder(state: Connector, socket: Socket, frame: Frame, now: int)
    requires Consistent(state) && Orderly(state.log) && socket in state.bound
    ensures Consistent(Next(state, Receive(socket, frame, now)))
    ensures Orderly(Next(state, Receive(socket, frame, now)).log)
  {
    hide AcceptableFeatures, IsEventName, Distinct, Tick, Allowed;
    var serverId := state.bound[socket];
    var (sessions, verdict) := Received(state.sessions, serverId, socket, frame, now);
    var next := Next(state, Receive(socket, frame, now));
    var entries := Logged(socket, frame, verdict);
    if entries == [] {
      assert next.log == state.log;
    } else {
      OrderlyExtends(state.log, entries[0]);
      assert next.log == state.log + [entries[0]];
      forall other | other in next.sessions
        ensures next.sessions[other].events == LastNegotiated(next.log, next.sessions[other].socket)
      {
        AppendedLog(state.log, entries[0], next.sessions[other].socket);
      }
    }
  }

  /** Over every run deliveries are orderly, and a socket has a session for at most one server. */
  lemma {:induction false} OrderOverRuns(state: Connector, events: seq<ConnectorEvent>)
    requires Consistent(state) && Orderly(state.log)
    ensures
      var end := Run(state, events);
      && Orderly(end.log) && Consistent(end)
      && forall a, b :: a in end.sessions && b in end.sessions && end.sessions[a].socket == end.sessions[b].socket ==> a == b
    decreases |events|
  {
    if events != [] {
      StepKeepsOrder(state, events[0]);
      OrderOverRuns(Next(state, events[0]), events[1..]);
    }
  }

  /** The log went on without anything done for the socket. */
  predicate SilentSince(before: seq<LogEntry>, after: seq<LogEntry>, socket: Socket) {
    before <= after && forall i :: |before| <= i < |after| ==> after[i].socket != socket
  }

  predicate IsReplaced(state: Connector, socket: Socket) {
    socket in state.bound && !IsCurrent(state.sessions, state.bound[socket], socket)
  }

  lemma ReplacedStep(state: Connector, event: ConnectorEvent, socket: Socket)
    requires Consistent(state) && IsReplaced(state, socket)
    ensures IsReplaced(Next(state, event), socket)
    ensures SilentSince(state.log, Next(state, event).log, socket)
    ensures event == Close(socket) ==> Next(state, event).sessions == state.sessions
  {
    hide AcceptableFeatures, AcceptableEvent, Tick, Allowed, Distinct;
  }

  /**
    A socket that lost its session, to a newer connection or to pruning, never gets one again:
    nothing more is accepted from it, and its close leaves every session in place.
   */
  lemma {:induction false} ReplacedStaysOut(state: Connector, events: seq<ConnectorEvent>, socket: Socket)
    requires Consistent(state) && Orderly(state.log) && IsReplaced(state, socket)
    ensures IsReplaced(Run(state, events), socket)
    ensures SilentSince(state.log, Run(state, events).log, socket)
    ensures Next(Run(state, events), Close(socket)).sessions == Run(state, events).sessions
    decreases |events|
  {
    if events == [] {
      ReplacedStep(state, Close(socket), socket);
    } else {
      ReplacedStep(state, events[0], socket);
      StepKeepsOrder(state, events[0]);
      ReplacedStaysOut(Next(state, events[0]), events[1..], socket);
    }
  }

  /** Nothing but its own close, another authentication or a prune takes a server's session from its socket. */
  lemma {:induction false} SessionStays(state: Connector, events: seq<ConnectorEvent>, serverId: ServerId, socket: Socket)
    requires IsCurrent(state.sessions, serverId, socket)
    requires Close(socket) !in events && ConnectorEvent.Prune(serverId) !in events
    requires forall event :: event in events && event.Authenticate? ==> event.serverId != serverId
    ensures IsCurrent(Run(state, events).sessions, serverId, socket)
    decreases |events|
  {
    hide AcceptableFeatures, AcceptableEvent, Logged, Tick;
    if events != [] {
      assert events[0] in events;
      SessionStays(Next(state, events[0]), events[1..], serverId, socket);
    }
  }

  /**
    An authentication that ends after its socket closed still takes the session over from a connected
    one, which is replaced for good; the closed socket keeps the session.
   */
  lemma {:induction false} LateAuthenticationTakesOver(
      state: Connector, socket: Socket, serverId: ServerId, now: int, connected: Socket, later: seq<ConnectorEvent>)
    requires Consistent(state) && IsCurrent(state.sessions, serverId, connected)
    requires socket !in state.bound && Close(socket) !in later && ConnectorEvent.Prune(serverId) !in later
    requires forall event :: event in later && event.Authenticate? ==> event.serverId != serverId
    ensures
      var after := Next(Next(state, Close(socket)), Authenticate(socket, serverId, now));
      && IsReplaced(after, connected)
      && IsCurrent(Run(after, later).sessions, serverId, socket)
  {
    var closed := Next(state, Close(socket));
    assert closed.bound == state.bound && IsCurrent(closed.sessions, serverId, connected);
    SessionStays(Next(closed, Authenticate(socket, serverId, now)), later, serverId, socket);
  }

  // The rate window over whole runs.

  /** The times at which frames of a socket reach its session's allowance. */
  function TickTimes(state: Connector, events: seq<ConnectorEvent>, socket: Socket): seq<int>
    decreases |events|
  {
    if events == [] then []
    else
      (if Ticks(state, events[0], socket) then [events[0].now] else [])
      + TickTimes(Next(state, events[0]), events[1..], socket)
  }

  predicate Ticks(state: Connector, event: ConnectorEvent, socket: Socket) {
    && event.Receive? && event.socket == socket && !event.frame.Malformed?
    && socket in state.bound && IsCurrent(state.sessions, state.bound[socket], socket)
  }

  /** How many frames of a socket are let through within the minute from `start`. */
  function LetThrough(state: Connector, events: seq<ConnectorEvent>, socket: Socket, start: int): nat
    decreases |events|
  {
    if events == [] then 0
    else
      var counts := Ticks(state, events[0], socket) && InMinute(start, events[0].now)
        && Received(state.sessions, state.bound[socket], socket, events[0].frame, events[0].now).1 != RateLimited;
      (if counts then 1 else 0) + LetThrough(Next(state, events[0]), events[1..], socket, start)
  }

  /** The clock readings of a run never go back. */
  predicate Timed(from: int, events: seq<ConnectorEvent>)
    decreases |events|
  {
    if events == [] then true
    else if events[0].Authenticate? || events[0].Receive? then
      from <= events[0].now && Timed(events[0].now, events[1..])
    else Timed(from, events[1..])
  }

  lemma {:induction false} OutsidersTickNever(state: Connector, events: seq<ConnectorEvent>, socket: Socket, start: int)
    requires Consistent(state) && Orderly(state.log) && IsReplaced(state, socket)
    ensures TickTimes(state, events, socket) == [] && LetThrough(state, events, socket, start) == 0
    decreases |events|
  {
    if events != [] {
      ReplacedStep(state, events[0], socket);
      StepKeepsOrder(state, events[0]);
      OutsidersTickNever(Next(state, events[0]), events[1..], socket, start);
    }
  }

  /** What one step does to a session that stays current: its window ticks or keeps still. */
  lemma StepTicks(state: Connector, event: ConnectorEvent, serverId: ServerId)
    requires Consistent(state) && serverId in state.sessions
    ensures
      var session, next := state.sessions[serverId], Next(state, event);
      if Ticks(state, event, session.socket) then
        && state.bound[session.socket] == serverId
        && IsCurrent(next.sessions, serverId, session.socket)
        && next.sessions[serverId].window == Tick(session.window, event.now)
        && var verdict := Received(state.sessions, serverId, session.socket, event.frame, event.now).1;
           (verdict != RateLimited <==> Allowed(Tick(session.window, event.now)))
      else if IsCurrent(next.sessions, serverId, session.socket) then
        next.sessions[serverId].window == session.window
      else IsReplaced(next, session.socket)
  {
    hide AcceptableFeatures, AcceptableEvent, Logged, Distinct, Tick, Allowed;
  }

  lemma {:induction false} LetThroughIsPassed(
      state: Connector, events: seq<ConnectorEvent>, serverId: ServerId, from: int, start: int)
    requires Consistent(state) && Orderly(state.log) && serverId in state.sessions
    requires Timed(from, events)
    ensures
      var session := state.sessions[serverId];
      && Ordered(from, TickTimes(state, events, session.socket))
      && LetThrough(state, events, session.socket, start)
         == Passed(session.window, TickTimes(state, events, session.socket), start)
    decreases |events|
  {
    hide Next, Received, Tick, Allowed, Orderly, InMinute;
    if events != [] {
      var socket := state.sessions[serverId].socket;
      var next, rest := Next(state, events[0]), events[1..];
      var later := if events[0].Authenticate? || events[0].Receive? then events[0].now else from;
      StepKeepsOrder(state, events[0]);
      StepTicks(state, events[0], serverId);
      var times := TickTimes(next, rest, socket);
      if IsCurrent(next.sessions, serverId, socket) {
        LetThroughIsPassed(next, rest, serverId, later, start);
      } else {
        OutsidersTickNever(next, rest, socket, start);
      }
      if Ticks(state, events[0], socket) {
        assert ([events[0].now] + times)[1..] == times;
      } else {
        assert TickTimes(state, events, socket) == times;
      }
    }
  }

  /** Over every run with a clock that never goes back, a session passes at most 240 frames a minute. */
  lemma RateOverRuns(
      state: Connector, events: seq<ConnectorEvent>, serverId: ServerId, start: int)
    requires Consistent(state) && Orderly(state.log) && serverId in state.sessions
    requires Timed(state.sessions[serverId].window.startedAt, events)
    ensures LetThrough(state, events, state.sessions[serverId].socket, start) <= 240
  {
    var session := state.sessions[serverId];
    LetThroughIsPassed(state, events, serverId, session.window.startedAt, start);
    AtMostTwoAllowances(session.window, TickTimes(state, events, session.socket), start);
  }
}
