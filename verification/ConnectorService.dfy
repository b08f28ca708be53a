/**
  The connector's session objects, updated frame by frame
  (src/service/game-connector-websocket-service.ts). Every method performs the
  transition of the same name in ConnectorSessions.
 */
module ConnectorService {
  import opened Prelude
  import opened RateWindow
  import opened ConnectorSessions

  class SessionObject {
    const socket: Socket
    var events: seq<string>
    var rateWindowStartedAt: int
    var messagesInRateWindow: nat
    var lastEventSequence: int

    constructor (socket: Socket, now: int)
      ensures Value() == Session(socket, [], Window(now, 0), 0)
    {
      this.socket := socket;
      events, rateWindowStartedAt, messagesInRateWindow, lastEventSequence := [], now, 0, 0;
    }

    function Value(): Session
      reads this
    {
      Session(socket, events, Window(rateWindowStartedAt, messagesInRateWindow), lastEventSequence)
    }

    method ConsumeMessageAllowance(now: int) returns (allowed: bool)
      modifies this`rateWindowStartedAt, this`messagesInRateWindow
      ensures Value() == old(Value()).(window := Tick(old(Value()).window, now))
      ensures allowed == Allowed(Value().window)
    {
      if now - rateWindowStartedAt >= RATE_WINDOW_MS {
        rateWindowStartedAt := now;
        messagesInRateWindow := 0;
      }
      messagesInRateWindow := messagesInRateWindow + 1;
      allowed := messagesInRateWindow <= MAX_MESSAGES_PER_MINUTE;
    }

    /** A well-formed frame of this session's own socket. */
    method Accept(frame: Frame, now: int) returns (verdict: Verdict)
      modifies this
      ensures (Value(), verdict) == OnSession(old(Value()), frame, now)
    {
      var allowed := ConsumeMessageAllowance(now);
      if !allowed {
        verdict := RateLimited;
      } else if frame.Features? && AcceptableFeatures(frame.names) {
        events := Distinct(frame.names);
        verdict := Accepted;
      } else if frame.Event? && AcceptableEvent(Value(), frame.name, frame.sequence) {
        lastEventSequence := frame.sequence.value;
        verdict := Accepted;
      } else {
        verdict := Invalid;
      }
    }
  }

  class ConnectorService {
    var sessions: map<ServerId, SessionObject>
    ghost var bound: map<Socket, ServerId>
    ghost var log: seq<LogEntry>

    constructor ()
      ensures Valid() && State() == EMPTY_CONNECTOR
    {
      sessions, bound, log := map[], map[], [];
    }

    /** No two servers share a session object. */
    ghost predicate Valid()
      reads this
    {
      forall a, b :: a in sessions && b in sessions && sessions[a] == sessions[b] ==> a == b
    }

    ghost function Values(): map<ServerId, Session>
      reads this, sessions.Values
    {
      map serverId | serverId in sessions :: sessions[serverId].Value()
    }

    ghost function State(): Connector
      reads this, sessions.Values
    {
      Connector(Values(), bound, log)
    }

    method Authenticated(socket: Socket, serverId: ServerId, now: int)
      requires Valid() && socket !in bound
      modifies this
      ensures Valid() && State() == Next(old(State()), Authenticate(socket, serverId, now))
    {
      ghost var before := Values();
      var session := new SessionObject(socket, now);
      sessions := sessions[serverId := session];
      bound := bound[socket := serverId];
      assert Values() == before[serverId := Session(socket, [], Window(now, 0), 0)];
    }

    /** The checks on a frame, in order: shape, current session, then the session's own. */
    method Dispatch(socket: Socket, serverId: ServerId, frame: Frame, now: int) returns (verdict: Verdict)
      requires Valid()
      modifies sessions.Values
      ensures Valid() && (Values(), verdict) == Received(old(Values()), serverId, socket, frame, now)
    {
      hide OnSession;
      ghost var before := Values();
      if frame.Malformed? {
        verdict := Invalid;
      } else if serverId !in sessions || sessions[serverId].socket != socket {
        verdict := Unauthorized;
      } else {
        verdict := sessions[serverId].Accept(frame, now);
        assert Values() == before[serverId := OnSession(before[serverId], frame, now).0];
      }
    }

    method HandleAuthenticatedMessage(socket: Socket, serverId: ServerId, frame: Frame, now: int)
      returns (verdict: Verdict)
      requires Valid() && socket in bound && bound[socket] == serverId
      modifies this`log, sessions.Values
      ensures Valid()
      ensures State() == Next(old(State()), Receive(socket, frame, now))
      ensures verdict == Received(old(Values()), serverId, socket, frame, now).1
    {
      hide Received, Logged;
      verdict := Dispatch(socket, serverId, frame, now);
      log := log + Logged(socket, frame, verdict);
    }

    method SocketClosed(socket: Socket)
      requires Valid()
      modifies this`sessions
      ensures Valid() && State() == Next(old(State()), Close(socket))
    {
      var todo := sessions.Keys;
      ghost var before := sessions;
      while todo != {}
        invariant todo <= before.Keys && todo <= sessions.Keys && sessions.Keys <= before.Keys
        invariant forall id :: id in sessions ==> sessions[id] == before[id]
        invariant forall id :: id in before && id !in todo ==> (id in sessions <==> before[id].socket != socket)
      {
        var serverId :| serverId in todo;
        todo := todo - {serverId};
        if sessions[serverId].socket == socket {
          sessions := sessions - {serverId};
        }
      }
    }

    method CloseSession(serverId: ServerId)
      requires Valid()
      modifies this`sessions
      ensures Valid() && State() == Next(old(State()), ConnectorEvent.Prune(serverId))
    {
      sessions := sessions - {serverId};
    }
  }
}
