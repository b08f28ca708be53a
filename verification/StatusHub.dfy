/**
  The status subscribers of all sockets as a state machine, and the object that
  runs it (src/service/server-status-live-service.ts).
 */
module StatusHub {
  import opened Prelude
  import opened StatusLive

  type Socket = nat
  type ServerId = string

  datatype Subscriber = Subscriber(serverIds: set<ServerId>, snapshots: map<ServerId, Status>, sequence: nat)

  /** What a connected client knows: a status per server and the sequence numbers it received. */
  datatype Client = Client(statuses: map<ServerId, Status>, seen: seq<nat>)

  /** The message a socket's chain is working on: the servers it names and those read so far. */
  datatype Reading = Reading(serverIds: set<ServerId>, read: map<ServerId, Status>)

  /**
    `lost` holds the sockets whose client is gone; late work for them may still be going on.
    `published` is the status of each server that was published last.
   */
  datatype Hub = Hub(
    subscribers: map<Socket, Subscriber>, clients: map<Socket, Client>, lost: set<Socket>,
    reading: map<Socket, Reading>, published: map<ServerId, Status>)

  datatype HubEvent =
      /** The chain takes up the next subscribe or set-servers message. */
    | Begin(socket: Socket, serverIds: set<ServerId>)
      /** One of the parallel reads of the stored statuses returns. */
    | Read(socket: Socket, serverId: ServerId, value: Status)
      /** All reads are there: the message takes effect. */
    | Install(socket: Socket)
      /** The message is refused or a read throws. */
    | Fail(socket: Socket)
      /** A server's status is published; sockets in `gone` are not open or get terminated for back pressure. */
    | Publish(serverId: ServerId, value: Status, gone: set<Socket>)
    | Close(socket: Socket)

  const EMPTY_HUB := Hub(map[], map[], {}, map[], map[])

  /** Whether an event can happen; one that cannot changes nothing. A socket's messages follow one another. */
  predicate Enabled(hub: Hub, event: HubEvent) {
    match event
    case Begin(socket, _) => socket !in hub.reading
    case Read(socket, serverId, _) =>
      && socket in hub.reading
      && serverId in hub.reading[socket].serverIds && serverId !in hub.reading[socket].read
    case Install(socket) => socket in hub.reading && hub.reading[socket].read.Keys == hub.reading[socket].serverIds
    case Fail(socket) => socket in hub.reading
    case _ => true
  }

  /** What the listener sends to one subscriber: a delta only when a previous snapshot exists and differs. */
  function News(subscriber: Subscriber, serverId: ServerId, value: Status): Option<Changes> {
    if serverId !in subscriber.serverIds || serverId !in subscriber.snapshots then None
    else
      var changes := DeltaOf(subscriber.snapshots[serverId], value);
      if IsEmpty(changes.(lastChecked := None)) then None else Some(changes)
  }

  function Updated(subscriber: Subscriber, serverId: ServerId, value: Status): Subscriber {
    if serverId !in subscriber.serverIds then subscriber
    else
      Subscriber(
        subscriber.serverIds,
        subscriber.snapshots[serverId := value],
        if News(subscriber, serverId, value).Some? then subscriber.sequence + 1 else subscriber.sequence)
  }

  function UpdatedAll(subscribers: map<Socket, Subscriber>, serverId: ServerId, value: Status): map<Socket, Subscriber> {
    map socket | socket in subscribers :: Updated(subscribers[socket], serverId, value)
  }

  function Follow(client: Client, subscriber: Subscriber, serverId: ServerId, value: Status): Client {
    var news := News(subscriber, serverId, value);
    if news.None? || serverId !in client.statuses then client
    else
      Client(
        client.statuses[serverId := Apply(client.statuses[serverId], news.value)],
        client.seen + [subscriber.sequence + 1])
  }

  function Notified(subscribers: map<Socket, Subscriber>, serverId: ServerId, value: Status): set<Socket> {
    set socket | socket in subscribers && News(subscribers[socket], serverId, value).Some?
  }

  function FollowAll(
      clients: map<Socket, Client>, subscribers: map<Socket, Subscriber>, serverId: ServerId, value: Status,
      dropped: set<Socket>): map<Socket, Client>
  {
    map socket | socket in clients && socket !in dropped ::
      if socket in subscribers then Follow(clients[socket], subscribers[socket], serverId, value) else clients[socket]
  }

  /** The chosen servers and their snapshots are replaced, the sequence number goes on. */
  function Installed(hub: Hub, socket: Socket, message: Reading): Hub {
    var sequence := if socket in hub.subscribers then hub.subscribers[socket].sequence else 0;
    var seen := if socket in hub.clients then hub.clients[socket].seen else [];
    hub.(subscribers := hub.subscribers[socket := Subscriber(message.serverIds, message.read, sequence)],
         clients := if socket in hub.lost then hub.clients else hub.clients[socket := Client(message.read, seen)],
         reading := hub.reading - {socket})
  }

  function Next(hub: Hub, event: HubEvent): Hub {
    if !Enabled(hub, event) then hub
    else
      match event
      case Begin(socket, serverIds) => hub.(reading := hub.reading[socket := Reading(serverIds, map[])])
      case Read(socket, serverId, value) =>
        var message := hub.reading[socket];
        hub.(reading := hub.reading[socket := message.(read := message.read[serverId := value])])
      case Install(socket) => Installed(hub, socket, hub.reading[socket])
      case Fail(socket) => hub.(reading := hub.reading - {socket})
      case Publish(serverId, value, gone) =>
        var dropped := gone * Notified(hub.subscribers, serverId, value);
        hub.(subscribers := UpdatedAll(hub.subscribers, serverId, value),
             clients := FollowAll(hub.clients, hub.subscribers, serverId, value, dropped),
             lost := hub.lost + dropped,
             published := hub.published[serverId := value])
      case Close(socket) =>
        hub.(subscribers := hub.subscribers - {socket}, clients := hub.clients - {socket}, lost := hub.lost + {socket})
  }

  function Run(hub: Hub, events: seq<HubEvent>): Hub
    decreases |events|
  {
    if events == [] then hub else Run(Next(hub, events[0]), events[1..])
  }

  lemma {:induction false} RunInParts(hub: Hub, front: seq<HubEvent>, back: seq<HubEvent>)
    ensures Run(hub, front + back) == Run(Run(hub, front), back)
    decreases |front|
  {
    if front == [] {
      assert front + back == back;
    } else {
      assert (front + back)[0] == front[0] && (front + back)[1..] == front[1..] + back;
      RunInParts(Next(hub, front[0]), front[1..], back);
    }
  }

  /** The snapshot of every chosen server exists, so the listener always finds a previous one. */
  predicate Complete(subscriber: Subscriber) {
    subscriber.snapshots.Keys == subscriber.serverIds
  }

  ghost predicate InStep(client: Client, subscriber: Subscriber) {
    && client.statuses.Keys == subscriber.serverIds
    && (forall id :: id in subscriber.serverIds && id in subscriber.snapshots ==>
          Agree(client.statuses[id], subscriber.snapshots[id]))
    && |client.seen| == subscriber.sequence
    && forall i :: 0 <= i < |client.seen| ==> client.seen[i] == i + 1
  }

  ghost predicate Replicated(hub: Hub) {
    && (forall socket :: socket in hub.subscribers ==> Complete(hub.subscribers[socket]))
    && (forall socket :: socket in hub.clients ==>
          socket in hub.subscribers && socket !in hub.lost
          && InStep(hub.clients[socket], hub.subscribers[socket]))
    && forall socket :: socket in hub.subscribers && socket !in hub.lost ==> socket in hub.clients
  }

  predicate WellTypedEvent(event: HubEvent) {
    event.Publish? ==> WellTyped(event.value)
  }

  lemma FollowStaysInStep(client: Client, subscriber: Subscriber, serverId: ServerId, value: Status)
    requires Complete(subscriber) && InStep(client, subscriber) && WellTyped(value)
    ensures InStep(Follow(client, subscriber, serverId, value), Updated(subscriber, serverId, value))
  {
    if serverId in subscriber.serverIds {
      var previous := subscriber.snapshots[serverId];
      DeltaReplicatesExactly(client.statuses[serverId], previous, value);
      EmptyDeltaMeansAgreement(previous, value);
    }
  }

  lemma {:induction false} StepKeepsReplication(hub: Hub, event: HubEvent)
    requires Replicated(hub) && WellTypedEvent(event)
    ensures Replicated(Next(hub, event))
  {
    hide DeltaOf, Apply, WellTyped;
    if event.Publish? {
      forall socket | socket in Next(hub, event).clients
        ensures InStep(Next(hub, event).clients[socket], Next(hub, event).subscribers[socket])
      {
        FollowStaysInStep(hub.clients[socket], hub.subscribers[socket], event.serverId, event.value);
      }
    }
  }

  /**
    Over every interleaving of reads, installs, failures, publishes and closes: every snapshot map is
    complete, and every connected client agrees with it and saw the numbers 1, 2, 3, ...
   */
  lemma {:induction false} ReplicationOverRuns(hub: Hub, events: seq<HubEvent>)
    requires Replicated(hub)
    requires forall event :: event in events ==> WellTypedEvent(event)
    ensures Replicated(Run(hub, events))
    decreases |events|
  {
    if events != [] {
      assert events[0] in events;
      StepKeepsReplication(hub, events[0]);
      ReplicationOverRuns(Next(hub, events[0]), events[1..]);
    }
  }

  // What was published between a read and its install.

  predicate PublishedIn(events: seq<HubEvent>, serverId: ServerId) {
    exists i :: 0 <= i < |events| && events[i].Publish? && events[i].serverId == serverId
  }

  /** The value published last for the server in a stretch of events. */
  function LastPublished(events: seq<HubEvent>, serverId: ServerId): Option<Status> {
    if events == [] then None
    else
      var last := events[|events| - 1];
      if last.Publish? && last.serverId == serverId then Some(last.value)
      else LastPublished(events[..|events| - 1], serverId)
  }

  lemma {:induction false} PublishedAfter(hub: Hub, events: seq<HubEvent>, serverId: ServerId)
    ensures
      var last := LastPublished(events, serverId);
      && (last.Some? <==> PublishedIn(events, serverId))
      && (last.Some? ==> serverId in Run(hub, events).published && Run(hub, events).published[serverId] == last.value)
      && (last.None? ==> (serverId in Run(hub, events).published <==> serverId in hub.published))
      && (last.None? && serverId in hub.published ==> Run(hub, events).published[serverId] == hub.published[serverId])
  {
    hide UpdatedAll, FollowAll, Notified;
    if events != [] {
      var front, last := events[..|events| - 1], events[|events| - 1];
      assert events == front + [last] && [last][1..] == [];
      PublishedAfter(hub, front, serverId);
      RunInParts(hub, front, [last]);
      assert Run(hub, events) == Next(Run(hub, front), last);
      assert forall i :: 0 <= i < |front| ==> events[i] == front[i];
    }
  }

  /** A value that was read stays until the message takes effect or fails. */
  lemma {:induction false} ReadStays(hub: Hub, events: seq<HubEvent>, socket: Socket, serverId: ServerId)
    requires socket in hub.reading && serverId in hub.reading[socket].read
    requires Install(socket) !in events && Fail(socket) !in events
    ensures
      var after := Run(hub, events);
      && socket in after.reading && serverId in after.reading[socket].read
      && after.reading[socket].read[serverId] == hub.reading[socket].read[serverId]
    decreases |events|
  {
    hide UpdatedAll, FollowAll, Notified;
    if events != [] {
      assert events[0] in events;
      ReadStays(Next(hub, events[0]), events[1..], socket, serverId);
    }
  }

  /** Without a new install a lost client does not come back. */
  lemma {:induction false} LostForGood(hub: Hub, events: seq<HubEvent>, socket: Socket)
    requires socket !in hub.clients && Install(socket) !in events
    ensures socket !in Run(hub, events).clients
    decreases |events|
  {
    hide UpdatedAll, Notified;
    if events != [] {
      assert events[0] in events;
      LostForGood(Next(hub, events[0]), events[1..], socket);
    }
  }

  /** The subscriber's snapshot of the server is the status published last. */
  predicate IsCurrent(hub: Hub, socket: Socket, serverId: ServerId) {
    && socket in hub.subscribers && serverId in hub.subscribers[socket].snapshots && serverId in hub.published
    && hub.subscribers[socket].snapshots[serverId] == hub.published[serverId]
  }

  predicate HasSnapshot(hub: Hub, socket: Socket, serverId: ServerId, value: Status) {
    && socket in hub.subscribers && serverId in hub.subscribers[socket].serverIds
    && serverId in hub.subscribers[socket].snapshots && hub.subscribers[socket].snapshots[serverId] == value
  }

  lemma SnapshotStep(hub: Hub, event: HubEvent, socket: Socket, serverId: ServerId, value: Status)
    requires HasSnapshot(hub, socket, serverId, value) && event != Install(socket) && event != Close(socket)
    ensures
      var next := Next(hub, event);
      if event.Publish? && event.serverId == serverId then
        HasSnapshot(next, socket, serverId, event.value) && IsCurrent(next, socket, serverId)
      else
        HasSnapshot(next, socket, serverId, value) && (IsCurrent(hub, socket, serverId) <==> IsCurrent(next, socket, serverId))
  {
    hide News, FollowAll, Notified;
  }

  /** After an install the snapshot is what was read, until the first publish; from then on what is published. */
  lemma {:induction false} SnapshotAfter(hub: Hub, events: seq<HubEvent>, socket: Socket, serverId: ServerId, value: Status)
    requires HasSnapshot(hub, socket, serverId, value) && socket in Run(hub, events).clients
    requires Install(socket) !in events
    ensures
      var after := Run(hub, events);
      if PublishedIn(events, serverId) || IsCurrent(hub, socket, serverId) then IsCurrent(after, socket, serverId)
      else HasSnapshot(after, socket, serverId, value)
    decreases |events|
  {
    hide Next, HasSnapshot, IsCurrent;
    if events != [] {
      var event, next := events[0], Next(hub, events[0]);
      assert event in events;
      if event == Close(socket) {
        CloseEndsClient(hub, socket);
        LostForGood(next, events[1..], socket);
      } else {
        SnapshotStep(hub, event, socket, serverId, value);
        assert forall i :: 0 < i < |events| ==> events[i] == events[1..][i - 1];
        assert PublishedIn(events, serverId)
          <==> (event.Publish? && event.serverId == serverId) || PublishedIn(events[1..], serverId);
        SnapshotAfter(
          next, events[1..], socket, serverId,
          if event.Publish? && event.serverId == serverId then event.value else value);
      }
    }
  }

  lemma CloseEndsClient(hub: Hub, socket: Socket)
    ensures socket !in Next(hub, Close(socket)).clients
  {
  }

  lemma ReadTakes(hub: Hub, socket: Socket, serverId: ServerId, value: Status)
    requires Enabled(hub, Read(socket, serverId, value))
    ensures
      var next := Next(hub, Read(socket, serverId, value));
      && next.published == hub.published && socket in next.reading
      && serverId in next.reading[socket].read && next.reading[socket].read[serverId] == value
  {
  }

  lemma InstallTakes(hub: Hub, socket: Socket, serverId: ServerId)
    requires Enabled(hub, Install(socket)) && serverId in hub.reading[socket].read
    ensures
      var next := Next(hub, Install(socket));
      next.published == hub.published && HasSnapshot(next, socket, serverId, hub.reading[socket].read[serverId])
  {
  }

  /** The hub after a read, what happens until the message takes effect, and what happens then. */
  function AfterRead(
      hub: Hub, socket: Socket, serverId: ServerId, value: Status, between: seq<HubEvent>, later: seq<HubEvent>): Hub
  {
    Run(Next(Run(Next(hub, Read(socket, serverId, value)), between), Install(socket)), later)
  }

  /**
    The race between reads and publishes: a client shows the status published last if and only if it was
    published after the install, or what was read agrees with the last publish between the read and the
    install, or, when there was none, with what had been published before the read.
   */
  lemma {:induction false} ShowsPublishedExactly(
      hub: Hub, socket: Socket, serverId: ServerId, value: Status, between: seq<HubEvent>, later: seq<HubEvent>)
    requires Replicated(hub) && Enabled(hub, Read(socket, serverId, value))
    requires Install(socket) !in between && Fail(socket) !in between && Install(socket) !in later
    requires forall event :: event in between + later ==> WellTypedEvent(event)
    requires Enabled(Run(Next(hub, Read(socket, serverId, value)), between), Install(socket))
    requires socket in AfterRead(hub, socket, serverId, value, between, later).clients
    requires serverId in AfterRead(hub, socket, serverId, value, between, later).published
    ensures
      var end, missed := AfterRead(hub, socket, serverId, value, between, later), LastPublished(between, serverId);
      && serverId in end.clients[socket].statuses
      && (Agree(end.clients[socket].statuses[serverId], end.published[serverId]) <==>
            || PublishedIn(later, serverId)
            || (missed.Some? && Agree(value, missed.value))
            || (missed.None? && serverId in hub.published && Agree(value, hub.published[serverId])))
  {
    hide Next, Enabled, LastPublished, PublishedIn, Run;
    var read := Next(hub, Read(socket, serverId, value));
    var waited := Run(read, between);
    var installed := Next(waited, Install(socket));
    var end := Run(installed, later);
    assert forall event :: event in between ==> event in between + later;
    assert forall event :: event in later ==> event in between + later;
    StepKeepsReplication(hub, Read(socket, serverId, value));
    ReplicationOverRuns(read, between);
    StepKeepsReplication(waited, Install(socket));
    ReplicationOverRuns(installed, later);
    ReadTakes(hub, socket, serverId, value);
    ReadStays(read, between, socket, serverId);
    InstallTakes(waited, socket, serverId);
    PublishedAfter(read, between, serverId);
    PublishedAfter(installed, later, serverId);
    if socket !in installed.clients {
      LostForGood(installed, later, socket);
    }
    SnapshotAfter(installed, later, socket, serverId, value);
  }

  /** A read that returned what was published last is outdated exactly by a differing publish before the install. */
  lemma {:induction false} CurrentReadShowsPublishedExactly(
      hub: Hub, socket: Socket, serverId: ServerId, value: Status, between: seq<HubEvent>, later: seq<HubEvent>)
    requires Replicated(hub) && Enabled(hub, Read(socket, serverId, value))
    requires serverId in hub.published && Agree(value, hub.published[serverId])
    requires Install(socket) !in between && Fail(socket) !in between && Install(socket) !in later
    requires forall event :: event in between + later ==> WellTypedEvent(event)
    requires Enabled(Run(Next(hub, Read(socket, serverId, value)), between), Install(socket))
    requires socket in AfterRead(hub, socket, serverId, value, between, later).clients
    ensures
      var end, missed := AfterRead(hub, socket, serverId, value, between, later), LastPublished(between, serverId);
      && serverId in end.published && serverId in end.clients[socket].statuses
      && (Agree(end.clients[socket].statuses[serverId], end.published[serverId]) <==>
            PublishedIn(later, serverId) || missed.None? || Agree(value, missed.value))
  {
    hide Next, Enabled, LastPublished, PublishedIn, Run, Replicated;
    var read := Next(hub, Read(socket, serverId, value));
    var waited := Run(read, between);
    ReadTakes(hub, socket, serverId, value);
    ReadStays(read, between, socket, serverId);
    InstallTakes(waited, socket, serverId);
    PublishedAfter(read, between, serverId);
    PublishedAfter(Next(waited, Install(socket)), later, serverId);
    ShowsPublishedExactly(hub, socket, serverId, value, between, later);
  }

  /** The race is real: a publish after the read and before the install is never shown. */
  lemma MissedPublish(socket: Socket, serverId: ServerId, before: Status, after: Status)
    requires !Agree(before, after)
    ensures
      var read := Next(Next(EMPTY_HUB, Begin(socket, {serverId})), Read(socket, serverId, before));
      var end := Next(Next(read, Publish(serverId, after, {})), Install(socket));
      && socket in end.clients && end.clients[socket].statuses == map[serverId := before]
      && end.published == map[serverId := after]
  {
    var begun := Next(EMPTY_HUB, Begin(socket, {serverId}));
    var read := Next(begun, Read(socket, serverId, before));
    assert read.reading == map[socket := Reading({serverId}, map[serverId := before])];
    var missed := Next(read, Publish(serverId, after, {}));
    assert missed.reading == read.reading && missed.published == map[serverId := after];
  }

  // Which subscribers exist.

  /** Some message of the socket took effect and the socket was not closed after it. */
  predicate InstalledSince(hub: Hub, events: seq<HubEvent>, socket: Socket) {
    exists i :: 0 <= i < |events| && TakesEffect(hub, events, i, socket) && Close(socket) !in events[i + 1..]
  }

  predicate TakesEffect(hub: Hub, events: seq<HubEvent>, i: nat, socket: Socket)
    requires i < |events|
  {
    events[i] == Install(socket) && Enabled(Run(hub, events[..i]), events[i])
  }

  lemma InstalledSinceSplits(hub: Hub, front: seq<HubEvent>, last: HubEvent, socket: Socket)
    ensures InstalledSince(hub, front + [last], socket) <==>
      || (last == Install(socket) && Enabled(Run(hub, front), last))
      || (InstalledSince(hub, front, socket) && last != Close(socket))
  {
    hide Enabled, Run;
    var events := front + [last];
    forall i | 0 <= i < |front|
      ensures TakesEffect(hub, events, i, socket) <==> TakesEffect(hub, front, i, socket)
      ensures events[i + 1..] == front[i + 1..] + [last]
    {
      assert events[..i] == front[..i];
    }
    assert events[..|front|] == front && events[|front| + 1..] == [];
    assert TakesEffect(hub, events, |front|, socket) <==> last == Install(socket) && Enabled(Run(hub, front), last);
    if InstalledSince(hub, front, socket) && last != Close(socket) {
      var i :| 0 <= i < |front| && TakesEffect(hub, front, i, socket) && Close(socket) !in front[i + 1..];
      assert TakesEffect(hub, events, i, socket);
    }
  }

  /**
    A subscriber exists after a run if and only if some message of its socket took effect, or it was there
    at the beginning, and the socket was not closed after that. As a socket closes once, a message
    that takes effect after the close leaves its subscriber behind for good.
   */
  lemma {:induction false} SubscribedExactly(hub: Hub, events: seq<HubEvent>, socket: Socket)
    ensures socket in Run(hub, events).subscribers <==>
      (socket in hub.subscribers && Close(socket) !in events) || InstalledSince(hub, events, socket)
  {
    hide FollowAll, Notified, Updated, InstalledSince;
    if events == [] {
      assert !InstalledSince(hub, events, socket) by { NothingInstalled(hub, socket); }
    } else {
      var front, last := events[..|events| - 1], events[|events| - 1];
      assert events == front + [last] && [last][1..] == [];
      RunInParts(hub, front, [last]);
      assert Run(hub, events) == Next(Run(hub, front), last);
      SubscribedExactly(hub, front, socket);
      InstalledSinceSplits(hub, front, last, socket);
    }
  }

  lemma NothingInstalled(hub: Hub, socket: Socket)
    ensures !InstalledSince(hub, [], socket)
  {
  }

  /** A subscriber stays, through whatever else happens, until its socket is closed. */
  lemma {:induction false} SubscriberStays(hub: Hub, events: seq<HubEvent>, socket: Socket)
    requires socket in hub.subscribers && Close(socket) !in events
    ensures socket in Run(hub, events).subscribers
  {
    hide Run;
    SubscribedExactly(hub, events, socket);
  }

  /** A socket that closes while its message is being worked on leaves a subscriber that no later event removes. */
  lemma {:induction false} LateInstallLingers(socket: Socket, later: seq<HubEvent>)
    requires Close(socket) !in later
    ensures
      var late := Next(Next(Next(EMPTY_HUB, Begin(socket, {})), Close(socket)), Install(socket));
      socket in late.lost && socket !in late.clients && socket in Run(late, later).subscribers
  {
    hide Run;
    var begun := Next(EMPTY_HUB, Begin(socket, {}));
    assert begun.reading == map[socket := Reading({}, map[])];
    var closed := Next(begun, Close(socket));
    assert closed.reading == begun.reading;
    SubscriberStays(Next(closed, Install(socket)), later, socket);
  }

  class StatusService {
    var subscribers: map<Socket, Subscriber>
    /** The local variables of each socket's running message. */
    var reading: map<Socket, Reading>
    ghost var clients: map<Socket, Client>
    ghost var lost: set<Socket>
    ghost var published: map<ServerId, Status>

    constructor ()
      ensures State() == EMPTY_HUB
    {
      subscribers, reading, clients, lost, published := map[], map[], map[], {}, map[];
    }

    ghost function State(): Hub
      reads this
    {
      Hub(subscribers, clients, lost, reading, published)
    }

    method BeginMessage(socket: Socket, serverIds: set<ServerId>)
      requires socket !in reading
      modifies this
      ensures State() == Next(old(State()), Begin(socket, serverIds))
    {
      reading := reading[socket := Reading(serverIds, map[])];
    }

    method SnapshotRead(socket: Socket, serverId: ServerId, value: Status)
      requires Enabled(State(), Read(socket, serverId, value))
      modifies this
      ensures State() == Next(old(State()), Read(socket, serverId, value))
    {
      var message := reading[socket];
      reading := reading[socket := Reading(message.serverIds, message.read[serverId := value])];
    }

    /** The last step of a message: replace the server set and its snapshots, keep the sequence. */
    method InstallSnapshots(socket: Socket)
      requires Enabled(State(), Install(socket))
      modifies this
      ensures State() == Next(old(State()), Install(socket))
    {
      var message := reading[socket];
      var state := if socket in subscribers then subscribers[socket] else Subscriber({}, map[], 0);
      state := state.(serverIds := message.serverIds);
      state := state.(snapshots := message.read);
      subscribers := subscribers[socket := state];
      reading := reading - {socket};
      if socket !in lost {
        clients := clients[socket := Client(message.read, if socket in clients then clients[socket].seen else [])];
      }
    }

    method FailMessage(socket: Socket)
      requires socket in reading
      modifies this
      ensures State() == Next(old(State()), Fail(socket))
    {
      reading := reading - {socket};
    }

    method PublishUpdate(serverId: ServerId, value: Status, gone: set<Socket>)
      modifies this
      ensures State() == Next(old(State()), Publish(serverId, value, gone))
    {
      ghost var before := subscribers;
      var todo := subscribers.Keys;
      while todo != {}
        invariant todo <= subscribers.Keys == before.Keys
        invariant forall socket :: socket in before ==>
          subscribers[socket]
            == if socket in todo then before[socket] else Updated(before[socket], serverId, value)
        invariant clients == old(clients) && lost == old(lost) && reading == old(reading) && published == old(published)
      {
        var socket :| socket in todo;
        todo := todo - {socket};
        var state := subscribers[socket];
        if serverId in state.serverIds {
          var next := state.(snapshots := state.snapshots[serverId := value]);
          if serverId in state.snapshots {
            var changes := ServerLiveStatusChanges(state.snapshots[serverId], value);
            if !IsEmpty(changes.(lastChecked := None)) {
              next := next.(sequence := next.sequence + 1);
            }
          }
          subscribers := subscribers[socket := next];
        }
      }
      assert subscribers == UpdatedAll(before, serverId, value);
      ghost var dropped := gone * Notified(before, serverId, value);
      clients := FollowAll(clients, before, serverId, value, dropped);
      lost := lost + dropped;
      published := published[serverId := value];
    }

    /** The closed socket is no subscriber any more, and every other one stays as it was. */
    method CloseSocket(socket: Socket)
      modifies this
      ensures State() == Next(old(State()), Close(socket))
      ensures socket !in subscribers
      ensures forall other :: other != socket ==> (other in subscribers <==> other in old(subscribers))
    {
      subscribers := subscribers - {socket};
      clients, lost := clients - {socket}, lost + {socket};
    }
  }
}
