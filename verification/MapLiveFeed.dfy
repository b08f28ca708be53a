/**
  One server's map-live feed as a state machine: its subscribers, its sequence
  counter, and the replicas of the clients that stay connected
  (src/service/map-live-service.ts).
 */
module MapLiveFeed {
  import opened Prelude
  import opened MapLiveDelta
  import opened MapLiveSnapshot

  type Socket = nat

  /** The plugin data of one refresh; what it shows depends on the user looking at it. */
  datatype Entry = Entry(snapshotFor: Option<string> -> Snapshot)

  datatype Subscriber = Subscriber(userSteamId: Option<string>, snapshot: Option<Snapshot>)

  /** A connected client: its replica once the first snapshot is known, and the sequence numbers it received. */
  datatype Client = Client(replica: Option<Replica>, seen: seq<nat>)

  datatype Feed = Feed(subscribers: map<Socket, Subscriber>, sequence: nat, clients: map<Socket, Client>)

  datatype FeedEvent =
    | Join(socket: Socket, userSteamId: Option<string>)
    | Leave(socket: Socket)
      /** A refresh; sockets in `gone` are not open or get terminated for back pressure. */
    | Publish(entry: Entry, gone: set<Socket>)

  const EMPTY_FEED := Feed(map[], 0, map[])

  function Refreshed(subscriber: Subscriber, entry: Entry): Subscriber {
    subscriber.(snapshot := Some(entry.snapshotFor(subscriber.userSteamId)))
  }

  /** The changes a refresh sends to one subscriber, if any. */
  function News(subscriber: Subscriber, entry: Entry): Option<Changes> {
    if subscriber.snapshot.None? then None
    else
      var changes := MapLiveChanges(subscriber.snapshot.value, entry.snapshotFor(subscriber.userSteamId));
      if LayersOf(changes) == [] then None else Some(changes)
  }

  function RefreshedAll(subscribers: map<Socket, Subscriber>, entry: Entry): (refreshed: map<Socket, Subscriber>)
    ensures refreshed.Keys == subscribers.Keys
  {
    map socket | socket in subscribers :: Refreshed(subscribers[socket], entry)
  }

  function MessagesFor(subscribers: map<Socket, Subscriber>, entry: Entry): map<Socket, Changes> {
    map socket | socket in subscribers && News(subscribers[socket], entry).Some? ::
      News(subscribers[socket], entry).value
  }

  /** A client starts from its subscriber's first snapshot and applies every message after it. */
  function Follow(client: Client, subscriber: Subscriber, entry: Entry, sequence: nat): Client {
    if subscriber.snapshot.None? then
      client.(replica := Some(ReplicaOf(entry.snapshotFor(subscriber.userSteamId))))
    else
      var news := News(subscriber, entry);
      if news.None? || client.replica.None? then client
      else Client(Some(ApplyChanges(client.replica.value, news.value)), client.seen + [sequence])
  }

  function FollowAll(
      clients: map<Socket, Client>, subscribers: map<Socket, Subscriber>, entry: Entry, dropped: set<Socket>,
      sequence: nat): map<Socket, Client>
  {
    map socket | socket in clients && socket !in dropped ::
      if socket in subscribers then Follow(clients[socket], subscribers[socket], entry, sequence) else clients[socket]
  }

  function Published(feed: Feed, entry: Entry, gone: set<Socket>): Feed {
    var messages := MessagesFor(feed.subscribers, entry);
    var sequence := if messages != map[] then feed.sequence + 1 else feed.sequence;
    Feed(
      RefreshedAll(feed.subscribers, entry),
      sequence,
      FollowAll(feed.clients, feed.subscribers, entry, gone * messages.Keys, sequence))
  }

  function Next(feed: Feed, event: FeedEvent): Feed {
    match event
    case Join(socket, user) =>
      feed.(subscribers := feed.subscribers[socket := Subscriber(user, None)],
            clients := feed.clients[socket := Client(None, [])])
    case Leave(socket) =>
      feed.(subscribers := feed.subscribers - {socket}, clients := feed.clients - {socket})
    case Publish(entry, gone) =>
      Published(feed, entry, gone)
  }

  function Run(feed: Feed, events: seq<FeedEvent>): Feed
    decreases |events|
  {
    if events == [] then feed else Run(Next(feed, events[0]), events[1..])
  }

  /** A subscriber exists after a run exactly when it has not left since some join, or since the beginning. */
  lemma {:induction false} SubscribedExactly(feed: Feed, events: seq<FeedEvent>, socket: Socket)
    ensures socket in Run(feed, events).subscribers <==>
      (socket in feed.subscribers && Leave(socket) !in events) || JoinedSince(events, socket)
    decreases |events|
  {
    hide MessagesFor, FollowAll;
    if events != [] {
      var first, rest := events[0], events[1..];
      SubscribedExactly(Next(feed, first), rest, socket);
      assert forall i :: 0 < i < |events| ==> events[i] == rest[i - 1] && events[i + 1..] == rest[i..];
      assert forall i :: 0 <= i < |rest| ==> rest[i] == events[i + 1] && rest[i + 1..] == events[i + 2..];
      assert Leave(socket) in events <==> first == Leave(socket) || Leave(socket) in rest;
      JoinedSinceSplits(events, socket);
    }
  }

  ghost predicate JoinedSince(events: seq<FeedEvent>, socket: Socket) {
    exists i :: 0 <= i < |events| && events[i].Join? && events[i].socket == socket && Leave(socket) !in events[i + 1..]
  }

  lemma JoinedSinceSplits(events: seq<FeedEvent>, socket: Socket)
    requires events != []
    ensures JoinedSince(events, socket) <==>
      || (events[0].Join? && events[0].socket == socket && Leave(socket) !in events[1..])
      || JoinedSince(events[1..], socket)
  {
    var rest := events[1..];
    if JoinedSince(rest, socket) {
      var i :| 0 <= i < |rest| && rest[i].Join? && rest[i].socket == socket && Leave(socket) !in rest[i + 1..];
      assert events[i + 1] == rest[i] && events[i + 1 + 1..] == rest[i + 1..];
    }
    if JoinedSince(events, socket) {
      var i :| 0 <= i < |events| && events[i].Join? && events[i].socket == socket && Leave(socket) !in events[i + 1..];
      if i > 0 {
        assert rest[i - 1] == events[i] && rest[i - 1 + 1..] == events[i + 1..];
      }
    }
  }

  /** A subscribe that takes effect after its socket closed leaves a subscriber that keeps the loop running for good. */
  lemma {:induction false} LateJoinLingers(feed: Feed, socket: Socket, user: Option<string>, later: seq<FeedEvent>)
    requires Leave(socket) !in later
    ensures socket in Run(Next(Next(feed, Leave(socket)), Join(socket, user)), later).subscribers
  {
    SubscribedExactly(Next(Next(feed, Leave(socket)), Join(socket, user)), later, socket);
  }

  predicate StrictlyIncreasing(numbers: seq<nat>) {
    forall i, j :: 0 <= i < j < |numbers| ==> numbers[i] < numbers[j]
  }

  ghost predicate InStep(client: Client, subscriber: Subscriber, sequence: nat) {
    && (subscriber.snapshot.None? ==> client == Client(None, []))
    && (subscriber.snapshot.Some? ==>
          client.replica.Some? && Holds(client.replica.value, subscriber.snapshot.value))
    && StrictlyIncreasing(client.seen)
    && forall i :: 0 <= i < |client.seen| ==> client.seen[i] <= sequence
  }

  /** Every connected client holds its subscriber's snapshot and has seen increasing sequence numbers. */
  ghost predicate Replicated(feed: Feed) {
    forall socket :: socket in feed.clients ==>
      socket in feed.subscribers && InStep(feed.clients[socket], feed.subscribers[socket], feed.sequence)
  }

  ghost predicate ConsistentEntry(entry: Entry) {
    forall user :: ConsistentSnapshot(entry.snapshotFor(user))
  }

  ghost predicate ConsistentEvent(event: FeedEvent) {
    event.Publish? ==> ConsistentEntry(event.entry)
  }

  lemma FollowStaysInStep(client: Client, subscriber: Subscriber, entry: Entry, before: nat, after: nat)
    requires InStep(client, subscriber, before) && ConsistentEntry(entry)
    requires before <= after && (News(subscriber, entry).Some? ==> before < after)
    ensures InStep(Follow(client, subscriber, entry, after), Refreshed(subscriber, entry), after)
  {
    var next := entry.snapshotFor(subscriber.userSteamId);
    if subscriber.snapshot.None? {
      FirstSnapshotHolds(next);
    } else {
      var replica, previous := client.replica.value, subscriber.snapshot.value;
      ConsistentSnapshotSettles(previous, next);
      ChangesReplicateExactly(replica, previous, next);
      if News(subscriber, entry).None? {
        NoLayersMeansNoNews(replica, previous, next);
      }
    }
  }

  lemma StepKeepsReplication(feed: Feed, event: FeedEvent)
    requires Replicated(feed) && ConsistentEvent(event)
    ensures Replicated(Next(feed, event))
  {
    if event.Publish? {
      var next := Next(feed, event);
      forall socket | socket in next.clients
        ensures InStep(next.clients[socket], next.subscribers[socket], next.sequence)
      {
        assert News(feed.subscribers[socket], event.entry).Some? ==>
          socket in MessagesFor(feed.subscribers, event.entry);
        FollowStaysInStep(
          feed.clients[socket], feed.subscribers[socket], event.entry, feed.sequence, next.sequence);
      }
    }
  }

  /** Replication over every interleaving of joins, leaves and refreshes. */
  lemma {:induction false} ReplicationOverRuns(feed: Feed, events: seq<FeedEvent>)
    requires Replicated(feed)
    requires forall event :: event in events ==> ConsistentEvent(event)
    ensures Replicated(Run(feed, events))
    decreases |events|
  {
    if events != [] {
      StepKeepsReplication(feed, events[0]);
      ReplicationOverRuns(Next(feed, events[0]), events[1..]);
    }
  }

  /** Consistency is needed: with two different claims under one id some client ends up wrong. */
  lemma InconsistentClaimsDiverge(socket: Socket, user: Option<string>, entry: Entry)
    requires !Consistent(entry.snapshotFor(user).claims, ClaimId)
    ensures exists first: Entry ::
      && ConsistentEntry(first)
      && !Replicated(Run(EMPTY_FEED, [Join(socket, user), Publish(first, {}), Publish(entry, {})]))
  {
    var next := entry.snapshotFor(user);
    var last := HiddenItem(next.claims, ClaimId);
    var start := next.(claims := [last], players := [], gpsGlobalMarkers := [], marketplaceOffers := map[]);
    var first := Entry(_ => start);
    ThreeSteps(socket, user, first, entry);
    FirstSnapshotHolds(start);
    ChangesReplicateExactly(ReplicaOf(start), start, next);
    assert ConsistentEntry(first) by {
      assert ConsistentSnapshot(start);
    }
  }

  lemma ThreeSteps(socket: Socket, user: Option<string>, first: Entry, entry: Entry)
    ensures
      var end := Run(EMPTY_FEED, [Join(socket, user), Publish(first, {}), Publish(entry, {})]);
      var start, next := first.snapshotFor(user), entry.snapshotFor(user);
      && socket in end.clients && socket in end.subscribers
      && end.subscribers[socket].snapshot == Some(next)
      && end.clients[socket].replica == Some(ApplyChanges(ReplicaOf(start), MapLiveChanges(start, next)))
  {
    var join, publish, again := Join(socket, user), Publish(first, {}), Publish(entry, {});
    var start, next := first.snapshotFor(user), entry.snapshotFor(user);
    var joined := Next(EMPTY_FEED, join);
    var started := Next(joined, publish);
    assert started.subscribers == map[socket := Subscriber(user, Some(start))];
    assert started.clients == map[socket := Client(Some(ReplicaOf(start)), [])];
    PublishesTo(started, socket, entry);
    hide Next;
    assert [join, publish, again][1..] == [publish, again] && [publish, again][1..] == [again] && [again][1..] == [];
    assert Run(Next(started, again), []) == Next(started, again);
    assert Run(started, [again]) == Next(started, again);
    assert Run(joined, [publish, again]) == Next(started, again);
  }

  /** One more refresh takes a client of the previous snapshot through the changes. */
  lemma PublishesTo(feed: Feed, socket: Socket, entry: Entry)
    requires socket in feed.clients && feed.clients[socket].replica.Some?
    requires socket in feed.subscribers && feed.subscribers[socket].snapshot.Some?
    ensures
      var after, subscriber := Next(feed, Publish(entry, {})), feed.subscribers[socket];
      var start, next := subscriber.snapshot.value, entry.snapshotFor(subscriber.userSteamId);
      && socket in after.clients && socket in after.subscribers
      && after.subscribers[socket].snapshot == Some(next)
      && after.clients[socket].replica == Some(ApplyChanges(feed.clients[socket].replica.value, MapLiveChanges(start, next)))
  {
    hide MapLiveChanges;
    var subscriber := feed.subscribers[socket];
    var changes := MapLiveChanges(subscriber.snapshot.value, entry.snapshotFor(subscriber.userSteamId));
    if LayersOf(changes) == [] {
      var replica := feed.clients[socket].replica.value;
      assert ApplyChanges(replica, changes) == replica;
    }
  }
}
