/**
  Which refreshes a map-live client is sent, told from what it holds
  (src/service/map-live-service.ts).
 */
module MapLiveFeedHistory {
  import opened Prelude
  import opened MapLiveDelta
  import opened MapLiveSnapshot
  import opened MapLiveFeed

  // Marketplace areas.

  ghost predicate Mentions(areas: seq<AreaDelta>, areaId: int) {
    exists area :: area in areas && area.areaId == areaId
  }

  ghost predicate IsSent(changes: Changes, areaId: int) {
    changes.marketplaceOffers.Some? && Mentions(changes.marketplaceOffers.value, areaId)
  }

  lemma {:induction false} DeltasOfAreas(previous: Snapshot, next: Snapshot, areaIds: seq<int>, areaId: int)
    ensures Mentions(AreaDeltas(previous, next, areaIds), areaId)
      <==> areaId in areaIds && HasEntityChanges(OffersDelta(previous, next, areaId))
    decreases |areaIds|
  {
    hide OffersDelta, HasEntityChanges;
    if areaIds != [] {
      var delta, rest := OffersDelta(previous, next, areaIds[0]), AreaDeltas(previous, next, areaIds[1..]);
      DeltasOfAreas(previous, next, areaIds[1..], areaId);
      assert areaId in areaIds <==> areaId == areaIds[0] || areaId in areaIds[1..];
      var areas := AreaDeltas(previous, next, areaIds);
      assert forall area :: area in areas <==>
        (HasEntityChanges(delta) && area == AreaDelta(areaIds[0], delta)) || area in rest;
      if areaId == areaIds[0] && HasEntityChanges(delta) {
        assert AreaDelta(areaIds[0], delta) in areas;
      }
    }
  }

  /** Exactly the areas with a positive safe id whose offers changed are sent, and no empty list of areas. */
  lemma AreasSentExactly(previous: Snapshot, next: Snapshot, areaId: int)
    requires ConsistentSnapshot(next)
    ensures
      var changes := MapLiveChanges(previous, next);
      && (IsSent(changes, areaId) <==>
            && 1 <= areaId <= 9_007_199_254_740_991
            && ById(OffersIn(previous.marketplaceOffers, areaId), OfferId)
               != ById(OffersIn(next.marketplaceOffers, areaId), OfferId))
      && changes.marketplaceOffers != Some([])
  {
    hide DeltaOf, ById, AreaDeltas, HasEntityChanges;
    var areas := AreaDeltas(previous, next, Ascending(AreaKeys(previous, next)));
    assert areas == [] ==> !Mentions(areas, areaId);
    DeltasOfAreas(previous, next, Ascending(AreaKeys(previous, next)), areaId);
    if 1 <= areaId <= 9_007_199_254_740_991 {
      EmptyDeltaMeansEqual(OffersIn(previous.marketplaceOffers, areaId), OffersIn(next.marketplaceOffers, areaId), OfferId);
    }
  }

  // Refreshes.

  /** A refresh has news for a subscriber exactly when a client of its last snapshot does not hold the new one. */
  lemma NewsExactly(subscriber: Subscriber, entry: Entry)
    requires ConsistentEntry(entry)
    ensures News(subscriber, entry).Some? <==>
      subscriber.snapshot.Some? && !Holds(ReplicaOf(subscriber.snapshot.value), entry.snapshotFor(subscriber.userSteamId))
  {
    if subscriber.snapshot.Some? {
      var previous, next := subscriber.snapshot.value, entry.snapshotFor(subscriber.userSteamId);
      assert ConsistentSnapshot(next);
      FirstSnapshotHolds(previous);
      NoLayersExactly(ReplicaOf(previous), previous, next);
    }
  }

  lemma NoLayersExactly(replica: Replica, previous: Snapshot, next: Snapshot)
    requires Holds(replica, previous) && ConsistentSnapshot(next)
    ensures LayersOf(MapLiveChanges(previous, next)) == [] <==> Holds(replica, next)
  {
    EmptyDeltaMeansEqual(previous.claims, next.claims, ClaimId);
    EmptyDeltaMeansEqual(previous.players, next.players, PlayerId);
    EmptyDeltaMeansEqual(previous.gpsGlobalMarkers, next.gpsGlobalMarkers, MarkerId);
    hide DeltaOf, ById, HasEntityChanges, AreaDeltas;
    var changes := MapLiveChanges(previous, next);
    forall areaId | IsAreaKey(areaId)
      ensures IsSent(changes, areaId) <==>
        OffersHeld(replica.offers, areaId) != ById(OffersIn(next.marketplaceOffers, areaId), OfferId)
    {
      AreasSentExactly(previous, next, areaId);
    }
    if changes.marketplaceOffers.Some? {
      AreasSentExactly(previous, next, 1);
      var area := changes.marketplaceOffers.value[0];
      assert area in changes.marketplaceOffers.value && IsSent(changes, area.areaId);
      AreasSentExactly(previous, next, area.areaId);
    }
  }

  /** Some subscriber's last snapshot is not what the refresh shows. */
  ghost predicate SomeoneIsBehind(feed: Feed, entry: Entry) {
    exists socket :: socket in feed.subscribers && feed.subscribers[socket].snapshot.Some?
      && !Holds(ReplicaOf(feed.subscribers[socket].snapshot.value), entry.snapshotFor(feed.subscribers[socket].userSteamId))
  }

  /** The refreshes of a run that left some subscriber behind. */
  ghost function Sending(feed: Feed, events: seq<FeedEvent>): nat
    decreases |events|
  {
    if events == [] then 0
    else
      (if events[0].Publish? && SomeoneIsBehind(feed, events[0].entry) then 1 else 0)
      + Sending(Next(feed, events[0]), events[1..])
  }

  lemma SequenceStep(feed: Feed, entry: Entry, gone: set<Socket>)
    requires ConsistentEntry(entry)
    ensures Next(feed, Publish(entry, gone)).sequence == feed.sequence + if SomeoneIsBehind(feed, entry) then 1 else 0
  {
    hide News, Holds, FollowAll, ConsistentEntry;
    var messages := MessagesFor(feed.subscribers, entry);
    forall socket | socket in feed.subscribers
      ensures socket in messages <==>
        && feed.subscribers[socket].snapshot.Some?
        && !Holds(ReplicaOf(feed.subscribers[socket].snapshot.value), entry.snapshotFor(feed.subscribers[socket].userSteamId))
    {
      NewsExactly(feed.subscribers[socket], entry);
    }
    assert messages == map[] <==> forall socket :: socket !in messages;
  }

  /** The sequence number counts the refreshes that were news to some subscriber. */
  lemma {:induction false} SequenceCounts(feed: Feed, events: seq<FeedEvent>)
    requires forall event :: event in events ==> ConsistentEvent(event)
    ensures Run(feed, events).sequence == feed.sequence + Sending(feed, events)
    ensures feed == EMPTY_FEED ==> Run(feed, events).sequence == Sending(feed, events)
    decreases |events|
  {
    hide SomeoneIsBehind, ConsistentEntry, MessagesFor, FollowAll;
    if events != [] {
      assert events[0] in events;
      if events[0].Publish? {
        SequenceStep(feed, events[0].entry, events[0].gone);
      }
      SequenceCounts(Next(feed, events[0]), events[1..]);
    }
  }

  /**
    After every run a refresh leaves a client that holds what it shows as it was; any other client is sent the
    changes under the next number, or is lost when its socket is gone. A first snapshot takes no number.
   */
  lemma {:induction false} SentExactly(events: seq<FeedEvent>, socket: Socket, entry: Entry, gone: set<Socket>)
    requires (forall event :: event in events ==> ConsistentEvent(event)) && ConsistentEntry(entry)
    requires socket in Run(EMPTY_FEED, events).clients && socket in Run(EMPTY_FEED, events).subscribers
    ensures
      var before := Run(EMPTY_FEED, events);
      var after := Next(before, Publish(entry, gone));
      var client, shown := before.clients[socket], entry.snapshotFor(before.subscribers[socket].userSteamId);
      if client.replica.Some? && Holds(client.replica.value, shown) then
        socket in after.clients && after.clients[socket] == client
      else if client.replica.Some? && socket in gone then
        socket !in after.clients
      else
        && socket in after.clients
        && after.clients[socket].seen == (if client.replica.None? then [] else client.seen + [before.sequence + 1])
        && after.clients[socket].replica.Some? && Holds(after.clients[socket].replica.value, shown)
  {
    hide Holds, LayersOf, MapLiveChanges, ApplyChanges, ConsistentSnapshot, ReplicaOf;
    ReplicationOverRuns(EMPTY_FEED, events);
    var before := Run(EMPTY_FEED, events);
    var subscriber := before.subscribers[socket];
    StepKeepsReplication(before, Publish(entry, gone));
    var shown := entry.snapshotFor(subscriber.userSteamId);
    if subscriber.snapshot.Some? {
      assert ConsistentSnapshot(shown);
      NoLayersExactly(before.clients[socket].replica.value, subscriber.snapshot.value, shown);
      assert News(subscriber, entry).Some? <==> socket in MessagesFor(before.subscribers, entry);
    }
  }

  // Subscribers, told from the events alone.

  lemma {:induction false} RunAppended(feed: Feed, events: seq<FeedEvent>, last: FeedEvent)
    ensures Run(feed, events + [last]) == Next(Run(feed, events), last)
    decreases |events|
  {
    hide Next;
    if events == [] {
      assert events + [last] == [last];
    } else {
      assert (events + [last])[1..] == events[1..] + [last];
      RunAppended(Next(feed, events[0]), events[1..], last);
    }
  }

  /** The entry that was published last. */
  function LastPublished(events: seq<FeedEvent>): Option<Entry> {
    if events == [] then None
    else if events[|events| - 1].Publish? then Some(events[|events| - 1].entry)
    else LastPublished(events[..|events| - 1])
  }

  /** The last join of a socket, which has not left since. */
  predicate JoinedAt(events: seq<FeedEvent>, i: nat, socket: Socket) {
    && i < |events| && events[i].Join? && events[i].socket == socket
    && forall j :: i < j < |events| ==> events[j] != Leave(socket) && !(events[j].Join? && events[j].socket == socket)
  }

  /** What the subscriber is after joining at `i`. */
  function SubscriberSince(events: seq<FeedEvent>, i: nat): Subscriber
    requires i < |events| && events[i].Join?
  {
    var user := events[i].userSteamId;
    Subscriber(
      user,
      match LastPublished(events[i + 1..])
      case None => None
      case Some(entry) => Some(entry.snapshotFor(user)))
  }

  lemma JoinedStays(events: seq<FeedEvent>, last: FeedEvent, i: nat, socket: Socket)
    requires JoinedAt(events, i, socket) && last != Leave(socket) && !(last.Join? && last.socket == socket)
    ensures JoinedAt(events + [last], i, socket)
    ensures SubscriberSince(events + [last], i)
      == if last.Publish? then Refreshed(SubscriberSince(events, i), last.entry) else SubscriberSince(events, i)
  {
    var later := (events + [last])[i + 1..];
    assert later == events[i + 1..] + [last];
    assert later[..|later| - 1] == events[i + 1..];
  }

  /**
    After every run a subscriber is that of its socket's last join: it sees what that user may see of the entry
    published last since, or nothing yet.
   */
  lemma {:induction false} ShownExactly(events: seq<FeedEvent>, socket: Socket)
    requires socket in Run(EMPTY_FEED, events).subscribers
    ensures exists i: nat ::
      JoinedAt(events, i, socket) && Run(EMPTY_FEED, events).subscribers[socket] == SubscriberSince(events, i)
    decreases |events|
  {
    hide MessagesFor, FollowAll, Run, SubscriberSince;
    if events != [] {
      var front, last := events[..|events| - 1], events[|events| - 1];
      assert events == front + [last];
      RunAppended(EMPTY_FEED, front, last);
      if last.Join? && last.socket == socket {
        JustJoined(front, socket, last.userSteamId);
      } else {
        ShownExactly(front, socket);
        var i: nat :| JoinedAt(front, i, socket) && Run(EMPTY_FEED, front).subscribers[socket] == SubscriberSince(front, i);
        JoinedStays(front, last, i, socket);
      }
    } else {
      NobodyAtFirst();
    }
  }

  lemma NobodyAtFirst()
    ensures Run(EMPTY_FEED, []) == EMPTY_FEED
  {
  }

  lemma JustJoined(front: seq<FeedEvent>, socket: Socket, user: Option<string>)
    ensures JoinedAt(front + [Join(socket, user)], |front|, socket)
    ensures SubscriberSince(front + [Join(socket, user)], |front|) == Subscriber(user, None)
  {
  }
}
