/**
  What the status subscribers owe to the events that made them: the chosen
  servers, the silence of all others, and one numbering per connection
  (src/service/server-status-live-service.ts).
 */
module StatusHubHistory {
  import opened Prelude
  import opened StatusLive
  import opened StatusHub

  function After(events: seq<HubEvent>): Hub {
    Run(EMPTY_HUB, events)
  }

  predicate Happened(events: seq<HubEvent>, i: nat, event: HubEvent)
    requires i < |events|
  {
    events[i] == event && Enabled(After(events[..i]), event)
  }

  /** The socket's chain took up, installed or dropped a message at this event. */
  predicate Concerns(events: seq<HubEvent>, i: nat, socket: Socket)
    requires i < |events|
  {
    && Enabled(After(events[..i]), events[i])
    && (events[i] == Install(socket) || events[i] == Fail(socket) || (events[i].Begin? && events[i].socket == socket))
  }

  lemma OneMore(front: seq<HubEvent>, last: HubEvent, i: nat, event: HubEvent, socket: Socket)
    requires i <= |front|
    ensures After(front + [last]) == Next(After(front), last)
    ensures i < |front| ==> (Happened(front + [last], i, event) <==> Happened(front, i, event))
    ensures i < |front| ==> (Concerns(front + [last], i, socket) <==> Concerns(front, i, socket))
    ensures i == |front| ==> (Happened(front + [last], i, event) <==> last == event && Enabled(After(front), event))
    ensures i == |front| ==>
      (Concerns(front + [last], i, socket) <==>
        Enabled(After(front), last)
        && (last == Install(socket) || last == Fail(socket) || (last.Begin? && last.socket == socket)))
  {
    hide Next, Enabled;
    var events := front + [last];
    assert events[..i] == front[..i] && [last][1..] == [];
    assert front[..|front|] == front;
    RunInParts(EMPTY_HUB, front, [last]);
  }

  /** The message being worked on was taken up at `b`, and nothing has ended it since. */
  predicate BegunAt(events: seq<HubEvent>, b: nat, socket: Socket, serverIds: set<ServerId>) {
    && b < |events| && Happened(events, b, Begin(socket, serverIds))
    && forall j :: b < j < |events| ==> !Concerns(events, j, socket)
  }

  lemma BegunStays(front: seq<HubEvent>, last: HubEvent, b: nat, socket: Socket, serverIds: set<ServerId>)
    requires BegunAt(front, b, socket, serverIds) && !Concerns(front + [last], |front|, socket)
    ensures BegunAt(front + [last], b, socket, serverIds)
  {
    hide Happened, Concerns;
    forall j | b <= j <= |front|
      ensures j < |front| ==> (Happened(front + [last], j, Begin(socket, serverIds)) <==> Happened(front, j, Begin(socket, serverIds)))
      ensures j < |front| ==> (Concerns(front + [last], j, socket) <==> Concerns(front, j, socket))
    {
      OneMore(front, last, j, Begin(socket, serverIds), socket);
    }
  }

  lemma {:induction false} ReadingWasBegun(events: seq<HubEvent>, socket: Socket)
    requires socket in After(events).reading
    ensures exists b :: BegunAt(events, b, socket, After(events).reading[socket].serverIds)
  {
    hide BegunAt, UpdatedAll, FollowAll, Notified;
    if events != [] {
      var front, last := events[..|events| - 1], events[|events| - 1];
      assert events == front + [last];
      OneMore(front, last, |front|, last, socket);
      var serverIds := After(events).reading[socket].serverIds;
      if last.Begin? && last.socket == socket && Enabled(After(front), last) {
        JustBegun(front, socket, serverIds);
      } else {
        ReadingWasBegun(front, socket);
        var b :| BegunAt(front, b, socket, serverIds);
        BegunStays(front, last, b, socket, serverIds);
      }
    }
  }

  lemma JustBegun(front: seq<HubEvent>, socket: Socket, serverIds: set<ServerId>)
    requires Enabled(After(front), Begin(socket, serverIds))
    ensures BegunAt(front + [Begin(socket, serverIds)], |front|, socket, serverIds)
  {
    OneMore(front, Begin(socket, serverIds), |front|, Begin(socket, serverIds), socket);
  }

  /** The message taken up at `b` took effect at `i`, and no later one did. */
  predicate InstalledAt(events: seq<HubEvent>, b: nat, i: nat, socket: Socket, serverIds: set<ServerId>) {
    && b < i < |events| && BegunAt(events[..i], b, socket, serverIds) && Happened(events, i, Install(socket))
    && forall j :: i < j < |events| ==> !Happened(events, j, Install(socket))
  }

  lemma InstalledStays(
      front: seq<HubEvent>, last: HubEvent, b: nat, i: nat, socket: Socket, serverIds: set<ServerId>)
    requires InstalledAt(front, b, i, socket, serverIds)
    requires !(last == Install(socket) && Enabled(After(front), last))
    ensures InstalledAt(front + [last], b, i, socket, serverIds)
  {
    hide Happened, BegunAt;
    assert (front + [last])[..i] == front[..i];
    forall j | i <= j <= |front|
      ensures j < |front| ==> (Happened(front + [last], j, Install(socket)) <==> Happened(front, j, Install(socket)))
      ensures j == |front| ==> !Happened(front + [last], j, Install(socket))
    {
      OneMore(front, last, j, Install(socket), socket);
    }
  }

  lemma JustInstalled(front: seq<HubEvent>, b: nat, socket: Socket, serverIds: set<ServerId>)
    requires BegunAt(front, b, socket, serverIds) && Enabled(After(front), Install(socket))
    ensures InstalledAt(front + [Install(socket)], b, |front|, socket, serverIds)
  {
    hide BegunAt;
    assert (front + [Install(socket)])[..|front|] == front;
    OneMore(front, Install(socket), |front|, Install(socket), socket);
    assert b < |front| by { BegunBefore(front, b, socket, serverIds); }
  }

  lemma BegunBefore(events: seq<HubEvent>, b: nat, socket: Socket, serverIds: set<ServerId>)
    requires BegunAt(events, b, socket, serverIds)
    ensures b < |events|
  {
  }

  /**
    After every run a subscriber has chosen exactly the servers of the last message of its socket that
    took effect, and has a snapshot of exactly these: a set-servers message replaces all before it.
   */
  lemma {:induction false} ChosenByLastMessage(events: seq<HubEvent>, socket: Socket)
    requires socket in After(events).subscribers
    ensures After(events).subscribers[socket].snapshots.Keys == After(events).subscribers[socket].serverIds
    ensures exists b, i :: InstalledAt(events, b, i, socket, After(events).subscribers[socket].serverIds)
  {
    hide BegunAt, InstalledAt, News, FollowAll, Notified;
    if events != [] {
      var front, last := events[..|events| - 1], events[|events| - 1];
      assert events == front + [last];
      OneMore(front, last, |front|, last, socket);
      var serverIds := After(events).subscribers[socket].serverIds;
      if last == Install(socket) && Enabled(After(front), last) {
        ReadingWasBegun(front, socket);
        var b :| BegunAt(front, b, socket, After(front).reading[socket].serverIds);
        JustInstalled(front, b, socket, serverIds);
      } else {
        ChosenByLastMessage(front, socket);
        var b, i :| InstalledAt(front, b, i, socket, serverIds);
        InstalledStays(front, last, b, i, socket, serverIds);
      }
    }
  }

  /** A publish of a server that is not chosen leaves the subscriber, its number and its client as they were. */
  lemma OtherServersAreSilent(hub: Hub, serverId: ServerId, value: Status, gone: set<Socket>, socket: Socket)
    requires socket in hub.subscribers && serverId !in hub.subscribers[socket].serverIds
    ensures
      var after := Next(hub, Publish(serverId, value, gone));
      && socket in after.subscribers && after.subscribers[socket] == hub.subscribers[socket]
      && (socket in hub.clients <==> socket in after.clients)
      && (socket in hub.clients ==> after.clients[socket] == hub.clients[socket])
  {
  }

  /**
    After every run a publish of a chosen server becomes the subscriber's snapshot, and its client is sent the next
    number if and only if the new status differs from the snapshot before; a client that is gone is then lost.
   */
  lemma {:induction false} SentExactly(
      events: seq<HubEvent>, socket: Socket, serverId: ServerId, value: Status, gone: set<Socket>)
    requires (forall event :: event in events ==> WellTypedEvent(event)) && WellTyped(value)
    requires socket in After(events).clients && socket in After(events).subscribers
    requires serverId in After(events).subscribers[socket].snapshots
    ensures
      var before, after := After(events), Next(After(events), Publish(serverId, value, gone));
      var snapshots := before.subscribers[socket].snapshots;
      && socket in after.subscribers && after.subscribers[socket].snapshots == snapshots[serverId := value]
      && if Agree(snapshots[serverId], value) then
           socket in after.clients && after.clients[socket] == before.clients[socket]
         else if socket in gone then
           socket !in after.clients && socket in after.lost
         else
           && socket in after.clients
           && after.clients[socket].seen == before.clients[socket].seen + [|before.clients[socket].seen| + 1]
           && serverId in after.clients[socket].statuses && after.clients[socket].statuses[serverId].lastChecked == value.lastChecked
  {
    hide WellTyped, DeltaOf, Apply, Agree;
    var before := After(events);
    ReplicationOverRuns(EMPTY_HUB, events);
    var subscriber := before.subscribers[socket];
    assert InStep(before.clients[socket], subscriber);
    NewsExactly(subscriber, serverId, value);
    if !Agree(subscriber.snapshots[serverId], value) {
      TimeOfNews(before.clients[socket].statuses[serverId], subscriber.snapshots[serverId], value);
    }
  }

  lemma NewsExactly(subscriber: Subscriber, serverId: ServerId, value: Status)
    requires serverId in subscriber.serverIds && serverId in subscriber.snapshots && WellTyped(value)
    ensures News(subscriber, serverId, value).Some? <==> !Agree(subscriber.snapshots[serverId], value)
  {
    var previous := subscriber.snapshots[serverId];
    EmptyDeltaMeansAgreement(previous, value);
    DeltaOverDescribes(previous, value, OPTIONAL_FIELDS);
    var carried := DeltaOver(previous, value, OPTIONAL_FIELDS);
    assert carried.(lastChecked := Some(value.lastChecked)).(lastChecked := None) == carried;
  }

  lemma TimeOfNews(held: Status, previous: Status, next: Status)
    requires !Agree(previous, next) && WellTyped(next)
    ensures Apply(held, DeltaOf(previous, next)).lastChecked == next.lastChecked
  {
    EmptyDeltaMeansAgreement(previous, next);
  }

  /** Once lost, a client does not come back under the same socket. */
  lemma {:induction false} LostStaysLost(hub: Hub, events: seq<HubEvent>, socket: Socket)
    requires Replicated(hub) && socket in hub.lost
    requires forall event :: event in events ==> WellTypedEvent(event)
    ensures socket !in Run(hub, events).clients
    decreases |events|
  {
    hide UpdatedAll, FollowAll, Notified, InStep;
    if events != [] {
      assert events[0] in events;
      StepKeepsReplication(hub, events[0]);
      LostStaysLost(Next(hub, events[0]), events[1..], socket);
    }
  }

  /** The numbers a connected client has seen only ever get longer: no message starts the numbering again. */
  lemma {:induction false} NumberingGoesOn(hub: Hub, events: seq<HubEvent>, socket: Socket)
    requires Replicated(hub) && socket in hub.clients && socket in Run(hub, events).clients
    requires forall event :: event in events ==> WellTypedEvent(event)
    ensures hub.clients[socket].seen <= Run(hub, events).clients[socket].seen
    decreases |events|
  {
    hide UpdatedAll, Notified, InStep;
    if events != [] {
      var next := Next(hub, events[0]);
      assert events[0] in events;
      StepKeepsReplication(hub, events[0]);
      if socket in next.clients {
        NumberingGoesOn(next, events[1..], socket);
      } else {
        LostStaysLost(next, events[1..], socket);
      }
    }
  }
}
