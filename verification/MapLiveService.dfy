/**
  The map-live subscriptions and their refresh loops as objects that change in
  place (src/service/map-live-service.ts). Each method is one step between two
  awaits. A loop keeps a reference to its subscription object, which need not be
  the one stored under the server id; that it always is, is part of `Valid`.
 */
module MapLiveService {
  import opened Prelude
  import opened MapLiveSnapshot
  import opened MapLiveFeed

  class ServerSubscription {
    const serverId: string
    var subscribers: map<Socket, Subscriber>
    var sequence: nat
    /** The field `timer` holds a handle. */
    var timer: bool
    var running: bool
    /** The event loop is still going to fire the stored timer. */
    var armed: bool
    ghost var clients: map<Socket, Client>

    constructor (serverId: string)
      ensures this.serverId == serverId && State() == EMPTY_FEED && !timer && !running && !armed
    {
      this.serverId := serverId;
      subscribers, sequence, timer, running, armed, clients := map[], 0, false, false, false, map[];
    }

    ghost function State(): Feed
      reads this
    {
      Feed(subscribers, sequence, clients)
    }

    /** A stored subscription is served by exactly one loop: the current refresh or the armed timer. */
    ghost predicate Served()
      reads this
    {
      && timer == armed
      && (if subscribers.Keys != {} then running != armed else running && !armed)
    }

    /** Nobody subscribes and nothing will run again; a cancelled handle may remain in `timer`. */
    ghost predicate Finished()
      reads this
    {
      subscribers.Keys == {} && !running && !armed
    }

    method Add(socket: Socket, userSteamId: Option<string>)
      modifies this`subscribers, this`clients
      ensures State() == Next(old(State()), Join(socket, userSteamId))
      ensures subscribers.Keys != {}
    {
      subscribers := subscribers[socket := Subscriber(userSteamId, None)];
      clients := clients[socket := Client(None, [])];
      assert socket in subscribers;
    }

    method Remove(socket: Socket)
      modifies this`subscribers, this`clients
      ensures State() == Next(old(State()), Leave(socket))
    {
      subscribers, clients := subscribers - {socket}, clients - {socket};
    }

    /** The first loop of `publishChanges`: store every next snapshot and collect what changed. */
    method CollectMessages(entry: Entry) returns (messages: map<Socket, Changes>)
      modifies this`subscribers
      ensures subscribers == RefreshedAll(old(subscribers), entry)
      ensures messages == MessagesFor(old(subscribers), entry)
    {
      ghost var before := subscribers;
      messages := map[];
      var todo := subscribers.Keys;
      while todo != {}
        invariant todo <= subscribers.Keys == before.Keys
        invariant forall socket :: socket in before.Keys ==>
          subscribers[socket] == if socket in todo then before[socket] else Refreshed(before[socket], entry)
        invariant forall socket :: socket in messages <==>
          socket in before.Keys - todo && News(before[socket], entry).Some?
        invariant forall socket :: socket in messages ==> messages[socket] == News(before[socket], entry).value
      {
        var socket :| socket in todo;
        todo := todo - {socket};
        var news := News(subscribers[socket], entry);
        subscribers := subscribers[socket := Refreshed(subscribers[socket], entry)];
        if news.Some? {
          messages := messages[socket := news.value];
        }
      }
    }

    method PublishChanges(entry: Entry, gone: set<Socket>)
      modifies this`subscribers, this`sequence, this`clients
      ensures State() == Next(old(State()), Publish(entry, gone))
      ensures subscribers.Keys == old(subscribers.Keys)
    {
      ghost var before := subscribers;
      var messages := CollectMessages(entry);
      if messages != map[] {
        sequence := sequence + 1;
      }
      clients := FollowAll(clients, before, entry, gone * messages.Keys, sequence);
    }
  }

  class MapLiveService {
    var subscriptions: map<string, ServerSubscription>
    /** Every subscription ever created, stored or not. */
    ghost var created: set<ServerSubscription>

    constructor ()
      ensures Valid() && created == {} && subscriptions == map[]
    {
      subscriptions, created := map[], {};
    }

    ghost predicate IsStored(subscription: ServerSubscription)
      reads this
    {
      subscription.serverId in subscriptions && subscriptions[subscription.serverId] == subscription
    }

    /**
      Holds between steps. A subscription that is running or timed is the one stored
      under its server id, so no server ever has a second loop.
     */
    ghost predicate Valid()
      reads this, created
    {
      && (forall id :: id in subscriptions ==> subscriptions[id] in created && subscriptions[id].serverId == id)
      && (forall s :: s in created ==> if IsStored(s) then s.Served() else s.Finished())
    }

    /** The feed state a server's subscribers are part of; a fresh one when none is stored. */
    ghost function StateOf(serverId: string): Feed
      reads this, if serverId in subscriptions then {subscriptions[serverId]} else {}
    {
      if serverId in subscriptions then subscriptions[serverId].State() else EMPTY_FEED
    }

    ghost function Stored(serverId: string): set<ServerSubscription>
      reads this
    {
      if serverId in subscriptions then {subscriptions[serverId]} else {}
    }

    /** `Valid`, but for one subscription that is about to be started. */
    ghost predicate ValidBut(starting: ServerSubscription)
      reads this, created
    {
      && (forall id :: id in subscriptions ==> subscriptions[id] in created && subscriptions[id].serverId == id)
      && (forall s :: s in created && s != starting ==> if IsStored(s) then s.Served() else s.Finished())
    }

    /** The stored subscription of a server, created when there is none. */
    method SubscriptionFor(serverId: string) returns (subscription: ServerSubscription)
      requires Valid()
      modifies this
      ensures ValidBut(subscription) && subscription in created && IsStored(subscription)
      ensures subscription.serverId == serverId
      ensures subscriptions == old(subscriptions)[serverId := subscription]
      ensures serverId in old(subscriptions) ==>
        subscription == old(subscriptions)[serverId] && created == old(created) && Valid()
      ensures serverId !in old(subscriptions) ==>
        && fresh(subscription) && created == old(created) + {subscription}
        && subscription.State() == EMPTY_FEED
        && !subscription.timer && !subscription.running && !subscription.armed
    {
      if serverId in subscriptions {
        subscription := subscriptions[serverId];
      } else {
        subscription := new ServerSubscription(serverId);
        subscriptions := subscriptions[serverId := subscription];
        created := created + {subscription};
      }
    }

    /** An authorized `subscribe` message: store the subscriber and start a loop unless one is there. */
    method Subscribe(serverId: string, socket: Socket, userSteamId: Option<string>)
      requires Valid()
      modifies this, Stored(serverId)
      ensures Valid() && fresh(created - old(created)) && old(created) <= created
      ensures serverId in subscriptions
      ensures subscriptions == old(subscriptions)[serverId := subscriptions[serverId]]
      ensures serverId in old(subscriptions) ==> subscriptions[serverId] == old(subscriptions[serverId])
      ensures StateOf(serverId) == Next(old(StateOf(serverId)), Join(socket, userSteamId))
      ensures
        var s := subscriptions[serverId];
        if serverId in old(subscriptions) then s.running == old(s.running) && s.armed == old(s.armed)
        else s.running
    {
      hide Next;
      var subscription := SubscriptionFor(serverId);
      subscription.Add(socket, userSteamId);
      if !(subscription.running || subscription.timer) {
        subscription.running := true;
      }
      assert subscription.Served();
    }

    /** The current refresh ends: publish what it found, then sleep or, without subscribers, stop. */
    method CompleteRefresh(subscription: ServerSubscription, found: Option<Entry>, gone: set<Socket>)
      requires Valid() && subscription in created && subscription.running
      modifies this, subscription
      ensures Valid() && created == old(created)
      ensures subscription.State()
        == if found.Some? then Next(old(subscription.State()), Publish(found.value, gone)) else old(subscription.State())
      ensures !subscription.running
      ensures if old(subscription.subscribers.Keys) != {}
        then subscription.armed && subscriptions == old(subscriptions)
        else !subscription.armed && subscriptions == old(subscriptions) - {subscription.serverId}
    {
      hide Next;
      assert IsStored(subscription) && subscription.Served();
      if found.Some? {
        subscription.PublishChanges(found.value, gone);
      }
      subscription.running := false;
      if subscription.subscribers.Keys != {} {
        subscription.timer, subscription.armed := true, true;
      } else {
        subscriptions := subscriptions - {subscription.serverId};
      }
    }

    /** The timer fires: the handle is forgotten and the next refresh starts if anybody is left. */
    method FireTimer(subscription: ServerSubscription)
      requires Valid() && subscription in created && subscription.armed
      modifies subscription
      ensures Valid()
      ensures subscription.State() == old(subscription.State())
      ensures !subscription.armed && subscription.running
    {
      subscription.timer, subscription.armed := false, false;
      if subscription.subscribers.Keys != {} {
        subscription.running := true;
      }
    }

    /** A subscribed socket closed. */
    method RemoveSubscriber(serverId: string, socket: Socket)
      requires Valid()
      modifies this, Stored(serverId)
      ensures Valid() && created == old(created)
      ensures serverId !in old(subscriptions) ==> subscriptions == old(subscriptions)
      ensures serverId in old(subscriptions) ==>
        var s := old(subscriptions)[serverId];
        && s.State() == Next(old(s.State()), Leave(socket))
        && s.running == old(s.running)
        && (if s.subscribers.Keys != {} || s.running
            then subscriptions == old(subscriptions) && s.armed == old(s.armed)
            else subscriptions == old(subscriptions) - {serverId} && !s.armed)
    {
      hide Next;
      if serverId in subscriptions {
        var subscription := subscriptions[serverId];
        subscription.Remove(socket);
        if subscription.subscribers.Keys == {} && !subscription.running {
          subscription.armed := false;
          subscriptions := subscriptions - {serverId};
        }
      }
    }

    /** Two loops of one server are one and the same, and the map leads to it. */
    lemma OneLoopPerServer(s: ServerSubscription, t: ServerSubscription)
      requires Valid() && s in created && t in created && s.serverId == t.serverId
      requires (s.running || s.armed) && (t.running || t.armed)
      ensures s == t && IsStored(s) && s.running != s.armed
    {
    }
  }
}
