/**
  Which catalog records a refresh removes, and which it never does
  (`removeStaleMasterServers` in src/db/manager-store.ts).
 */
module MasterListPruning {
  import opened Prelude
  import opened ManagerStore
  import opened MasterList

  /** In one word: the catalog's own records that the list has not shown for 30 days. */
  predicate Outdated(server: Server, now: int) {
    && server.isPublic
    && server.userId == None
    && server.endpoint != None
    && (match server.lastSeen
        case Some(seen) => seen < now - 2_592_000_000
        case None => server.createdAt < now - 2_592_000_000)
  }

  lemma RefreshRemovesExactly(catalog: Catalog, answer: Answer, now: int, server: Server)
    requires UniqueKeys(catalog.servers) && answer.Successful? && Refresh(catalog, answer, now).Ok?
    requires server in catalog.servers && !Listed(Entries(answer), server.endpoint)
    ensures server in Refresh(catalog, answer, now).value.servers <==> !Outdated(server, now)
  {
    hide EndpointOf, Updates, Decimal, Listed;
    var entries := Entries(answer);
    var next := RefreshEntries(catalog, entries, now).value;
    RecordsStayInPlace(catalog, entries, now);
    var k :| 0 <= k < |catalog.servers| && catalog.servers[k] == server;
    assert next.servers[k] == server && server in next.servers;
    SurvivingContents(next.servers, now - RETENTION_MS);
  }

  /** An unlisted server's pins: all of them stay with it, or all of them go with it. */
  lemma RefreshRemovesPinsExactly(catalog: Catalog, answer: Answer, now: int, server: Server, u: nat)
    requires UniqueKeys(catalog.servers) && answer.Successful? && Refresh(catalog, answer, now).Ok?
    requires server in catalog.servers && !Listed(Entries(answer), server.endpoint) && u < |catalog.users|
    ensures |Refresh(catalog, answer, now).value.users| == |catalog.users|
    ensures
      PinnedBy(Refresh(catalog, answer, now).value.users[u], server.id)
      <==> PinnedBy(catalog.users[u], server.id) && !Outdated(server, now)
  {
    hide EndpointOf, Updates, Decimal, Listed, RefreshEntries;
    var entries := Entries(answer);
    var next := RefreshEntries(catalog, entries, now).value;
    RecordsStayInPlace(catalog, entries, now);
    var k :| 0 <= k < |catalog.servers| && catalog.servers[k] == server;
    assert next.servers[k] == server && server in next.servers;
    PinsFollow(catalog, entries, now, u, k);
    assert Names(catalog.servers, server.id);
    PruneExactly(next, now - RETENTION_MS);
    forall other | other in next.servers && other.id == server.id ensures other == server {
      UniqueIdsName(next.servers, other, server);
    }
  }

  /** A listed record stays, however old it was, and so does every record that is owned or private. */
  predicate Continues(before: Server, after: Server) {
    && after.endpoint == before.endpoint && after.userId == before.userId && after.isPublic == before.isPublic
    && after.createdAt == before.createdAt && after.credential == before.credential
    && (before.endpoint.None? ==> after == before)
  }

  ghost predicate ContinuesIn(server: Server, servers: Servers) {
    exists other :: other in servers && Continues(server, other)
  }

  lemma RowKeepsRecords(catalog: Catalog, entry: Entry, now: int, server: Server)
    requires UniqueKeys(catalog.servers) && server in catalog.servers
    ensures
      match RefreshEntry(catalog, entry, now)
      case Ok(next) => UniqueKeys(next.servers) && ContinuesIn(server, next.servers)
      case Err(partial) => partial.servers == catalog.servers
  {
    hide EndpointOf, Updates, Decimal;
    if EndpointOf(entry).Some? {
      EntryContents(catalog, entry, now);
      if RefreshEntry(catalog, entry, now).Ok? {
        var next := RefreshEntry(catalog, entry, now).value.servers;
        var k :| 0 <= k < |catalog.servers| && catalog.servers[k] == server;
        assert next[k] in next && Continues(server, next[k]);
      }
    } else {
      assert Continues(server, server);
    }
  }

  lemma {:induction false} RowsKeepRecords(catalog: Catalog, entries: seq<Entry>, now: int, server: Server)
    requires UniqueKeys(catalog.servers) && server in catalog.servers
    ensures
      match RefreshEntries(catalog, entries, now)
      case Ok(next) => UniqueKeys(next.servers) && ContinuesIn(server, next.servers)
      case Err(partial) => UniqueKeys(partial.servers) && ContinuesIn(server, partial.servers)
    decreases |entries|
  {
    hide RefreshEntry, UniqueKeys;
    if entries == [] {
      assert Continues(server, server);
    } else {
      RowKeepsRecords(catalog, entries[0], now, server);
      match RefreshEntry(catalog, entries[0], now)
      case Err(partial) =>
        assert Continues(server, server);
      case Ok(next) =>
        var other :| other in next.servers && Continues(server, other);
        RowsKeepRecords(next, entries[1..], now, other);
        ContinuingContinues(server, other, RefreshEntries(catalog, entries, now));
    }
  }

  lemma ContinuingContinues(server: Server, other: Server, result: Result<Catalog, Catalog>)
    requires Continues(server, other)
    ensures result.Ok? && ContinuesIn(other, result.value.servers) ==> ContinuesIn(server, result.value.servers)
    ensures result.Err? && ContinuesIn(other, result.error.servers) ==> ContinuesIn(server, result.error.servers)
  {
    assert forall third :: Continues(other, third) ==> Continues(server, third);
  }

  lemma RefreshKeepsOwned(catalog: Catalog, answer: Answer, now: int, server: Server)
    requires UniqueKeys(catalog.servers) && server in catalog.servers
    requires server.userId.Some? || !server.isPublic || server.endpoint.None?
    ensures
      match Refresh(catalog, answer, now)
      case Ok(next) => UniqueKeys(next.servers) && ContinuesIn(server, next.servers)
      case Err(partial) => UniqueKeys(partial.servers) && ContinuesIn(server, partial.servers)
  {
    hide RefreshEntries, UniqueKeys;
    if answer.Successful? {
      RowsKeepRecords(catalog, Entries(answer), now, server);
      if RefreshEntries(catalog, Entries(answer), now).Ok? {
        var next := RefreshEntries(catalog, Entries(answer), now).value;
        SurvivingContents(next.servers, now - RETENTION_MS);
        var other :| other in next.servers && Continues(server, other);
        assert other in RemoveStale(next, now - RETENTION_MS).servers;
      }
    } else {
      assert Continues(server, server);
    }
  }

  /**
    Over every run of refreshes, complete or refused: a record that is owned, private or without an
    endpoint is never removed, and keeps its owner, visibility, endpoint and credential.
   */
  lemma {:induction false} OwnedIsNeverRemoved(catalog: Catalog, runs: seq<(Answer, int)>, server: Server)
    requires UniqueKeys(catalog.servers) && server in catalog.servers
    requires server.userId.Some? || !server.isPublic || server.endpoint.None?
    ensures ContinuesIn(server, Refreshes(catalog, runs).servers)
    decreases |runs|
  {
    hide Refresh, UniqueKeys;
    if runs == [] {
      assert Continues(server, server);
    } else {
      RefreshKeepsOwned(catalog, runs[0].0, runs[0].1, server);
      var next := match Refresh(catalog, runs[0].0, runs[0].1) case Ok(after) => after case Err(partial) => partial;
      var other :| other in next.servers && Continues(server, other);
      OwnedIsNeverRemoved(next, runs[1..], other);
      ContinuingContinues(server, other, Ok(Refreshes(next, runs[1..])));
    }
  }

  /** A listed record is there after a successful refresh, whatever its age: see also `RefreshReconciles`. */
  lemma ListedIsKept(catalog: Catalog, answer: Answer, now: int, endpoint: Endpoint)
    requires UniqueKeys(catalog.servers) && answer.Successful? && Refresh(catalog, answer, now).Ok?
    requires Listed(Entries(answer), Some(endpoint))
    ensures exists server ::
      server in Refresh(catalog, answer, now).value.servers && server.endpoint == Some(endpoint)
      && server.id == Derived(endpoint) && server.lastSeen == Some(now)
  {
    hide EndpointOf, Updates, Decimal, Clear;
    GoesThroughExactlyWhenClear(catalog, Entries(answer), now);
    RefreshReconciles(catalog, answer, now, endpoint);
    var record := RecordAt(Refresh(catalog, answer, now).value.servers, Some(endpoint)).value;
    assert record in Refresh(catalog, answer, now).value.servers;
  }

  // Users.

  predicate SameUsers(before: seq<User>, after: seq<User>) {
    && |after| == |before|
    && forall u :: 0 <= u < |before| ==> after[u].name == before[u].name && after[u].pins.Some? == before[u].pins.Some?
  }

  /** No refresh, complete or refused, adds, drops, renames or reorders a user. */
  lemma {:induction false} UsersStay(catalog: Catalog, answer: Answer, now: int)
    ensures
      match Refresh(catalog, answer, now)
      case Ok(next) => SameUsers(catalog.users, next.users)
      case Err(partial) => SameUsers(catalog.users, partial.users)
  {
    hide RefreshEntries, StaleIds, Surviving;
    if answer.Successful? {
      RowsKeepUsers(catalog, Entries(answer), now);
    }
  }

  lemma {:induction false} RowsKeepUsers(catalog: Catalog, entries: seq<Entry>, now: int)
    ensures
      match RefreshEntries(catalog, entries, now)
      case Ok(next) => SameUsers(catalog.users, next.users)
      case Err(partial) => SameUsers(catalog.users, partial.users)
    decreases |entries|
  {
    if entries != [] {
      hide RefreshEntry;
      RowKeepsUsers(catalog, entries[0], now);
      if RefreshEntry(catalog, entries[0], now).Ok? {
        RowsKeepUsers(RefreshEntry(catalog, entries[0], now).value, entries[1..], now);
      }
    }
  }

  lemma RowKeepsUsers(catalog: Catalog, entry: Entry, now: int)
    ensures
      match RefreshEntry(catalog, entry, now)
      case Ok(next) => SameUsers(catalog.users, next.users)
      case Err(partial) => SameUsers(catalog.users, partial.users)
  {
    hide EndpointOf, ApplyEntry, UniqueKeys, SaveMasterServer, Fresh;
  }

  /** The id names a server that the list does not mention and that is not outdated. */
  ghost predicate IsSpared(servers: Servers, rows: seq<Entry>, now: int, id: ServerId) {
    exists server ::
      server in servers && server.id == id && !Listed(rows, server.endpoint) && !Outdated(server, now)
  }

  /** All pins of the user name servers that the list does not mention and that are not outdated. */
  ghost predicate PinsUntouched(catalog: Catalog, entries: seq<Entry>, now: int, user: User) {
    user.pins.Some? ==>
      && NoRepeats(user.pins.value)
      && forall id :: id in user.pins.value ==> IsSpared(catalog.servers, entries, now, id)
  }

  /** Such a user is not changed at all: the pins keep their order too. */
  lemma {:induction false} UntouchedPinsStay(catalog: Catalog, rows: seq<Entry>, now: int, u: nat)
    requires UniqueKeys(catalog.servers) && u < |catalog.users|
    requires Refresh(catalog, Successful(Some(rows)), now).Ok?
    requires PinsUntouched(catalog, rows, now, catalog.users[u])
    ensures
      var users := Refresh(catalog, Successful(Some(rows)), now).value.users;
      u < |users| && users[u] == catalog.users[u]
  {
    assert Entries(Successful(Some(rows))) == rows;
    hide EndpointOf, Updates, Decimal, Listed, RefreshEntries, Surviving;
    RowsLeavePins(catalog, rows, now, u);
    var next, user := RefreshEntries(catalog, rows, now).value, catalog.users[u];
    RecordsStayInPlace(catalog, rows, now);
    var removed := StaleIds(next.servers, now - RETENTION_MS);
    if user.pins.Some? {
      forall id | id in user.pins.value ensures id !in removed {
        var server :| server in catalog.servers && server.id == id && !Listed(rows, server.endpoint) && !Outdated(server, now);
        var k :| 0 <= k < |catalog.servers| && catalog.servers[k] == server;
        assert next.servers[k] == server && server in next.servers;
        forall other | other in next.servers && other.id == id ensures other == server {
          UniqueIdsName(next.servers, other, server);
        }
      }
      NothingUnpinned(user.pins.value, removed);
    }
  }

  lemma {:induction false} NothingUnpinned(pins: seq<ServerId>, removed: set<ServerId>)
    requires forall id :: id in pins ==> id !in removed
    ensures Unpinned(pins, removed) == pins
  {
    if pins != [] {
      NothingUnpinned(pins[1..], removed);
    }
  }

  lemma NotRepinned(user: User, previous: ServerId, next: ServerId)
    requires user.pins.Some? ==> NoRepeats(user.pins.value) && previous !in user.pins.value
    ensures Repinned(user, previous, next) == user
  {
    if user.pins.Some? {
      var pins := user.pins.value;
      assert seq(|pins|, i requires 0 <= i < |pins| => if pins[i] == previous then next else pins[i]) == pins;
      DistinctKeeps(pins);
    }
  }

  lemma {:induction false} RowsLeavePins(catalog: Catalog, rows: seq<Entry>, now: int, u: nat)
    requires UniqueKeys(catalog.servers) && u < |catalog.users| && RefreshEntries(catalog, rows, now).Ok?
    requires PinsUntouched(catalog, rows, now, catalog.users[u])
    ensures
      var users := RefreshEntries(catalog, rows, now).value.users;
      u < |users| && users[u] == catalog.users[u]
    decreases |rows|
  {
    if rows != [] {
      hide EndpointOf, Updates, Decimal, Listed, Outdated;
      var next := RefreshEntry(catalog, rows[0], now).value;
      RowLeavesPins(catalog, rows, now, u);
      RowsLeavePins(next, rows[1..], now, u);
    }
  }

  lemma RowLeavesPins(catalog: Catalog, rows: seq<Entry>, now: int, u: nat)
    requires UniqueKeys(catalog.servers) && u < |catalog.users| && rows != [] && RefreshEntry(catalog, rows[0], now).Ok?
    requires PinsUntouched(catalog, rows, now, catalog.users[u])
    ensures
      var next := RefreshEntry(catalog, rows[0], now).value;
      && UniqueKeys(next.servers) && u < |next.users| && next.users[u] == catalog.users[u]
      && PinsUntouched(next, rows[1..], now, catalog.users[u])
  {
    hide EndpointOf, Updates, Decimal, Outdated;
    if EndpointOf(rows[0]).Some? {
      var endpoint := EndpointOf(rows[0]).value;
      EntryContents(catalog, rows[0], now);
      var index := IndexOfEndpoint(catalog.servers, Some(endpoint));
      var user, next := catalog.users[u], RefreshEntry(catalog, rows[0], now).value;
      assert Listed(rows, Some(endpoint));
      if user.pins.Some? {
        forall id | id in user.pins.value
          ensures index < |catalog.servers| ==> id != catalog.servers[index].id
          ensures IsSpared(next.servers, rows[1..], now, id)
        {
          var server :| server in catalog.servers && server.id == id && !Listed(rows, server.endpoint) && !Outdated(server, now);
          var k :| 0 <= k < |catalog.servers| && catalog.servers[k] == server;
          assert next.servers[k] == server && server in next.servers;
          if server.endpoint.Some? {
            ListedSplits(rows, server.endpoint);
          }
        }
      }
      if index < |catalog.servers| {
        NotRepinned(user, catalog.servers[index].id, Derived(endpoint));
      }
    } else {
      assert RefreshEntry(catalog, rows[0], now) == Ok(catalog);
      forall endpoint: Option<Endpoint> | endpoint.Some? ensures Listed(rows[1..], endpoint) ==> Listed(rows, endpoint) {
        ListedSplits(rows, endpoint);
      }
    }
  }
}
