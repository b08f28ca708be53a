/**
  The master list refresh as it runs: rows applied one after the other to the
  stored servers and users, with the counters it reports
  (`runMasterServerListRefresh` in src/service/master-server-list-service.ts).
 */
module MasterListService {
  import opened Prelude
  import opened ManagerStore
  import opened MasterList

  datatype Summary = Summary(fetched: nat, inserted: nat, updated: nat)

  /** The rows that name an endpoint; the others are skipped. */
  function Usable(entries: seq<Entry>): nat {
    if entries == [] then 0
    else Usable(entries[..|entries| - 1]) + if EndpointOf(entries[|entries| - 1]).Some? then 1 else 0
  }

  lemma OneMoreRow(catalog: Catalog, entries: seq<Entry>, i: nat, now: int)
    requires i < |entries|
    ensures
      match RefreshEntry(catalog, entries[i], now)
      case Ok(next) => RefreshEntries(catalog, entries[i..], now) == RefreshEntries(next, entries[i + 1..], now)
      case Err(partial) => RefreshEntries(catalog, entries[i..], now) == Err(partial)
    ensures EndpointOf(entries[i]).None? ==> RefreshEntry(catalog, entries[i], now) == Ok(catalog)
    ensures Usable(entries[..i + 1]) == Usable(entries[..i]) + if EndpointOf(entries[i]).Some? then 1 else 0
  {
    hide EndpointOf, Updates, Decimal, UniqueKeys;
    assert entries[..i + 1][..i] == entries[..i] && entries[i..][1..] == entries[i + 1..];
  }

  class CatalogStore {
    var servers: Servers
    var users: seq<User>

    function Contents(): Catalog
      reads this
    {
      Catalog(servers, users)
    }

    constructor (servers: Servers, users: seq<User>)
      ensures Contents() == Catalog(servers, users)
    {
      this.servers, this.users := servers, users;
    }

    /** Every user's pins are rewritten in turn. */
    method ReplacePinnedServerId(previous: ServerId, next: ServerId)
      modifies this`users
      ensures users == ReplacePinned(old(users), previous, next)
    {
      if previous == next {
        return;
      }
      for i := 0 to |users|
        invariant |users| == |old(users)|
        invariant forall u :: 0 <= u < i ==> users[u] == Repinned(old(users)[u], previous, next)
        invariant forall u :: i <= u < |users| ==> users[u] == old(users)[u]
      {
        users := users[i := Repinned(users[i], previous, next)];
      }
    }

    /** The upsert by endpoint; the unique indexes may refuse it. */
    method SaveRecord(server: Server) returns (saved: bool)
      modifies this`servers
      ensures saved == UniqueKeys(SaveMasterServer(old(servers), server))
      ensures servers == Commit(old(servers), SaveMasterServer(old(servers), server))
    {
      saved := UniqueKeys(SaveMasterServer(servers, server));
      servers := Commit(servers, SaveMasterServer(servers, server));
    }

    method RemoveStaleServers(cutoff: int) returns (staleIds: set<ServerId>)
      modifies this
      ensures Contents() == RemoveStale(old(Contents()), cutoff)
      ensures staleIds == StaleIds(old(servers), cutoff)
    {
      staleIds := StaleIds(servers, cutoff);
      servers := Surviving(servers, cutoff);
      var listed := users;
      users := seq(|listed|, i requires 0 <= i < |listed| => WithoutPins(listed[i], staleIds));
    }

    /** One usable row; tells whether it was stored and whether it was new. */
    method ApplyRow(endpoint: Endpoint, entry: Entry, now: int) returns (saved: bool, isNew: bool)
      requires EndpointOf(entry) == Some(endpoint)
      modifies this
      ensures isNew == RecordAt(old(servers), Some(endpoint)).None?
      ensures
        if saved then RefreshEntry(old(Contents()), entry, now) == Ok(Contents())
        else RefreshEntry(old(Contents()), entry, now) == Err(Contents())
      ensures saved ==> |servers| == |old(servers)| + if isNew then 1 else 0
    {
      hide Updates, Decimal;
      var found := RecordAt(servers, Some(endpoint));
      var server: Server;
      match found {
        case None =>
          server := Fresh(endpoint, now);
        case Some(record) =>
          server := record;
          ReplacePinnedServerId(server.id, Derived(endpoint));
      }
      isNew := found.None?;
      saved := SaveRecord(ApplyEntry(server, endpoint, entry, now));
    }

    /**
      The whole refresh. It reports every usable row as either inserted or updated, the inserted
      ones being exactly the records gained before pruning; a failed fetch changes nothing.
     */
    method RefreshMasterServerList(answer: Answer, now: int) returns (result: Option<Summary>)
      modifies this
      ensures !answer.Successful? ==> result == Some(Summary(0, 0, 0)) && Contents() == old(Contents())
      ensures result.Some? ==> Refresh(old(Contents()), answer, now) == Ok(Contents())
      ensures result.None? ==> Refresh(old(Contents()), answer, now) == Err(Contents())
      ensures answer.Successful? && result.Some? ==>
        var next := RefreshEntries(old(Contents()), Entries(answer), now);
        && next.Ok?
        && result.value.fetched == |Entries(answer)|
        && result.value.inserted == |next.value.servers| - |old(servers)|
        && result.value.inserted + result.value.updated == Usable(Entries(answer))
    {
      if !answer.Successful? {
        return Some(Summary(0, 0, 0));
      }
      hide EndpointOf, Usable, RefreshEntry, RemoveStale;
      var entries := Entries(answer);
      var inserted, updated := 0, 0;
      var i := 0;
      while i < |entries|
        invariant 0 <= i <= |entries|
        invariant RefreshEntries(Contents(), entries[i..], now) == RefreshEntries(old(Contents()), entries, now)
        invariant inserted == |servers| - |old(servers)|
        invariant inserted + updated == Usable(entries[..i])
      {
        OneMoreRow(Contents(), entries, i, now);
        var endpoint := EndpointOf(entries[i]);
        if endpoint.Some? {
          var saved, isNew := ApplyRow(endpoint.value, entries[i], now);
          if !saved {
            return None;
          }
          if isNew {
            inserted := inserted + 1;
          } else {
            updated := updated + 1;
          }
        }
        i := i + 1;
      }
      assert entries[..i] == entries;
      assert RefreshEntries(old(Contents()), entries, now) == Ok(Contents());
      var _ := RemoveStaleServers(now - RETENTION_MS);
      result := Some(Summary(|entries|, inserted, updated));
    }
  }
}
