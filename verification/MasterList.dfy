/**
  Reconciliation of the server catalog with the public master list
  (`runMasterServerListRefresh` and its helpers in
  src/service/master-server-list-service.ts, `saveMasterServer`,
  `removeStaleMasterServers` and `replacePinnedServerId` in src/db/manager-store.ts).
 */
module MasterList {
  import opened Prelude
  import opened ManagerStore

  /** How long a catalog record outlives its last appearance: 30 days. */
  const RETENTION_MS := 30 * 24 * 60 * 60 * 1000

  /** A row of the list as it arrives; `port` is its number, when it has one. */
  datatype Entry = Entry(ip: Json, port: Option<int>, fields: map<string, Json>)

  datatype Answer = NoAnswer | Unsuccessful | Successful(data: Option<seq<Entry>>)

  datatype User = User(name: string, pins: Option<seq<ServerId>>)

  datatype Catalog = Catalog(servers: Servers, users: seq<User>)

  // Coercion of a row.

  function StringOrNone(value: Json): Option<string> {
    if value.Text? && !IsBlank(value.text) then Some(Trim(value.text)) else None
  }

  function Decimal(n: nat): string {
    if n < 10 then ["0123456789"[n]] else Decimal(n / 10) + ["0123456789"[n % 10]]
  }

  /** The endpoint of a row that yields both an id and a query URL. */
  function EndpointOf(entry: Entry): (endpoint: Option<Endpoint>)
    ensures endpoint.Some? ==> endpoint.value.port > 1
  {
    match StringOrNone(entry.ip)
    case None => None
    case Some(ip) => if entry.port.Some? && entry.port.value > 1 then Some(Endpoint(ip, entry.port.value)) else None
  }

  function DefaultUrl(endpoint: Endpoint): string
    requires endpoint.port > 1
  {
    "http://" + endpoint.ip + ":" + Decimal(endpoint.port - 1)
  }

  function Coerced(name: string, value: Json): Option<Json> {
    if name in ["addr", "version", "name", "region"] then
      match StringOrNone(value) case None => None case Some(text) => Some(Text(text))
    else if name == "steamid" then
      match StringOrNone(value)
      case None => None
      case Some(text) => if |text| == 17 && forall c :: c in text ==> '0' <= c <= '9' then Some(Text(text)) else None
    else if name == "gm" then if value.Number? then Some(value) else None
    else if name in ["mods", "password", "whitelist"] then if value.Bool? then Some(value) else None
    else None
  }

  function Updates(fields: map<string, Json>): map<string, Json> {
    map name | name in fields && Coerced(name, fields[name]).Some? :: Coerced(name, fields[name]).value
  }

  // One row.

  function Fresh(endpoint: Endpoint, now: int): Server
    requires endpoint.port > 1
  {
    Server(Derived(endpoint), None, None, true, None, now, Some(now), DefaultUrl(endpoint), None, map[])
  }

  function ApplyEntry(server: Server, endpoint: Endpoint, entry: Entry, now: int): Server
    requires endpoint.port > 1
  {
    server.(
      id := Derived(endpoint),
      endpoint := Some(endpoint),
      lastSeen := Some(now),
      queryUrl := if server.queryUrlExplicit == Some(true) then server.queryUrl else DefaultUrl(endpoint),
      fields := server.fields + Updates(entry.fields))
  }

  /** `new Set(pins.map(...))` for one user. */
  function Repinned(user: User, previous: ServerId, next: ServerId): User {
    if user.pins.None? then user
    else
      var pins := user.pins.value;
      user.(pins := Some(Distinct(seq(|pins|, i requires 0 <= i < |pins| => if pins[i] == previous then next else pins[i]))))
  }

  function ReplacePinned(users: seq<User>, previous: ServerId, next: ServerId): seq<User> {
    if previous == next then users
    else seq(|users|, i requires 0 <= i < |users| => Repinned(users[i], previous, next))
  }

  /** One row against the catalog; an error carries what was written before the refused save. */
  function RefreshEntry(catalog: Catalog, entry: Entry, now: int): Result<Catalog, Catalog> {
    match EndpointOf(entry)
    case None => Ok(catalog)
    case Some(endpoint) =>
      var index := IndexOfEndpoint(catalog.servers, Some(endpoint));
      var found := index < |catalog.servers|;
      var server := if found then catalog.servers[index] else Fresh(endpoint, now);
      var users := if found then ReplacePinned(catalog.users, server.id, Derived(endpoint)) else catalog.users;
      var saved := SaveMasterServer(catalog.servers, ApplyEntry(server, endpoint, entry, now));
      if UniqueKeys(saved) then Ok(Catalog(saved, users)) else Err(Catalog(catalog.servers, users))
  }

  function RefreshEntries(catalog: Catalog, entries: seq<Entry>, now: int): Result<Catalog, Catalog>
    decreases |entries|
  {
    if entries == [] then Ok(catalog)
    else
      match RefreshEntry(catalog, entries[0], now)
      case Ok(next) => RefreshEntries(next, entries[1..], now)
      case Err(partial) => Err(partial)
  }

  // Pruning.

  predicate IsStale(server: Server, cutoff: int) {
    && server.isPublic && server.userId.None? && server.endpoint.Some?
    && (if server.lastSeen.Some? then server.lastSeen.value else server.createdAt) < cutoff
  }

  function Surviving(servers: Servers, cutoff: int): Servers {
    if servers == [] then []
    else (if IsStale(servers[0], cutoff) then [] else [servers[0]]) + Surviving(servers[1..], cutoff)
  }

  function StaleIds(servers: Servers, cutoff: int): set<ServerId> {
    set server | server in servers && IsStale(server, cutoff) :: server.id
  }

  function Unpinned(pins: seq<ServerId>, removed: set<ServerId>): (kept: seq<ServerId>)
    ensures forall id :: id in kept <==> id in pins && id !in removed
  {
    if pins == [] then []
    else
      assert forall id :: id in pins <==> id == pins[0] || id in pins[1..];
      (if pins[0] in removed then [] else [pins[0]]) + Unpinned(pins[1..], removed)
  }

  function WithoutPins(user: User, removed: set<ServerId>): User {
    if user.pins.None? then user else user.(pins := Some(Unpinned(user.pins.value, removed)))
  }

  function RemoveStale(catalog: Catalog, cutoff: int): Catalog {
    var removed := StaleIds(catalog.servers, cutoff);
    Catalog(Surviving(catalog.servers, cutoff),
            seq(|catalog.users|, i requires 0 <= i < |catalog.users| => WithoutPins(catalog.users[i], removed)))
  }

  function Entries(answer: Answer): seq<Entry> {
    if answer.Successful? && answer.data.Some? then answer.data.value else []
  }

  /** The whole refresh; a failed or unsuccessful fetch never reaches the catalog. */
  function Refresh(catalog: Catalog, answer: Answer, now: int): Result<Catalog, Catalog> {
    if !answer.Successful? then Ok(catalog)
    else
      match RefreshEntries(catalog, Entries(answer), now)
      case Ok(next) => Ok(RemoveStale(next, now - RETENTION_MS))
      case Err(partial) => Err(partial)
  }

  // What the rows do to the records.

  /** The records with one row written: its own record rewritten or appended, every other one untouched. */
  function Written(servers: Servers, endpoint: Endpoint, entry: Entry, now: int): Servers
    requires endpoint.port > 1
  {
    var index := IndexOfEndpoint(servers, Some(endpoint));
    if index < |servers| then servers[index := ApplyEntry(servers[index], endpoint, entry, now)]
    else servers + [ApplyEntry(Fresh(endpoint, now), endpoint, entry, now)]
  }

  predicate Holds(servers: Servers, id: ServerId, endpoint: Endpoint) {
    exists k :: 0 <= k < |servers| && servers[k].id == id && servers[k].endpoint != Some(endpoint)
  }

  lemma MergedEntry(server: Server, endpoint: Endpoint, entry: Entry, now: int)
    requires endpoint.port > 1
    ensures Merged(server, ApplyEntry(server, endpoint, entry, now)) == ApplyEntry(server, endpoint, entry, now)
  {
    hide Updates, Decimal;
    var fields := server.fields + Updates(entry.fields);
    assert server.fields + fields == fields;
  }

  /** A row is written if and only if no other endpoint's record holds its id. */
  lemma EntryContents(catalog: Catalog, entry: Entry, now: int)
    requires UniqueKeys(catalog.servers) && EndpointOf(entry).Some?
    ensures
      var endpoint := EndpointOf(entry).value;
      var result := RefreshEntry(catalog, entry, now);
      && (result.Ok? <==> !Holds(catalog.servers, Derived(endpoint), endpoint))
      && (result.Ok? ==> result.value.servers == Written(catalog.servers, endpoint, entry, now))
      && (result.Ok? ==> UniqueKeys(result.value.servers))
  {
    var endpoint := EndpointOf(entry).value;
    var servers := catalog.servers;
    var index := IndexOfEndpoint(servers, Some(endpoint));
    var server := if index < |servers| then servers[index] else Fresh(endpoint, now);
    var saved := SaveMasterServer(servers, ApplyEntry(server, endpoint, entry, now));
    MergedEntry(server, endpoint, entry, now);
    assert index < |saved| && saved[index].id == Derived(endpoint);
    assert forall k :: 0 <= k < |servers| && k != index ==> saved[k] == servers[k];
    if Holds(servers, Derived(endpoint), endpoint) {
      var k :| 0 <= k < |servers| && servers[k].id == Derived(endpoint) && servers[k].endpoint != Some(endpoint);
      assert saved[k].id == saved[index].id;
    } else {
      forall i, j | 0 <= i < j < |saved|
        ensures saved[i].id != saved[j].id && (saved[i].endpoint.Some? ==> saved[i].endpoint != saved[j].endpoint)
      {
        if i != index && j != index {
          assert servers[i].id != servers[j].id;
        } else {
          var k := if i == index then j else i;
          assert servers[k].endpoint != Some(endpoint);
          assert servers[k].id != Derived(endpoint);
        }
      }
    }
  }

  /** The record at an endpoint. */
  function RecordAt(servers: Servers, endpoint: Option<Endpoint>): Option<Server> {
    var index := IndexOfEndpoint(servers, endpoint);
    if index < |servers| then Some(servers[index]) else None
  }

  lemma RecordIs(servers: Servers, k: nat)
    requires UniqueKeys(servers) && k < |servers| && servers[k].endpoint.Some?
    ensures RecordAt(servers, servers[k].endpoint) == Some(servers[k])
  {
  }

  /** What the rows for one endpoint make of its record, the other rows left out. */
  function Folded(before: Option<Server>, endpoint: Endpoint, entries: seq<Entry>, now: int): Option<Server>
    decreases |entries|
  {
    if entries == [] then before
    else if EndpointOf(entries[0]) == Some(endpoint) then
      var server := if before.Some? then before.value else Fresh(endpoint, now);
      Folded(Some(ApplyEntry(server, endpoint, entries[0], now)), endpoint, entries[1..], now)
    else Folded(before, endpoint, entries[1..], now)
  }

  lemma AppliedEndpoint(server: Server, endpoint: Endpoint, entry: Entry, now: int)
    requires endpoint.port > 1
    ensures ApplyEntry(server, endpoint, entry, now).endpoint == Some(endpoint)
  {
  }

  lemma WrittenRecord(servers: Servers, written: Endpoint, entry: Entry, now: int, endpoint: Endpoint)
    requires written.port > 1 && UniqueKeys(servers) && UniqueKeys(Written(servers, written, entry, now))
    ensures
      RecordAt(Written(servers, written, entry, now), Some(endpoint)) ==
      if endpoint != written then RecordAt(servers, Some(endpoint))
      else
        var server := if RecordAt(servers, Some(endpoint)).Some? then RecordAt(servers, Some(endpoint)).value else Fresh(endpoint, now);
        Some(ApplyEntry(server, endpoint, entry, now))
  {
    var next := Written(servers, written, entry, now);
    var index := IndexOfEndpoint(servers, Some(written));
    AppliedEndpoint(if index < |servers| then servers[index] else Fresh(written, now), written, entry, now);
    hide ApplyEntry, Fresh;
    if endpoint == written {
      RecordIs(next, index);
    } else if RecordAt(servers, Some(endpoint)).Some? {
      var k := IndexOfEndpoint(servers, Some(endpoint));
      assert next[k] == servers[k];
      RecordIs(next, k);
    } else {
      var k := IndexOfEndpoint(next, Some(endpoint));
      assert next[..|servers|] == servers || next == servers[index := next[index]];
    }
  }

  /** A successful list leaves at each endpoint exactly what its own rows make of the record that was there. */
  lemma {:induction false} RecordFollowsItsRows(catalog: Catalog, entries: seq<Entry>, now: int, endpoint: Endpoint)
    requires UniqueKeys(catalog.servers)
    requires RefreshEntries(catalog, entries, now).Ok?
    ensures UniqueKeys(RefreshEntries(catalog, entries, now).value.servers)
    ensures
      RecordAt(RefreshEntries(catalog, entries, now).value.servers, Some(endpoint)) ==
      Folded(RecordAt(catalog.servers, Some(endpoint)), endpoint, entries, now)
    decreases |entries|
  {
    if entries != [] {
      if EndpointOf(entries[0]).Some? {
        EntryContents(catalog, entries[0], now);
        WrittenRecord(catalog.servers, EndpointOf(entries[0]).value, entries[0], now, endpoint);
      }
      RecordFollowsItsRows(RefreshEntry(catalog, entries[0], now).value, entries[1..], now, endpoint);
    }
  }

  predicate Listed(entries: seq<Entry>, endpoint: Option<Endpoint>) {
    endpoint.Some? && exists i :: 0 <= i < |entries| && EndpointOf(entries[i]) == endpoint
  }

  /** What a record keeps through the list: its owner, credential, age and an explicit query URL. */
  predicate Kept(before: Server, after: Server) {
    && after.credential == before.credential
    && after.isPublic == before.isPublic && after.userId == before.userId && after.createdAt == before.createdAt
    && after.queryUrlExplicit == before.queryUrlExplicit
    && (before.queryUrlExplicit == Some(true) ==> after.queryUrl == before.queryUrl)
    && before.fields.Keys <= after.fields.Keys
  }

  lemma ListedSplits(entries: seq<Entry>, endpoint: Option<Endpoint>)
    requires entries != [] && endpoint.Some?
    ensures Listed(entries, endpoint) <==> EndpointOf(entries[0]) == endpoint || Listed(entries[1..], endpoint)
  {
    hide EndpointOf;
    assert forall i :: 0 < i < |entries| ==> entries[1..][i - 1] == entries[i];
    if Listed(entries[1..], endpoint) {
      var i :| 0 <= i < |entries[1..]| && EndpointOf(entries[1..][i]) == endpoint;
      assert EndpointOf(entries[i + 1]) == endpoint;
    }
  }

  predicate Settled(server: Server, endpoint: Endpoint, now: int) {
    && endpoint.port > 1 && server.id == Derived(endpoint) && server.endpoint == Some(endpoint) && server.lastSeen == Some(now)
    && (server.queryUrlExplicit != Some(true) ==> server.queryUrl == DefaultUrl(endpoint))
  }

  lemma {:induction false} SettledStays(server: Server, endpoint: Endpoint, entries: seq<Entry>, now: int)
    requires Settled(server, endpoint, now)
    ensures
      var after := Folded(Some(server), endpoint, entries, now);
      after.Some? && Settled(after.value, endpoint, now) && Kept(server, after.value)
    decreases |entries|
  {
    hide EndpointOf, Updates, Decimal;
    if entries != [] {
      if EndpointOf(entries[0]) == Some(endpoint) {
        SettledStays(ApplyEntry(server, endpoint, entries[0], now), endpoint, entries[1..], now);
      } else {
        SettledStays(server, endpoint, entries[1..], now);
      }
    }
  }

  /** A listed record ends with the derived id, seen now, and with all it must keep; an unlisted one is unchanged. */
  lemma {:induction false} FoldedRecord(before: Option<Server>, endpoint: Endpoint, entries: seq<Entry>, now: int)
    requires before.Some? ==> before.value.endpoint == Some(endpoint)
    ensures
      var after := Folded(before, endpoint, entries, now);
      if Listed(entries, Some(endpoint)) then
        && after.Some? && Settled(after.value, endpoint, now)
        && (before.Some? ==> Kept(before.value, after.value))
        && (before.None? ==> Kept(Fresh(endpoint, now), after.value))
      else after == before
    decreases |entries|
  {
    hide EndpointOf, Updates, Decimal;
    if entries != [] {
      ListedSplits(entries, Some(endpoint));
      if EndpointOf(entries[0]) == Some(endpoint) {
        var server := if before.Some? then before.value else Fresh(endpoint, now);
        SettledStays(ApplyEntry(server, endpoint, entries[0], now), endpoint, entries[1..], now);
      } else {
        FoldedRecord(before, endpoint, entries[1..], now);
      }
    }
  }

  // When the list goes through, and what stays true over runs.

  /** No row meets a record that holds its id at an endpoint no earlier row has moved. */
  ghost predicate Clear(servers: Servers, entries: seq<Entry>) {
    forall i, k | 0 <= i < |entries| && 0 <= k < |servers| && EndpointOf(entries[i]).Some?
      && servers[k].id == Derived(EndpointOf(entries[i]).value) && servers[k].endpoint != EndpointOf(entries[i]) ::
      Listed(entries[..i], servers[k].endpoint)
  }

  /** The rows before row `i + 1`, seen from the first row. */
  lemma ListedBefore(entries: seq<Entry>, i: nat, endpoint: Option<Endpoint>)
    requires 0 < i < |entries|
    ensures Listed(entries[..i], endpoint)
      <==> endpoint.Some? && (EndpointOf(entries[0]) == endpoint || Listed(entries[1..][..i - 1], endpoint))
  {
    hide EndpointOf;
    if endpoint.Some? {
      ListedSplits(entries[..i], endpoint);
      assert entries[..i][1..] == entries[1..][..i - 1];
    }
  }

  lemma ClearWithoutRow(servers: Servers, entries: seq<Entry>)
    requires entries != [] && EndpointOf(entries[0]).None?
    ensures Clear(servers, entries) <==> Clear(servers, entries[1..])
  {
    hide EndpointOf;
    forall i, endpoint: Option<Endpoint> | 0 < i < |entries|
      ensures Listed(entries[..i], endpoint) <==> Listed(entries[1..][..i - 1], endpoint)
    {
      ListedBefore(entries, i, endpoint);
    }
  }

  lemma FirstRowIsFree(servers: Servers, entries: seq<Entry>)
    requires entries != [] && EndpointOf(entries[0]).Some? && Clear(servers, entries)
    ensures !Holds(servers, Derived(EndpointOf(entries[0]).value), EndpointOf(entries[0]).value)
  {
    hide EndpointOf;
    assert entries[..0] == [];
  }

  lemma OtherRecordsStay(servers: Servers, endpoint: Endpoint, entry: Entry, now: int, k: nat)
    requires endpoint.port > 1 && k < |Written(servers, endpoint, entry, now)| && UniqueKeys(servers)
    ensures
      var next := Written(servers, endpoint, entry, now);
      if k == IndexOfEndpoint(servers, Some(endpoint)) then
        next[k].id == Derived(endpoint) && next[k].endpoint == Some(endpoint)
      else k < |servers| && next[k] == servers[k] && servers[k].endpoint != Some(endpoint)
  {
    hide Updates, Decimal;
  }

  lemma ClearFromRow(servers: Servers, entries: seq<Entry>, now: int)
    requires UniqueKeys(servers) && entries != [] && EndpointOf(entries[0]).Some?
    requires Clear(servers, entries)
    ensures
      var endpoint := EndpointOf(entries[0]).value;
      !Holds(servers, Derived(endpoint), endpoint) && Clear(Written(servers, endpoint, entries[0], now), entries[1..])
  {
    hide EndpointOf, Updates, Decimal;
    var endpoint := EndpointOf(entries[0]).value;
    var next, rest := Written(servers, endpoint, entries[0], now), entries[1..];
    hide Written, Listed, Holds;
    FirstRowIsFree(servers, entries);
    forall i, k | 0 <= i < |rest| && 0 <= k < |next| && EndpointOf(rest[i]).Some?
      && next[k].id == Derived(EndpointOf(rest[i]).value) && next[k].endpoint != EndpointOf(rest[i])
      ensures Listed(rest[..i], next[k].endpoint)
    {
      OtherRecordsStay(servers, endpoint, entries[0], now, k);
      assert rest[i] == entries[i + 1];
      ListedBefore(entries, i + 1, servers[k].endpoint);
    }
  }

  lemma ClearToRow(servers: Servers, entries: seq<Entry>, now: int)
    requires UniqueKeys(servers) && entries != [] && EndpointOf(entries[0]).Some?
    requires
      var endpoint := EndpointOf(entries[0]).value;
      !Holds(servers, Derived(endpoint), endpoint) && Clear(Written(servers, endpoint, entries[0], now), entries[1..])
    ensures Clear(servers, entries)
  {
    hide EndpointOf, Updates, Decimal;
    var endpoint := EndpointOf(entries[0]).value;
    var index := IndexOfEndpoint(servers, Some(endpoint));
    var next, rest := Written(servers, endpoint, entries[0], now), entries[1..];
    assert forall k :: 0 <= k < |servers| && k != index ==> next[k] == servers[k];
    hide Written, Listed;
    forall i, k | 0 <= i < |entries| && 0 <= k < |servers| && EndpointOf(entries[i]).Some?
      && servers[k].id == Derived(EndpointOf(entries[i]).value) && servers[k].endpoint != EndpointOf(entries[i])
      ensures Listed(entries[..i], servers[k].endpoint)
    {
      assert i > 0;
      ListedBefore(entries, i, servers[k].endpoint);
      assert rest[i - 1] == entries[i] && rest[..i - 1] == entries[1..][..i - 1];
      if k != index {
        assert next[k] == servers[k];
        assert Listed(rest[..i - 1], next[k].endpoint);
        assert next[k].endpoint.Some?;
      }
    }
  }

  /**
    A list goes through if and only if no row finds its id on a record at another endpoint, unless
    an earlier row has moved that record to its own id.
   */
  lemma {:induction false} GoesThroughExactlyWhenClear(catalog: Catalog, entries: seq<Entry>, now: int)
    requires UniqueKeys(catalog.servers)
    ensures RefreshEntries(catalog, entries, now).Ok? <==> Clear(catalog.servers, entries)
    decreases |entries|
  {
    hide EndpointOf, Updates, Decimal;
    if entries != [] {
      if EndpointOf(entries[0]).None? {
        ClearWithoutRow(catalog.servers, entries);
        assert RefreshEntry(catalog, entries[0], now) == Ok(catalog);
        GoesThroughExactlyWhenClear(catalog, entries[1..], now);
      } else {
        EntryContents(catalog, entries[0], now);
        if RefreshEntry(catalog, entries[0], now).Ok? {
          GoesThroughExactlyWhenClear(RefreshEntry(catalog, entries[0], now).value, entries[1..], now);
          if Clear(catalog.servers, entries) {
            ClearFromRow(catalog.servers, entries, now);
          } else if Clear(Written(catalog.servers, EndpointOf(entries[0]).value, entries[0], now), entries[1..]) {
            ClearToRow(catalog.servers, entries, now);
          }
        } else if Clear(catalog.servers, entries) {
          ClearFromRow(catalog.servers, entries, now);
        }
      }
    }
  }

  /** Derived ids stand only at their own endpoints. */
  ghost predicate Aligned(servers: Servers) {
    forall k | 0 <= k < |servers| && servers[k].id.Derived? :: servers[k].endpoint == Some(servers[k].id.endpoint)
  }

  /** On an aligned catalog every list goes through, and leaves the catalog aligned. */
  lemma {:induction false} AlignedListsGoThrough(catalog: Catalog, entries: seq<Entry>, now: int)
    requires UniqueKeys(catalog.servers) && Aligned(catalog.servers)
    ensures RefreshEntries(catalog, entries, now).Ok?
    ensures UniqueKeys(RefreshEntries(catalog, entries, now).value.servers)
    ensures Aligned(RefreshEntries(catalog, entries, now).value.servers)
    decreases |entries|
  {
    hide EndpointOf, Updates, Decimal;
    if entries != [] {
      if EndpointOf(entries[0]).Some? {
        EntryContents(catalog, entries[0], now);
      }
      AlignedListsGoThrough(RefreshEntry(catalog, entries[0], now).value, entries[1..], now);
    }
  }

  // Pruning is exact.

  lemma {:induction false} SurvivingContents(servers: Servers, cutoff: int)
    ensures forall server :: server in Surviving(servers, cutoff) <==> server in servers && !IsStale(server, cutoff)
    ensures UniqueKeys(servers) ==> UniqueKeys(Surviving(servers, cutoff))
  {
    if servers != [] {
      SurvivingContents(servers[1..], cutoff);
      assert forall server :: server in servers <==> server == servers[0] || server in servers[1..];
      var rest := Surviving(servers[1..], cutoff);
      if UniqueKeys(servers) {
        assert forall i, j :: 0 <= i < j < |servers| - 1 ==> servers[1..][i] == servers[i + 1] && servers[1..][j] == servers[j + 1];
        forall i | 0 <= i < |rest|
          ensures servers[0].id != rest[i].id && (servers[0].endpoint.Some? ==> servers[0].endpoint != rest[i].endpoint)
        {
          assert rest[i] in servers[1..];
        }
      }
    }
  }

  lemma UniqueIdsName(servers: Servers, one: Server, other: Server)
    requires UniqueKeys(servers) && one in servers && other in servers && one.id == other.id
    ensures one == other
  {
  }

  /** Exactly the stale records go, and with them exactly the pins to them. */
  lemma PruneExactly(catalog: Catalog, cutoff: int)
    requires UniqueKeys(catalog.servers)
    ensures
      var after := RemoveStale(catalog, cutoff);
      && UniqueKeys(after.servers)
      && (forall server :: server in after.servers <==> server in catalog.servers && !IsStale(server, cutoff))
      && |after.users| == |catalog.users|
      && (forall u | 0 <= u < |after.users| :: after.users[u].pins.Some? == catalog.users[u].pins.Some?)
      && (forall u, id | 0 <= u < |after.users| && after.users[u].pins.Some? ::
            id in after.users[u].pins.value <==>
            id in catalog.users[u].pins.value
              && forall server | server in catalog.servers && server.id == id :: !IsStale(server, cutoff))
  {
    SurvivingContents(catalog.servers, cutoff);
    var removed := StaleIds(catalog.servers, cutoff);
    forall id: ServerId
      ensures id !in removed <==> forall server | server in catalog.servers && server.id == id :: !IsStale(server, cutoff)
    {
    }
  }

  // Pins follow their servers.

  predicate PinnedBy(user: User, id: ServerId) {
    user.pins.Some? && id in user.pins.value
  }

  predicate Names(servers: Servers, id: ServerId) {
    exists k :: 0 <= k < |servers| && servers[k].id == id
  }

  lemma RepinnedContents(user: User, previous: ServerId, next: ServerId, id: ServerId)
    requires previous != next
    ensures PinnedBy(Repinned(user, previous, next), id) <==>
      if id == next then PinnedBy(user, previous) || PinnedBy(user, next) else id != previous && PinnedBy(user, id)
  {
    if user.pins.Some? {
      var pins := user.pins.value;
      var renamed := seq(|pins|, i requires 0 <= i < |pins| => if pins[i] == previous then next else pins[i]);
      assert forall i :: 0 <= i < |pins| ==> renamed[i] in renamed;
      assert id in renamed <==> exists i :: 0 <= i < |renamed| && renamed[i] == id;
      if id in pins {
        var i :| 0 <= i < |pins| && pins[i] == id;
        assert renamed[i] == if id == previous then next else id;
      }
      if previous in pins {
        var i :| 0 <= i < |pins| && pins[i] == previous;
        assert renamed[i] == next;
      }
    }
  }

  /** The pins of a user after one row. */
  lemma PinsAfterRow(catalog: Catalog, entry: Entry, now: int, u: nat, id: ServerId)
    requires EndpointOf(entry).Some? && u < |catalog.users|
    requires RefreshEntry(catalog, entry, now).Ok?
    ensures |RefreshEntry(catalog, entry, now).value.users| == |catalog.users|
    ensures
      var endpoint := EndpointOf(entry).value;
      var index := IndexOfEndpoint(catalog.servers, Some(endpoint));
      var user := catalog.users[u];
      PinnedBy(RefreshEntry(catalog, entry, now).value.users[u], id) <==>
      if index == |catalog.servers| || catalog.servers[index].id == Derived(endpoint) then PinnedBy(user, id)
      else if id == Derived(endpoint) then PinnedBy(user, catalog.servers[index].id) || PinnedBy(user, id)
      else id != catalog.servers[index].id && PinnedBy(user, id)
  {
    var endpoint := EndpointOf(entry).value;
    var index := IndexOfEndpoint(catalog.servers, Some(endpoint));
    if index < |catalog.servers| && catalog.servers[index].id != Derived(endpoint) {
      RepinnedContents(catalog.users[u], catalog.servers[index].id, Derived(endpoint), id);
    }
  }

  /** Records stay in place, only listed ones change, and only listed ones are added. */
  lemma {:induction false} RecordsStayInPlace(catalog: Catalog, entries: seq<Entry>, now: int)
    requires UniqueKeys(catalog.servers) && RefreshEntries(catalog, entries, now).Ok?
    ensures
      var after := RefreshEntries(catalog, entries, now).value;
      && |catalog.users| == |after.users|
      && |catalog.servers| <= |after.servers|
      && UniqueKeys(after.servers)
      && (forall k :: 0 <= k < |catalog.servers| ==>
            && after.servers[k].endpoint == catalog.servers[k].endpoint
            && (|| after.servers[k].id == catalog.servers[k].id
                || (after.servers[k].id.Derived? && Some(after.servers[k].id.endpoint) == after.servers[k].endpoint)))
      && (forall k :: 0 <= k < |catalog.servers| && !Listed(entries, catalog.servers[k].endpoint) ==>
            after.servers[k] == catalog.servers[k])
      && (forall k :: |catalog.servers| <= k < |after.servers| ==> Listed(entries, after.servers[k].endpoint))
    decreases |entries|
  {
    hide EndpointOf, Updates, Decimal;
    if entries != [] {
      var next := RefreshEntry(catalog, entries[0], now).value;
      if EndpointOf(entries[0]).Some? {
        EntryContents(catalog, entries[0], now);
      }
      RecordsStayInPlace(next, entries[1..], now);
      forall endpoint: Option<Endpoint> | endpoint.Some?
        ensures Listed(entries, endpoint) <==> EndpointOf(entries[0]) == endpoint || Listed(entries[1..], endpoint)
      {
        ListedSplits(entries, endpoint);
      }
    }
  }

  lemma NamesAfterRow(catalog: Catalog, entry: Entry, now: int, id: ServerId)
    requires UniqueKeys(catalog.servers) && EndpointOf(entry).Some? && RefreshEntry(catalog, entry, now).Ok?
    ensures
      var endpoint := EndpointOf(entry).value;
      var index := IndexOfEndpoint(catalog.servers, Some(endpoint));
      Names(RefreshEntry(catalog, entry, now).value.servers, id) <==>
        || id == Derived(endpoint)
        || (Names(catalog.servers, id) && (index < |catalog.servers| ==> catalog.servers[index].id != id))
  {
    hide EndpointOf, Updates, Decimal;
    EntryContents(catalog, entry, now);
    var endpoint := EndpointOf(entry).value;
    var servers, next := catalog.servers, RefreshEntry(catalog, entry, now).value.servers;
    var index := IndexOfEndpoint(servers, Some(endpoint));
    assert next[index].id == Derived(endpoint);
    if Names(servers, id) {
      var k :| 0 <= k < |servers| && servers[k].id == id;
      assert k != index ==> next[k] == servers[k];
    }
    if Names(next, id) {
      var k :| 0 <= k < |next| && next[k].id == id;
      assert k != index ==> k < |servers| && next[k] == servers[k];
    }
  }

  /**
    After the list a user has pinned a server exactly if they had pinned it before, under the id it
    had then, or had a pin under its new id that named no server.
   */
  lemma {:induction false} PinsFollow(catalog: Catalog, entries: seq<Entry>, now: int, u: nat, k: nat)
    requires UniqueKeys(catalog.servers) && RefreshEntries(catalog, entries, now).Ok?
    requires u < |catalog.users| && k < |catalog.servers|
    ensures
      var after := RefreshEntries(catalog, entries, now).value;
      && |after.users| == |catalog.users| && k < |after.servers|
      && (PinnedBy(after.users[u], after.servers[k].id) <==>
            || PinnedBy(catalog.users[u], catalog.servers[k].id)
            || (PinnedBy(catalog.users[u], after.servers[k].id) && !Names(catalog.servers, after.servers[k].id)))
    decreases |entries|
  {
    hide EndpointOf, Updates, Decimal;
    if entries != [] {
      var next := RefreshEntry(catalog, entries[0], now).value;
      if EndpointOf(entries[0]).Some? {
        EntryContents(catalog, entries[0], now);
        RecordsStayInPlace(next, entries[1..], now);
        PinsFollow(next, entries[1..], now, u, k);
        PinsFollowRow(catalog, entries, now, u, k);
      } else {
        PinsFollow(next, entries[1..], now, u, k);
      }
    }
  }

  lemma RowSetsItsId(catalog: Catalog, entries: seq<Entry>, now: int)
    requires UniqueKeys(catalog.servers) && RefreshEntries(catalog, entries, now).Ok?
    requires entries != [] && EndpointOf(entries[0]).Some?
    ensures
      var next := RefreshEntry(catalog, entries[0], now).value;
      var after := RefreshEntries(catalog, entries, now).value;
      var endpoint := EndpointOf(entries[0]).value;
      var index := IndexOfEndpoint(catalog.servers, Some(endpoint));
      && index < |next.servers| <= |after.servers| && |catalog.servers| <= |next.servers|
      && next.servers[index].id == Derived(endpoint) == after.servers[index].id
      && (forall k :: 0 <= k < |catalog.servers| && k != index ==> next.servers[k] == catalog.servers[k])
      && (forall k :: 0 <= k < |after.servers| && k != index ==> after.servers[k].id != Derived(endpoint))
  {
    hide EndpointOf, Updates, Decimal;
    EntryContents(catalog, entries[0], now);
    RecordsStayInPlace(RefreshEntry(catalog, entries[0], now).value, entries[1..], now);
  }

  lemma {:induction false} PinsFollowRow(catalog: Catalog, entries: seq<Entry>, now: int, u: nat, k: nat)
    requires UniqueKeys(catalog.servers) && RefreshEntries(catalog, entries, now).Ok?
    requires entries != [] && EndpointOf(entries[0]).Some? && u < |catalog.users| && k < |catalog.servers|
    requires
      var next := RefreshEntry(catalog, entries[0], now).value;
      var after := RefreshEntries(catalog, entries, now).value;
      && |after.users| == |catalog.users| == |next.users| && k < |after.servers| && k < |next.servers|
      && (PinnedBy(after.users[u], after.servers[k].id) <==>
            || PinnedBy(next.users[u], next.servers[k].id)
            || (PinnedBy(next.users[u], after.servers[k].id) && !Names(next.servers, after.servers[k].id)))
    ensures
      var after := RefreshEntries(catalog, entries, now).value;
      && (PinnedBy(after.users[u], after.servers[k].id) <==>
            || PinnedBy(catalog.users[u], catalog.servers[k].id)
            || (PinnedBy(catalog.users[u], after.servers[k].id) && !Names(catalog.servers, after.servers[k].id)))
  {
    hide EndpointOf, Updates, Decimal;
    var next := RefreshEntry(catalog, entries[0], now).value;
    var after := RefreshEntries(catalog, entries, now).value;
    var endpoint := EndpointOf(entries[0]).value;
    var index := IndexOfEndpoint(catalog.servers, Some(endpoint));
    var final := after.servers[k].id;
    EntryContents(catalog, entries[0], now);
    RowSetsItsId(catalog, entries, now);
    hide PinnedBy, RefreshEntry, RefreshEntries, Written, Listed;
    PinsAfterRow(catalog, entries[0], now, u, next.servers[k].id);
    PinsAfterRow(catalog, entries[0], now, u, final);
    NamesAfterRow(catalog, entries[0], now, final);
    if k == index {
      assert final == Derived(endpoint) && Names(next.servers, final);
      assert Names(catalog.servers, final) <==> catalog.servers[index].id == final by {
        assert !Holds(catalog.servers, final, endpoint);
      }
    } else {
      if index < |catalog.servers| {
        assert Names(catalog.servers, catalog.servers[index].id);
        assert catalog.servers[k].id != catalog.servers[index].id;
      }
    }
  }

  // The whole refresh.

  lemma RecordOfMember(servers: Servers, server: Server)
    requires UniqueKeys(servers) && server in servers && server.endpoint.Some?
    ensures RecordAt(servers, server.endpoint) == Some(server)
  {
    var k :| 0 <= k < |servers| && servers[k] == server;
    RecordIs(servers, k);
  }

  lemma SurvivingRecord(servers: Servers, cutoff: int, endpoint: Endpoint)
    requires UniqueKeys(servers)
    ensures
      var record := RecordAt(servers, Some(endpoint));
      RecordAt(Surviving(servers, cutoff), Some(endpoint)) ==
        if record.Some? && IsStale(record.value, cutoff) then None else record
  {
    SurvivingContents(servers, cutoff);
    var record := RecordAt(servers, Some(endpoint));
    var kept := RecordAt(Surviving(servers, cutoff), Some(endpoint));
    if kept.Some? {
      RecordOfMember(servers, kept.value);
    } else if record.Some? && !IsStale(record.value, cutoff) {
      RecordOfMember(Surviving(servers, cutoff), record.value);
    }
  }

  /**
    A successful fetch on a catalog with unique keys: each listed endpoint ends with one settled record
    that kept what it must, each other endpoint keeps its record unless it is stale.
   */
  lemma RefreshReconciles(catalog: Catalog, answer: Answer, now: int, endpoint: Endpoint)
    requires UniqueKeys(catalog.servers) && answer.Successful? && Clear(catalog.servers, Entries(answer))
    ensures Refresh(catalog, answer, now).Ok? && UniqueKeys(Refresh(catalog, answer, now).value.servers)
    ensures
      var before := RecordAt(catalog.servers, Some(endpoint));
      var after := RecordAt(Refresh(catalog, answer, now).value.servers, Some(endpoint));
      if Listed(Entries(answer), Some(endpoint)) then
        && after.Some? && Settled(after.value, endpoint, now)
        && (before.Some? ==> Kept(before.value, after.value))
        && (before.None? ==> Kept(Fresh(endpoint, now), after.value))
      else if before.Some? && IsStale(before.value, now - RETENTION_MS) then after == None
      else after == before
  {
    hide EndpointOf, Updates, Decimal;
    var entries := Entries(answer);
    GoesThroughExactlyWhenClear(catalog, entries, now);
    RecordFollowsItsRows(catalog, entries, now, endpoint);
    FoldedRecord(RecordAt(catalog.servers, Some(endpoint)), endpoint, entries, now);
    var next := RefreshEntries(catalog, entries, now).value;
    SurvivingRecord(next.servers, now - RETENTION_MS, endpoint);
    SurvivingContents(next.servers, now - RETENTION_MS);
  }

  /** Servers without an endpoint are none of the list's business. */
  lemma RefreshSparesOtherServers(catalog: Catalog, answer: Answer, now: int, server: Server)
    requires UniqueKeys(catalog.servers) && Refresh(catalog, answer, now).Ok? && server.endpoint.None?
    ensures server in Refresh(catalog, answer, now).value.servers <==> server in catalog.servers
  {
    if answer.Successful? {
      var entries := Entries(answer);
      RecordsStayInPlace(catalog, entries, now);
      var next := RefreshEntries(catalog, entries, now).value;
      SurvivingContents(next.servers, now - RETENTION_MS);
      assert forall k :: 0 <= k < |catalog.servers| && catalog.servers[k].endpoint.None? ==> next.servers[k] == catalog.servers[k];
    }
  }

  /** The pins after a successful fetch: they follow the servers that stay and end with those that go. */
  lemma RefreshKeepsPins(catalog: Catalog, answer: Answer, now: int, u: nat, k: nat)
    requires UniqueKeys(catalog.servers) && answer.Successful? && Refresh(catalog, answer, now).Ok?
    requires u < |catalog.users| && k < |catalog.servers|
    ensures |Refresh(catalog, answer, now).value.users| == |catalog.users|
    ensures
      var after := Refresh(catalog, answer, now).value;
      var before := catalog.servers[k];
      if !Listed(Entries(answer), before.endpoint) && IsStale(before, now - RETENTION_MS) then
        !PinnedBy(after.users[u], before.id)
      else
        exists server ::
          && server in after.servers && server.endpoint == before.endpoint
          && (PinnedBy(after.users[u], server.id) <==>
                || PinnedBy(catalog.users[u], before.id)
                || (PinnedBy(catalog.users[u], server.id) && !Names(catalog.servers, server.id)))
  {
    hide EndpointOf, Updates, Decimal;
    var entries, cutoff := Entries(answer), now - RETENTION_MS;
    var next, before := RefreshEntries(catalog, entries, now).value, catalog.servers[k];
    RecordsStayInPlace(catalog, entries, now);
    PinsFollow(catalog, entries, now, u, k);
    PruneExactly(next, cutoff);
    var server := next.servers[k];
    assert server in next.servers;
    if Listed(entries, before.endpoint) {
      RecordOfMember(next.servers, server);
      RecordFollowsItsRows(catalog, entries, now, before.endpoint.value);
      RecordIs(catalog.servers, k);
      FoldedRecord(Some(before), before.endpoint.value, entries, now);
      assert !IsStale(server, cutoff);
    }
    if !IsStale(server, cutoff) {
      forall other | other in next.servers && other.id == server.id ensures !IsStale(other, cutoff) {
        UniqueIdsName(next.servers, other, server);
      }
      assert server in Refresh(catalog, answer, now).value.servers;
    }
  }

  ghost predicate DistinctPins(users: seq<User>) {
    forall u | 0 <= u < |users| && users[u].pins.Some? :: NoRepeats(users[u].pins.value)
  }

  lemma {:induction false} UnpinnedStayDistinct(pins: seq<ServerId>, removed: set<ServerId>)
    requires NoRepeats(pins)
    ensures NoRepeats(Unpinned(pins, removed))
  {
    if pins != [] {
      assert forall i :: 0 < i < |pins| ==> pins[i] == pins[1..][i - 1];
      UnpinnedStayDistinct(pins[1..], removed);
    }
  }

  /** No refresh, complete or refused, gives a user the same pin twice. */
  lemma {:induction false} RowsKeepPinsDistinct(catalog: Catalog, entries: seq<Entry>, now: int)
    requires DistinctPins(catalog.users)
    ensures
      match RefreshEntries(catalog, entries, now)
      case Ok(after) => DistinctPins(after.users) && DistinctPins(RemoveStale(after, now - RETENTION_MS).users)
      case Err(partial) => DistinctPins(partial.users)
    decreases |entries|
  {
    hide EndpointOf, Updates, Decimal, UniqueKeys, ApplyEntry, StaleIds;
    if entries == [] {
      var removed := StaleIds(catalog.servers, now - RETENTION_MS);
      forall u | 0 <= u < |catalog.users| && catalog.users[u].pins.Some?
        ensures NoRepeats(Unpinned(catalog.users[u].pins.value, removed))
      {
        UnpinnedStayDistinct(catalog.users[u].pins.value, removed);
      }
    } else if RefreshEntry(catalog, entries[0], now).Ok? {
      RowsKeepPinsDistinct(RefreshEntry(catalog, entries[0], now).value, entries[1..], now);
    }
  }

  /**
    A refused row has already moved the pins of its own record to the derived id, which names the
    server at another endpoint that made the save fail.
   */
  lemma RefusedRowMisdirectsPins(catalog: Catalog, entry: Entry, now: int, u: nat)
    requires UniqueKeys(catalog.servers) && RefreshEntry(catalog, entry, now).Err? && u < |catalog.users|
    ensures EndpointOf(entry).Some?
    ensures
      var endpoint := EndpointOf(entry).value;
      var partial := RefreshEntry(catalog, entry, now).error;
      var record := RecordAt(catalog.servers, Some(endpoint));
      && Holds(catalog.servers, Derived(endpoint), endpoint)
      && partial.servers == catalog.servers && |partial.users| == |catalog.users|
      && (record.Some? ==>
            && !PinnedBy(partial.users[u], record.value.id)
            && (PinnedBy(catalog.users[u], record.value.id) ==> PinnedBy(partial.users[u], Derived(endpoint))))
  {
    hide EndpointOf, Updates, Decimal;
    EntryContents(catalog, entry, now);
    var endpoint := EndpointOf(entry).value;
    var record := RecordAt(catalog.servers, Some(endpoint));
    if record.Some? {
      assert record.value.id != Derived(endpoint);
      RepinnedContents(catalog.users[u], record.value.id, Derived(endpoint), record.value.id);
      RepinnedContents(catalog.users[u], record.value.id, Derived(endpoint), Derived(endpoint));
    }
  }

  /** Such a row: a server at `mine` whose derived id stands on the server at `theirs`. */
  lemma {:induction false} MisdirectionHappens(mine: Endpoint, theirs: Endpoint, entry: Entry, now: int)
    requires EndpointOf(entry) == Some(mine) && mine != theirs && theirs.port > 1
    ensures
      var server := Fresh(mine, now).(id := Given("x"), endpoint := Some(mine));
      var other := Fresh(theirs, now).(id := Derived(mine), endpoint := Some(theirs));
      var user := User("u", Some([Given("x")]));
      var result := RefreshEntry(Catalog([server, other], [user]), entry, now);
      && UniqueKeys([server, other])
      && result.Err? && result.error.servers == [server, other] && |result.error.users| == 1
      && PinnedBy(result.error.users[0], other.id) && !PinnedBy(result.error.users[0], server.id)
  {
    hide EndpointOf, Updates, Decimal;
    var server := Fresh(mine, now).(id := Given("x"), endpoint := Some(mine));
    var other := Fresh(theirs, now).(id := Derived(mine), endpoint := Some(theirs));
    var catalog := Catalog([server, other], [User("u", Some([Given("x")]))]);
    var servers := catalog.servers;
    assert servers[0] == server && servers[1] == other;
    assert Holds(servers, Derived(mine), mine);
    EntryContents(catalog, entry, now);
    RecordIs(servers, 0);
    RefusedRowMisdirectsPins(catalog, entry, now, 0);
  }

  /** Refreshes one after the other; a failed one leaves what it had written. */
  function Refreshes(catalog: Catalog, runs: seq<(Answer, int)>): Catalog
    decreases |runs|
  {
    if runs == [] then catalog
    else
      match Refresh(catalog, runs[0].0, runs[0].1)
      case Ok(next) => Refreshes(next, runs[1..])
      case Err(partial) => Refreshes(partial, runs[1..])
  }

  lemma AlignedRefresh(catalog: Catalog, answer: Answer, now: int)
    requires UniqueKeys(catalog.servers) && Aligned(catalog.servers)
    ensures Refresh(catalog, answer, now).Ok?
    ensures UniqueKeys(Refresh(catalog, answer, now).value.servers)
    ensures Aligned(Refresh(catalog, answer, now).value.servers)
  {
    if answer.Successful? {
      AlignedListsGoThrough(catalog, Entries(answer), now);
      var next := RefreshEntries(catalog, Entries(answer), now).value;
      SurvivingContents(next.servers, now - RETENTION_MS);
      var kept := Surviving(next.servers, now - RETENTION_MS);
      forall k | 0 <= k < |kept| && kept[k].id.Derived? ensures kept[k].endpoint == Some(kept[k].id.endpoint) {
        assert kept[k] in next.servers;
      }
    }
  }

  /** Once every derived id stands at its endpoint, that stays so, and no later list is refused. */
  lemma {:induction false} RefreshesStayAligned(catalog: Catalog, runs: seq<(Answer, int)>, answer: Answer, now: int)
    requires UniqueKeys(catalog.servers) && Aligned(catalog.servers)
    ensures UniqueKeys(Refreshes(catalog, runs).servers) && Aligned(Refreshes(catalog, runs).servers)
    ensures Refresh(Refreshes(catalog, runs), answer, now).Ok?
    decreases |runs|
  {
    hide Refresh;
    if runs == [] {
      AlignedRefresh(catalog, answer, now);
    } else {
      AlignedRefresh(catalog, runs[0].0, runs[0].1);
      RefreshesStayAligned(Refresh(catalog, runs[0].0, runs[0].1).value, runs[1..], answer, now);
    }
  }
}
