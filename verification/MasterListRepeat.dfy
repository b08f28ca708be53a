/**
  Coercion of list rows as a projection onto clean field values, and the refresh
  as an idempotent reconciliation (src/service/master-server-list-service.ts).
 */
module MasterListRepeat {
  import opened Prelude
  import opened ManagerStore
  import opened MasterList

  const TEXT_FIELDS := ["addr", "version", "name", "region"]
  const FLAG_FIELDS := ["mods", "password", "whitelist"]

  /** What a list row may put into a field: a trimmed text, a 17-digit Steam id, a number or a flag. */
  predicate CleanField(name: string, value: Json) {
    if name in TEXT_FIELDS then value.Text? && value.text != "" && Trim(value.text) == value.text
    else if name == "steamid" then
      value.Text? && |value.text| == 17 && forall c :: c in value.text ==> '0' <= c <= '9'
    else if name == "gm" then value.Number?
    else name in FLAG_FIELDS && value.Bool?
  }

  lemma DigitsAreTrimmed(text: string)
    requires |text| == 17 && forall c :: c in text ==> '0' <= c <= '9'
    ensures Trim(text) == text && !IsBlank(text)
  {
    assert text[0] in text && text[16] in text;
    assert TrimStart(text) == text;
    assert !IsSpace(text[0]);
  }

  lemma TrimmedIsClean(text: string)
    requires !IsBlank(text)
    ensures Trim(text) != "" && Trim(Trim(text)) == Trim(text)
  {
    BlankTrimsToNothing(text);
    TrimIsIdempotent(text);
  }

  /** Coercion takes every clean value as it is, and whatever it takes becomes clean. */
  lemma CoercionProjects(name: string, value: Json)
    ensures CleanField(name, value) ==> Coerced(name, value) == Some(value)
    ensures Coerced(name, value).Some? ==> CleanField(name, Coerced(name, value).value)
  {
    hide Trim;
    if value.Text? {
      BlankTrimsToNothing(value.text);
      if !IsBlank(value.text) {
        TrimmedIsClean(value.text);
      }
      if CleanField("steamid", value) {
        DigitsAreTrimmed(value.text);
      }
    }
  }

  ghost predicate CleanFields(fields: map<string, Json>) {
    forall name :: name in fields ==> CleanField(name, fields[name])
  }

  /** The fields of a record stay clean through any list, whatever the rows contain. */
  lemma {:induction false} FoldedStaysClean(before: Option<Server>, endpoint: Endpoint, entries: seq<Entry>, now: int)
    requires before.Some? ==> CleanFields(before.value.fields)
    ensures
      var after := Folded(before, endpoint, entries, now);
      after.Some? ==> CleanFields(after.value.fields)
    decreases |entries|
  {
    hide EndpointOf, Coerced, CleanField, Decimal;
    if entries != [] {
      if EndpointOf(entries[0]) == Some(endpoint) {
        var server := if before.Some? then before.value else Fresh(endpoint, now);
        var applied := ApplyEntry(server, endpoint, entries[0], now);
        forall name | name in applied.fields ensures CleanField(name, applied.fields[name]) {
          if name in Updates(entries[0].fields) {
            CoercionProjects(name, entries[0].fields[name]);
          }
        }
        FoldedStaysClean(Some(applied), endpoint, entries[1..], now);
      } else {
        FoldedStaysClean(before, endpoint, entries[1..], now);
      }
    }
  }

  // A repeated list.

  /** All that the rows for one endpoint say, a later row winning. */
  function Said(entries: seq<Entry>, endpoint: Endpoint): map<string, Json>
    decreases |entries|
  {
    if entries == [] then map[]
    else if EndpointOf(entries[0]) == Some(endpoint) then Updates(entries[0].fields) + Said(entries[1..], endpoint)
    else Said(entries[1..], endpoint)
  }

  function Touched(server: Server, endpoint: Endpoint, fields: map<string, Json>, now: int): Server
    requires endpoint.port > 1
  {
    server.(
      id := Derived(endpoint), endpoint := Some(endpoint), lastSeen := Some(now),
      queryUrl := if server.queryUrlExplicit == Some(true) then server.queryUrl else DefaultUrl(endpoint),
      fields := server.fields + fields)
  }

  /** The rows for one endpoint act together like a single row that says all of it. */
  lemma {:induction false} RowsActAsOne(before: Option<Server>, endpoint: Endpoint, entries: seq<Entry>, now: int)
    requires endpoint.port > 1 && Listed(entries, Some(endpoint))
    ensures
      var server := if before.Some? then before.value else Fresh(endpoint, now);
      Folded(before, endpoint, entries, now) == Some(Touched(server, endpoint, Said(entries, endpoint), now))
    decreases |entries|
  {
    hide EndpointOf, Updates, Decimal;
    ListedSplits(entries, Some(endpoint));
    var server := if before.Some? then before.value else Fresh(endpoint, now);
    if EndpointOf(entries[0]) == Some(endpoint) {
      var applied := ApplyEntry(server, endpoint, entries[0], now);
      var first, rest := Updates(entries[0].fields), Said(entries[1..], endpoint);
      assert (server.fields + first) + rest == server.fields + (first + rest);
      if Listed(entries[1..], Some(endpoint)) {
        RowsActAsOne(Some(applied), endpoint, entries[1..], now);
      } else {
        NothingSaid(entries[1..], endpoint, Some(applied), now);
        assert first + rest == first;
      }
    } else {
      RowsActAsOne(before, endpoint, entries[1..], now);
    }
  }

  lemma {:induction false} NothingSaid(entries: seq<Entry>, endpoint: Endpoint, before: Option<Server>, now: int)
    requires !Listed(entries, Some(endpoint))
    ensures Said(entries, endpoint) == map[] && Folded(before, endpoint, entries, now) == before
    decreases |entries|
  {
    hide EndpointOf;
    if entries != [] {
      ListedSplits(entries, Some(endpoint));
      NothingSaid(entries[1..], endpoint, before, now);
    }
  }

  lemma FoldedTwice(before: Option<Server>, endpoint: Endpoint, entries: seq<Entry>, now: int)
    ensures
      var after := Folded(before, endpoint, entries, now);
      Folded(after, endpoint, entries, now) == after
  {
    hide EndpointOf, Decimal;
    var after := Folded(before, endpoint, entries, now);
    if Listed(entries, Some(endpoint)) {
      ListedHasPort(entries, endpoint);
      RowsActAsOne(before, endpoint, entries, now);
      RowsActAsOne(after, endpoint, entries, now);
      assert after.value.fields + Said(entries, endpoint) == after.value.fields;
    } else {
      NothingSaid(entries, endpoint, before, now);
    }
  }

  lemma ListedHasPort(entries: seq<Entry>, endpoint: Endpoint)
    requires Listed(entries, Some(endpoint))
    ensures endpoint.port > 1
  {
    hide StringOrNone;
  }

  /** Every listed endpoint has its record under its derived id. */
  ghost predicate InPlace(servers: Servers, entries: seq<Entry>) {
    forall i | 0 <= i < |entries| && EndpointOf(entries[i]).Some? ::
      var record := RecordAt(servers, EndpointOf(entries[i]));
      record.Some? && record.value.id == Derived(EndpointOf(entries[i]).value)
  }

  lemma InPlaceIsClear(servers: Servers, entries: seq<Entry>)
    requires UniqueKeys(servers) && InPlace(servers, entries)
    ensures Clear(servers, entries)
  {
    hide EndpointOf;
    forall i, k | 0 <= i < |entries| && 0 <= k < |servers| && EndpointOf(entries[i]).Some?
      && servers[k].id == Derived(EndpointOf(entries[i]).value)
      ensures servers[k].endpoint == EndpointOf(entries[i])
    {
      var record := RecordAt(servers, EndpointOf(entries[i])).value;
      UniqueIdsName(servers, record, servers[k]);
    }
  }

  lemma InPlaceFromTheSecond(servers: Servers, entries: seq<Entry>)
    requires entries != [] && InPlace(servers, entries)
    ensures InPlace(servers, entries[1..])
  {
    hide EndpointOf, RecordAt;
    assert forall i :: 0 <= i < |entries| - 1 ==> entries[1..][i] == entries[i + 1];
  }

  lemma RowKeepsOthersInPlace(servers: Servers, entry: Entry, entries: seq<Entry>, now: int)
    requires EndpointOf(entry).Some? && UniqueKeys(servers) && InPlace(servers, entries)
    requires UniqueKeys(Written(servers, EndpointOf(entry).value, entry, now))
    ensures InPlace(Written(servers, EndpointOf(entry).value, entry, now), entries)
  {
    hide EndpointOf, RecordAt, Written, Updates, Decimal;
    var written := EndpointOf(entry).value;
    forall i | 0 <= i < |entries| && EndpointOf(entries[i]).Some?
      ensures
        var record := RecordAt(Written(servers, written, entry, now), EndpointOf(entries[i]));
        record.Some? && record.value.id == Derived(EndpointOf(entries[i]).value)
    {
      WrittenRecord(servers, written, entry, now, EndpointOf(entries[i]).value);
    }
  }

  /** Where every listed record is in place no pin is touched. */
  lemma {:induction false} NoPinMoves(catalog: Catalog, entries: seq<Entry>, now: int)
    requires UniqueKeys(catalog.servers) && InPlace(catalog.servers, entries)
    requires RefreshEntries(catalog, entries, now).Ok?
    ensures RefreshEntries(catalog, entries, now).value.users == catalog.users
    decreases |entries|
  {
    hide EndpointOf, Updates, Decimal, InPlace;
    if entries != [] {
      InPlaceFromTheSecond(catalog.servers, entries);
      if EndpointOf(entries[0]).Some? {
        EntryContents(catalog, entries[0], now);
        RowKeepsOthersInPlace(catalog.servers, entries[0], entries[1..], now);
        FirstInPlace(catalog.servers, entries);
      }
      NoPinMoves(RefreshEntry(catalog, entries[0], now).value, entries[1..], now);
    }
  }

  lemma FirstInPlace(servers: Servers, entries: seq<Entry>)
    requires entries != [] && InPlace(servers, entries) && EndpointOf(entries[0]).Some?
    ensures
      var index := IndexOfEndpoint(servers, EndpointOf(entries[0]));
      index < |servers| && servers[index].id == Derived(EndpointOf(entries[0]).value)
  {
    hide EndpointOf;
  }

  lemma NothingAdded(catalog: Catalog, entries: seq<Entry>, now: int)
    requires UniqueKeys(catalog.servers) && InPlace(catalog.servers, entries)
    requires RefreshEntries(catalog, entries, now).Ok?
    ensures |RefreshEntries(catalog, entries, now).value.servers| == |catalog.servers|
  {
    hide EndpointOf, Updates, Decimal, RefreshEntries;
    var servers, after := catalog.servers, RefreshEntries(catalog, entries, now).value.servers;
    RecordsStayInPlace(catalog, entries, now);
    assert |after| > |servers| ==> Listed(entries, after[|servers|].endpoint);
    forall k | 0 <= k < |after| && Listed(entries, after[k].endpoint) ensures k < |servers| {
      var i :| 0 <= i < |entries| && EndpointOf(entries[i]) == after[k].endpoint;
      var index := IndexOfEndpoint(servers, after[k].endpoint);
      assert index < |servers| && after[index].endpoint == after[k].endpoint;
    }
  }

  /** Records that the list has already made what it says are made so again. */
  lemma RecordsStay(catalog: Catalog, entries: seq<Entry>, now: int)
    requires UniqueKeys(catalog.servers) && InPlace(catalog.servers, entries)
    requires RefreshEntries(catalog, entries, now).Ok?
    requires forall endpoint: Endpoint ::
      Folded(RecordAt(catalog.servers, Some(endpoint)), endpoint, entries, now) == RecordAt(catalog.servers, Some(endpoint))
    ensures RefreshEntries(catalog, entries, now).value.servers == catalog.servers
  {
    hide EndpointOf, Folded, RefreshEntries, InPlace;
    var servers, after := catalog.servers, RefreshEntries(catalog, entries, now).value.servers;
    RecordsStayInPlace(catalog, entries, now);
    NothingAdded(catalog, entries, now);
    forall k | 0 <= k < |servers| ensures after[k] == servers[k] {
      if servers[k].endpoint.Some? {
        RecordFollowsItsRows(catalog, entries, now, servers[k].endpoint.value);
        RecordIs(servers, k);
        RecordIs(after, k);
      }
    }
  }

  lemma {:induction false} AllSurvive(servers: Servers, cutoff: int)
    requires forall server :: server in servers ==> !IsStale(server, cutoff)
    ensures Surviving(servers, cutoff) == servers
  {
    if servers != [] {
      assert servers[0] in servers;
      AllSurvive(servers[1..], cutoff);
    }
  }

  lemma {:induction false} NoneUnpinned(pins: seq<ServerId>)
    ensures Unpinned(pins, {}) == pins
  {
    if pins != [] {
      NoneUnpinned(pins[1..]);
    }
  }

  lemma NothingToRemove(catalog: Catalog, cutoff: int)
    requires forall server :: server in catalog.servers ==> !IsStale(server, cutoff)
    ensures RemoveStale(catalog, cutoff) == catalog
  {
    AllSurvive(catalog.servers, cutoff);
    assert StaleIds(catalog.servers, cutoff) == {};
    forall u | 0 <= u < |catalog.users| ensures WithoutPins(catalog.users[u], {}) == catalog.users[u] {
      if catalog.users[u].pins.Some? {
        NoneUnpinned(catalog.users[u].pins.value);
      }
    }
    assert RemoveStale(catalog, cutoff).users == catalog.users;
  }

  lemma RefreshedIsInPlace(catalog: Catalog, answer: Answer, now: int)
    requires UniqueKeys(catalog.servers) && answer.Successful? && Refresh(catalog, answer, now).Ok?
    ensures InPlace(Refresh(catalog, answer, now).value.servers, Entries(answer))
  {
    hide EndpointOf, Updates, Decimal, Clear;
    var entries := Entries(answer);
    GoesThroughExactlyWhenClear(catalog, entries, now);
    forall i | 0 <= i < |entries| && EndpointOf(entries[i]).Some?
      ensures
        var record := RecordAt(Refresh(catalog, answer, now).value.servers, EndpointOf(entries[i]));
        record.Some? && record.value.id == Derived(EndpointOf(entries[i]).value)
    {
      RefreshReconciles(catalog, answer, now, EndpointOf(entries[i]).value);
      assert Listed(entries, EndpointOf(entries[i]));
    }
  }

  /** A refresh repeated with the same list at the same time changes nothing: neither records nor pins. */
  lemma RefreshIsIdempotent(catalog: Catalog, answer: Answer, now: int)
    requires UniqueKeys(catalog.servers) && Refresh(catalog, answer, now).Ok?
    ensures Refresh(Refresh(catalog, answer, now).value, answer, now) == Refresh(catalog, answer, now)
  {
    if answer.Successful? {
      hide EndpointOf, Updates, Decimal, Clear, Folded;
      var entries, cutoff := Entries(answer), now - RETENTION_MS;
      var after := Refresh(catalog, answer, now).value;
      RefreshedIsInPlace(catalog, answer, now);
      GoesThroughExactlyWhenClear(catalog, entries, now);
      RefreshReconciles(catalog, answer, now, Endpoint("", 0));
      InPlaceIsClear(after.servers, entries);
      GoesThroughExactlyWhenClear(after, entries, now);
      forall endpoint: Endpoint
        ensures Folded(RecordAt(after.servers, Some(endpoint)), endpoint, entries, now) == RecordAt(after.servers, Some(endpoint))
      {
        RepeatedRows(catalog, answer, now, endpoint);
      }
      RecordsStay(after, entries, now);
      NoPinMoves(after, entries, now);
      SurvivingContents(RefreshEntries(catalog, entries, now).value.servers, cutoff);
      NothingToRemove(after, cutoff);
    }
  }

  lemma RepeatedRows(catalog: Catalog, answer: Answer, now: int, endpoint: Endpoint)
    requires UniqueKeys(catalog.servers) && answer.Successful? && Refresh(catalog, answer, now).Ok?
    ensures
      var record := RecordAt(Refresh(catalog, answer, now).value.servers, Some(endpoint));
      Folded(record, endpoint, Entries(answer), now) == record
  {
    hide EndpointOf, Updates, Decimal;
    var entries := Entries(answer);
    RecordFollowsItsRows(catalog, entries, now, endpoint);
    FoldedTwice(RecordAt(catalog.servers, Some(endpoint)), endpoint, entries, now);
    SurvivingRecord(RefreshEntries(catalog, entries, now).value.servers, now - RETENTION_MS, endpoint);
    if Listed(entries, Some(endpoint)) {
      FoldedRecord(RecordAt(catalog.servers, Some(endpoint)), endpoint, entries, now);
    } else {
      NothingSaid(entries, endpoint, None, now);
    }
  }
}
