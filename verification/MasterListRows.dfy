/**
  What one row of the master list leaves in the catalog, told from the row alone
  (`queryUrlFor`, `serverIdFor` and `applyMasterEntry` in
  src/service/master-server-list-service.ts).
 */
module MasterListRows {
  import opened Prelude
  import opened ManagerStore
  import opened MasterList
  import opened MasterListPruning

  const DIGITS := "0123456789"

  /** The number a decimal text stands for. */
  function Read(text: string): nat {
    if text == "" then 0
    else
      var last := text[|text| - 1];
      10 * Read(text[..|text| - 1]) + if '0' <= last <= '9' then last as nat - '0' as nat else 0
  }

  /** A number is written in digits, without a leading zero, and reads back as itself. */
  lemma {:induction false} DecimalReadsBack(n: nat)
    ensures Read(Decimal(n)) == n
    ensures Decimal(n) != "" && (forall c :: c in Decimal(n) ==> '0' <= c <= '9')
    ensures n > 0 ==> Decimal(n)[0] != '0'
  {
    if n >= 10 {
      hide Decimal, Read;
      DecimalReadsBack(n / 10);
      DigitAt(n % 10);
      ReadAppended(Decimal(n / 10), DIGITS[n % 10]);
      DecimalOfMore(n);
    } else {
      DigitAt(n);
      ReadAppended("", DIGITS[n]);
      assert Decimal(n) == "" + [DIGITS[n]];
    }
  }

  lemma DecimalOfMore(n: nat)
    requires n >= 10
    ensures Decimal(n) == Decimal(n / 10) + [DIGITS[n % 10]]
  {
  }

  lemma DigitAt(d: nat)
    requires d < 10
    ensures DIGITS[d] as nat == '0' as nat + d
  {
  }

  lemma ReadAppended(front: string, last: char)
    requires '0' <= last <= '9'
    ensures Read(front + [last]) == 10 * Read(front) + last as nat - '0' as nat
  {
    assert (front + [last])[..|front|] == front;
  }

  /** A row with an address text and a port of at least 2. */
  predicate Reachable(row: Entry) {
    row.ip.Text? && !IsBlank(row.ip.text) && row.port.Some? && row.port.value >= 2
  }

  /** Any other row is as good as not listed. */
  lemma {:induction false} UnreachableRowIsSkipped(
      catalog: Catalog, earlier: seq<Entry>, row: Entry, later: seq<Entry>, now: int)
    requires !Reachable(row)
    ensures RefreshEntries(catalog, earlier + [row] + later, now) == RefreshEntries(catalog, earlier + later, now)
    decreases |earlier|
  {
    var rows, without := earlier + [row] + later, earlier + later;
    if earlier == [] {
      assert rows[0] == row && rows[1..] == later && without == later;
      assert RefreshEntry(catalog, row, now) == Ok(catalog);
    } else {
      hide RefreshEntry;
      assert rows[1..] == earlier[1..] + [row] + later && without[1..] == earlier[1..] + later;
      if RefreshEntry(catalog, earlier[0], now).Ok? {
        UnreachableRowIsSkipped(RefreshEntry(catalog, earlier[0], now).value, earlier[1..], row, later, now);
      }
    }
  }

  /** The record of a row's address and port, seen now and asked one port below; an explicit URL stays. */
  ghost predicate Cataloged(server: Server, row: Entry, now: int)
    requires Reachable(row)
  {
    var endpoint := Endpoint(Trim(row.ip.text), row.port.value);
    && server.endpoint == Some(endpoint) && server.id == Derived(endpoint) && server.lastSeen == Some(now)
    && (server.queryUrlExplicit == Some(true) || exists digits ::
          && server.queryUrl == "http://" + Trim(row.ip.text) + ":" + digits
          && Read(digits) == row.port.value - 1 && digits[..1] != "0" && forall c :: c in digits ==> '0' <= c <= '9')
  }

  /** What the list never touches in a record that was there. */
  predicate Untouched(before: Server, after: Server) {
    && after.credential == before.credential && after.userId == before.userId && after.isPublic == before.isPublic
    && after.createdAt == before.createdAt && after.queryUrlExplicit == before.queryUrlExplicit
    && (before.queryUrlExplicit == Some(true) ==> after.queryUrl == before.queryUrl)
    && before.fields.Keys <= after.fields.Keys
  }

  /**
    Every reachable row of a list that went through has its record: the one that was there, or a new public
    one without owner and credential.
   */
  lemma {:induction false} RowIsCataloged(catalog: Catalog, rows: seq<Entry>, i: nat, now: int)
    requires UniqueKeys(catalog.servers) && i < |rows| && Reachable(rows[i])
    requires Refresh(catalog, Successful(Some(rows)), now).Ok?
    ensures
      var before := RecordAt(catalog.servers, Some(Endpoint(Trim(rows[i].ip.text), rows[i].port.value)));
      exists server ::
        && server in Refresh(catalog, Successful(Some(rows)), now).value.servers && Cataloged(server, rows[i], now)
        && match before
           case Some(former) => Untouched(former, server)
           case None => server.isPublic && server.userId.None? && server.credential.None? && server.createdAt == now
  {
    var answer := Successful(Some(rows));
    var endpoint := Endpoint(Trim(rows[i].ip.text), rows[i].port.value);
    assert EndpointOf(rows[i]) == Some(endpoint);
    assert Listed(rows, Some(endpoint));
    RowsOf(rows);
    hide EndpointOf, Updates, Decimal, Clear, RefreshEntries, Listed, Trim, Read, Settled, Kept, Refresh, Entries;
    RefreshedOk(catalog, rows, now);
    GoesThroughExactlyWhenClear(catalog, rows, now);
    RefreshReconciles(catalog, answer, now, endpoint);
    var record := RecordAt(Refresh(catalog, answer, now).value.servers, Some(endpoint)).value;
    assert record in Refresh(catalog, answer, now).value.servers;
    SettledIsCataloged(record, rows[i], now);
    var before := RecordAt(catalog.servers, Some(endpoint));
    KeptIsUntouched(if before.Some? then before.value else Fresh(endpoint, now), record);
  }

  lemma RowsOf(rows: seq<Entry>)
    ensures Entries(Successful(Some(rows))) == rows
  {
  }

  lemma RefreshedOk(catalog: Catalog, rows: seq<Entry>, now: int)
    ensures Refresh(catalog, Successful(Some(rows)), now).Ok? <==> RefreshEntries(catalog, rows, now).Ok?
  {
  }

  lemma KeptIsUntouched(before: Server, after: Server)
    ensures Kept(before, after) <==> Untouched(before, after)
  {
  }

  lemma SettledIsCataloged(server: Server, row: Entry, now: int)
    requires Reachable(row) && Settled(server, Endpoint(Trim(row.ip.text), row.port.value), now)
    ensures Cataloged(server, row, now)
  {
    hide Decimal, Trim, Read;
    var digits := Decimal(row.port.value - 1);
    DecimalReadsBack(row.port.value - 1);
    assert digits[..1] == [digits[0]];
    if server.queryUrlExplicit != Some(true) {
      assert server.queryUrl == "http://" + Trim(row.ip.text) + ":" + digits;
    }
  }

  // The fields.

  /** The value that a row's value for a field becomes in the record; any other value says nothing. */
  predicate Becomes(name: string, given: Json, stored: Json) {
    || (name in ["addr", "version", "name", "region"] && given.Text? && !IsBlank(given.text)
        && stored == Text(Trim(given.text)))
    || (name == "steamid" && given.Text? && |Trim(given.text)| == 17
        && (forall c :: c in Trim(given.text) ==> c in DIGITS) && stored == Text(Trim(given.text)))
    || (name == "gm" && given.Number? && stored == given)
    || (name in ["mods", "password", "whitelist"] && given.Bool? && stored == given)
  }

  lemma CoercedExactly(name: string, given: Json, stored: Json)
    ensures Coerced(name, given) == Some(stored) <==> Becomes(name, given, stored)
  {
    hide Trim, IsBlank;
    if given.Text? {
      BlankTrimsToNothing(given.text);
    }
    forall c: char ensures c in DIGITS <==> '0' <= c <= '9' {
      if '0' <= c <= '9' { assert DIGITS[c as int - '0' as int] == c; }
    }
  }

  predicate Says(row: Entry, name: string, stored: Json) {
    name in row.fields && Becomes(name, row.fields[name], stored)
  }

  ghost predicate Silent(row: Entry, name: string) {
    forall stored :: !Says(row, name, stored)
  }

  ghost predicate AllSilent(rows: seq<Entry>, from: nat, endpoint: Endpoint, name: string) {
    forall j :: from <= j < |rows| && EndpointOf(rows[j]) == Some(endpoint) ==> Silent(rows[j], name)
  }

  /** The last row for the endpoint that says something about the field says this. */
  ghost predicate Decides(rows: seq<Entry>, endpoint: Endpoint, name: string, stored: Json) {
    exists i: nat :: i < |rows| && EndpointOf(rows[i]) == Some(endpoint) && Says(rows[i], name, stored)
      && AllSilent(rows, i + 1, endpoint, name)
  }

  predicate HasField(server: Server, name: string, stored: Json) {
    name in server.fields && server.fields[name] == stored
  }

  lemma AppliedField(server: Server, endpoint: Endpoint, row: Entry, now: int, name: string, stored: Json)
    requires endpoint.port > 1
    ensures HasField(ApplyEntry(server, endpoint, row, now), name, stored)
      <==> Says(row, name, stored) || (Silent(row, name) && HasField(server, name, stored))
  {
    hide Coerced, Becomes, Decimal;
    if name in row.fields {
      var given := row.fields[name];
      CoercedExactly(name, given, stored);
      if Coerced(name, given).Some? {
        CoercedExactly(name, given, Coerced(name, given).value);
        assert Says(row, name, Coerced(name, given).value);
      } else {
        forall other ensures !Says(row, name, other) { CoercedExactly(name, given, other); }
      }
    }
  }

  lemma FirstRowOf(rows: seq<Entry>, endpoint: Endpoint, name: string, stored: Json)
    requires rows != []
    ensures AllSilent(rows, 0, endpoint, name) <==>
      AllSilent(rows[1..], 0, endpoint, name) && (EndpointOf(rows[0]) == Some(endpoint) ==> Silent(rows[0], name))
    ensures Decides(rows, endpoint, name, stored) <==>
      || Decides(rows[1..], endpoint, name, stored)
      || (EndpointOf(rows[0]) == Some(endpoint) && Says(rows[0], name, stored) && AllSilent(rows[1..], 0, endpoint, name))
  {
    hide EndpointOf, Says, Silent;
    var rest := rows[1..];
    assert forall j :: 0 < j < |rows| ==> rows[j] == rest[j - 1];
    assert forall j :: 0 <= j < |rest| ==> rest[j] == rows[j + 1];
    forall i: nat | i < |rest|
      ensures AllSilent(rows, i + 1, endpoint, name) <==> AllSilent(rest, i, endpoint, name)
    {
      RestSilent(rows, i, endpoint, name);
    }
    RestSilent(rows, 0, endpoint, name);
    if |rest| > 0 {
      RestSilent(rows, |rest|, endpoint, name);
    }
    if Decides(rest, endpoint, name, stored) {
      var i: nat :| i < |rest| && EndpointOf(rest[i]) == Some(endpoint) && Says(rest[i], name, stored)
        && AllSilent(rest, i + 1, endpoint, name);
      RestSilent(rows, i + 1, endpoint, name);
      assert rows[i + 1] == rest[i];
    }
    if Decides(rows, endpoint, name, stored) {
      var i: nat :| i < |rows| && EndpointOf(rows[i]) == Some(endpoint) && Says(rows[i], name, stored)
        && AllSilent(rows, i + 1, endpoint, name);
      if i > 0 {
        RestSilent(rows, i, endpoint, name);
        assert rest[i - 1] == rows[i];
      }
    }
  }

  lemma RestSilent(rows: seq<Entry>, from: nat, endpoint: Endpoint, name: string)
    requires rows != []
    ensures AllSilent(rows, from + 1, endpoint, name) <==> AllSilent(rows[1..], from, endpoint, name)
  {
    hide EndpointOf, Silent;
    assert forall j :: 0 < j < |rows| ==> rows[j] == rows[1..][j - 1];
    assert forall j :: 0 <= j < |rows| - 1 ==> rows[1..][j] == rows[j + 1];
  }

  lemma {:induction false} FoldedField(
      before: Option<Server>, endpoint: Endpoint, rows: seq<Entry>, now: int, name: string, stored: Json)
    ensures
      var after := Folded(before, endpoint, rows, now);
      after.Some? && HasField(after.value, name, stored) <==>
        || Decides(rows, endpoint, name, stored)
        || (before.Some? && HasField(before.value, name, stored) && AllSilent(rows, 0, endpoint, name))
    decreases |rows|
  {
    if rows != [] {
      hide EndpointOf, Says, Silent, AllSilent, Decides, ApplyEntry, HasField;
      FirstRowOf(rows, endpoint, name, stored);
      if EndpointOf(rows[0]) == Some(endpoint) {
        var server := if before.Some? then before.value else Fresh(endpoint, now);
        var applied := ApplyEntry(server, endpoint, rows[0], now);
        AppliedField(server, endpoint, rows[0], now, name, stored);
        FreshHasNoFields(endpoint, now, name, stored);
        FoldedField(Some(applied), endpoint, rows[1..], now, name, stored);
      } else {
        FoldedField(before, endpoint, rows[1..], now, name, stored);
      }
    }
  }

  lemma FreshHasNoFields(endpoint: Endpoint, now: int, name: string, stored: Json)
    requires endpoint.port > 1
    ensures !HasField(Fresh(endpoint, now), name, stored)
  {
  }

  /**
    After a list a listed record has a field value if and only if the last of its rows that says something about
    the field says that value, or none says anything and the record had it before.
   */
  lemma {:induction false} FieldFollowsLastRow(
      catalog: Catalog, rows: seq<Entry>, now: int, endpoint: Endpoint, name: string, stored: Json)
    requires UniqueKeys(catalog.servers) && Listed(rows, Some(endpoint))
    requires Refresh(catalog, Successful(Some(rows)), now).Ok?
    ensures
      var before := RecordAt(catalog.servers, Some(endpoint));
      var after := RecordAt(Refresh(catalog, Successful(Some(rows)), now).value.servers, Some(endpoint));
      && after.Some?
      && (HasField(after.value, name, stored) <==>
            || Decides(rows, endpoint, name, stored)
            || (before.Some? && HasField(before.value, name, stored) && AllSilent(rows, 0, endpoint, name)))
  {
    hide EndpointOf, Updates, Decimal, Listed, Says, Silent, AllSilent, Decides, HasField;
    var before := RecordAt(catalog.servers, Some(endpoint));
    RowsOf(rows);
    RecordFollowsItsRows(catalog, rows, now, endpoint);
    FoldedField(before, endpoint, rows, now, name, stored);
    FoldedRecord(before, endpoint, rows, now);
    SurvivingRecord(RefreshEntries(catalog, rows, now).value.servers, now - RETENTION_MS, endpoint);
  }
}
