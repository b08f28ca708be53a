/**
  The one-time move of data.json into Mongo (src/db/mongodb.ts). A start of the
  service may be interrupted between any two steps and inside the bulk insert;
  the service is then started again.
 */
module LegacyMigration {
  import opened Prelude

  /** A record of any of the three lists. An id that is not a string counts as blank. */
  datatype Record = Record(id: string, fields: map<string, Json>)

  datatype LegacyData = LegacyData(servers: seq<Record>, users: seq<Record>, statistics: seq<Record>)

  datatype SourceFile = Absent | Unreadable | Present(data: LegacyData)

  /** data.json, data.json.bak, the migration marker and the three Mongo collections. */
  datatype Host = Host(
    file: SourceFile, backup: Option<LegacyData>, marker: bool,
    servers: seq<Record>, users: seq<Record>, statistics: seq<Record>)

  /**
    Where a start is cut off; during the writes each collection may have got any number of records.
    When one bulk write is refused, the others may still be running: `Never` is the case in which
    they get as far as they can, `DuringWrites` covers every other one.
   */
  datatype Interruption =
    | Never
    | DuringWrites(servers: nat, users: nat, statistics: nat)
    | BeforeMarker
    | AfterMarker

  function Ids(records: seq<Record>): set<string> {
    set record | record in records :: record.id
  }

  ghost predicate UniqueIds(records: seq<Record>) {
    forall i, j :: 0 <= i < j < |records| ==> records[i].id != records[j].id
  }

  /** The check of `assertUniqueIds`. */
  predicate ValidIds(records: seq<Record>) {
    (forall record :: record in records ==> !IsBlank(record.id)) && |Ids(records)| == |records|
  }

  /** `find({ id: { $in: ids } })`. */
  function Find(collection: seq<Record>, ids: set<string>): seq<Record> {
    if collection == [] then []
    else (if collection[0].id in ids then [collection[0]] else []) + Find(collection[1..], ids)
  }

  function Without(records: seq<Record>, ids: set<string>): seq<Record> {
    if records == [] then []
    else (if records[0].id in ids then [] else [records[0]]) + Without(records[1..], ids)
  }

  // The secondary unique indexes, which exist before the migration starts.

  datatype Kind = Servers | Users | Statistics

  /** What a record occupies in a unique index; `values` are its indexed fields, a missing one counting as null. */
  datatype Claim = Claim(kind: Kind, index: seq<string>, values: seq<Json>)

  function Value(record: Record, field: string): Json {
    if field in record.fields then record.fields[field] else Null
  }

  function ClaimOn(kind: Kind, index: seq<string>, record: Record): Claim {
    Claim(kind, index, seq(|index|, i requires 0 <= i < |index| => Value(record, index[i])))
  }

  /** Servers with a textual address and a numeric port occupy it; users without a Steam id occupy none. */
  function Claims(kind: Kind, record: Record): set<Claim> {
    match kind
    case Servers =>
      if Value(record, "ip").Text? && Value(record, "port").Number? then {ClaimOn(kind, ["ip", "port"], record)} else {}
    case Users =>
      {ClaimOn(kind, ["username"], record), ClaimOn(kind, ["email"], record)}
      + if "steamId" in record.fields then {ClaimOn(kind, ["steamId"], record)} else {}
    case Statistics => {ClaimOn(kind, ["serverId", "hourStart"], record)}
  }

  predicate Clash(kind: Kind, left: Record, right: Record) {
    Claims(kind, left) * Claims(kind, right) != {}
  }

  /** A field has the same value in both; missing and null count as the same. */
  predicate SameIndexed(left: Record, right: Record, field: string) {
    if field in left.fields && left.fields[field] != Null then
      field in right.fields && right.fields[field] == left.fields[field]
    else field in right.fields ==> right.fields[field] == Null
  }

  lemma SameEntry(kind: Kind, index: seq<string>, left: Record, right: Record)
    ensures ClaimOn(kind, index, left) == ClaimOn(kind, index, right)
      <==> forall i :: 0 <= i < |index| ==> SameIndexed(left, right, index[i])
  {
    var mine, theirs := ClaimOn(kind, index, left), ClaimOn(kind, index, right);
    assert forall i :: 0 <= i < |index| ==> (mine.values[i] == theirs.values[i] <==> SameIndexed(left, right, index[i]));
    assert mine == theirs <==> mine.values == theirs.values;
  }

  /** When two records clash: the unique indexes, one by one. */
  lemma ServersClashExactly(left: Record, right: Record)
    ensures Clash(Servers, left, right) <==>
      && "ip" in left.fields && left.fields["ip"].Text? && "port" in left.fields && left.fields["port"].Number?
      && "ip" in right.fields && right.fields["ip"] == left.fields["ip"]
      && "port" in right.fields && right.fields["port"] == left.fields["port"]
  {
    var index := ["ip", "port"];
    SameEntry(Servers, index, left, right);
    assert index[0] == "ip" && index[1] == "port";
    assert Clash(Servers, left, right) <==>
      Claims(Servers, left) != {} && Claims(Servers, right) != {} && ClaimOn(Servers, index, left) == ClaimOn(Servers, index, right)
    by {
      hide ClaimOn;
      assert ClaimOn(Servers, index, left) in {ClaimOn(Servers, index, left)} * {ClaimOn(Servers, index, left)};
    }
  }

  lemma UsersClashExactly(left: Record, right: Record)
    ensures Clash(Users, left, right) <==>
      || SameIndexed(left, right, "username")
      || SameIndexed(left, right, "email")
      || ("steamId" in left.fields && "steamId" in right.fields && left.fields["steamId"] == right.fields["steamId"])
  {
    var names, emails, ids := ["username"], ["email"], ["steamId"];
    SameEntry(Users, names, left, right);
    SameEntry(Users, emails, left, right);
    SameEntry(Users, ids, left, right);
    assert names[0] == "username" && emails[0] == "email" && ids[0] == "steamId";
    assert names != emails && emails != ids && names != ids;
    var mine, theirs := Claims(Users, left), Claims(Users, right);
    hide SameIndexed;
    if ClaimOn(Users, names, left) == ClaimOn(Users, names, right) {
      assert ClaimOn(Users, names, left) in mine * theirs;
    }
    if ClaimOn(Users, emails, left) == ClaimOn(Users, emails, right) {
      assert ClaimOn(Users, emails, left) in mine * theirs;
    }
    if "steamId" in left.fields && "steamId" in right.fields && ClaimOn(Users, ids, left) == ClaimOn(Users, ids, right) {
      assert ClaimOn(Users, ids, left) in mine * theirs;
    }
    if Clash(Users, left, right) {
      var claim: Claim :| claim in mine * theirs;
      assert claim.index == names || claim.index == emails || claim.index == ids;
    }
    assert ClaimOn(Users, ids, left).values[0] == Value(left, "steamId");
    assert ClaimOn(Users, ids, right).values[0] == Value(right, "steamId");
  }

  lemma StatisticsClashExactly(left: Record, right: Record)
    ensures Clash(Statistics, left, right) <==>
      SameIndexed(left, right, "serverId") && SameIndexed(left, right, "hourStart")
  {
    var index := ["serverId", "hourStart"];
    SameEntry(Statistics, index, left, right);
    assert index[0] == "serverId" && index[1] == "hourStart";
    hide SameIndexed, ClaimOn;
    if ClaimOn(Statistics, index, left) == ClaimOn(Statistics, index, right) {
      assert ClaimOn(Statistics, index, left) in Claims(Statistics, left) * Claims(Statistics, right);
    }
  }

  /** The upsert would insert the record, and an index refuses it. */
  predicate Refused(kind: Kind, collection: seq<Record>, record: Record) {
    record.id !in Ids(collection) && exists other :: other in collection && Clash(kind, other, record)
  }

  /** How many records an ordered bulk write gets through before the first refusal. */
  function Accepted(kind: Kind, collection: seq<Record>, records: seq<Record>): (count: nat)
    ensures count <= |records|
  {
    if records == [] then 0
    else
      var front, last := records[..|records| - 1], records[|records| - 1];
      var before := Accepted(kind, collection, front);
      if before < |front| || Refused(kind, BulkInsert(collection, front), last) then before else |records|
  }

  /** A bulk write that is cut off after `limit` records at the latest. */
  function Attempt(kind: Kind, collection: seq<Record>, records: seq<Record>, limit: nat): seq<Record> {
    BulkInsert(collection, records[..Min(limit, Accepted(kind, collection, records))])
  }

  /** An upsert with `$setOnInsert`. */
  function InsertMissing(collection: seq<Record>, record: Record): seq<Record> {
    if record.id in Ids(collection) then collection else collection + [record]
  }

  function BulkInsert(collection: seq<Record>, records: seq<Record>): seq<Record> {
    if records == [] then collection
    else InsertMissing(BulkInsert(collection, records[..|records| - 1]), records[|records| - 1])
  }

  function FiniteNumber(record: Record, field: string): real {
    if field in record.fields && record.fields[field].Number? then record.fields[field].number else 0.0
  }

  function Total(records: seq<Record>, field: string): real {
    if records == [] then 0.0 else Total(records[..|records| - 1], field) + FiniteNumber(records[|records| - 1], field)
  }

  function Maximum(records: seq<Record>, field: string): real {
    if records == [] then 0.0
    else
      var before, last := Maximum(records[..|records| - 1], field), FiniteNumber(records[|records| - 1], field);
      if before < last then last else before
  }

  predicate SameCounts(actual: seq<Record>, expected: seq<Record>) {
    |actual| == |expected| && |Ids(actual)| == |Ids(expected)|
  }

  predicate SameAggregates(actual: seq<Record>, expected: seq<Record>) {
    && Total(actual, "sampleCount") == Total(expected, "sampleCount")
    && Total(actual, "onlineSampleCount") == Total(expected, "onlineSampleCount")
    && Total(actual, "playerSampleTotal") == Total(expected, "playerSampleTotal")
    && Maximum(actual, "maxPlayers") == Maximum(expected, "maxPlayers")
  }

  /** `verifyLegacyRecords`, given the ids of statistics that were there before the writes. */
  predicate Verified(host: Host, source: LegacyData, existing: set<string>) {
    var statistics := Find(host.statistics, Ids(source.statistics));
    && SameCounts(Find(host.servers, Ids(source.servers)), source.servers)
    && SameCounts(Find(host.users, Ids(source.users)), source.users)
    && SameCounts(statistics, source.statistics)
    && SameAggregates(Without(statistics, existing), Without(source.statistics, existing))
  }

  predicate ValidSource(source: LegacyData) {
    ValidIds(source.servers) && ValidIds(source.users) && ValidIds(source.statistics)
  }

  /** The three bulk writes, each cut off after so many records or by a refusal. */
  function Written(host: Host, source: LegacyData, servers: nat, users: nat, statistics: nat): Host {
    host.(servers := Attempt(Servers, host.servers, source.servers, servers),
          users := Attempt(Users, host.users, source.users, users),
          statistics := Attempt(Statistics, host.statistics, source.statistics, statistics))
  }

  function WrittenFully(host: Host, source: LegacyData): Host {
    Written(host, source, |source.servers|, |source.users|, |source.statistics|)
  }

  /** No bulk write is refused. */
  predicate GoesThrough(host: Host, source: LegacyData) {
    && Accepted(Servers, host.servers, source.servers) == |source.servers|
    && Accepted(Users, host.users, source.users) == |source.users|
    && Accepted(Statistics, host.statistics, source.statistics) == |source.statistics|
  }

  function Archived(host: Host, interruption: Interruption): Host {
    if interruption.AfterMarker? || !host.file.Present? || host.backup.Some? then host
    else host.(file := Absent, backup := Some(host.file.data))
  }

  /** One start of the service with storage enabled; a thrown error leaves what was done so far. */
  function Boot(host: Host, interruption: Interruption): Host {
    if !host.file.Present? then host
    else
      var source := host.file.data;
      if host.marker then
        if Verified(host, source, {}) then Archived(host, interruption) else host
      else if !ValidSource(source) then host
      else if interruption.DuringWrites? then
        Written(host, source, interruption.servers, interruption.users, interruption.statistics)
      else
        var existing := Ids(Find(host.statistics, Ids(source.statistics)));
        var written := WrittenFully(host, source);
        if !GoesThrough(host, source) || !Verified(written, source, existing) || interruption.BeforeMarker? then written
        else Archived(written.(marker := true), interruption)
  }

  function Boots(host: Host, schedule: seq<Interruption>): Host {
    if schedule == [] then host else Boot(Boots(host, schedule[..|schedule| - 1]), schedule[|schedule| - 1])
  }

  // Facts about one collection.

  lemma FindContents(collection: seq<Record>, ids: set<string>)
    ensures forall record :: record in Find(collection, ids) <==> record in collection && record.id in ids
    ensures UniqueIds(collection) ==> UniqueIds(Find(collection, ids))
  {
    if collection != [] {
      FindContents(collection[1..], ids);
      assert forall record :: record in collection <==> record == collection[0] || record in collection[1..];
      if UniqueIds(collection) {
        assert forall record :: record in collection[1..] ==> record.id != collection[0].id;
      }
    }
  }

  lemma {:induction false} FindAppends(left: seq<Record>, right: seq<Record>, ids: set<string>)
    ensures Find(left + right, ids) == Find(left, ids) + Find(right, ids)
  {
    if left == [] {
      assert left + right == right;
    } else {
      var both, head := left + right, if left[0].id in ids then [left[0]] else [];
      assert both[0] == left[0] && both[1..] == left[1..] + right;
      assert Find(both, ids) == head + Find(both[1..], ids);
      FindAppends(left[1..], right, ids);
    }
  }

  lemma {:induction false} WithoutAppends(left: seq<Record>, right: seq<Record>, ids: set<string>)
    ensures Without(left + right, ids) == Without(left, ids) + Without(right, ids)
  {
    if left == [] {
      assert left + right == right;
    } else {
      var both, head := left + right, if left[0].id in ids then [] else [left[0]];
      assert both[0] == left[0] && both[1..] == left[1..] + right;
      WithoutFirst(both, ids);
      WithoutFirst(left, ids);
      WithoutAppends(left[1..], right, ids);
      hide Without;
      assert head + (Without(left[1..], ids) + Without(right, ids))
        == (head + Without(left[1..], ids)) + Without(right, ids);
    }
  }

  lemma WithoutFirst(records: seq<Record>, ids: set<string>)
    requires records != []
    ensures Without(records, ids) == (if records[0].id in ids then [] else [records[0]]) + Without(records[1..], ids)
  {
  }

  lemma {:induction false} WithoutContents(records: seq<Record>, ids: set<string>)
    ensures forall record :: record in Without(records, ids) <==> record in records && record.id !in ids
  {
    if records != [] {
      WithoutContents(records[1..], ids);
      assert forall record :: record in records <==> record == records[0] || record in records[1..];
    }
  }

  lemma {:induction false} AllInside(records: seq<Record>, ids: set<string>)
    requires forall record :: record in records ==> record.id in ids
    ensures Without(records, ids) == [] && Find(records, ids) == records
  {
    if records != [] {
      assert records[0] in records;
      AllInside(records[1..], ids);
    }
  }

  lemma {:induction false} AllOutside(records: seq<Record>, ids: set<string>)
    requires forall record :: record in records ==> record.id !in ids
    ensures Without(records, ids) == records
  {
    if records != [] {
      assert records[0] in records;
      AllOutside(records[1..], ids);
    }
  }

  lemma WithoutDependsOnSharedIds(records: seq<Record>, left: set<string>, right: set<string>)
    requires forall record :: record in records ==> (record.id in left <==> record.id in right)
    ensures Without(records, left) == Without(records, right)
  {
    if records != [] {
      assert records[0] in records;
      WithoutDependsOnSharedIds(records[1..], left, right);
    }
  }

  lemma UniqueExtends(front: seq<Record>, last: Record)
    ensures UniqueIds(front + [last]) <==> UniqueIds(front) && last.id !in Ids(front)
  {
    var records := front + [last];
    if UniqueIds(front) && last.id !in Ids(front) {
      forall i, j | 0 <= i < j < |records| ensures records[i].id != records[j].id {
        assert front[i] in front;
      }
    }
    if UniqueIds(records) {
      assert forall i :: 0 <= i < |front| ==> records[i] == front[i] && records[i].id != records[|front|].id;
      assert forall i, j :: 0 <= i < j < |front| ==> records[i] == front[i] && records[j] == front[j];
    }
  }

  lemma {:induction false} IdsCount(records: seq<Record>)
    ensures |Ids(records)| <= |records|
    ensures |Ids(records)| == |records| <==> UniqueIds(records)
  {
    if records == [] {
      assert Ids(records) == {};
    } else {
      var front, last := records[..|records| - 1], records[|records| - 1];
      IdsCount(front);
      UniqueExtends(front, last);
      assert records == front + [last];
      assert Ids(records) == Ids(front) + {last.id};
    }
  }

  lemma SubsetOfSameSize(part: set<string>, whole: set<string>)
    requires part <= whole && |part| >= |whole|
    ensures part == whole
  {
    assert whole == part + (whole - part);
    assert |whole| == |part| + |whole - part|;
  }

  /** Equal counts leave no room for a missing id. */
  lemma CountsProvePresence(collection: seq<Record>, records: seq<Record>)
    requires UniqueIds(collection) && SameCounts(Find(collection, Ids(records)), records)
    ensures Ids(records) <= Ids(collection)
  {
    var found := Find(collection, Ids(records));
    FindContents(collection, Ids(records));
    IdsCount(found);
    IdsCount(records);
    SubsetOfSameSize(Ids(found), Ids(records));
  }

  lemma PresenceGivesCounts(collection: seq<Record>, records: seq<Record>)
    requires UniqueIds(collection) && UniqueIds(records) && Ids(records) <= Ids(collection)
    ensures SameCounts(Find(collection, Ids(records)), records)
  {
    var found := Find(collection, Ids(records));
    FindContents(collection, Ids(records));
    IdsCount(found);
    IdsCount(records);
    assert Ids(found) == Ids(records) by {
      forall id | id in Ids(records) ensures id in Ids(found) {
        var record :| record in collection && record.id == id;
        assert record in found;
      }
    }
  }

  /** A bulk insert appends exactly the records whose ids were missing. */
  lemma {:induction false} BulkInsertAppendsMissing(collection: seq<Record>, records: seq<Record>)
    requires UniqueIds(records)
    ensures BulkInsert(collection, records) == collection + Without(records, Ids(collection))
  {
    if records != [] {
      var front, last := records[..|records| - 1], records[|records| - 1];
      assert UniqueIds(front);
      BulkInsertAppendsMissing(collection, front);
      assert records == front + [last];
      UniqueExtends(front, last);
      WithoutAppends(front, [last], Ids(collection));
      WithoutContents(front, Ids(collection));
      assert last.id in Ids(collection + Without(front, Ids(collection))) <==> last.id in Ids(collection);
      assert Without([last], Ids(collection)) == if last.id in Ids(collection) then [] else [last];
    }
  }

  lemma {:induction false} BulkInsertIds(collection: seq<Record>, records: seq<Record>)
    ensures Ids(BulkInsert(collection, records)) == Ids(collection) + Ids(records)
    ensures UniqueIds(collection) ==> UniqueIds(BulkInsert(collection, records))
    ensures collection <= BulkInsert(collection, records)
  {
    if records != [] {
      var front, last := records[..|records| - 1], records[|records| - 1];
      BulkInsertIds(collection, front);
      var before := BulkInsert(collection, front);
      InsertedIds(before, last);
      IdsAppended(front, last);
      assert records == front + [last];
      hide InsertMissing, UniqueIds, Ids;
    }
  }

  lemma IdsAppended(front: seq<Record>, last: Record)
    ensures Ids(front + [last]) == Ids(front) + {last.id}
  {
  }

  lemma InsertedIds(before: seq<Record>, last: Record)
    ensures Ids(InsertMissing(before, last)) == Ids(before) + {last.id}
    ensures UniqueIds(before) ==> UniqueIds(InsertMissing(before, last))
    ensures before <= InsertMissing(before, last)
  {
    assert Ids(before + [last]) == Ids(before) + {last.id};
    UniqueExtends(before, last);
  }

  /** Inserting a prefix and then a longer or shorter one gives what the longer one gives. */
  lemma {:induction false} PrefixesAbsorb(collection: seq<Record>, records: seq<Record>, first: nat, second: nat)
    requires first <= |records| && second <= |records|
    ensures BulkInsert(BulkInsert(collection, records[..first]), records[..second])
      == BulkInsert(collection, records[..Max(first, second)])
    decreases second
  {
    var once := BulkInsert(collection, records[..first]);
    if second == 0 {
      assert records[..second] == [];
    } else {
      PrefixesAbsorb(collection, records, first, second - 1);
      var last := records[second - 1];
      assert records[..second][..second - 1] == records[..second - 1];
      if second <= first {
        BulkInsertIds(collection, records[..first]);
        assert last in records[..first];
      }
    }
  }

  // What the indexes accept.

  lemma {:induction false} AcceptedOfPrefix(kind: Kind, collection: seq<Record>, records: seq<Record>, count: nat)
    requires count <= |records|
    ensures Accepted(kind, collection, records[..count]) == Min(count, Accepted(kind, collection, records))
  {
    if count == |records| {
      assert records[..count] == records;
    } else {
      var front := records[..|records| - 1];
      AcceptedOfPrefix(kind, collection, front, count);
      assert front[..count] == records[..count];
    }
  }

  lemma InsertedIdsStay(collection: seq<Record>, records: seq<Record>, count: nat)
    requires count <= |records|
    ensures Ids(records[..count]) <= Ids(BulkInsert(collection, records[..count]))
  {
    BulkInsertIds(collection, records[..count]);
  }

  lemma AcceptedNext(kind: Kind, collection: seq<Record>, front: seq<Record>, last: Record)
    ensures Accepted(kind, collection, front + [last]) ==
      var before := Accepted(kind, collection, front);
      if before < |front| || Refused(kind, BulkInsert(collection, front), last) then before else |front| + 1
  {
    hide Refused, BulkInsert;
    assert (front + [last])[..|front|] == front;
  }

  /** After an interrupted write the next one is refused at the same record, or nowhere. */
  lemma {:induction false} AcceptedAgain(kind: Kind, origin: seq<Record>, records: seq<Record>, done: nat, count: nat)
    requires done <= Accepted(kind, origin, records) && count <= |records|
    ensures
      Accepted(kind, BulkInsert(origin, records[..done]), records[..count])
      == Min(count, Accepted(kind, origin, records))
    decreases count
  {
    hide Refused, BulkInsert, Ids, Accepted;
    var collection := BulkInsert(origin, records[..done]);
    if count == 0 {
      assert records[..count] == [];
    } else {
      var front, last := records[..count - 1], records[count - 1];
      assert records[..count] == front + [last];
      AcceptedAgain(kind, origin, records, done, count - 1);
      AcceptedOfPrefix(kind, origin, records, count);
      AcceptedOfPrefix(kind, origin, records, count - 1);
      AcceptedNext(kind, collection, front, last);
      AcceptedNext(kind, origin, front, last);
      PrefixesAbsorb(origin, records, done, count - 1);
      if count <= done {
        InsertedIdsStay(origin, records, done);
        IdIsThere(records, done, count - 1);
        BulkInsertIds(collection, front);
        PresentIsNotRefused(kind, BulkInsert(collection, front), last);
      }
    }
  }

  lemma IdIsThere(records: seq<Record>, done: nat, i: nat)
    requires i < done <= |records|
    ensures records[i].id in Ids(records[..done])
  {
    assert records[i] in records[..done];
  }

  lemma PresentIsNotRefused(kind: Kind, collection: seq<Record>, record: Record)
    requires record.id in Ids(collection)
    ensures !Refused(kind, collection, record)
  {
  }

  /** The record at which an ordered bulk write stops is one an index refuses. */
  lemma StopsAtRefusal(kind: Kind, origin: seq<Record>, records: seq<Record>)
    requires Accepted(kind, origin, records) < |records|
    ensures
      var accepted := Accepted(kind, origin, records);
      Refused(kind, BulkInsert(origin, records[..accepted]), records[accepted])
  {
    hide Refused;
    var accepted := Accepted(kind, origin, records);
    AcceptedOfPrefix(kind, origin, records, accepted + 1);
    AcceptedOfPrefix(kind, origin, records, accepted);
    assert records[..accepted + 1][..accepted] == records[..accepted];
  }

  /** A record that was refused is not in the collection, however far the write got. */
  lemma AllPresentWereAccepted(kind: Kind, origin: seq<Record>, records: seq<Record>, done: nat)
    requires done <= Accepted(kind, origin, records)
    requires Ids(records) <= Ids(BulkInsert(origin, records[..done]))
    ensures Accepted(kind, origin, records) == |records|
  {
    hide BulkInsert, Accepted, Clash;
    var accepted := Accepted(kind, origin, records);
    if accepted < |records| {
      assert records[accepted].id in Ids(records);
      PrefixesAbsorb(origin, records, done, accepted);
      BulkInsertIds(BulkInsert(origin, records[..done]), records[..accepted]);
      StopsAtRefusal(kind, origin, records);
    }
  }

  /** No source record that Mongo lacks clashes with an original record or with another such record. */
  ghost predicate ClashFree(kind: Kind, origin: seq<Record>, records: seq<Record>) {
    forall i | 0 <= i < |records| && records[i].id !in Ids(origin) ::
      && (forall other :: other in origin ==> !Clash(kind, other, records[i]))
      && (forall j | 0 <= j < i && records[j].id !in Ids(origin) :: !Clash(kind, records[j], records[i]))
  }

  lemma RefusedExactly(kind: Kind, origin: seq<Record>, front: seq<Record>, last: Record)
    requires UniqueIds(front) && last.id !in Ids(front)
    ensures Refused(kind, BulkInsert(origin, front), last) <==>
      && last.id !in Ids(origin)
      && ((exists other :: other in origin && Clash(kind, other, last))
          || (exists j :: 0 <= j < |front| && front[j].id !in Ids(origin) && Clash(kind, front[j], last)))
  {
    hide Clash, BulkInsert;
    BulkInsertAppendsMissing(origin, front);
    WithoutContents(front, Ids(origin));
    BulkInsertIds(origin, front);
  }

  /** The last record is in Mongo, or clashes neither with an original record nor with a missing one before it. */
  ghost predicate FreeAfter(kind: Kind, origin: seq<Record>, front: seq<Record>, last: Record) {
    last.id !in Ids(origin) ==>
      && (forall other :: other in origin ==> !Clash(kind, other, last))
      && (forall j | 0 <= j < |front| && front[j].id !in Ids(origin) :: !Clash(kind, front[j], last))
  }

  lemma ClashFreeNext(kind: Kind, origin: seq<Record>, front: seq<Record>, last: Record)
    ensures ClashFree(kind, origin, front + [last])
      <==> ClashFree(kind, origin, front) && FreeAfter(kind, origin, front, last)
  {
    hide Clash;
    var records := front + [last];
    assert records[|front|] == last && forall i :: 0 <= i < |front| ==> records[i] == front[i];
  }

  /** The indexes let a bulk write through if and only if nothing clashes. */
  lemma {:induction false} AcceptedExactlyWhenClashFree(kind: Kind, origin: seq<Record>, records: seq<Record>)
    requires UniqueIds(records)
    ensures Accepted(kind, origin, records) == |records| <==> ClashFree(kind, origin, records)
  {
    if records != [] {
      hide Clash, BulkInsert, Refused, ClashFree, UniqueIds;
      var front, last := records[..|records| - 1], records[|records| - 1];
      assert records == front + [last];
      UniqueExtends(front, last);
      AcceptedExactlyWhenClashFree(kind, origin, front);
      RefusedExactly(kind, origin, front, last);
      ClashFreeNext(kind, origin, front, last);
    }
  }
}
