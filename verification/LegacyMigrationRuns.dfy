/**
  What every schedule of interrupted starts keeps, and exactly when the next
  start completes the migration (src/db/mongodb.ts).
 */
module LegacyMigrationRuns {
  import opened Prelude
  import opened LegacyMigration

  ghost predicate UniqueCollections(host: Host) {
    UniqueIds(host.servers) && UniqueIds(host.users) && UniqueIds(host.statistics)
  }

  predicate AllPresent(host: Host, source: LegacyData) {
    && Ids(source.servers) <= Ids(host.servers)
    && Ids(source.users) <= Ids(host.users)
    && Ids(source.statistics) <= Ids(host.statistics)
  }

  /** The origin's collections with the source's missing records appended. */
  function Overlay(origin: Host, source: LegacyData): Host {
    origin.(servers := BulkInsert(origin.servers, source.servers),
            users := BulkInsert(origin.users, source.users),
            statistics := BulkInsert(origin.statistics, source.statistics))
  }

  /** No source record that Mongo lacks clashes on a unique index. */
  ghost predicate NoClash(origin: Host, source: LegacyData) {
    && ClashFree(Servers, origin.servers, source.servers)
    && ClashFree(Users, origin.users, source.users)
    && ClashFree(Statistics, origin.statistics, source.statistics)
  }

  predicate SameCollections(left: Host, right: Host) {
    left.servers == right.servers && left.users == right.users && left.statistics == right.statistics
  }

  ghost predicate PartlyWritten(kind: Kind, collection: seq<Record>, origin: seq<Record>, records: seq<Record>) {
    exists done :: 0 <= done <= Accepted(kind, origin, records) && collection == BulkInsert(origin, records[..done])
  }

  /** What holds of every host that starts with this origin can reach. */
  ghost predicate Reachable(host: Host, origin: Host, source: LegacyData) {
    && PartlyWritten(Servers, host.servers, origin.servers, source.servers)
    && PartlyWritten(Users, host.users, origin.users, source.users)
    && PartlyWritten(Statistics, host.statistics, origin.statistics, source.statistics)
    && (if host.file.Present? then host.file.data == source && host.backup == origin.backup
        else host.file.Absent? && host.backup == Some(source)
             && AllPresent(host, source) && SameCollections(host, Overlay(origin, source)))
    && (host.marker && !origin.marker ==> ValidSource(source) && SameCollections(host, Overlay(origin, source)))
    && (host.file.Absent? && !origin.marker ==> ValidSource(source))
  }

  lemma InsertPresentChangesNothing(collection: seq<Record>, records: seq<Record>)
    requires Ids(records) <= Ids(collection)
    ensures BulkInsert(collection, records) == collection
  {
    if records != [] {
      var front, last := records[..|records| - 1], records[|records| - 1];
      assert Ids(records) == Ids(front) + {last.id};
      InsertPresentChangesNothing(collection, front);
    }
  }

  lemma {:induction false} WritesStayPartial(
      kind: Kind, collection: seq<Record>, origin: seq<Record>, records: seq<Record>, limit: nat)
    requires PartlyWritten(kind, collection, origin, records)
    ensures Accepted(kind, collection, records) == Accepted(kind, origin, records)
    ensures PartlyWritten(kind, Attempt(kind, collection, records, limit), origin, records)
    ensures BulkInsert(collection, records) == BulkInsert(origin, records)
  {
    hide BulkInsert, Accepted;
    var done :| 0 <= done <= Accepted(kind, origin, records) && collection == BulkInsert(origin, records[..done]);
    assert records[..|records|] == records;
    AcceptedAgain(kind, origin, records, done, |records|);
    PrefixesAbsorb(origin, records, done, Min(limit, Accepted(kind, origin, records)));
    PrefixesAbsorb(origin, records, done, |records|);
  }

  lemma {:induction false} PartlyWrittenFacts(
      kind: Kind, collection: seq<Record>, origin: seq<Record>, records: seq<Record>)
    requires PartlyWritten(kind, collection, origin, records)
    ensures origin <= collection
    ensures UniqueIds(origin) ==> UniqueIds(collection)
    ensures Ids(records) <= Ids(collection) ==>
      collection == BulkInsert(origin, records) && Accepted(kind, origin, records) == |records|
  {
    hide BulkInsert, Accepted;
    var done :| 0 <= done <= Accepted(kind, origin, records) && collection == BulkInsert(origin, records[..done]);
    BulkInsertIds(origin, records[..done]);
    WritesStayPartial(kind, collection, origin, records, 0);
    if Ids(records) <= Ids(collection) {
      InsertPresentChangesNothing(collection, records);
      AllPresentWereAccepted(kind, origin, records, done);
    }
  }

  lemma VerifiedMeansPresent(host: Host, source: LegacyData, existing: set<string>)
    requires UniqueCollections(host) && Verified(host, source, existing)
    ensures AllPresent(host, source)
  {
    CountsProvePresence(host.servers, source.servers);
    CountsProvePresence(host.users, source.users);
    CountsProvePresence(host.statistics, source.statistics);
  }

  lemma {:induction false} ReachableFacts(host: Host, origin: Host, source: LegacyData)
    requires UniqueCollections(origin) && Reachable(host, origin, source)
    ensures UniqueCollections(host)
    ensures origin.servers <= host.servers && origin.users <= host.users && origin.statistics <= host.statistics
    ensures AllPresent(host, source) ==> SameCollections(host, Overlay(origin, source)) && GoesThrough(origin, source)
    ensures SameCollections(Overlay(host, source), Overlay(origin, source))
    ensures GoesThrough(host, source) <==> GoesThrough(origin, source)
  {
    hide PartlyWritten, BulkInsert, Accepted;
    PartlyWrittenFacts(Servers, host.servers, origin.servers, source.servers);
    PartlyWrittenFacts(Users, host.users, origin.users, source.users);
    PartlyWrittenFacts(Statistics, host.statistics, origin.statistics, source.statistics);
    WritesStayPartial(Servers, host.servers, origin.servers, source.servers, 0);
    WritesStayPartial(Users, host.users, origin.users, source.users, 0);
    WritesStayPartial(Statistics, host.statistics, origin.statistics, source.statistics, 0);
  }

  lemma {:induction false} WrittenStaysReachable(
      host: Host, origin: Host, source: LegacyData, servers: nat, users: nat, statistics: nat)
    requires Reachable(host, origin, source) && host.file.Present? && !host.marker
    ensures Reachable(Written(host, source, servers, users, statistics), origin, source)
  {
    hide PartlyWritten, BulkInsert, Accepted, Attempt;
    WritesStayPartial(Servers, host.servers, origin.servers, source.servers, servers);
    WritesStayPartial(Users, host.users, origin.users, source.users, users);
    WritesStayPartial(Statistics, host.statistics, origin.statistics, source.statistics, statistics);
  }

  lemma FullWriteIsOverlay(host: Host, source: LegacyData)
    requires GoesThrough(host, source)
    ensures WrittenFully(host, source) == Overlay(host, source)
  {
    assert source.servers[..|source.servers|] == source.servers;
    assert source.users[..|source.users|] == source.users;
    assert source.statistics[..|source.statistics|] == source.statistics;
  }

  /** The three bulk writes go through if and only if no missing source record clashes. */
  lemma {:induction false} GoesThroughExactly(host: Host, source: LegacyData)
    requires ValidSource(source)
    ensures GoesThrough(host, source) <==> NoClash(host, source)
  {
    hide ClashFree, Accepted;
    IdsCount(source.servers);
    IdsCount(source.users);
    IdsCount(source.statistics);
    AcceptedExactlyWhenClashFree(Servers, host.servers, source.servers);
    AcceptedExactlyWhenClashFree(Users, host.users, source.users);
    AcceptedExactlyWhenClashFree(Statistics, host.statistics, source.statistics);
  }

  /** Statistics written by this very start always pass the aggregate check. */
  lemma {:induction false} OwnWritesVerify(collection: seq<Record>, records: seq<Record>)
    requires UniqueIds(collection) && UniqueIds(records)
    ensures
      var ids := Ids(records);
      var existing, found := Ids(Find(collection, ids)), Find(BulkInsert(collection, records), ids);
      SameCounts(found, records) && Without(found, existing) == Without(records, existing)
  {
    var ids := Ids(records);
    var existing := Ids(Find(collection, ids));
    var added := Without(records, Ids(collection));
    BulkInsertIds(collection, records);
    PresenceGivesCounts(BulkInsert(collection, records), records);
    BulkInsertAppendsMissing(collection, records);
    FindAppends(collection, added, ids);
    WithoutContents(records, Ids(collection));
    AllInside(added, ids);
    FindContents(collection, ids);
    WithoutAppends(Find(collection, ids), added, existing);
    AllInside(Find(collection, ids), existing);
    AllOutside(added, existing);
    assert forall record :: record in records ==> (record.id in existing <==> record.id in Ids(collection)) by {
      forall record | record in records && record.id in Ids(collection) ensures record.id in existing {
        var twin :| twin in collection && twin.id == record.id;
        assert twin in Find(collection, ids);
      }
    }
    WithoutDependsOnSharedIds(records, existing, Ids(collection));
  }

  lemma {:induction false} FreshWriteVerifies(host: Host, source: LegacyData)
    requires UniqueCollections(host) && ValidSource(source)
    ensures Verified(Overlay(host, source), source, Ids(Find(host.statistics, Ids(source.statistics))))
  {
    IdsCount(source.servers);
    IdsCount(source.users);
    IdsCount(source.statistics);
    OwnWritesVerify(host.servers, source.servers);
    OwnWritesVerify(host.users, source.users);
    OwnWritesVerify(host.statistics, source.statistics);
  }

  /**
    A first start with valid ids writes everything, passes its verification and archives the source,
    unless a unique index refuses a record; then it throws with what had been written.
   */
  lemma {:induction false} FreshStart(host: Host, source: LegacyData, interruption: Interruption)
    requires UniqueCollections(host) && ValidSource(source)
    requires host.file == Present(source) && !host.marker && !interruption.DuringWrites?
    ensures Boot(host, interruption)
      == if !NoClash(host, source) then WrittenFully(host, source)
         else if interruption.BeforeMarker? then Overlay(host, source)
         else Archived(Overlay(host, source).(marker := true), interruption)
  {
    hide NoClash, GoesThrough, Verified, Overlay, Written;
    GoesThroughExactly(host, source);
    if GoesThrough(host, source) {
      FullWriteIsOverlay(host, source);
      FreshWriteVerifies(host, source);
    }
  }

  lemma {:induction false} FullWriteIsReachable(host: Host, origin: Host, source: LegacyData)
    requires UniqueCollections(origin) && Reachable(host, origin, source) && host.file.Present? && !host.marker
    requires GoesThrough(host, source)
    ensures Reachable(Overlay(host, source), origin, source) && AllPresent(Overlay(host, source), source)
    ensures SameCollections(Overlay(host, source), Overlay(origin, source))
  {
    hide PartlyWritten, BulkInsert, Accepted, Attempt;
    WrittenStaysReachable(host, origin, source, |source.servers|, |source.users|, |source.statistics|);
    FullWriteIsOverlay(host, source);
    ReachableFacts(host, origin, source);
    BulkInsertIds(host.servers, source.servers);
    BulkInsertIds(host.users, source.users);
    BulkInsertIds(host.statistics, source.statistics);
  }

  lemma {:induction false} BootStaysReachable(host: Host, origin: Host, source: LegacyData, interruption: Interruption)
    requires UniqueCollections(origin) && Reachable(host, origin, source)
    ensures Reachable(Boot(host, interruption), origin, source)
  {
    hide Verified, ValidSource, BulkInsert, PartlyWritten, NoClash, Attempt;
    if host.file.Present? {
      ReachableFacts(host, origin, source);
      if host.marker {
        if Verified(host, source, {}) {
          VerifiedMeansPresent(host, source, {});
        }
      } else if ValidSource(source) {
        if interruption.DuringWrites? {
          WrittenStaysReachable(
            host, origin, source, interruption.servers, interruption.users, interruption.statistics);
        } else {
          WrittenStaysReachable(host, origin, source, |source.servers|, |source.users|, |source.statistics|);
          FreshStart(host, source, interruption);
          GoesThroughExactly(host, source);
          if NoClash(host, source) {
            FullWriteIsReachable(host, origin, source);
          }
        }
      }
    }
  }

  lemma {:induction false} BootsStayReachable(host: Host, origin: Host, source: LegacyData, schedule: seq<Interruption>)
    requires UniqueCollections(origin) && Reachable(host, origin, source)
    ensures Reachable(Boots(host, schedule), origin, source)
  {
    if schedule != [] {
      BootsStayReachable(host, origin, source, schedule[..|schedule| - 1]);
      BootStaysReachable(
        Boots(host, schedule[..|schedule| - 1]), origin, source, schedule[|schedule| - 1]);
    }
  }

  lemma OriginIsReachable(origin: Host, source: LegacyData)
    requires origin.file == Present(source)
    ensures Reachable(origin, origin, source)
  {
    assert source.servers[..0] == [] && source.users[..0] == [] && source.statistics[..0] == [];
    assert BulkInsert(origin.servers, source.servers[..0]) == origin.servers;
    assert BulkInsert(origin.users, source.users[..0]) == origin.users;
    assert BulkInsert(origin.statistics, source.statistics[..0]) == origin.statistics;
  }

  /**
    Safety for every schedule of interruptions: no source record is ever lost, no record
    Mongo had before is changed, and the source is only archived when the collections are
    the overlay of the source by the original Mongo records.
   */
  lemma {:induction false} NothingIsLost(origin: Host, source: LegacyData, schedule: seq<Interruption>)
    requires UniqueCollections(origin) && origin.file == Present(source)
    ensures
      var end := Boots(origin, schedule);
      && (end.file == Present(source) || AllPresent(end, source))
      && origin.servers <= end.servers && origin.users <= end.users && origin.statistics <= end.statistics
      && UniqueCollections(end)
      && (end.file != Present(source) ==>
            end.file == Absent && end.backup == Some(source) && SameCollections(end, Overlay(origin, source)))
      && (origin.backup.Some? ==> end.backup == origin.backup && end.file == Present(source))
  {
    OriginIsReachable(origin, source);
    BootsStayReachable(origin, origin, source, schedule);
    ReachableFacts(Boots(origin, schedule), origin, source);
    if origin.backup.Some? {
      ExistingBackupStays(origin, schedule);
    }
  }

  lemma {:induction false} ExistingBackupStays(origin: Host, schedule: seq<Interruption>)
    requires origin.backup.Some?
    ensures Boots(origin, schedule).backup == origin.backup && Boots(origin, schedule).file == origin.file
  {
    hide Verified, ValidSource, BulkInsert, Attempt;
    if schedule != [] {
      ExistingBackupStays(origin, schedule[..|schedule| - 1]);
    }
  }

  /** What the overlay contains: the original records, and source records whose id Mongo did not have. */
  lemma OverlayContents(collection: seq<Record>, records: seq<Record>, record: Record)
    requires UniqueIds(records)
    ensures record in BulkInsert(collection, records)
      <==> record in collection || (record in records && record.id !in Ids(collection))
  {
    BulkInsertAppendsMissing(collection, records);
    WithoutContents(records, Ids(collection));
  }

  /** The buckets Mongo ends up with for the source's ids add up like the source's own buckets. */
  predicate AggregatesAgree(origin: Host, source: LegacyData) {
    SameAggregates(
      Find(Overlay(origin, source).statistics, Ids(source.statistics)), source.statistics)
  }

  lemma {:induction false} MarkedHostVerifiesExactly(host: Host, origin: Host, source: LegacyData)
    requires UniqueCollections(origin) && Reachable(host, origin, source)
    requires host.marker && !origin.marker
    ensures Verified(host, source, {}) <==> AggregatesAgree(origin, source)
  {
    ReachableFacts(host, origin, source);
    IdsCount(source.servers);
    IdsCount(source.users);
    IdsCount(source.statistics);
    BulkInsertIds(origin.servers, source.servers);
    BulkInsertIds(origin.users, source.users);
    BulkInsertIds(origin.statistics, source.statistics);
    PresenceGivesCounts(host.servers, source.servers);
    PresenceGivesCounts(host.users, source.users);
    PresenceGivesCounts(host.statistics, source.statistics);
    AllOutside(Find(host.statistics, Ids(source.statistics)), {});
    AllOutside(source.statistics, {});
  }

  /** Where the overlay is reached, nothing can have clashed. */
  lemma {:induction false} OverlayReachedMeansNoClash(host: Host, origin: Host, source: LegacyData)
    requires UniqueCollections(origin) && Reachable(host, origin, source)
    requires ValidSource(source) && SameCollections(host, Overlay(origin, source))
    ensures NoClash(origin, source)
  {
    hide NoClash, GoesThrough, PartlyWritten, BulkInsert;
    BulkInsertIds(origin.servers, source.servers);
    BulkInsertIds(origin.users, source.users);
    BulkInsertIds(origin.statistics, source.statistics);
    ReachableFacts(host, origin, source);
    GoesThroughExactly(origin, source);
  }

  lemma {:induction false} UnmarkedStartCompletesExactly(host: Host, origin: Host, source: LegacyData)
    requires UniqueCollections(origin) && Reachable(host, origin, source)
    requires host.file.Present? && !host.marker && host.backup.None?
    ensures Boot(host, Never).file.Absent? <==> ValidSource(source) && NoClash(origin, source)
  {
    hide NoClash, GoesThrough, PartlyWritten, BulkInsert, ValidSource, Verified;
    ReachableFacts(host, origin, source);
    if ValidSource(source) {
      FreshStart(host, source, Never);
      GoesThroughExactly(host, source);
      GoesThroughExactly(origin, source);
    }
  }

  /**
    Exactly when an uninterrupted start completes, whatever interruptions came before: for a source
    with valid ids none of whose missing records clashes on a unique index, while no marker is set;
    after the marker only when the buckets that were in Mongo already aggregate like the source's.
   */
  lemma {:induction false} NextStartCompletesExactly(origin: Host, source: LegacyData, schedule: seq<Interruption>)
    requires UniqueCollections(origin) && origin.file == Present(source)
    requires !origin.marker && origin.backup.None?
    ensures
      var end := Boots(origin, schedule);
      Boot(end, Never).file.Absent? <==>
        || end.file.Absent?
        || (ValidSource(source) && NoClash(origin, source) && (end.marker ==> AggregatesAgree(origin, source)))
  {
    hide NoClash, PartlyWritten, BulkInsert, ValidSource, Verified, AggregatesAgree;
    var end := Boots(origin, schedule);
    OriginIsReachable(origin, source);
    BootsStayReachable(origin, origin, source, schedule);
    if end.file.Present? {
      if end.marker {
        MarkedHostVerifiesExactly(end, origin, source);
        OverlayReachedMeansNoClash(end, origin, source);
      } else {
        UnmarkedStartCompletesExactly(end, origin, source);
      }
    }
  }

  /** A source with a clashing record never completes, under no schedule: every start throws. */
  lemma {:induction false} ClashIsPermanent(origin: Host, source: LegacyData, schedule: seq<Interruption>)
    requires UniqueCollections(origin) && origin.file == Present(source)
    requires !origin.marker && origin.backup.None?
    requires ValidSource(source) && !NoClash(origin, source)
    ensures Boots(origin, schedule).file == Present(source) && !Boots(origin, schedule).marker
    ensures Boot(Boots(origin, schedule), Never).file == Present(source)
  {
    hide NoClash, PartlyWritten, BulkInsert, ValidSource, Verified;
    var end := Boots(origin, schedule);
    OriginIsReachable(origin, source);
    BootsStayReachable(origin, origin, source, schedule);
    if end.marker || !end.file.Present? {
      OverlayReachedMeansNoClash(end, origin, source);
    }
    UnmarkedStartCompletesExactly(end, origin, source);
    BootStaysReachable(end, origin, source, Never);
  }

  function UserNamed(id: string, username: string): Record {
    Record(id, map["username" := Text(username), "email" := Text(id)])
  }

  lemma OneUserIds(id: string, username: string)
    requires id == "1" || id == "2"
    ensures UniqueIds([UserNamed(id, username)]) && Ids([UserNamed(id, username)]) == {id}
    ensures ValidIds([UserNamed(id, username)])
  {
    var records := [UserNamed(id, username)];
    assert !IsSpace(id[0]);
    assert records[0] in records;
    IdsCount(records);
  }

  lemma SameNameIsClash(taken: Record, wanted: Record, username: string)
    requires taken == UserNamed("1", username) && wanted == UserNamed("2", username)
    ensures Clash(Users, taken, wanted)
  {
    var claim := ClaimOn(Users, ["username"], taken);
    assert claim == ClaimOn(Users, ["username"], wanted);
    assert claim in Claims(Users, taken) * Claims(Users, wanted);
  }

  lemma SameNameClashes(taken: Record, wanted: Record, username: string)
    requires taken == UserNamed("1", username) && wanted == UserNamed("2", username)
    ensures !ClashFree(Users, [taken], [wanted])
  {
    SameNameIsClash(taken, wanted, username);
    OneUserIds("1", username);
    hide Clash;
    var origin, records := [taken], [wanted];
    assert origin[0] in origin && Clash(Users, origin[0], records[0]);
    assert records[0].id !in Ids(origin);
  }

  /** Such a host: Mongo has a user of the same name under another id. */
  lemma {:induction false} SameNameBlocks(username: string, schedule: seq<Interruption>)
    ensures
      var source := LegacyData([], [UserNamed("2", username)], []);
      var origin := Host(Present(source), None, false, [], [UserNamed("1", username)], []);
      Boots(origin, schedule).file == Present(source)
  {
    hide ClashFree, UserNamed;
    var taken, wanted := UserNamed("1", username), UserNamed("2", username);
    var source := LegacyData([], [wanted], []);
    var origin := Host(Present(source), None, false, [], [taken], []);
    OneUserIds("1", username);
    OneUserIds("2", username);
    assert ValidIds([]);
    SameNameClashes(taken, wanted, username);
    hide ValidIds, UniqueIds;
    ClashIsPermanent(origin, source, schedule);
  }

  /** A marked host whose aggregates disagree never completes: every further start throws. */
  lemma {:induction false} DisagreementIsPermanent(
      host: Host, origin: Host, source: LegacyData, schedule: seq<Interruption>)
    requires UniqueCollections(origin) && Reachable(host, origin, source)
    requires host.file.Present? && host.marker && !origin.marker && !AggregatesAgree(origin, source)
    ensures Boots(host, schedule) == host
  {
    if schedule != [] {
      DisagreementIsPermanent(host, origin, source, schedule[..|schedule| - 1]);
      MarkedHostVerifiesExactly(host, origin, source);
    }
  }

  function Bucket(samples: real): Record {
    Record("s", map["sampleCount" := Number(samples)])
  }

  lemma OneBucketTotals(samples: real)
    ensures Total([Bucket(samples)], "sampleCount") == samples
    ensures Find([Bucket(samples)], {"s"}) == [Bucket(samples)]
  {
    var records := [Bucket(samples)];
    assert records[..0] == [] && records[1..] == [];
    assert Total(records, "sampleCount") == Total(records[..0], "sampleCount") + FiniteNumber(records[0], "sampleCount");
  }

  lemma OneBucketIds(samples: real)
    ensures UniqueIds([Bucket(samples)]) && Ids([Bucket(samples)]) == {"s"} && ValidIds([Bucket(samples)])
  {
    var records := [Bucket(samples)];
    assert !IsSpace(records[0].id[0]);
    IdsCount(records);
    assert records[0] in records;
  }

  lemma BucketsDisagree(source: LegacyData, origin: Host)
    requires source == LegacyData([], [], [Bucket(1.0)])
    requires origin == Host(Present(source), None, false, [], [], [Bucket(2.0)])
    ensures UniqueCollections(origin) && ValidSource(source) && NoClash(origin, source)
    ensures !AggregatesAgree(origin, source)
  {
    hide IsSpace, Without, Maximum, FiniteNumber;
    OneBucketIds(1.0);
    OneBucketIds(2.0);
    OneBucketTotals(1.0);
    OneBucketTotals(2.0);
    assert ValidIds([]);
    InsertPresentChangesNothing(origin.statistics, source.statistics);
  }

  /** A host that gets stuck: one bucket that Mongo counted further, and a stop right after the marker. */
  lemma {:induction false} StuckAfterMarker(schedule: seq<Interruption>)
    ensures
      var source := LegacyData([], [], [Bucket(1.0)]);
      var origin := Host(Present(source), None, false, [], [], [Bucket(2.0)]);
      && Boot(origin, Never).file.Absent?
      && Boots(Boot(origin, AfterMarker), schedule).file == Present(source)
  {
    hide ValidSource, AggregatesAgree, Verified, BulkInsert, UniqueIds, Reachable, Bucket, NoClash;
    var source := LegacyData([], [], [Bucket(1.0)]);
    var origin := Host(Present(source), None, false, [], [], [Bucket(2.0)]);
    BucketsDisagree(source, origin);
    OriginIsReachable(origin, source);
    FreshStart(origin, source, Never);
    FreshStart(origin, source, AfterMarker);
    BootStaysReachable(origin, origin, source, AfterMarker);
    DisagreementIsPermanent(Boot(origin, AfterMarker), origin, source, schedule);
  }

  lemma OneMoreUpsert(kind: Kind, origin: seq<Record>, missing: seq<Record>, i: nat)
    requires i < |missing| && Accepted(kind, origin, missing[..i]) == i
    ensures
      var before := BulkInsert(origin, missing[..i]);
      && BulkInsert(origin, missing[..i + 1]) == InsertMissing(before, missing[i])
      && (if Refused(kind, before, missing[i]) then Accepted(kind, origin, missing) == i
          else Accepted(kind, origin, missing[..i + 1]) == i + 1)
  {
    hide Refused;
    assert missing[..i + 1][..i] == missing[..i];
    AcceptedOfPrefix(kind, origin, missing, i + 1);
    AcceptedOfPrefix(kind, origin, missing, i);
  }

  lemma NothingWritten(kind: Kind, records: seq<Record>)
    ensures Accepted(kind, records, []) == 0 && BulkInsert(records, []) == records
  {
  }

  function Everything(source: LegacyData): Interruption {
    DuringWrites(|source.servers|, |source.users|, |source.statistics|)
  }

  class Collection {
    var records: seq<Record>

    constructor (records: seq<Record>)
      ensures this.records == records
    {
      this.records := records;
    }

    /** Upserts one by one until a stop after `limit` records or a refusal, which leaves the rest unwritten. */
    method BulkInsertMissing(kind: Kind, missing: seq<Record>, limit: nat) returns (refused: bool)
      modifies this
      ensures records == Attempt(kind, old(records), missing, limit)
      ensures refused <==> Accepted(kind, old(records), missing) < Min(limit, |missing|)
    {
      hide Accepted, BulkInsert, Refused;
      var i := 0;
      assert missing[..0] == [] && Accepted(kind, records, []) == 0 && BulkInsert(records, []) == records by {
        NothingWritten(kind, records);
      }
      while i < |missing| && i < limit
        invariant i <= |missing| && i <= limit
        invariant Accepted(kind, old(records), missing[..i]) == i
        invariant records == BulkInsert(old(records), missing[..i])
      {
        OneMoreUpsert(kind, old(records), missing, i);
        if Refused(kind, records, missing[i]) {
          return true;
        }
        if missing[i].id !in Ids(records) {
          records := records + [missing[i]];
        }
        i := i + 1;
      }
      AcceptedOfPrefix(kind, old(records), missing, i);
      return false;
    }
  }

  class Migrator {
    var file: SourceFile
    var backup: Option<LegacyData>
    var marker: bool
    const servers: Collection
    const users: Collection
    const statistics: Collection

    constructor (file: SourceFile, backup: Option<LegacyData>, marker: bool,
                 servers: Collection, users: Collection, statistics: Collection)
      requires servers != users && users != statistics && servers != statistics
      ensures Valid()
      ensures State() == Host(file, backup, marker, servers.records, users.records, statistics.records)
    {
      this.file, this.backup, this.marker := file, backup, marker;
      this.servers, this.users, this.statistics := servers, users, statistics;
    }

    ghost predicate Valid() {
      servers != users && users != statistics && servers != statistics
    }

    function State(): Host
      reads this, servers, users, statistics
    {
      Host(file, backup, marker, servers.records, users.records, statistics.records)
    }

    method BackupLegacyJson()
      modifies this`file, this`backup
      ensures State() == Archived(old(State()), Never)
    {
      if file.Present? && backup.None? {
        file, backup := Absent, Some(file.data);
      }
    }

    /** The three bulk writes, cut off after so many records each or by a refusal. */
    method WriteLegacyRecords(source: LegacyData, limits: Interruption) returns (refused: bool)
      requires Valid() && limits.DuringWrites?
      modifies servers, users, statistics
      ensures State() == Written(old(State()), source, limits.servers, limits.users, limits.statistics)
      ensures limits == Everything(source) ==> (refused <==> !GoesThrough(old(State()), source))
    {
      hide Attempt, Accepted;
      var noServer := servers.BulkInsertMissing(Servers, source.servers, limits.servers);
      var noUser := users.BulkInsertMissing(Users, source.users, limits.users);
      var noBucket := statistics.BulkInsertMissing(Statistics, source.statistics, limits.statistics);
      refused := noServer || noUser || noBucket;
    }

    method MigrateLegacyJson(interruption: Interruption)
      requires Valid()
      modifies this`file, this`backup, this`marker, servers, users, statistics
      ensures State() == Boot(old(State()), interruption)
    {
      hide Written, GoesThrough, Verified, ValidSource;
      if !file.Present? { return; }
      var source := file.data;
      if marker {
        if !Verified(State(), source, {}) { return; }
      } else {
        var existing := Ids(Find(statistics.records, Ids(source.statistics)));
        if !ValidSource(source) { return; }
        var refused := WriteLegacyRecords(
          source, if interruption.DuringWrites? then interruption else Everything(source));
        if interruption.DuringWrites? || refused { return; }
        if !Verified(State(), source, existing) || interruption.BeforeMarker? { return; }
        marker := true;
      }
      if interruption.AfterMarker? { return; }
      BackupLegacyJson();
    }
  }
}
