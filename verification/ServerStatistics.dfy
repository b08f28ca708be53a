/**
  Hourly server statistics: the Mongo update, the in-memory update, and the
  aggregate both stand for (src/db/server-statistics-store.ts).
 */
module ServerStatistics {
  import opened Prelude

  /** A JavaScript number that may be NaN or infinite. */
  datatype Count = Finite(value: real) | NotFinite

  /** `uids` holds the values of the array, strings or not; times are in milliseconds. */
  datatype Sample = Sample(serverId: string, sampledAt: int, online: bool, playerCount: Count, uids: seq<Json>)

  /** A bucket id is the server id and the hour; the hour has a fixed width in the text, so a pair does. */
  datatype Key = Key(serverId: string, hourStart: int)

  datatype Bucket = Bucket(
    sampleCount: nat, onlineSampleCount: nat, playerSampleTotal: nat, maxPlayers: nat,
    onlinePlayerUids: seq<string>, averagePlayers: real, availability: real, updatedAt: int)

  /** What Mongo stores: no derived fields, and the uid list only once a uid was added. */
  datatype Document = Document(
    sampleCount: nat, onlineSampleCount: nat, playerSampleTotal: nat, maxPlayers: nat,
    onlinePlayerUids: Option<seq<string>>, updatedAt: int)

  const HOUR_MS := 3_600_000

  function KeyOf(sample: Sample): Key {
    Key(sample.serverId, sample.sampledAt - sample.sampledAt % HOUR_MS)
  }

  function PlayerCount(sample: Sample): nat {
    if sample.playerCount.Finite? && sample.playerCount.value > 0.0 then sample.playerCount.value.Floor else 0
  }

  /** A sample belongs to the full hour it lies in. */
  lemma HourOfSample(sample: Sample)
    ensures
      var key := KeyOf(sample);
      && key.serverId == sample.serverId
      && key.hourStart % 3_600_000 == 0 && key.hourStart <= sample.sampledAt < key.hourStart + 3_600_000
  {
  }

  /** The players of a sample in whole numbers; a count that is no number, infinite or negative is none. */
  lemma WholePlayers(sample: Sample)
    ensures sample.playerCount.Finite? && sample.playerCount.value >= 0.0 ==>
      PlayerCount(sample) as real <= sample.playerCount.value < PlayerCount(sample) as real + 1.0
    ensures !sample.playerCount.Finite? || sample.playerCount.value < 0.0 ==> PlayerCount(sample) == 0
  {
  }

  function TrimmedTexts(values: seq<Json>): seq<string> {
    if values == [] then []
    else
      var front, last := TrimmedTexts(values[..|values| - 1]), values[|values| - 1];
      if last.Text? && Trim(last.text) != "" then front + [Trim(last.text)] else front
  }

  /** The trimmed non-blank strings, each once, in order of first appearance. */
  function UniqueStrings(values: seq<Json>): seq<string> {
    Distinct(TrimmedTexts(values))
  }

  function Texts(strings: seq<string>): seq<Json> {
    seq(|strings|, i requires 0 <= i < |strings| => Text(strings[i]))
  }

  /** The array holds a string that trims to this non-blank uid. */
  predicate Reports(values: seq<Json>, uid: string) {
    uid != "" && exists i :: 0 <= i < |values| && values[i].Text? && Trim(values[i].text) == uid
  }

  function Ratio(part: nat, whole: nat): real {
    if whole > 0 then part as real / whole as real else 0.0
  }

  function Finalize(document: Document): Bucket {
    Bucket(
      document.sampleCount, document.onlineSampleCount, document.playerSampleTotal, document.maxPlayers,
      if document.onlinePlayerUids.Some? then UniqueStrings(Texts(document.onlinePlayerUids.value)) else [],
      Ratio(document.playerSampleTotal, document.sampleCount),
      Ratio(document.onlineSampleCount, document.sampleCount) * 100.0,
      document.updatedAt)
  }

  // The two implementations.

  /** `$addToSet` with `$each`. */
  function AddToSet(stored: seq<string>, added: seq<string>): seq<string> {
    if added == [] then stored
    else
      var front, last := AddToSet(stored, added[..|added| - 1]), added[|added| - 1];
      if last in front then front else front + [last]
  }

  function UpdatedDocument(stored: Option<Document>, sample: Sample): Document {
    var before := if stored.Some? then stored.value else Document(0, 0, 0, 0, None, 0);
    var uids := UniqueStrings(sample.uids);
    Document(
      before.sampleCount + 1,
      before.onlineSampleCount + if sample.online then 1 else 0,
      before.playerSampleTotal + PlayerCount(sample),
      if before.maxPlayers < PlayerCount(sample) then PlayerCount(sample) else before.maxPlayers,
      if |uids| > 0
      then Some(AddToSet(if before.onlinePlayerUids.Some? then before.onlinePlayerUids.value else [], uids))
      else before.onlinePlayerUids,
      sample.sampledAt)
  }

  function RecordInMongo(documents: map<Key, Document>, sample: Sample): map<Key, Document> {
    var key := KeyOf(sample);
    documents[key := UpdatedDocument(if key in documents then Some(documents[key]) else None, sample)]
  }

  function UpdatedBucket(existing: Option<Bucket>, sample: Sample): Bucket {
    var known := if existing.Some? then existing.value.onlinePlayerUids else [];
    var count := PlayerCount(sample);
    Finalize(Document(
      (if existing.Some? then existing.value.sampleCount else 0) + 1,
      (if existing.Some? then existing.value.onlineSampleCount else 0) + (if sample.online then 1 else 0),
      (if existing.Some? then existing.value.playerSampleTotal else 0) + count,
      if existing.Some? && existing.value.maxPlayers > count then existing.value.maxPlayers else count,
      Some(UniqueStrings(Texts(known + UniqueStrings(sample.uids)))),
      sample.sampledAt))
  }

  function RecordInMemory(buckets: map<Key, Bucket>, sample: Sample): map<Key, Bucket> {
    var key := KeyOf(sample);
    buckets[key := UpdatedBucket(if key in buckets then Some(buckets[key]) else None, sample)]
  }

  function MongoAfter(samples: seq<Sample>): map<Key, Document> {
    if samples == [] then map[] else RecordInMongo(MongoAfter(samples[..|samples| - 1]), samples[|samples| - 1])
  }

  function MemoryAfter(samples: seq<Sample>): map<Key, Bucket> {
    if samples == [] then map[] else RecordInMemory(MemoryAfter(samples[..|samples| - 1]), samples[|samples| - 1])
  }

  // The declarative aggregate of the samples of one key.

  function CountOf(samples: seq<Sample>, key: Key): nat {
    if samples == [] then 0
    else CountOf(samples[..|samples| - 1], key) + if KeyOf(samples[|samples| - 1]) == key then 1 else 0
  }

  function OnlineCountOf(samples: seq<Sample>, key: Key): nat {
    if samples == [] then 0
    else
      var last := samples[|samples| - 1];
      OnlineCountOf(samples[..|samples| - 1], key) + if KeyOf(last) == key && last.online then 1 else 0
  }

  function TotalOf(samples: seq<Sample>, key: Key): nat {
    if samples == [] then 0
    else
      var last := samples[|samples| - 1];
      TotalOf(samples[..|samples| - 1], key) + if KeyOf(last) == key then PlayerCount(last) else 0
  }

  ghost predicate IsMaximum(maximum: nat, samples: seq<Sample>, key: Key) {
    && (forall sample :: sample in samples && KeyOf(sample) == key ==> PlayerCount(sample) <= maximum)
    && (maximum == 0 || exists sample :: sample in samples && KeyOf(sample) == key && PlayerCount(sample) == maximum)
  }

  ghost predicate ReportedIn(samples: seq<Sample>, key: Key, uid: string) {
    exists sample :: sample in samples && KeyOf(sample) == key && Reports(sample.uids, uid)
  }

  /** A bucket stands for the samples of its key. */
  ghost predicate Aggregates(bucket: Bucket, samples: seq<Sample>, key: Key) {
    && bucket.sampleCount == CountOf(samples, key) > 0
    && bucket.onlineSampleCount == OnlineCountOf(samples, key)
    && bucket.playerSampleTotal == TotalOf(samples, key)
    && IsMaximum(bucket.maxPlayers, samples, key)
    && (forall uid :: uid in bucket.onlinePlayerUids <==> ReportedIn(samples, key, uid))
    && NoRepeats(bucket.onlinePlayerUids)
    && bucket.averagePlayers == Ratio(bucket.playerSampleTotal, bucket.sampleCount)
    && bucket.availability == Ratio(bucket.onlineSampleCount, bucket.sampleCount) * 100.0
  }

  // Uid lists.

  predicate IsClean(s: string) {
    s != "" && Trim(s) == s
  }

  predicate AllClean(strings: seq<string>) {
    forall s :: s in strings ==> IsClean(s)
  }

  lemma {:induction false} TrimmedTextsReport(values: seq<Json>, uid: string)
    ensures uid in TrimmedTexts(values) <==> Reports(values, uid)
  {
    hide Trim;
    if values != [] {
      TrimmedTextsReport(values[..|values| - 1], uid);
    }
  }

  lemma {:induction false} TrimmedTextsAreClean(values: seq<Json>)
    ensures AllClean(TrimmedTexts(values))
  {
    hide Trim;
    if values != [] {
      TrimmedTextsAreClean(values[..|values| - 1]);
      if values[|values| - 1].Text? {
        TrimIsIdempotent(values[|values| - 1].text);
      }
    }
  }

  lemma {:induction false} CleanTextsAreKept(strings: seq<string>)
    requires AllClean(strings)
    ensures TrimmedTexts(Texts(strings)) == strings
  {
    hide Trim;
    if strings != [] {
      var front, last := strings[..|strings| - 1], strings[|strings| - 1];
      CleanTextsAreKept(front);
      assert Texts(strings)[..|strings| - 1] == Texts(front);
      assert IsClean(last);
    }
  }

  lemma CleanUniqueIsKept(strings: seq<string>)
    requires AllClean(strings) && NoRepeats(strings)
    ensures UniqueStrings(Texts(strings)) == strings
  {
    CleanTextsAreKept(strings);
    DistinctKeeps(strings);
  }

  /** Adding a list to a set of uids is the same as listing both and removing repetitions. */
  lemma {:induction false} AddToSetIsDistinct(stored: seq<string>, added: seq<string>)
    requires NoRepeats(stored)
    ensures AddToSet(stored, added) == Distinct(stored + added)
  {
    if added == [] {
      assert stored + added == stored;
      DistinctKeeps(stored);
    } else {
      AddToSetIsDistinct(stored, added[..|added| - 1]);
      assert (stored + added)[..|stored + added| - 1] == stored + added[..|added| - 1];
    }
  }

  lemma {:induction false} AddToSetContents(stored: seq<string>, added: seq<string>, uid: string)
    ensures uid in AddToSet(stored, added) <==> uid in stored || uid in added
  {
    if added != [] {
      var front, last := added[..|added| - 1], added[|added| - 1];
      AddToSetContents(stored, front, uid);
      assert added == front + [last];
    }
  }

  // The two implementations agree.

  function StoredUids(document: Document): seq<string> {
    if document.onlinePlayerUids.Some? then document.onlinePlayerUids.value else []
  }

  ghost predicate CleanUids(document: Document) {
    AllClean(StoredUids(document)) && NoRepeats(StoredUids(document))
  }

  lemma FinalizeKeepsUids(document: Document)
    requires CleanUids(document)
    ensures Finalize(document).onlinePlayerUids == StoredUids(document)
  {
    CleanUniqueIsKept(StoredUids(document));
  }

  /** The uid list of a document after an update, and what the in-memory update computes instead. */
  lemma UidsAgree(known: seq<string>, values: seq<Json>)
    requires AllClean(known) && NoRepeats(known)
    ensures
      var uids := AddToSet(known, UniqueStrings(values));
      && AllClean(uids) && NoRepeats(uids)
      && UniqueStrings(Texts(uids)) == uids
      && UniqueStrings(Texts(known + UniqueStrings(values))) == uids
  {
    hide Trim;
    var added := UniqueStrings(values);
    TrimmedTextsAreClean(values);
    AddToSetIsDistinct(known, added);
    CleanTextsAreKept(known + added);
    CleanUniqueIsKept(AddToSet(known, added));
  }

  /** One sample: updating the document and finalizing is updating the finalized bucket. */
  lemma UpdatesAgree(stored: Option<Document>, sample: Sample)
    requires stored.Some? ==> CleanUids(stored.value)
    ensures
      var bucket := if stored.Some? then Some(Finalize(stored.value)) else None;
      CleanUids(UpdatedDocument(stored, sample))
      && Finalize(UpdatedDocument(stored, sample)) == UpdatedBucket(bucket, sample)
  {
    hide Trim, UniqueStrings, AddToSet, Texts, IsClean, Ratio, PlayerCount;
    var known := if stored.Some? then StoredUids(stored.value) else [];
    UidsAgree(known, sample.uids);
    if stored.Some? {
      FinalizeKeepsUids(stored.value);
    }
    AddNothing(known);
  }

  lemma AddNothing(known: seq<string>)
    ensures AddToSet(known, []) == known
  {
  }

  /** After every sequence of samples the finalized Mongo documents are the in-memory buckets. */
  lemma {:induction false} ImplementationsAgree(samples: seq<Sample>)
    ensures MongoAfter(samples).Keys == MemoryAfter(samples).Keys
    ensures forall key :: key in MongoAfter(samples) ==>
      CleanUids(MongoAfter(samples)[key]) && Finalize(MongoAfter(samples)[key]) == MemoryAfter(samples)[key]
  {
    hide Finalize, UpdatedDocument, UpdatedBucket, CleanUids;
    if samples != [] {
      var front, last := samples[..|samples| - 1], samples[|samples| - 1];
      ImplementationsAgree(front);
      var key := KeyOf(last);
      UpdatesAgree(if key in MongoAfter(front) then Some(MongoAfter(front)[key]) else None, last);
    }
  }

  // Both stand for the aggregate.

  lemma {:induction false} AbsentKeysHaveNoSamples(samples: seq<Sample>, key: Key)
    ensures key in MongoAfter(samples) <==> CountOf(samples, key) > 0
    ensures CountOf(samples, key) == 0 ==>
      OnlineCountOf(samples, key) == 0 && TotalOf(samples, key) == 0
      && forall sample :: sample in samples ==> KeyOf(sample) != key
  {
    if samples != [] {
      AbsentKeysHaveNoSamples(samples[..|samples| - 1], key);
    }
  }

  ghost predicate DocumentAggregates(document: Document, samples: seq<Sample>, key: Key) {
    && document.sampleCount == CountOf(samples, key)
    && document.onlineSampleCount == OnlineCountOf(samples, key)
    && document.playerSampleTotal == TotalOf(samples, key)
    && IsMaximum(document.maxPlayers, samples, key)
    && forall uid :: uid in StoredUids(document) <==> ReportedIn(samples, key, uid)
  }

  lemma OneMoreReport(front: seq<Sample>, last: Sample, uid: string)
    ensures ReportedIn(front + [last], KeyOf(last), uid) <==> ReportedIn(front, KeyOf(last), uid) || Reports(last.uids, uid)
  {
    hide Reports;
    assert last in front + [last];
  }

  lemma OneMoreMaximum(maximum: nat, front: seq<Sample>, last: Sample)
    requires IsMaximum(maximum, front, KeyOf(last))
    ensures IsMaximum(Max(maximum, PlayerCount(last)), front + [last], KeyOf(last))
  {
    hide PlayerCount;
    assert last in front + [last];
    assert forall sample :: sample in front ==> sample in front + [last];
  }

  lemma OneMoreUid(stored: Option<Document>, front: seq<Sample>, last: Sample, uid: string)
    requires
      var before := if stored.Some? then stored.value else Document(0, 0, 0, 0, None, 0);
      uid in StoredUids(before) <==> ReportedIn(front, KeyOf(last), uid)
    ensures uid in StoredUids(UpdatedDocument(stored, last)) <==> ReportedIn(front + [last], KeyOf(last), uid)
  {
    hide Trim, PlayerCount, Reports, ReportedIn, TrimmedTexts, AddToSet, KeyOf;
    var before := if stored.Some? then stored.value else Document(0, 0, 0, 0, None, 0);
    AddToSetContents(StoredUids(before), UniqueStrings(last.uids), uid);
    TrimmedTextsReport(last.uids, uid);
    OneMoreReport(front, last, uid);
  }

  lemma OneMoreSample(stored: Option<Document>, front: seq<Sample>, last: Sample)
    requires
      var before := if stored.Some? then stored.value else Document(0, 0, 0, 0, None, 0);
      DocumentAggregates(before, front, KeyOf(last))
    ensures DocumentAggregates(UpdatedDocument(stored, last), front + [last], KeyOf(last))
  {
    hide PlayerCount, ReportedIn, IsMaximum, UniqueStrings, AddToSet, StoredUids;
    var samples, key := front + [last], KeyOf(last);
    var before := if stored.Some? then stored.value else Document(0, 0, 0, 0, None, 0);
    assert samples[..|samples| - 1] == front;
    forall uid: string ensures uid in StoredUids(UpdatedDocument(stored, last)) <==> ReportedIn(samples, key, uid) {
      OneMoreUid(stored, front, last, uid);
    }
    OneMoreMaximum(before.maxPlayers, front, last);
  }

  lemma OtherSampleChangesNothing(document: Document, front: seq<Sample>, last: Sample, key: Key)
    requires DocumentAggregates(document, front, key) && KeyOf(last) != key
    ensures DocumentAggregates(document, front + [last], key)
  {
    var samples := front + [last];
    assert samples[..|samples| - 1] == front;
    forall uid ensures ReportedIn(samples, key, uid) <==> ReportedIn(front, key, uid) {}
  }

  lemma {:induction false} DocumentsAggregate(samples: seq<Sample>, key: Key)
    requires key in MongoAfter(samples)
    ensures DocumentAggregates(MongoAfter(samples)[key], samples, key)
  {
    hide UpdatedDocument, Trim, PlayerCount, Reports;
    var front, last := samples[..|samples| - 1], samples[|samples| - 1];
    assert samples == front + [last];
    if key in MongoAfter(front) {
      DocumentsAggregate(front, key);
    } else {
      AbsentKeysHaveNoSamples(front, key);
    }
    if KeyOf(last) == key {
      OneMoreSample(if key in MongoAfter(front) then Some(MongoAfter(front)[key]) else None, front, last);
    } else {
      OtherSampleChangesNothing(MongoAfter(front)[key], front, last, key);
    }
  }

  /** After any sequence of samples there is a bucket for exactly the keys sampled, and it is their aggregate. */
  lemma BucketsAggregate(samples: seq<Sample>, key: Key)
    ensures key in MemoryAfter(samples) <==> exists sample :: sample in samples && KeyOf(sample) == key
    ensures key in MemoryAfter(samples) ==> Aggregates(MemoryAfter(samples)[key], samples, key)
  {
    ImplementationsAgree(samples);
    AbsentKeysHaveNoSamples(samples, key);
    if CountOf(samples, key) > 0 {
      CountedMeansSampled(samples, key);
    }
    if key in MemoryAfter(samples) {
      DocumentsAggregate(samples, key);
      FinalizeKeepsUids(MongoAfter(samples)[key]);
    }
  }

  lemma {:induction false} CountedMeansSampled(samples: seq<Sample>, key: Key)
    requires CountOf(samples, key) > 0
    ensures exists sample :: sample in samples && KeyOf(sample) == key
  {
    var front, last := samples[..|samples| - 1], samples[|samples| - 1];
    if KeyOf(last) == key {
      assert last in samples;
    } else {
      CountedMeansSampled(front, key);
      var sample :| sample in front && KeyOf(sample) == key;
      assert sample in samples;
    }
  }

  // Consequences.

  lemma {:induction false} TotalsAreBounded(samples: seq<Sample>, key: Key, maximum: nat)
    requires forall sample :: sample in samples && KeyOf(sample) == key ==> PlayerCount(sample) <= maximum
    ensures TotalOf(samples, key) <= CountOf(samples, key) * maximum
    ensures OnlineCountOf(samples, key) <= CountOf(samples, key)
  {
    hide PlayerCount;
    if samples != [] {
      var front, last := samples[..|samples| - 1], samples[|samples| - 1];
      TotalsAreBounded(front, key, maximum);
      assert last in samples;
      if KeyOf(last) == key {
        assert CountOf(samples, key) * maximum == CountOf(front, key) * maximum + maximum;
      }
    }
  }

  lemma RatioIsBounded(part: nat, whole: nat, bound: nat)
    requires part <= whole * bound
    ensures 0.0 <= Ratio(part, whole) <= bound as real
  {
    if whole > 0 {
      assert part as real <= whole as real * bound as real;
    }
  }

  /** In every bucket the average is at most the maximum and the availability is a percentage. */
  lemma DerivedFieldsAreInRange(samples: seq<Sample>, key: Key)
    requires key in MemoryAfter(samples)
    ensures
      var bucket := MemoryAfter(samples)[key];
      0.0 <= bucket.averagePlayers <= bucket.maxPlayers as real && 0.0 <= bucket.availability <= 100.0
  {
    hide PlayerCount, Ratio;
    var bucket := MemoryAfter(samples)[key];
    BucketsAggregate(samples, key);
    TotalsAreBounded(samples, key, bucket.maxPlayers);
    RatioIsBounded(bucket.playerSampleTotal, bucket.sampleCount, bucket.maxPlayers);
    RatioIsBounded(bucket.onlineSampleCount, bucket.sampleCount, 1);
  }

  lemma RatioDivides(part: nat, whole: nat)
    requires whole > 0
    ensures Ratio(part, whole) * whole as real == part as real
    ensures Ratio(part, whole) * 100.0 * whole as real == 100.0 * part as real
  {
    var ratio := Ratio(part, whole);
    assert ratio * 100.0 * whole as real == 100.0 * (ratio * whole as real);
  }

  /** The average is the players per sample, and the availability the share of the online samples in percent. */
  lemma DerivedFieldsAreShares(samples: seq<Sample>, key: Key)
    requires key in MemoryAfter(samples)
    ensures
      var bucket := MemoryAfter(samples)[key];
      && bucket.averagePlayers * bucket.sampleCount as real == TotalOf(samples, key) as real
      && bucket.availability * bucket.sampleCount as real == 100.0 * OnlineCountOf(samples, key) as real
  {
    hide PlayerCount, Ratio, MemoryAfter, IsMaximum, ReportedIn;
    var bucket := MemoryAfter(samples)[key];
    BucketsAggregate(samples, key);
    RatioDivides(bucket.playerSampleTotal, bucket.sampleCount);
    RatioDivides(bucket.onlineSampleCount, bucket.sampleCount);
  }

  function SumOfCounts(keys: seq<Key>, samples: seq<Sample>): nat {
    if keys == [] then 0 else SumOfCounts(keys[..|keys| - 1], samples) + CountOf(samples, keys[|keys| - 1])
  }

  lemma {:induction false} OneMoreCounts(keys: seq<Key>, front: seq<Sample>, last: Sample)
    requires NoRepeats(keys)
    ensures SumOfCounts(keys, front + [last]) == SumOfCounts(keys, front) + if KeyOf(last) in keys then 1 else 0
  {
    if keys != [] {
      var others, key := keys[..|keys| - 1], keys[|keys| - 1];
      OneMoreCounts(others, front, last);
      assert keys == others + [key];
      assert key !in others;
      assert (front + [last])[..|front|] == front;
    }
  }

  lemma {:induction false} NoSamplesCountNothing(keys: seq<Key>)
    ensures SumOfCounts(keys, []) == 0
  {
    if keys != [] {
      NoSamplesCountNothing(keys[..|keys| - 1]);
    }
  }

  lemma {:induction false} CountsCoverAllSamples(keys: seq<Key>, samples: seq<Sample>)
    requires NoRepeats(keys) && forall sample :: sample in samples ==> KeyOf(sample) in keys
    ensures SumOfCounts(keys, samples) == |samples|
  {
    if samples == [] {
      NoSamplesCountNothing(keys);
    } else {
      var front, last := samples[..|samples| - 1], samples[|samples| - 1];
      CountsCoverAllSamples(keys, front);
      assert samples == front + [last] && last in samples;
      OneMoreCounts(keys, front, last);
    }
  }

  function SumOfBuckets(keys: seq<Key>, buckets: map<Key, Bucket>): nat
    requires forall key :: key in keys ==> key in buckets
  {
    if keys == [] then 0
    else
      assert keys[|keys| - 1] in keys;
      SumOfBuckets(keys[..|keys| - 1], buckets) + buckets[keys[|keys| - 1]].sampleCount
  }

  lemma {:induction false} BucketsSumLikeCounts(keys: seq<Key>, samples: seq<Sample>)
    requires forall key :: key in keys ==> key in MemoryAfter(samples)
    ensures SumOfBuckets(keys, MemoryAfter(samples)) == SumOfCounts(keys, samples)
  {
    if keys != [] {
      BucketsSumLikeCounts(keys[..|keys| - 1], samples);
      assert keys[|keys| - 1] in keys;
      BucketsAggregate(samples, keys[|keys| - 1]);
    }
  }

  /** Listing every bucket once, in any order, the sample counts add up to the number of samples. */
  lemma {:induction false} EverySampleIsCountedOnce(keys: seq<Key>, samples: seq<Sample>)
    requires NoRepeats(keys) && forall key :: key in keys <==> key in MemoryAfter(samples)
    ensures SumOfBuckets(keys, MemoryAfter(samples)) == |samples|
  {
    forall sample | sample in samples ensures KeyOf(sample) in keys {
      BucketsAggregate(samples, KeyOf(sample));
    }
    CountsCoverAllSamples(keys, samples);
    BucketsSumLikeCounts(keys, samples);
  }

  // The order of samples.

  function Removed(samples: seq<Sample>, i: nat): seq<Sample>
    requires i < |samples|
  {
    samples[..i] + samples[i + 1..]
  }

  lemma {:induction false} RemovingOne(samples: seq<Sample>, i: nat, key: Key)
    requires i < |samples|
    ensures
      var rest, mine := Removed(samples, i), KeyOf(samples[i]) == key;
      && CountOf(samples, key) == CountOf(rest, key) + (if mine then 1 else 0)
      && OnlineCountOf(samples, key) == OnlineCountOf(rest, key) + (if mine && samples[i].online then 1 else 0)
      && TotalOf(samples, key) == TotalOf(rest, key) + (if mine then PlayerCount(samples[i]) else 0)
  {
    hide PlayerCount, KeyOf;
    var front, last := samples[..|samples| - 1], samples[|samples| - 1];
    if i == |samples| - 1 {
      assert Removed(samples, i) == front;
    } else {
      var rest := Removed(samples, i);
      assert rest[..|rest| - 1] == Removed(front, i) && rest[|rest| - 1] == last && front[i] == samples[i];
      hide Removed;
      RemovingOne(front, i, key);
    }
  }

  /** The last sample of one list, found in a rearrangement of it. */
  lemma FindLast(front: seq<Sample>, last: Sample, right: seq<Sample>) returns (i: nat)
    requires multiset(front + [last]) == multiset(right)
    ensures i < |right| && right[i] == last && multiset(front) == multiset(Removed(right, i))
  {
    assert last in multiset(front + [last]);
    i :| 0 <= i < |right| && right[i] == last;
    assert right == right[..i] + [last] + right[i + 1..];
    assert multiset(Removed(right, i)) == multiset(right) - multiset{last};
    assert multiset(front) == multiset(front + [last]) - multiset{last};
  }

  lemma {:induction false} SumsIgnoreOrder(left: seq<Sample>, right: seq<Sample>, key: Key)
    requires multiset(left) == multiset(right)
    ensures CountOf(left, key) == CountOf(right, key)
    ensures OnlineCountOf(left, key) == OnlineCountOf(right, key)
    ensures TotalOf(left, key) == TotalOf(right, key)
  {
    hide PlayerCount, KeyOf;
    if left == [] {
      assert |multiset(right)| == 0;
    } else {
      var front, last := left[..|left| - 1], left[|left| - 1];
      assert left == front + [last];
      var i := FindLast(front, last, right);
      SumsIgnoreOrder(front, Removed(right, i), key);
      RemovingOne(right, i, key);
    }
  }

  ghost predicate SameUpToOrder(left: Bucket, right: Bucket) {
    && left.(onlinePlayerUids := [], updatedAt := 0) == right.(onlinePlayerUids := [], updatedAt := 0)
    && (forall uid :: uid in left.onlinePlayerUids <==> uid in right.onlinePlayerUids)
  }

  lemma AggregatesDetermine(left: Bucket, leftSamples: seq<Sample>, right: Bucket, rightSamples: seq<Sample>, key: Key)
    requires Aggregates(left, leftSamples, key) && Aggregates(right, rightSamples, key)
    requires forall sample :: sample in leftSamples <==> sample in rightSamples
    requires CountOf(leftSamples, key) == CountOf(rightSamples, key)
    requires OnlineCountOf(leftSamples, key) == OnlineCountOf(rightSamples, key)
    requires TotalOf(leftSamples, key) == TotalOf(rightSamples, key)
    requires forall uid :: ReportedIn(leftSamples, key, uid) <==> ReportedIn(rightSamples, key, uid)
    ensures SameUpToOrder(left, right)
  {
    hide PlayerCount, Ratio, Reports, ReportedIn, CountOf, OnlineCountOf, TotalOf;
  }

  /** The order of samples matters only for the update time and the order of the uids. */
  lemma OrderDoesNotMatter(left: seq<Sample>, right: seq<Sample>, key: Key)
    requires multiset(left) == multiset(right) && key in MemoryAfter(left)
    ensures key in MemoryAfter(right) && SameUpToOrder(MemoryAfter(left)[key], MemoryAfter(right)[key])
  {
    hide Aggregates, MemoryAfter, ReportedIn, SameUpToOrder, CountOf, OnlineCountOf, TotalOf;
    BucketsAggregate(left, key);
    BucketsAggregate(right, key);
    SumsIgnoreOrder(left, right, key);
    SameMembers(left, right);
    SameReports(left, right, key);
    AggregatesDetermine(MemoryAfter(left)[key], left, MemoryAfter(right)[key], right, key);
  }

  lemma SameMembers(left: seq<Sample>, right: seq<Sample>)
    requires multiset(left) == multiset(right)
    ensures forall sample :: sample in left <==> sample in right
  {
    forall sample ensures sample in left <==> sample in right {
      assert sample in left <==> sample in multiset(left);
    }
  }

  lemma SameReports(left: seq<Sample>, right: seq<Sample>, key: Key)
    requires forall sample :: sample in left <==> sample in right
    ensures forall uid :: ReportedIn(left, key, uid) <==> ReportedIn(right, key, uid)
  {
    hide Reports;
  }

  // Update times and uid lists, sample by sample.

  /** The index of the last sample of a key. */
  predicate IsLastOf(samples: seq<Sample>, key: Key, i: nat) {
    i < |samples| && KeyOf(samples[i]) == key && forall j :: i < j < |samples| ==> KeyOf(samples[j]) != key
  }

  /** A bucket carries the time of the last sample of its key. */
  lemma {:induction false} UpdatedByLastSample(samples: seq<Sample>, key: Key)
    requires key in MemoryAfter(samples)
    ensures exists i: nat :: IsLastOf(samples, key, i) && MemoryAfter(samples)[key].updatedAt == samples[i].sampledAt
  {
    hide KeyOf, PlayerCount, Ratio, UniqueStrings;
    var front, last := samples[..|samples| - 1], samples[|samples| - 1];
    if KeyOf(last) == key {
      assert IsLastOf(samples, key, |front|);
    } else {
      UpdatedByLastSample(front, key);
      var i: nat :| IsLastOf(front, key, i) && MemoryAfter(front)[key].updatedAt == front[i].sampledAt;
      assert samples[i] == front[i] && IsLastOf(samples, key, i);
    }
  }

  /** All uids that the samples of a key report, with repetitions, in their order. */
  function AllReported(samples: seq<Sample>, key: Key): seq<string> {
    if samples == [] then []
    else
      var last := samples[|samples| - 1];
      AllReported(samples[..|samples| - 1], key) + if KeyOf(last) == key then TrimmedTexts(last.uids) else []
  }

  /** A bucket lists the reported uids once each, in the order in which they were first reported. */
  lemma {:induction false} UidsInOrder(samples: seq<Sample>, key: Key)
    requires key in MongoAfter(samples)
    ensures StoredUids(MongoAfter(samples)[key]) == Distinct(AllReported(samples, key))
    ensures MongoAfter(samples)[key].onlinePlayerUids.Some? <==> AllReported(samples, key) != []
    ensures key in MemoryAfter(samples) && MemoryAfter(samples)[key].onlinePlayerUids == Distinct(AllReported(samples, key))
  {
    ImplementationsAgree(samples);
    FinalizeKeepsUids(MongoAfter(samples)[key]);
    hide KeyOf, PlayerCount, TrimmedTexts, MemoryAfter, Distinct, Finalize, AddToSet;
    var front, last := samples[..|samples| - 1], samples[|samples| - 1];
    var stored := if key in MongoAfter(front) then Some(MongoAfter(front)[key]) else None;
    if key in MongoAfter(front) {
      UidsInOrder(front, key);
    } else {
      NothingReported(front, key);
    }
    if KeyOf(last) == key {
      ReportedNext(stored, AllReported(front, key), last);
    } else {
      assert AllReported(samples, key) == AllReported(front, key);
    }
  }

  lemma {:induction false} NothingReported(samples: seq<Sample>, key: Key)
    requires key !in MongoAfter(samples)
    ensures AllReported(samples, key) == []
  {
    if samples != [] {
      NothingReported(samples[..|samples| - 1], key);
    }
  }

  lemma ReportedNext(stored: Option<Document>, reported: seq<string>, sample: Sample)
    requires if stored.Some? then
        StoredUids(stored.value) == Distinct(reported) && (stored.value.onlinePlayerUids.Some? <==> reported != [])
      else reported == []
    ensures
      var next := UpdatedDocument(stored, sample);
      && StoredUids(next) == Distinct(reported + TrimmedTexts(sample.uids))
      && (next.onlinePlayerUids.Some? <==> reported + TrimmedTexts(sample.uids) != [])
  {
    hide PlayerCount, TrimmedTexts;
    var uids := TrimmedTexts(sample.uids);
    DistinctAbsorbs(reported, uids);
    DistinctAbsorbs(Distinct(reported), uids);
    AddToSetIsDistinct(Distinct(reported), Distinct(uids));
    NonemptyHasMember(uids);
    if uids == [] {
      assert reported + uids == reported;
    }
  }
}
