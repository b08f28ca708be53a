/**
  The in-memory bucket list, updated in place, and the range listing over it
  (src/db/server-statistics-store.ts).
 */
module StatisticsStore {
  import opened Prelude
  import opened ServerStatistics

  class BucketObject {
    const key: Key
    var value: Bucket

    constructor (key: Key, value: Bucket)
      ensures this.key == key && this.value == value
    {
      this.key, this.value := key, value;
    }
  }

  class JsonBuckets {
    var buckets: seq<BucketObject>
    ghost var contents: map<Key, Bucket>

    constructor ()
      ensures Valid() && contents == MemoryAfter([]) && fresh(buckets)
    {
      buckets, contents := [], map[];
    }

    /** Each key has one bucket object, and the contents are what the objects hold. */
    ghost predicate Valid()
      reads this, buckets
    {
      && (forall i, j :: 0 <= i < j < |buckets| ==> buckets[i].key != buckets[j].key)
      && (forall i :: 0 <= i < |buckets| ==>
            buckets[i].key in contents && contents[buckets[i].key] == buckets[i].value)
      && forall key :: key in contents ==> exists i :: 0 <= i < |buckets| && buckets[i].key == key
    }

    method FindBucket(key: Key) returns (index: nat)
      ensures index <= |buckets|
      ensures index < |buckets| ==> buckets[index].key == key
      ensures index == |buckets| ==> forall i :: 0 <= i < |buckets| ==> buckets[i].key != key
    {
      index := 0;
      while index < |buckets| && buckets[index].key != key
        invariant index <= |buckets|
        invariant forall j :: 0 <= j < index ==> buckets[j].key != key
      {
        index := index + 1;
      }
    }

    method Append(key: Key, value: Bucket)
      requires Valid() && forall i :: 0 <= i < |buckets| ==> buckets[i].key != key
      modifies this
      ensures Valid() && contents == old(contents)[key := value]
      ensures |buckets| == |old(buckets)| + 1 && old(buckets) <= buckets && fresh(buckets[|buckets| - 1])
    {
      var created := new BucketObject(key, value);
      buckets := buckets + [created];
      contents := contents[key := value];
      assert buckets[|buckets| - 1].key == key;
      forall k | k in contents && k != key ensures exists i :: 0 <= i < |buckets| && buckets[i].key == k {
        var i :| 0 <= i < |old(buckets)| && old(buckets)[i].key == k;
        assert buckets[i].key == k;
      }
    }

    method Update(index: nat, value: Bucket)
      requires Valid() && index < |buckets|
      modifies buckets[index], this`contents
      ensures Valid() && contents == old(contents)[buckets[index].key := value]
      ensures buckets[index].value == value
    {
      buckets[index].value := value;
      contents := contents[buckets[index].key := value];
    }

    method RecordSample(sample: Sample) returns (next: Bucket)
      requires Valid()
      modifies this, buckets
      ensures Valid() && old(buckets) <= buckets
      ensures forall i :: |old(buckets)| <= i < |buckets| ==> fresh(buckets[i])
      ensures contents == RecordInMemory(old(contents), sample)
      ensures next == contents[KeyOf(sample)]
    {
      hide UpdatedBucket, KeyOf;
      var key := KeyOf(sample);
      var index := FindBucket(key);
      var existing := if index < |buckets| then Some(buckets[index].value) else None;
      assert existing == if key in contents then Some(contents[key]) else None;
      next := UpdatedBucket(existing, sample);
      assert RecordInMemory(contents, sample) == contents[key := next];
      hide RecordInMemory;
      if index < |buckets| {
        Update(index, next);
      } else {
        Append(key, next);
      }
    }
  }

  // Listing a range of hours of one server.

  datatype Listed = Listed(key: Key, bucket: Bucket)

  predicate InRange(listed: Listed, serverId: string, from: Option<int>, to: Option<int>) {
    && listed.key.serverId == serverId
    && (from.Some? ==> from.value <= listed.key.hourStart)
    && (to.Some? ==> listed.key.hourStart < to.value)
  }

  function Selected(buckets: seq<Listed>, serverId: string, from: Option<int>, to: Option<int>): seq<Listed> {
    if buckets == [] then []
    else
      (if InRange(buckets[0], serverId, from, to) then [buckets[0]] else [])
      + Selected(buckets[1..], serverId, from, to)
  }

  /** Stable insertion into a list in ascending order of hours. */
  function Insert(listed: Listed, sorted: seq<Listed>): seq<Listed> {
    if sorted == [] || listed.key.hourStart <= sorted[0].key.hourStart then [listed] + sorted
    else [sorted[0]] + Insert(listed, sorted[1..])
  }

  function SortByHour(buckets: seq<Listed>): seq<Listed> {
    if buckets == [] then [] else Insert(buckets[0], SortByHour(buckets[1..]))
  }

  function ListBuckets(buckets: seq<Listed>, serverId: string, from: Option<int>, to: Option<int>): seq<Listed> {
    SortByHour(Selected(buckets, serverId, from, to))
  }

  predicate StrictlySorted(buckets: seq<Listed>) {
    forall i, j :: 0 <= i < j < |buckets| ==> buckets[i].key.hourStart < buckets[j].key.hourStart
  }

  ghost predicate UniqueKeys(buckets: seq<Listed>) {
    forall i, j :: 0 <= i < j < |buckets| ==> buckets[i].key != buckets[j].key
  }

  lemma {:induction false} InsertFacts(listed: Listed, sorted: seq<Listed>)
    requires StrictlySorted(sorted)
    requires forall other :: other in sorted ==> other.key.hourStart != listed.key.hourStart
    ensures StrictlySorted(Insert(listed, sorted))
    ensures forall other :: other in Insert(listed, sorted) <==> other == listed || other in sorted
  {
    if sorted != [] && listed.key.hourStart > sorted[0].key.hourStart {
      var rest := Insert(listed, sorted[1..]);
      InsertFacts(listed, sorted[1..]);
      assert Insert(listed, sorted) == [sorted[0]] + rest;
      hide Insert;
      assert forall i :: 0 <= i < |rest| ==> rest[i] in rest;
      assert forall other :: other in sorted[1..] ==> sorted[0].key.hourStart < other.key.hourStart;
      assert forall other :: other in sorted <==> other == sorted[0] || other in sorted[1..];
    } else if sorted != [] {
      assert sorted[0] in sorted;
    }
  }

  lemma {:induction false} SelectedFacts(buckets: seq<Listed>, serverId: string, from: Option<int>, to: Option<int>)
    requires UniqueKeys(buckets)
    ensures UniqueKeys(Selected(buckets, serverId, from, to))
    ensures forall listed ::
      listed in Selected(buckets, serverId, from, to) <==> listed in buckets && InRange(listed, serverId, from, to)
  {
    if buckets != [] {
      SelectedFacts(buckets[1..], serverId, from, to);
      assert forall listed :: listed in buckets <==> listed == buckets[0] || listed in buckets[1..];
      var rest := Selected(buckets[1..], serverId, from, to);
      assert forall i :: 0 <= i < |rest| ==> rest[i] in rest;
      assert forall listed :: listed in buckets[1..] ==> listed.key != buckets[0].key;
    }
  }

  lemma {:induction false} SortFacts(buckets: seq<Listed>, serverId: string)
    requires UniqueKeys(buckets) && forall listed :: listed in buckets ==> listed.key.serverId == serverId
    ensures StrictlySorted(SortByHour(buckets))
    ensures forall listed :: listed in SortByHour(buckets) <==> listed in buckets
  {
    if buckets != [] {
      SortFacts(buckets[1..], serverId);
      assert forall listed :: listed in buckets <==> listed == buckets[0] || listed in buckets[1..];
      forall other | other in SortByHour(buckets[1..]) ensures other.key.hourStart != buckets[0].key.hourStart {
        var i :| 0 <= i < |buckets| - 1 && buckets[1..][i] == other;
        assert buckets[i + 1].key != buckets[0].key;
      }
      InsertFacts(buckets[0], SortByHour(buckets[1..]));
    }
  }

  /** A listing holds exactly the buckets in range, in ascending order of hours. */
  lemma ListingIsExact(buckets: seq<Listed>, serverId: string, from: Option<int>, to: Option<int>)
    requires UniqueKeys(buckets)
    ensures StrictlySorted(ListBuckets(buckets, serverId, from, to))
    ensures forall listed ::
      listed in ListBuckets(buckets, serverId, from, to) <==> listed in buckets && InRange(listed, serverId, from, to)
  {
    SelectedFacts(buckets, serverId, from, to);
    SortFacts(Selected(buckets, serverId, from, to), serverId);
  }

  lemma {:induction false} SortedListsAreEqual(left: seq<Listed>, right: seq<Listed>)
    requires StrictlySorted(left) && StrictlySorted(right)
    requires forall listed :: listed in left <==> listed in right
    ensures left == right
  {
    if left == [] {
      NonemptyHasMember(right);
    } else {
      assert left[0] in right && (right != [] ==> right[0] in left);
      assert left[0] == right[0];
      assert forall listed :: listed in left <==> listed == left[0] || listed in left[1..];
      assert forall listed :: listed in right <==> listed == right[0] || listed in right[1..];
      assert left[0] !in left[1..] && left[0] !in right[1..];
      SortedListsAreEqual(left[1..], right[1..]);
    }
  }

  /** Listing two adjoining ranges is listing their union: no hour is lost or repeated at the seam. */
  lemma RangesAdjoin(buckets: seq<Listed>, serverId: string, from: Option<int>, middle: int, to: Option<int>)
    requires UniqueKeys(buckets)
    requires (from.Some? ==> from.value <= middle) && (to.Some? ==> middle <= to.value)
    ensures ListBuckets(buckets, serverId, from, Some(middle)) + ListBuckets(buckets, serverId, Some(middle), to)
      == ListBuckets(buckets, serverId, from, to)
  {
    var left, right := ListBuckets(buckets, serverId, from, Some(middle)), ListBuckets(buckets, serverId, Some(middle), to);
    ListingIsExact(buckets, serverId, from, Some(middle));
    ListingIsExact(buckets, serverId, Some(middle), to);
    ListingIsExact(buckets, serverId, from, to);
    assert forall i :: 0 <= i < |left| ==> left[i] in left;
    assert forall i :: 0 <= i < |right| ==> right[i] in right;
    SortedListsAreEqual(left + right, ListBuckets(buckets, serverId, from, to));
  }
}
