/**
  Entity deltas of the live map (src/service/map-live-service.ts).

  The backend sends `upserted`/`removedIds` instead of whole lists. A client
  keeps each list keyed by id; the question is when applying the delta to what
  the client holds gives exactly what the backend holds.
 */
module MapLiveDelta {
  import opened Prelude

  datatype EntityDelta<T, I> = EntityDelta(upserted: seq<T>, removedIds: seq<I>)

  /** `new Map(items.map((item) => [id(item), item]))`: the last item with an id wins. */
  function ById<T, I(==)>(items: seq<T>, id: T -> I): map<I, T> {
    if |items| == 0 then map[]
    else ById(items[..|items| - 1], id)[id(items[|items| - 1]) := items[|items| - 1]]
  }

  predicate Unchanged<T(==), I(==)>(known: map<I, T>, item: T, id: T -> I) {
    id(item) in known && known[id(item)] == item
  }

  function ChangedItems<T(==), I(==)>(known: map<I, T>, next: seq<T>, id: T -> I): seq<T> {
    if |next| == 0 then []
    else
      var last := next[|next| - 1];
      ChangedItems(known, next[..|next| - 1], id) + if Unchanged(known, last, id) then [] else [last]
  }

  function AbsentIds<T, I(==)>(previous: seq<T>, nextById: map<I, T>, id: T -> I): seq<I> {
    if |previous| == 0 then []
    else
      var last := id(previous[|previous| - 1]);
      AbsentIds(previous[..|previous| - 1], nextById, id) + if last in nextById then [] else [last]
  }

  function DeltaOf<T(==), I(==)>(previous: seq<T>, next: seq<T>, id: T -> I): EntityDelta<T, I> {
    EntityDelta(ChangedItems(ById(previous, id), next, id), AbsentIds(previous, ById(next, id), id))
  }

  predicate HasEntityChanges<T, I>(delta: EntityDelta<T, I>) {
    |delta.upserted| > 0 || |delta.removedIds| > 0
  }

  /** What a client does with a delta: drop the removed ids, then store the upserted items. */
  function ApplyDelta<T, I(==)>(held: map<I, T>, delta: EntityDelta<T, I>, id: T -> I): map<I, T> {
    (held - set i | i in delta.removedIds) + ById(delta.upserted, id)
  }

  /** Two items of one list may share an id only when they are the same item. */
  ghost predicate Consistent<T, I>(items: seq<T>, id: T -> I) {
    forall x, y :: x in items && y in items && id(x) == id(y) ==> x == y
  }

  /**
    The delta from `previous` settles on `next`: no item of `next` that differs
    from the last one with its id hides behind an unchanged last one.
   */
  ghost predicate Settles<T, I>(previous: seq<T>, next: seq<T>, id: T -> I) {
    forall x, y | x in next && y in next && id(x) == id(y) ::
      Unchanged(ById(previous, id), y, id) && Unchanged(ById(next, id), y, id) ==> x == y
  }

  lemma {:induction false} ByIdContents<T, I>(items: seq<T>, id: T -> I)
    ensures forall k :: k in ById(items, id) ==> ById(items, id)[k] in items && id(ById(items, id)[k]) == k
    ensures forall x :: x in items ==> id(x) in ById(items, id)
  {
    if |items| != 0 {
      ByIdContents(items[..|items| - 1], id);
    }
  }

  lemma {:induction false} ChangedItemsContents<T, I>(known: map<I, T>, next: seq<T>, id: T -> I)
    ensures forall x :: x in ChangedItems(known, next, id) <==> x in next && !Unchanged(known, x, id)
  {
    if |next| != 0 {
      ChangedItemsContents(known, next[..|next| - 1], id);
    }
  }

  lemma {:induction false} AbsentIdsContents<T, I>(previous: seq<T>, nextById: map<I, T>, id: T -> I)
    ensures forall k ::
      k in AbsentIds(previous, nextById, id) <==> k !in nextById && exists x :: x in previous && id(x) == k
  {
    if |previous| != 0 {
      var front, last := previous[..|previous| - 1], previous[|previous| - 1];
      AbsentIdsContents(front, nextById, id);
      assert previous == front + [last];
      forall k
        ensures k in AbsentIds(previous, nextById, id) <==> k !in nextById && exists x :: x in previous && id(x) == k
      {
        if exists x :: x in front && id(x) == k {
          var x :| x in front && id(x) == k;
          assert x in previous;
        }
      }
    }
  }

  /** The last item with an id that changed is also the last changed item with that id. */
  lemma {:induction false} LastChangeIsSent<T, I>(known: map<I, T>, next: seq<T>, id: T -> I, k: I)
    requires k in ById(next, id) && !Unchanged(known, ById(next, id)[k], id)
    ensures k in ById(ChangedItems(known, next, id), id)
    ensures ById(ChangedItems(known, next, id), id)[k] == ById(next, id)[k]
  {
    var front, last := next[..|next| - 1], next[|next| - 1];
    var sentBefore := ChangedItems(known, front, id);
    if id(last) != k {
      LastChangeIsSent(known, front, id, k);
    }
    if !Unchanged(known, last, id) {
      assert (sentBefore + [last])[..|sentBefore + [last]| - 1] == sentBefore;
    } else {
      assert ChangedItems(known, next, id) == sentBefore;
    }
  }

  /**
    The exact condition for replication: a client that holds `previous` by id
    holds `next` by id after the delta if and only if the delta settles.
   */
  lemma {:induction false} DeltaReplicatesExactly<T, I>(previous: seq<T>, next: seq<T>, id: T -> I)
    ensures ApplyDelta(ById(previous, id), DeltaOf(previous, next, id), id) == ById(next, id)
      <==> Settles(previous, next, id)
  {
    var known, wanted := ById(previous, id), ById(next, id);
    var delta := DeltaOf(previous, next, id);
    var sent := ById(delta.upserted, id);
    var result := ApplyDelta(known, delta, id);
    ByIdContents(previous, id);
    ByIdContents(next, id);
    ByIdContents(delta.upserted, id);
    ChangedItemsContents(known, next, id);
    AbsentIdsContents(previous, wanted, id);
    forall k ensures k in result <==> k in wanted {
      if k in wanted && k !in known {
        LastChangeIsSent(known, next, id, k);
      }
    }
    forall k | k in wanted && !Unchanged(known, wanted[k], id) ensures result[k] == wanted[k] {
      LastChangeIsSent(known, next, id, k);
    }
    if Settles(previous, next, id) {
      forall k | k in wanted ensures result[k] == wanted[k] {
        if Unchanged(known, wanted[k], id) && k in sent {
          assert Unchanged(wanted, wanted[k], id);
        }
      }
      assert result == wanted;
    } else {
      var x, y :| x in next && y in next && id(x) == id(y) && Unchanged(known, y, id) && Unchanged(wanted, y, id) && x != y;
      assert x in delta.upserted;
      assert result[id(y)] == sent[id(y)] != y;
    }
  }

  /** An inconsistent list hides an item from a client that already holds the last one with its id. */
  lemma HiddenItem<T, I>(next: seq<T>, id: T -> I) returns (last: T)
    requires !Consistent(next, id)
    ensures !Settles([last], next, id)
  {
    ByIdContents(next, id);
    var a, b :| a in next && b in next && id(a) == id(b) && a != b;
    last := ById(next, id)[id(a)];
    var hidden := if a == last then b else a;
    assert ById([last], id) == map[id(last) := last];
    assert Unchanged(ById([last], id), last, id) && Unchanged(ById(next, id), last, id) && hidden != last;
  }

  /** A consistent list replicates from every previous list; an inconsistent one fails from some. */
  lemma ReplicatesFromAnywhereExactlyWhenConsistent<T(!new), I>(next: seq<T>, id: T -> I)
    ensures (forall previous: seq<T> ::
        ApplyDelta(ById(previous, id), DeltaOf(previous, next, id), id) == ById(next, id))
      <==> Consistent(next, id)
  {
    forall previous: seq<T>
      ensures ApplyDelta(ById(previous, id), DeltaOf(previous, next, id), id) == ById(next, id)
        <==> Settles(previous, next, id)
    {
      DeltaReplicatesExactly(previous, next, id);
    }
    if !Consistent(next, id) {
      var last := HiddenItem(next, id);
      assert !Settles([last], next, id);
    }
  }

  /** For consistent lists no delta is sent exactly when the keyed contents are equal. */
  lemma EmptyDeltaMeansEqual<T, I>(previous: seq<T>, next: seq<T>, id: T -> I)
    requires Consistent(next, id)
    ensures !HasEntityChanges(DeltaOf(previous, next, id)) <==> ById(previous, id) == ById(next, id)
  {
    var delta := DeltaOf(previous, next, id);
    ByIdContents(previous, id);
    ByIdContents(next, id);
    ChangedItemsContents(ById(previous, id), next, id);
    AbsentIdsContents(previous, ById(next, id), id);
    if !HasEntityChanges(delta) {
      DeltaReplicatesExactly(previous, next, id);
      assert ApplyDelta(ById(previous, id), delta, id) == ById(previous, id);
    } else if |delta.upserted| > 0 {
      var x := delta.upserted[0];
      assert x in delta.upserted;
      assert Unchanged(ById(next, id), x, id);
    } else {
      assert delta.removedIds[0] in delta.removedIds;
    }
  }
}
