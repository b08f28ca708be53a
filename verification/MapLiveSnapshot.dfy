/**
  Map-live snapshots, their changes, and the replica a client builds from them
  (src/service/map-live-service.ts, src/interfaces/map-layer.ts).
 */
module MapLiveSnapshot {
  import opened Prelude
  import opened MapLiveDelta

  datatype Capabilities = Capabilities(
    worldName: string, recentPlayerDays: real, claims: bool, claimSales: bool, renewZones: bool,
    marketplace: bool, shop: bool, players: bool, gpsGlobalMarkers: bool, playerHistory: bool,
    marketCriers: bool, shopTraders: bool)

  datatype Claim = Claim(
    areaId: int, name: string, permission: string, minX: real, minZ: real, width: real, depth: real,
    ownerName: Option<string>, createdAt: Option<string>, borderColor: string, fillColor: string,
    forSale: bool, salePrice: Option<real>, renewZone: bool, nextRenewalAt: Option<string>,
    marketplace: bool, shop: bool)

  datatype Player = Player(id: string, name: string, x: real, z: real, state: string, lastSeen: string)

  datatype Marker = Marker(
    id: int, name: string, x: real, y: real, z: real, icon: string, color: string, createdAt: string)

  datatype Offer = Offer(
    id: int, itemName: string, itemVariant: int, amount: int, price: real, currency: string,
    sellerName: string, createdAt: string)

  datatype Snapshot = Snapshot(
    capabilities: Capabilities,
    claims: seq<Claim>,
    players: seq<Player>,
    gpsGlobalMarkers: seq<Marker>,
    marketplaceOffers: map<int, seq<Offer>>,
    globalMarketplaceOffers: seq<Offer>)

  function ClaimId(claim: Claim): int { claim.areaId }

  function PlayerId(player: Player): string { player.id }

  function MarkerId(marker: Marker): int { marker.id }

  function OfferId(offer: Offer): int { offer.id }

  datatype AreaDelta = AreaDelta(areaId: int, delta: EntityDelta<Offer, int>)

  datatype Layer = CapabilitiesLayer | ClaimsLayer | PlayersLayer | MarkersLayer | OffersLayer

  datatype Changes = Changes(
    capabilities: Option<Capabilities>,
    claims: Option<EntityDelta<Claim, int>>,
    players: Option<EntityDelta<Player, string>>,
    gpsGlobalMarkers: Option<EntityDelta<Marker, int>>,
    marketplaceOffers: Option<seq<AreaDelta>>)

  const MAX_SAFE_INTEGER := 0x1F_FFFF_FFFF_FFFF

  predicate IsAreaKey(areaId: int) {
    0 < areaId <= MAX_SAFE_INTEGER
  }

  function OffersIn(offers: map<int, seq<Offer>>, areaId: int): seq<Offer> {
    if areaId in offers then offers[areaId] else []
  }

  function AreaKeys(previous: Snapshot, next: Snapshot): set<nat> {
    set areaId | areaId in previous.marketplaceOffers.Keys + next.marketplaceOffers.Keys && IsAreaKey(areaId)
  }

  function OffersDelta(previous: Snapshot, next: Snapshot, areaId: int): EntityDelta<Offer, int> {
    DeltaOf(OffersIn(previous.marketplaceOffers, areaId), OffersIn(next.marketplaceOffers, areaId), OfferId)
  }

  function AreaDeltas(previous: Snapshot, next: Snapshot, areaIds: seq<int>): seq<AreaDelta> {
    if areaIds == [] then []
    else
      var delta := OffersDelta(previous, next, areaIds[0]);
      (if HasEntityChanges(delta) then [AreaDelta(areaIds[0], delta)] else [])
      + AreaDeltas(previous, next, areaIds[1..])
  }

  function IfChanged<T, I>(delta: EntityDelta<T, I>): Option<EntityDelta<T, I>> {
    if HasEntityChanges(delta) then Some(delta) else None
  }

  function MapLiveChanges(previous: Snapshot, next: Snapshot): Changes {
    var areas := AreaDeltas(previous, next, Ascending(AreaKeys(previous, next)));
    Changes(
      if previous.capabilities != next.capabilities then Some(next.capabilities) else None,
      IfChanged(DeltaOf(previous.claims, next.claims, ClaimId)),
      IfChanged(DeltaOf(previous.players, next.players, PlayerId)),
      IfChanged(DeltaOf(previous.gpsGlobalMarkers, next.gpsGlobalMarkers, MarkerId)),
      if |areas| > 0 then Some(areas) else None)
  }

  /** `Object.keys(changes)`: the layers a message announces. */
  function LayersOf(changes: Changes): seq<Layer> {
    (if changes.capabilities.Some? then [CapabilitiesLayer] else [])
    + (if changes.claims.Some? then [ClaimsLayer] else [])
    + (if changes.players.Some? then [PlayersLayer] else [])
    + (if changes.gpsGlobalMarkers.Some? then [MarkersLayer] else [])
    + (if changes.marketplaceOffers.Some? then [OffersLayer] else [])
  }

  // The client side: everything keyed by id, a missing area standing for no offers.

  datatype Replica = Replica(
    capabilities: Capabilities,
    claims: map<int, Claim>,
    players: map<string, Player>,
    gpsGlobalMarkers: map<int, Marker>,
    offers: map<int, map<int, Offer>>)

  function OffersHeld(offers: map<int, map<int, Offer>>, areaId: int): map<int, Offer> {
    if areaId in offers then offers[areaId] else map[]
  }

  function ReplicaOf(snapshot: Snapshot): Replica {
    Replica(
      snapshot.capabilities,
      ById(snapshot.claims, ClaimId),
      ById(snapshot.players, PlayerId),
      ById(snapshot.gpsGlobalMarkers, MarkerId),
      map areaId | areaId in snapshot.marketplaceOffers :: ById(snapshot.marketplaceOffers[areaId], OfferId))
  }

  ghost predicate HoldsOffers(offers: map<int, map<int, Offer>>, snapshot: Snapshot) {
    forall areaId | IsAreaKey(areaId) ::
      OffersHeld(offers, areaId) == ById(OffersIn(snapshot.marketplaceOffers, areaId), OfferId)
  }

  /** The replica holds exactly the snapshot, keyed by id. */
  ghost predicate Holds(replica: Replica, snapshot: Snapshot) {
    && replica.capabilities == snapshot.capabilities
    && replica.claims == ById(snapshot.claims, ClaimId)
    && replica.players == ById(snapshot.players, PlayerId)
    && replica.gpsGlobalMarkers == ById(snapshot.gpsGlobalMarkers, MarkerId)
    && HoldsOffers(replica.offers, snapshot)
  }

  function ApplyIfSent<T, I(==)>(held: map<I, T>, sent: Option<EntityDelta<T, I>>, id: T -> I): map<I, T> {
    if sent.Some? then ApplyDelta(held, sent.value, id) else held
  }

  function ApplyAreas(offers: map<int, map<int, Offer>>, areas: seq<AreaDelta>): map<int, map<int, Offer>>
    decreases areas
  {
    if areas == [] then offers
    else
      var area := areas[0];
      ApplyAreas(offers[area.areaId := ApplyDelta(OffersHeld(offers, area.areaId), area.delta, OfferId)], areas[1..])
  }

  function ApplyChanges(replica: Replica, changes: Changes): Replica {
    Replica(
      if changes.capabilities.Some? then changes.capabilities.value else replica.capabilities,
      ApplyIfSent(replica.claims, changes.claims, ClaimId),
      ApplyIfSent(replica.players, changes.players, PlayerId),
      ApplyIfSent(replica.gpsGlobalMarkers, changes.gpsGlobalMarkers, MarkerId),
      if changes.marketplaceOffers.Some?
      then ApplyAreas(replica.offers, changes.marketplaceOffers.value)
      else replica.offers)
  }

  ghost predicate OffersSettle(previous: Snapshot, next: Snapshot) {
    forall areaId | IsAreaKey(areaId) ::
      Settles(OffersIn(previous.marketplaceOffers, areaId), OffersIn(next.marketplaceOffers, areaId), OfferId)
  }

  ghost predicate SnapshotSettles(previous: Snapshot, next: Snapshot) {
    && Settles(previous.claims, next.claims, ClaimId)
    && Settles(previous.players, next.players, PlayerId)
    && Settles(previous.gpsGlobalMarkers, next.gpsGlobalMarkers, MarkerId)
    && OffersSettle(previous, next)
  }

  /** No list of the snapshot gives two different items the same id. */
  ghost predicate ConsistentSnapshot(snapshot: Snapshot) {
    && Consistent(snapshot.claims, ClaimId)
    && Consistent(snapshot.players, PlayerId)
    && Consistent(snapshot.gpsGlobalMarkers, MarkerId)
    && forall areaId | IsAreaKey(areaId) :: Consistent(OffersIn(snapshot.marketplaceOffers, areaId), OfferId)
  }

  /** A client that holds a consistent snapshot finds every item under its own id, and nothing else. */
  lemma HeldByOwnIds(replica: Replica, snapshot: Snapshot, areaId: int)
    requires Holds(replica, snapshot) && ConsistentSnapshot(snapshot) && 0 < areaId <= 9_007_199_254_740_991
    ensures forall claim :: claim in snapshot.claims <==>
      claim.areaId in replica.claims && replica.claims[claim.areaId] == claim
    ensures forall player :: player in snapshot.players <==>
      player.id in replica.players && replica.players[player.id] == player
    ensures forall marker :: marker in snapshot.gpsGlobalMarkers <==>
      marker.id in replica.gpsGlobalMarkers && replica.gpsGlobalMarkers[marker.id] == marker
    ensures forall offer :: areaId in snapshot.marketplaceOffers && offer in snapshot.marketplaceOffers[areaId] <==>
      areaId in replica.offers && offer.id in replica.offers[areaId] && replica.offers[areaId][offer.id] == offer
  {
    ByIdContents(snapshot.claims, ClaimId);
    ByIdContents(snapshot.players, PlayerId);
    ByIdContents(snapshot.gpsGlobalMarkers, MarkerId);
    ByIdContents(OffersIn(snapshot.marketplaceOffers, areaId), OfferId);
    assert OffersHeld(replica.offers, areaId) == ById(OffersIn(snapshot.marketplaceOffers, areaId), OfferId);
  }

  lemma FirstSnapshotHolds(snapshot: Snapshot)
    ensures Holds(ReplicaOf(snapshot), snapshot)
  {
  }

  /** A list that is sent only when its delta is not empty replicates just like one always sent. */
  lemma {:induction false} ListReplicatesExactly<T, I>(previous: seq<T>, next: seq<T>, id: T -> I)
    ensures ApplyIfSent(ById(previous, id), IfChanged(DeltaOf(previous, next, id)), id) == ById(next, id)
      <==> Settles(previous, next, id)
  {
    DeltaReplicatesExactly(previous, next, id);
    var delta := DeltaOf(previous, next, id);
    if !HasEntityChanges(delta) {
      assert ApplyDelta(ById(previous, id), delta, id) == ById(previous, id);
    }
  }

  /** Area deltas touch each listed area once and no other area. */
  lemma {:induction false} AreasApplyIndependently(
      offers: map<int, map<int, Offer>>, previous: Snapshot, next: Snapshot, areaIds: seq<int>, areaId: int)
    requires forall i, j :: 0 <= i < j < |areaIds| ==> areaIds[i] < areaIds[j]
    ensures OffersHeld(ApplyAreas(offers, AreaDeltas(previous, next, areaIds)), areaId)
      == if areaId in areaIds
         then ApplyIfSent(OffersHeld(offers, areaId), IfChanged(OffersDelta(previous, next, areaId)), OfferId)
         else OffersHeld(offers, areaId)
    decreases areaIds
  {
    hide OffersDelta, DeltaOf, ById, ApplyDelta;
    if areaIds != [] {
      var first, rest := areaIds[0], areaIds[1..];
      var delta := OffersDelta(previous, next, first);
      var deltas := AreaDeltas(previous, next, rest);
      assert areaId in areaIds <==> areaId == first || areaId in rest;
      if HasEntityChanges(delta) {
        assert ([AreaDelta(first, delta)] + deltas)[1..] == deltas;
        AreasApplyIndependently(
          offers[first := ApplyDelta(OffersHeld(offers, first), delta, OfferId)], previous, next, rest, areaId);
      } else {
        assert AreaDeltas(previous, next, areaIds) == deltas;
        AreasApplyIndependently(offers, previous, next, rest, areaId);
      }
    }
  }

  lemma {:induction false} OffersReplicateExactly(offers: map<int, map<int, Offer>>, previous: Snapshot, next: Snapshot)
    requires HoldsOffers(offers, previous)
    ensures HoldsOffers(ApplyAreas(offers, AreaDeltas(previous, next, Ascending(AreaKeys(previous, next)))), next)
      <==> OffersSettle(previous, next)
  {
    var areaIds := Ascending(AreaKeys(previous, next));
    var result := ApplyAreas(offers, AreaDeltas(previous, next, areaIds));
    forall areaId | IsAreaKey(areaId)
      ensures OffersHeld(result, areaId) == ById(OffersIn(next.marketplaceOffers, areaId), OfferId)
        <==> Settles(OffersIn(previous.marketplaceOffers, areaId), OffersIn(next.marketplaceOffers, areaId), OfferId)
    {
      AreasApplyIndependently(offers, previous, next, areaIds, areaId);
      ListReplicatesExactly(
        OffersIn(previous.marketplaceOffers, areaId), OffersIn(next.marketplaceOffers, areaId), OfferId);
    }
  }

  /** One message: a client holding `previous` holds `next` afterwards exactly when the lists settle. */
  lemma ChangesReplicateExactly(replica: Replica, previous: Snapshot, next: Snapshot)
    requires Holds(replica, previous)
    ensures Holds(ApplyChanges(replica, MapLiveChanges(previous, next)), next) <==> SnapshotSettles(previous, next)
  {
    ListReplicatesExactly(previous.claims, next.claims, ClaimId);
    ListReplicatesExactly(previous.players, next.players, PlayerId);
    ListReplicatesExactly(previous.gpsGlobalMarkers, next.gpsGlobalMarkers, MarkerId);
    OffersReplicateExactly(replica.offers, previous, next);
  }

  lemma ConsistentSnapshotSettles(previous: Snapshot, next: Snapshot)
    requires ConsistentSnapshot(next)
    ensures SnapshotSettles(previous, next)
  {
  }

  /** When no layer changed, nothing is sent and the client already holds the new snapshot. */
  lemma NoLayersMeansNoNews(replica: Replica, previous: Snapshot, next: Snapshot)
    requires Holds(replica, previous) && ConsistentSnapshot(next)
    requires LayersOf(MapLiveChanges(previous, next)) == []
    ensures Holds(replica, next)
  {
    ConsistentSnapshotSettles(previous, next);
    ChangesReplicateExactly(replica, previous, next);
    assert ApplyChanges(replica, MapLiveChanges(previous, next)) == replica;
  }
}
