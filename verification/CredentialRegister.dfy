/**
  The connector credential of a server as a register that many stale writers
  touch (src/db/manager-store.ts).
 */
module CredentialRegister {
  import opened Prelude
  import opened ManagerStore

  /** Every write to the server collection; the arguments may stem from reads made long ago. */
  datatype Write =
    | Claiming(id: ServerId, sealed: Sealed)
    | Resetting(id: ServerId, expected: Sealed)
    | Replacing(id: ServerId, sealed: Sealed)
    | ReplacingIfCurrent(id: ServerId, expected: Sealed, sealed: Sealed)
    | Saving(server: Server)
    | SavingMaster(server: Server)
    | Removing(id: ServerId)

  ghost function Apply(servers: Servers, write: Write): Servers {
    match write
    case Claiming(id, sealed) => Claim(servers, id, sealed).0
    case Resetting(id, expected) => Reset(servers, id, expected).0
    case Replacing(id, sealed) => Replace(servers, id, sealed).0
    case ReplacingIfCurrent(id, expected, sealed) => ReplaceIfCurrent(servers, id, expected, sealed).0
    case Saving(server) => Commit(servers, SaveServer(servers, server))
    case SavingMaster(server) => Commit(servers, SaveMasterServer(servers, server))
    case Removing(id) => RemoveServer(servers, id)
  }

  ghost function ApplyAll(servers: Servers, writes: seq<Write>): Servers
    decreases |writes|
  {
    if writes == [] then servers else ApplyAll(Apply(servers, writes[0]), writes[1..])
  }

  /** What a write does to the register of one server. */
  function OnRegister(record: Option<Sealed>, write: Write, id: ServerId): Option<Sealed> {
    if write.Claiming? && write.id == id && record.None? then Some(write.sealed)
    else if write.Replacing? && write.id == id then Some(write.sealed)
    else if write.Resetting? && write.id == id && record == Some(write.expected) then None
    else if write.ReplacingIfCurrent? && write.id == id && record == Some(write.expected) then Some(write.sealed)
    else record
  }

  lemma PositionOfId(servers: Servers, i: nat)
    requires UniqueKeys(servers) && i < |servers|
    ensures IndexOfId(servers, servers[i].id) == i
  {
    assert servers[IndexOfId(servers, servers[i].id)].id == servers[i].id;
  }

  lemma UpdateKeepsKeys(servers: Servers, i: nat, credential: Option<Sealed>)
    requires UniqueKeys(servers) && i < |servers|
    ensures UniqueKeys(servers[i := servers[i].(credential := credential)])
  {
  }

  lemma RemovalShrinks(servers: Servers, id: ServerId)
    requires UniqueKeys(servers)
    ensures UniqueKeys(RemoveServer(servers, id))
    ensures forall server :: server in RemoveServer(servers, id) <==> server in servers && server.id != id
  {
    if servers != [] {
      var rest := servers[1..];
      assert UniqueKeys(rest);
      RemovalShrinks(rest, id);
      assert forall server :: server in servers <==> server == servers[0] || server in rest;
      assert forall server :: server in rest ==>
        server.id != servers[0].id && (server.endpoint.Some? ==> server.endpoint != servers[0].endpoint);
    }
  }

  lemma GetIsTheOnlyOne(servers: Servers, server: Server)
    requires UniqueKeys(servers) && server in servers
    ensures Has(servers, server.id) && Get(servers, server.id) == server
  {
    var i :| 0 <= i < |servers| && servers[i] == server;
    PositionOfId(servers, i);
  }

  lemma UpsertSparesCredentials(servers: Servers, index: nat, server: Server, id: ServerId)
    requires UniqueKeys(servers) && index <= |servers| && UniqueKeys(UpsertedAt(servers, index, server))
    requires Has(servers, id) && Has(UpsertedAt(servers, index, server), id)
    ensures Get(UpsertedAt(servers, index, server), id).credential == Get(servers, id).credential
  {
    var next := UpsertedAt(servers, index, server);
    var i, j := IndexOfId(servers, id), IndexOfId(next, id);
    if i != index {
      assert next[i] == servers[i];
      PositionOfId(next, i);
    } else if j != index {
      PositionOfId(servers, j);
    }
  }

  /**
    A save stores what the saved object has; what it does not have stays as stored, and so does the
    credential whatever the object says. No other server is touched.
   */
  lemma {:induction false} SaveStoresTheRest(servers: Servers, server: Server, other: Server, name: string)
    requires UniqueKeys(servers) && UniqueKeys(SaveServer(servers, server)) && other.id != server.id
    ensures Has(SaveServer(servers, server), server.id)
    ensures
      var after := Get(SaveServer(servers, server), server.id);
      var known := Has(servers, server.id);
      && after.credential == (if known then Get(servers, server.id).credential else None)
      && after.isPublic == server.isPublic && after.createdAt == server.createdAt && after.queryUrl == server.queryUrl
      && (server.endpoint.Some? || !known ==> after.endpoint == server.endpoint)
      && (server.userId.Some? || !known ==> after.userId == server.userId)
      && (server.lastSeen.Some? || !known ==> after.lastSeen == server.lastSeen)
      && (server.queryUrlExplicit.Some? || !known ==> after.queryUrlExplicit == server.queryUrlExplicit)
      && (name in server.fields ==> name in after.fields && after.fields[name] == server.fields[name])
    ensures Has(servers, server.id) ==>
      var after, before := Get(SaveServer(servers, server), server.id), Get(servers, server.id);
      && (server.endpoint.None? ==> after.endpoint == before.endpoint)
      && (server.userId.None? ==> after.userId == before.userId)
      && (server.lastSeen.None? ==> after.lastSeen == before.lastSeen)
      && (server.queryUrlExplicit.None? ==> after.queryUrlExplicit == before.queryUrlExplicit)
      && (name !in server.fields ==> (name in after.fields <==> name in before.fields))
      && (name !in server.fields && name in before.fields ==> after.fields[name] == before.fields[name])
    ensures other in SaveServer(servers, server) <==> other in servers
  {
    var next, index := SaveServer(servers, server), IndexOfId(servers, server.id);
    PositionOfId(next, index);
    assert forall k :: 0 <= k < |servers| && k != index ==> next[k] == servers[k] && next[k] in next;
  }

  lemma WriteKeepsKeys(servers: Servers, write: Write)
    requires UniqueKeys(servers)
    ensures UniqueKeys(Apply(servers, write))
  {
    match write
    case Claiming(id, sealed) => if Has(servers, id) { UpdateKeepsKeys(servers, IndexOfId(servers, id), Some(sealed)); }
    case Resetting(id, _) => if Has(servers, id) { UpdateKeepsKeys(servers, IndexOfId(servers, id), None); }
    case Replacing(id, sealed) => if Has(servers, id) { UpdateKeepsKeys(servers, IndexOfId(servers, id), Some(sealed)); }
    case ReplacingIfCurrent(id, _, sealed) =>
      if Has(servers, id) { UpdateKeepsKeys(servers, IndexOfId(servers, id), Some(sealed)); }
    case Saving(_) =>
    case SavingMaster(_) =>
    case Removing(id) => RemovalShrinks(servers, id);
  }

  lemma CredentialWriteHitsOneServer(servers: Servers, target: ServerId, credential: Option<Sealed>, id: ServerId)
    requires UniqueKeys(servers) && Has(servers, target) && Has(servers, id)
    ensures
      var next, before := WithCredential(servers, target, credential), Get(servers, id);
      && |next| == |servers| && Has(next, id)
      && Get(next, id) == if id == target then before.(credential := credential) else before
  {
    var index, i := IndexOfId(servers, target), IndexOfId(servers, id);
    UpdateKeepsKeys(servers, index, credential);
    PositionOfId(WithCredential(servers, target, credential), i);
  }

  /** Each write acts on the register of a server that stays exactly as OnRegister says. */
  lemma {:induction false} WriteActsOnRegister(servers: Servers, write: Write, id: ServerId)
    requires UniqueKeys(servers) && Has(servers, id) && Has(Apply(servers, write), id)
    ensures Get(Apply(servers, write), id).credential == OnRegister(Get(servers, id).credential, write, id)
  {
    match write
    case Claiming(target, sealed) =>
      if Has(servers, target) { CredentialWriteHitsOneServer(servers, target, Some(sealed), id); }
    case Resetting(target, _) =>
      if Has(servers, target) { CredentialWriteHitsOneServer(servers, target, None, id); }
    case Replacing(target, sealed) =>
      if Has(servers, target) { CredentialWriteHitsOneServer(servers, target, Some(sealed), id); }
    case ReplacingIfCurrent(target, _, sealed) =>
      if Has(servers, target) { CredentialWriteHitsOneServer(servers, target, Some(sealed), id); }
    case Saving(server) =>
      if UniqueKeys(SaveServer(servers, server)) {
        UpsertSparesCredentials(servers, IndexOfId(servers, server.id), server, id);
      }
    case SavingMaster(server) =>
      if UniqueKeys(SaveMasterServer(servers, server)) {
        var index := if server.endpoint.None? then IndexOfId(servers, server.id)
                     else IndexOfEndpoint(servers, server.endpoint);
        UpsertSparesCredentials(servers, index, server, id);
      }
    case Removing(_) =>
      RemovalShrinks(servers, write.id);
      GetIsTheOnlyOne(servers, Get(RemoveServer(servers, write.id), id));
  }

  /** The server is in the collection before and after each of the writes. */
  ghost predicate StaysListed(servers: Servers, writes: seq<Write>, id: ServerId)
    decreases |writes|
  {
    Has(servers, id) && (writes != [] ==> StaysListed(Apply(servers, writes[0]), writes[1..], id))
  }

  /** The writes that may change a register holding `record`. */
  predicate MayChange(write: Write, id: ServerId, record: Sealed) {
    || (write.Replacing? && write.id == id)
    || (write.Resetting? && write.id == id && write.expected == record)
    || (write.ReplacingIfCurrent? && write.id == id && write.expected == record)
  }

  /**
    Over any run of writes a stored credential survives unless it is replaced by a resolved
    pairing or named exactly by a compare-and-set. So neither a save, nor a claim, nor a 401
    for another record, nor a re-encryption of another record ever changes it.
   */
  lemma {:induction false} CredentialSurvives(servers: Servers, writes: seq<Write>, id: ServerId, record: Sealed)
    requires UniqueKeys(servers) && StaysListed(servers, writes, id)
    requires Get(servers, id).credential == Some(record)
    requires forall write :: write in writes ==> !MayChange(write, id, record)
    ensures Has(ApplyAll(servers, writes), id) && Get(ApplyAll(servers, writes), id).credential == Some(record)
    decreases |writes|
  {
    if writes != [] {
      assert !MayChange(writes[0], id, record);
      WriteActsOnRegister(servers, writes[0], id);
      WriteKeepsKeys(servers, writes[0]);
      CredentialSurvives(Apply(servers, writes[0]), writes[1..], id, record);
    }
  }

  /** Of two pairings that both found the register empty only the first one wins. */
  lemma SecondClaimLoses(servers: Servers, id: ServerId, first: Sealed, second: Sealed)
    requires UniqueKeys(servers) && Has(servers, id) && Get(servers, id).credential.None?
    ensures
      var (claimed, won) := Claim(servers, id, first);
      won && Claim(claimed, id, second) == (claimed, false) && Has(claimed, id) && Get(claimed, id).credential == Some(first)
  {
    CredentialWriteHitsOneServer(servers, id, Some(first), id);
  }
}
