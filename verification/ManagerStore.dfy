/**
  The server and user collections of the manager store on the Mongo path: unique
  ids and endpoints, upserts, and the operations on the connector credential
  (src/db/manager-store.ts, indexes in src/db/mongodb.ts).
 */
module ManagerStore {
  import opened Prelude

  datatype Endpoint = Endpoint(ip: string, port: int)

  /** An id derived from an endpoint (its hash taken as injective) or one given otherwise. */
  datatype ServerId = Derived(endpoint: Endpoint) | Given(text: string)

  /** A credential encrypted under a key; `iv` is the random part that makes records differ. */
  datatype Sealed = Sealed(key: string, iv: nat, credential: string)

  datatype Server = Server(
    id: ServerId, endpoint: Option<Endpoint>, credential: Option<Sealed>,
    isPublic: bool, userId: Option<string>, createdAt: int, lastSeen: Option<int>,
    queryUrl: string, queryUrlExplicit: Option<bool>, fields: map<string, Json>)

  type Servers = seq<Server>

  /** The unique indexes on `id` and on `ip` and `port`. */
  predicate UniqueKeys(servers: Servers) {
    forall i, j :: 0 <= i < j < |servers| ==>
      && servers[i].id != servers[j].id
      && (servers[i].endpoint.Some? ==> servers[i].endpoint != servers[j].endpoint)
  }

  /** The first position holding a server with this id, or the length. */
  function IndexOfId(servers: Servers, id: ServerId): (i: nat)
    ensures i <= |servers|
    ensures i < |servers| ==> servers[i].id == id
    ensures forall j :: 0 <= j < i ==> servers[j].id != id
  {
    if servers == [] || servers[0].id == id then 0 else 1 + IndexOfId(servers[1..], id)
  }

  function IndexOfEndpoint(servers: Servers, endpoint: Option<Endpoint>): (i: nat)
    ensures i <= |servers|
    ensures i < |servers| ==> servers[i].endpoint == endpoint
    ensures forall j :: 0 <= j < i ==> servers[j].endpoint != endpoint
  {
    if servers == [] || servers[0].endpoint == endpoint then 0 else 1 + IndexOfEndpoint(servers[1..], endpoint)
  }

  predicate Has(servers: Servers, id: ServerId) {
    IndexOfId(servers, id) < |servers|
  }

  function Get(servers: Servers, id: ServerId): (server: Server)
    requires Has(servers, id)
    ensures server in servers && server.id == id
  {
    servers[IndexOfId(servers, id)]
  }

  /** A write that would break a unique index is refused and changes nothing. */
  function Commit(servers: Servers, next: Servers): Servers {
    if UniqueKeys(next) then next else servers
  }

  /** `$set`: the saved object's properties, and the stored ones that it does not have; never the credential. */
  function Merged(stored: Server, saved: Server): Server {
    Server(
      saved.id, OrElse(saved.endpoint, stored.endpoint), stored.credential,
      saved.isPublic, OrElse(saved.userId, stored.userId), saved.createdAt, OrElse(saved.lastSeen, stored.lastSeen),
      saved.queryUrl, OrElse(saved.queryUrlExplicit, stored.queryUrlExplicit), stored.fields + saved.fields)
  }

  /** `$set` on the matched record, or an insert without credential. */
  function UpsertedAt(servers: Servers, index: nat, server: Server): Servers
    requires index <= |servers|
  {
    if index < |servers| then servers[index := Merged(servers[index], server)]
    else servers + [server.(credential := None)]
  }

  function SaveServer(servers: Servers, server: Server): Servers {
    UpsertedAt(servers, IndexOfId(servers, server.id), server)
  }

  function SaveMasterServer(servers: Servers, server: Server): Servers {
    if server.endpoint.None? then SaveServer(servers, server)
    else UpsertedAt(servers, IndexOfEndpoint(servers, server.endpoint), server)
  }

  function WithCredential(servers: Servers, id: ServerId, credential: Option<Sealed>): Servers
    requires Has(servers, id)
  {
    var index := IndexOfId(servers, id);
    servers[index := servers[index].(credential := credential)]
  }

  function Claim(servers: Servers, id: ServerId, sealed: Sealed): (Servers, bool) {
    if Has(servers, id) && Get(servers, id).credential.None?
    then (WithCredential(servers, id, Some(sealed)), true)
    else (servers, false)
  }

  function Reset(servers: Servers, id: ServerId, expected: Sealed): (Servers, bool) {
    if Has(servers, id) && Get(servers, id).credential == Some(expected)
    then (WithCredential(servers, id, None), true)
    else (servers, false)
  }

  function Replace(servers: Servers, id: ServerId, sealed: Sealed): (Servers, bool) {
    if Has(servers, id) then (WithCredential(servers, id, Some(sealed)), true) else (servers, false)
  }

  function ReplaceIfCurrent(servers: Servers, id: ServerId, expected: Sealed, sealed: Sealed): (Servers, bool) {
    if Has(servers, id) && Get(servers, id).credential == Some(expected)
    then (WithCredential(servers, id, Some(sealed)), true)
    else (servers, false)
  }

  function RemoveServer(servers: Servers, id: ServerId): Servers {
    if servers == [] then []
    else (if servers[0].id == id then [] else [servers[0]]) + RemoveServer(servers[1..], id)
  }

  // Pairing resolves the peer's address and game port in the catalog.

  datatype PairingError = ServerNotFound | PairingAmbiguous

  function Candidates(servers: Servers, endpoint: Endpoint): Servers {
    if servers == [] then []
    else (if servers[0].endpoint == Some(endpoint) then [servers[0]] else []) + Candidates(servers[1..], endpoint)
  }

  function ResolvePeer(servers: Servers, endpoint: Endpoint): Result<Server, PairingError> {
    var candidates := Candidates(servers, endpoint);
    if |candidates| == 1 then Ok(candidates[0])
    else if |candidates| > 0 then Err(PairingAmbiguous) else Err(ServerNotFound)
  }

  lemma {:induction false} CandidatesContents(servers: Servers, endpoint: Endpoint)
    ensures forall server ::
      server in Candidates(servers, endpoint) <==> server in servers && server.endpoint == Some(endpoint)
  {
    if servers != [] {
      CandidatesContents(servers[1..], endpoint);
      assert forall server :: server in servers <==> server == servers[0] || server in servers[1..];
    }
  }

  lemma {:induction false} OneCandidate(servers: Servers, endpoint: Endpoint)
    requires UniqueKeys(servers)
    ensures |Candidates(servers, endpoint)| <= 1
  {
    if servers != [] {
      OneCandidate(servers[1..], endpoint);
      CandidatesContents(servers[1..], endpoint);
      if servers[0].endpoint == Some(endpoint) {
        assert forall i :: 0 <= i < |servers| - 1 ==> servers[1..][i] == servers[i + 1];
        NonemptyHasMember(Candidates(servers[1..], endpoint));
      }
    }
  }

  /** With unique endpoints pairing is never ambiguous, and finds exactly the server at the peer's endpoint. */
  lemma PairingFindsTheEndpoint(servers: Servers, endpoint: Endpoint)
    requires UniqueKeys(servers)
    ensures
      match ResolvePeer(servers, endpoint)
      case Ok(server) => server in servers && server.endpoint == Some(endpoint)
      case Err(error) =>
        error == ServerNotFound && forall server :: server in servers ==> server.endpoint != Some(endpoint)
  {
    OneCandidate(servers, endpoint);
    CandidatesContents(servers, endpoint);
    NonemptyHasMember(Candidates(servers, endpoint));
    if |Candidates(servers, endpoint)| == 1 {
      assert Candidates(servers, endpoint)[0] in Candidates(servers, endpoint);
    }
  }

  predicate NoneAt(servers: Servers, endpoint: Endpoint) {
    forall k :: 0 <= k < |servers| ==> servers[k].endpoint != Some(endpoint)
  }

  predicate OnlyAt(servers: Servers, endpoint: Endpoint, k: nat) {
    && k < |servers| && servers[k].endpoint == Some(endpoint)
    && forall j :: 0 <= j < |servers| && j != k ==> servers[j].endpoint != Some(endpoint)
  }

  predicate SeveralAt(servers: Servers, endpoint: Endpoint) {
    exists i, j :: 0 <= i < j < |servers| && servers[i].endpoint == servers[j].endpoint == Some(endpoint)
  }

  lemma {:induction false} CandidatesTell(servers: Servers, endpoint: Endpoint)
    ensures
      var candidates := Candidates(servers, endpoint);
      if |candidates| == 0 then NoneAt(servers, endpoint)
      else if |candidates| == 1 then exists k: nat :: OnlyAt(servers, endpoint, k) && servers[k] == candidates[0]
      else SeveralAt(servers, endpoint)
  {
    if servers != [] {
      var rest, later := servers[1..], Candidates(servers[1..], endpoint);
      CandidatesTell(rest, endpoint);
      assert forall j :: 0 < j < |servers| ==> servers[j] == rest[j - 1];
      if |later| == 0 && servers[0].endpoint == Some(endpoint) {
        assert OnlyAt(servers, endpoint, 0);
      } else if |later| == 1 {
        var k: nat :| OnlyAt(rest, endpoint, k) && rest[k] == later[0];
        assert servers[k + 1] == rest[k];
        if servers[0].endpoint != Some(endpoint) {
          assert OnlyAt(servers, endpoint, k + 1);
        }
      } else if |later| > 1 {
        var i, j :| 0 <= i < j < |rest| && rest[i].endpoint == rest[j].endpoint == Some(endpoint);
        assert servers[i + 1] == rest[i] && servers[j + 1] == rest[j];
      }
    }
  }

  /** Whatever the collection holds: the one server at the endpoint is found, several are ambiguous, none is not found. */
  lemma PairingExactly(servers: Servers, endpoint: Endpoint)
    ensures
      match ResolvePeer(servers, endpoint)
      case Ok(server) => exists k: nat :: OnlyAt(servers, endpoint, k) && servers[k] == server
      case Err(PairingAmbiguous) => SeveralAt(servers, endpoint)
      case Err(ServerNotFound) => NoneAt(servers, endpoint)
  {
    CandidatesTell(servers, endpoint);
  }
}
