/**
  The server list of deployments without storage: an array of objects that
  readers share with the store (src/db/manager-store.ts,
  src/db/non-storage-store.ts, src/service/native-plugin-request-service.ts).
 */
module InMemoryServers {
  import opened Prelude
  import opened ManagerStore
  import opened CredentialRegister

  // A run of writes to one server between a protected request and its 401.

  /** A write to the server; `Resaved` is any save of it, which puts a new object in place of the stored one. */
  datatype LocalWrite =
    | Claimed(sealed: Sealed)
    | Replaced(sealed: Sealed)
    | ResetIf(expected: Sealed)
    | ReplacedIf(expected: Sealed, sealed: Sealed)
    | Resaved

  /** The object the request holds: the stored one, or one that a save has taken out of the store since. */
  datatype Held = Shared | Detached(credential: Option<Sealed>)

  datatype View = View(stored: Option<Sealed>, held: Held)

  function WrittenBy(write: LocalWrite): Option<Sealed> {
    if write.ResetIf? || write.Resaved? then None else Some(write.sealed)
  }

  function OnStored(stored: Option<Sealed>, write: LocalWrite, id: ServerId): Option<Sealed> {
    match write
    case Claimed(sealed) => OnRegister(stored, Claiming(id, sealed), id)
    case Replaced(sealed) => OnRegister(stored, Replacing(id, sealed), id)
    case ResetIf(expected) => OnRegister(stored, Resetting(id, expected), id)
    case ReplacedIf(expected, sealed) => OnRegister(stored, ReplacingIfCurrent(id, expected, sealed), id)
    case Resaved => stored
  }

  function Step(view: View, write: LocalWrite, id: ServerId): View {
    View(OnStored(view.stored, write, id),
         if write.Resaved? && view.held.Shared? then Detached(view.stored) else view.held)
  }

  /** The run after a request was sent with the stored record `sent`. */
  function ViewAfter(sent: Sealed, writes: seq<LocalWrite>, id: ServerId): View {
    if writes == [] then View(Some(sent), Shared)
    else Step(ViewAfter(sent, writes[..|writes| - 1], id), writes[|writes| - 1], id)
  }

  function HeldCredential(view: View): Option<Sealed> {
    if view.held.Shared? then view.stored else view.held.credential
  }

  /** The 401 resets what the request's object says now, if the header was sent and a connector is told. */
  function AfterRejection(view: View, told: bool): Option<Sealed> {
    if told && HeldCredential(view) == view.stored then None else view.stored
  }

  /** Every written record is a new one: it differs from `sent` and from all written before. */
  predicate FreshRecords(sent: Sealed, writes: seq<LocalWrite>) {
    forall i :: 0 <= i < |writes| && WrittenBy(writes[i]).Some? ==>
      WrittenBy(writes[i]) != Some(sent) && forall j :: 0 <= j < i ==> WrittenBy(writes[j]) != WrittenBy(writes[i])
  }

  predicate Changes(sent: Sealed, writes: seq<LocalWrite>, j: nat, id: ServerId)
    requires j < |writes|
  {
    ViewAfter(sent, writes[..j], id).stored != ViewAfter(sent, writes[..j + 1], id).stored
  }

  /** A save of the server came before a write that changed the stored credential. */
  predicate SavedBeforeChange(sent: Sealed, writes: seq<LocalWrite>, id: ServerId) {
    exists i, j :: 0 <= i < j < |writes| && writes[i].Resaved? && Changes(sent, writes, j, id)
  }

  predicate Known(record: Option<Sealed>, sent: Sealed, writes: seq<LocalWrite>) {
    record.Some? ==> record == Some(sent) || exists i :: 0 <= i < |writes| && WrittenBy(writes[i]) == record
  }

  predicate Saved(writes: seq<LocalWrite>) {
    exists i :: 0 <= i < |writes| && writes[i].Resaved?
  }

  lemma OneMoreWrite(sent: Sealed, front: seq<LocalWrite>, last: LocalWrite, id: ServerId)
    ensures
      var writes := front + [last];
      && ViewAfter(sent, writes, id) == Step(ViewAfter(sent, front, id), last, id)
      && (Saved(writes) <==> Saved(front) || last.Resaved?)
      && (SavedBeforeChange(sent, writes, id) <==>
            || SavedBeforeChange(sent, front, id)
            || (Saved(front) && ViewAfter(sent, front, id).stored != ViewAfter(sent, writes, id).stored))
  {
    var writes := front + [last];
    assert writes[..|front|] == front && writes[..|front| + 1] == writes;
    assert forall i :: 0 <= i < |front| ==> writes[i] == front[i];
    forall j | 0 <= j < |front| ensures Changes(sent, writes, j, id) <==> Changes(sent, front, j, id) {
      assert writes[..j] == front[..j] && writes[..j + 1] == front[..j + 1];
    }
    assert Changes(sent, writes, |front|, id) <==> ViewAfter(sent, front, id).stored != ViewAfter(sent, writes, id).stored;
    hide Changes, ViewAfter;
    if i :| 0 <= i < |front| && front[i].Resaved? {
      assert writes[i].Resaved?;
    }
    assert last.Resaved? ==> writes[|front|].Resaved?;
  }

  lemma OnStoredKeepsClearsOrWrites(stored: Option<Sealed>, write: LocalWrite, id: ServerId)
    ensures
      var after := OnStored(stored, write, id);
      after == stored || (after.None? && write.ResetIf?) || (after.Some? && after == WrittenBy(write))
    ensures write.Resaved? ==> OnStored(stored, write, id) == stored
  {
  }

  lemma KnownLater(record: Option<Sealed>, sent: Sealed, front: seq<LocalWrite>, last: LocalWrite)
    ensures Known(record, sent, front + [last]) <==> Known(record, sent, front) || record == WrittenBy(last)
  {
    var writes := front + [last];
    assert forall i :: 0 <= i < |front| ==> writes[i] == front[i];
    assert writes[|front|] == last;
  }

  lemma NewIsUnknown(sent: Sealed, front: seq<LocalWrite>, last: LocalWrite)
    requires FreshRecords(sent, front + [last])
    ensures FreshRecords(sent, front)
    ensures WrittenBy(last).Some? ==> !Known(WrittenBy(last), sent, front)
  {
    var writes := front + [last];
    assert forall i :: 0 <= i < |front| ==> writes[i] == front[i];
    assert writes[|front|] == last;
  }

  /** What the request's object holds, compared with the stored record. */
  lemma {:induction false} HeldAgainstStored(sent: Sealed, writes: seq<LocalWrite>, id: ServerId)
    requires FreshRecords(sent, writes)
    ensures
      var view := ViewAfter(sent, writes, id);
      && Known(view.stored, sent, writes) && Known(HeldCredential(view), sent, writes)
      && (view.held.Detached? <==> Saved(writes))
      && (SavedBeforeChange(sent, writes, id) ==>
            view.held.Detached? && (view.stored.Some? ==> view.stored != HeldCredential(view)))
      && (!SavedBeforeChange(sent, writes, id) ==> view.stored == HeldCredential(view))
  {
    if writes != [] {
      var front, last := writes[..|writes| - 1], writes[|writes| - 1];
      assert writes == front + [last];
      NewIsUnknown(sent, front, last);
      HeldAgainstStored(sent, front, id);
      OneMoreWrite(sent, front, last, id);
      var before, view := ViewAfter(sent, front, id), ViewAfter(sent, writes, id);
      OnStoredKeepsClearsOrWrites(before.stored, last, id);
      KnownLater(view.stored, sent, front, last);
      KnownLater(HeldCredential(view), sent, front, last);
      hide ViewAfter, SavedBeforeChange, Saved, OnStored, Known, FreshRecords;
      assert view.stored == OnStored(before.stored, last, id);
      if last.Resaved? || before.held.Shared? {
        assert view.held == if last.Resaved? && before.held.Shared? then Detached(before.stored) else before.held;
      }
      assert view.stored != before.stored ==> !last.Resaved?;
    }
  }

  /**
    After a 401 for a record sent earlier, over any run of claims, replaces, resets, compare-and-sets and
    saves in between: a stored credential survives if and only if a save of the server came before a write
    that changed it. Without such a save the 401 erases whatever pairing is stored by then.
   */
  lemma {:induction false} PairingSurvivesExactly(sent: Sealed, writes: seq<LocalWrite>, id: ServerId)
    requires FreshRecords(sent, writes) && ViewAfter(sent, writes, id).stored.Some?
    ensures AfterRejection(ViewAfter(sent, writes, id), true) == ViewAfter(sent, writes, id).stored
      <==> SavedBeforeChange(sent, writes, id)
  {
    HeldAgainstStored(sent, writes, id);
  }

  /** A 401 erases the record it was sent with when nothing was written, and nothing at all when no connector is told. */
  lemma RejectionWithoutWrites(sent: Sealed, writes: seq<LocalWrite>, id: ServerId)
    ensures ViewAfter(sent, [], id).stored == Some(sent) && AfterRejection(ViewAfter(sent, [], id), true) == None
    ensures AfterRejection(ViewAfter(sent, writes, id), false) == ViewAfter(sent, writes, id).stored
  {
  }

  /** A newer pairing is erased by the 401 for the record before it. */
  lemma DelayedRejectionErasesNewPairing(id: ServerId, sent: Sealed, paired: Sealed)
    requires sent != paired
    ensures ViewAfter(sent, [Replaced(paired)], id).stored == Some(paired)
    ensures AfterRejection(ViewAfter(sent, [Replaced(paired)], id), true) == None
  {
    var writes := [Replaced(paired)];
    assert writes[..0] == [];
    assert ViewAfter(sent, writes, id) == Step(ViewAfter(sent, [], id), writes[0], id);
  }

  /** A save before the pairing protects it. */
  lemma SaveInBetweenKeepsNewPairing(id: ServerId, sent: Sealed, paired: Sealed)
    requires sent != paired
    ensures AfterRejection(ViewAfter(sent, [Resaved, Replaced(paired)], id), true) == Some(paired)
  {
    var writes := [Resaved, Replaced(paired)];
    assert writes[..1] == [Resaved] && [Resaved][..0] == [];
    assert ViewAfter(sent, writes[..1], id) == Step(ViewAfter(sent, [], id), Resaved, id);
    assert ViewAfter(sent, writes, id) == Step(ViewAfter(sent, writes[..1], id), writes[1], id);
  }

  class ServerObject {
    const id: ServerId
    var credential: Option<Sealed>

    constructor (id: ServerId, credential: Option<Sealed>)
      ensures this.id == id && this.credential == credential
    {
      this.id, this.credential := id, credential;
    }
  }

  class InMemoryStore {
    var servers: seq<ServerObject>

    constructor (servers: seq<ServerObject>)
      requires forall i, j :: 0 <= i < j < |servers| ==> servers[i].id != servers[j].id
      ensures Valid() && this.servers == servers
    {
      this.servers := servers;
    }

    ghost predicate Valid()
      reads this
    {
      forall i, j :: 0 <= i < j < |servers| ==> servers[i].id != servers[j].id
    }

    /** The register of every server after one write, given the registers before it. */
    twostate predicate Performed(write: Write)
      reads this, servers
    {
      && |servers| == |old(servers)|
      && forall i :: 0 <= i < |servers| ==>
           servers[i].id == old(servers)[i].id
           && servers[i].credential == OnRegister(old(servers[i].credential), write, servers[i].id)
    }

    method FindIndex(id: ServerId) returns (index: nat)
      ensures index <= |servers|
      ensures index < |servers| ==> servers[index].id == id
      ensures forall j :: 0 <= j < index ==> servers[j].id != id
    {
      index := 0;
      while index < |servers| && servers[index].id != id
        invariant index <= |servers|
        invariant forall j :: 0 <= j < index ==> servers[j].id != id
      {
        index := index + 1;
      }
    }

    method ClaimCredential(id: ServerId, sealed: Sealed) returns (done: bool)
      requires Valid()
      modifies servers
      ensures Valid() && servers == old(servers) && Performed(Claiming(id, sealed))
      ensures done <==> exists i :: 0 <= i < |servers| && servers[i].id == id && old(servers[i].credential).None?
    {
      var index := FindIndex(id);
      if index == |servers| || servers[index].credential.Some? { return false; }
      servers[index].credential := Some(sealed);
      return true;
    }

    method ResetCredential(id: ServerId, expected: Sealed) returns (done: bool)
      requires Valid()
      modifies servers
      ensures Valid() && servers == old(servers) && Performed(Resetting(id, expected))
      ensures done <==> exists i :: 0 <= i < |servers| && servers[i].id == id && old(servers[i].credential) == Some(expected)
    {
      var index := FindIndex(id);
      if index == |servers| || servers[index].credential != Some(expected) { return false; }
      servers[index].credential := None;
      return true;
    }

    method ReplaceCredential(id: ServerId, sealed: Sealed) returns (done: bool)
      requires Valid()
      modifies servers
      ensures Valid() && servers == old(servers) && Performed(Replacing(id, sealed))
      ensures done <==> exists i :: 0 <= i < |servers| && servers[i].id == id
    {
      var index := FindIndex(id);
      if index == |servers| { return false; }
      servers[index].credential := Some(sealed);
      return true;
    }

    method ReplaceCredentialIfCurrent(id: ServerId, expected: Sealed, sealed: Sealed) returns (done: bool)
      requires Valid()
      modifies servers
      ensures Valid() && servers == old(servers) && Performed(ReplacingIfCurrent(id, expected, sealed))
      ensures done <==> exists i :: 0 <= i < |servers| && servers[i].id == id && old(servers[i].credential) == Some(expected)
    {
      var index := FindIndex(id);
      if index == |servers| || servers[index].credential != Some(expected) { return false; }
      servers[index].credential := Some(sealed);
      return true;
    }

    /** Saving puts a new object in place of the stored one; it keeps the stored credential. */
    method SaveExisting(server: ServerObject)
      requires Valid() && exists i :: 0 <= i < |servers| && servers[i].id == server.id
      modifies this
      ensures Valid() && |servers| == |old(servers)|
      ensures forall i :: 0 <= i < |servers| ==>
        servers[i].id == old(servers)[i].id && servers[i].credential == old(servers[i].credential)
      ensures forall i :: 0 <= i < |servers| ==>
        if servers[i].id == server.id then fresh(servers[i]) else servers[i] == old(servers)[i]
    {
      var index := FindIndex(server.id);
      var merged := new ServerObject(server.id, servers[index].credential);
      servers := servers[index := merged];
    }

    method Perform(write: LocalWrite, id: ServerId)
      requires Valid() && |servers| == 1 && servers[0].id == id
      modifies this, servers
      ensures Valid() && |servers| == 1 && servers[0].id == id
      ensures servers[0].credential == OnStored(old(servers[0].credential), write, id)
      ensures if write.Resaved?
        then fresh(servers[0]) && unchanged(old(servers)[0])
        else servers == old(servers)
    {
      match write {
        case Claimed(sealed) => var _ := ClaimCredential(id, sealed);
        case Replaced(sealed) => var _ := ReplaceCredential(id, sealed);
        case ResetIf(expected) => var _ := ResetCredential(id, expected);
        case ReplacedIf(expected, sealed) => var _ := ReplaceCredentialIfCurrent(id, expected, sealed);
        case Resaved => SaveExisting(servers[0]);
      }
    }

    /**
      A 401 for a request made with `held`. The expected record is read from `held` when the answer
      arrives. `told` says that the request carried a header and a connected connector got the reset frame.
     */
    method OnUnauthorized(held: ServerObject, stored: ServerObject, told: bool)
      requires Valid() && held.id == stored.id && stored in servers
      modifies servers
      ensures Valid() && servers == old(servers)
      ensures stored.credential
        == if told && old(stored.credential == held.credential) then None else old(stored.credential)
    {
      if told && held.credential.Some? {
        var _ := ResetCredential(held.id, held.credential.value);
      }
    }
  }

  /** The run on objects: a request with the stored object, the writes, then its 401. */
  method RejectedAfter(id: ServerId, sent: Sealed, writes: seq<LocalWrite>, told: bool) returns (store: InMemoryStore)
    ensures fresh(store) && store.Valid() && |store.servers| == 1 && store.servers[0].id == id
    ensures store.servers[0].credential == AfterRejection(ViewAfter(sent, writes, id), told)
  {
    var held := new ServerObject(id, Some(sent));
    store := new InMemoryStore([held]);
    for i := 0 to |writes|
      invariant store.Valid() && |store.servers| == 1 && store.servers[0].id == id && fresh(store.servers[0])
      invariant store.servers[0].credential == ViewAfter(sent, writes[..i], id).stored
      invariant held.credential == HeldCredential(ViewAfter(sent, writes[..i], id))
      invariant held == store.servers[0] <==> ViewAfter(sent, writes[..i], id).held.Shared?
    {
      assert writes[..i + 1][..i] == writes[..i];
      store.Perform(writes[i], id);
    }
    assert writes[..|writes|] == writes;
    store.OnUnauthorized(held, store.servers[0], told);
  }
}
