/**
  Credential keys that rotate while connectors, pairings and rejected requests
  race on one server's record (src/service/game-connector-credential-service.ts,
  src/service/game-connector-websocket-service.ts, src/db/manager-store.ts).

  The cipher is abstract: a record opens only under the key that sealed it.
 */
module KeyRotation {
  import opened Prelude
  import opened ManagerStore
  import opened CredentialRegister

  function Decrypt(sealed: Sealed, key: string): Option<string> {
    if sealed.key == key && sealed.credential != "" then Some(sealed.credential) else None
  }

  /** The first key of the ring that opens the record, with what it opens to. */
  function OpenWithRing(sealed: Sealed, keys: seq<string>): Option<(string, nat)> {
    if keys == [] then None
    else if Decrypt(sealed, keys[0]).Some? then Some((Decrypt(sealed, keys[0]).value, 0))
    else
      var later := OpenWithRing(sealed, keys[1..]);
      if later.Some? then Some((later.value.0, later.value.1 + 1)) else None
  }

  method DecryptWithKeyRing(sealed: Sealed, keys: seq<string>) returns (found: Option<(string, nat)>)
    ensures found == OpenWithRing(sealed, keys)
    ensures found.Some? ==> found.value.1 < |keys| && Decrypt(sealed, keys[found.value.1]) == Some(found.value.0)
    ensures found.Some? ==> forall i :: 0 <= i < found.value.1 ==> Decrypt(sealed, keys[i]).None?
    ensures found.None? ==> forall key :: key in keys ==> Decrypt(sealed, key).None?
  {
    for i := 0 to |keys|
      invariant forall j :: 0 <= j < i ==> Decrypt(sealed, keys[j]).None?
      invariant OpenWithRing(sealed, keys)
        == var rest := OpenWithRing(sealed, keys[i..]);
           if rest.Some? then Some((rest.value.0, rest.value.1 + i)) else None
    {
      assert keys[i..][1..] == keys[i + 1..];
      var credential := Decrypt(sealed, keys[i]);
      if credential.Some? {
        return Some((credential.value, i));
      }
    }
    return None;
  }

  /** The record of one server; the generation counts pairings and resets. */
  datatype Slot = Slot(record: Option<Sealed>, generation: nat)

  datatype SlotEvent =
    | Claimed(sealed: Sealed)
    | Paired(sealed: Sealed)
    | Rejected(expected: Sealed)
      /** The end of an authentication that found `expected` under an older key. */
    | Reencrypted(expected: Sealed, iv: nat)
    | Saved(server: Server)

  function AsWrite(event: SlotEvent, key: string, id: ServerId): Write {
    match event
    case Claimed(sealed) => Claiming(id, sealed)
    case Paired(sealed) => Replacing(id, sealed)
    case Rejected(expected) => Resetting(id, expected)
    case Reencrypted(expected, iv) => ReplacingIfCurrent(id, expected, Sealed(key, iv, expected.credential))
    case Saved(server) => Saving(server)
  }

  function AsWrites(events: seq<SlotEvent>, key: string, id: ServerId): (writes: seq<Write>)
    ensures |writes| == |events|
  {
    if events == [] then [] else [AsWrite(events[0], key, id)] + AsWrites(events[1..], key, id)
  }

  function Step(slot: Slot, event: SlotEvent, key: string): Slot {
    match event
    case Claimed(sealed) => if slot.record.None? then Slot(Some(sealed), slot.generation + 1) else slot
    case Paired(sealed) => Slot(Some(sealed), slot.generation + 1)
    case Rejected(expected) => if slot.record == Some(expected) then Slot(None, slot.generation + 1) else slot
    case Reencrypted(expected, iv) =>
      if slot.record == Some(expected) then slot.(record := Some(Sealed(key, iv, expected.credential))) else slot
    case Saved(_) => slot
  }

  function Steps(slot: Slot, events: seq<SlotEvent>, key: string): Slot
    decreases |events|
  {
    if events == [] then slot else Steps(Step(slot, events[0], key), events[1..], key)
  }

  /** A run on the slot is the run of the same writes on the whole store, seen at one server. */
  lemma {:induction false} SlotFollowsTheStore(
      servers: Servers, slot: Slot, events: seq<SlotEvent>, key: string, id: ServerId)
    requires UniqueKeys(servers) && StaysListed(servers, AsWrites(events, key, id), id)
    requires Get(servers, id).credential == slot.record
    ensures
      var end := ApplyAll(servers, AsWrites(events, key, id));
      Has(end, id) && Get(end, id).credential == Steps(slot, events, key).record
    decreases |events|
  {
    if events != [] {
      var writes := AsWrites(events, key, id);
      assert writes[1..] == AsWrites(events[1..], key, id);
      WriteActsOnRegister(servers, writes[0], id);
      WriteKeepsKeys(servers, writes[0]);
      SlotFollowsTheStore(Apply(servers, writes[0]), Step(slot, events[0], key), events[1..], key, id);
    }
  }

  /** Re-encryption happens only to records that the current key does not open. */
  predicate Genuine(events: seq<SlotEvent>, key: string) {
    forall event :: event in events && event.Reencrypted? ==> event.expected.key != key
  }

  /** The record is still the one that was read, or the same credential under the current key. */
  predicate StillOpens(slot: Slot, read: Sealed, key: string) {
    slot.record == Some(read)
    || (slot.record.Some? && slot.record.value.key == key && slot.record.value.credential == read.credential)
  }

  /** How often a pairing or a reset took effect; re-encryptions and saves do not count. */
  function Replacements(slot: Slot, events: seq<SlotEvent>, key: string): nat
    decreases |events|
  {
    if events == [] then 0
    else
      var counts :=
        || (events[0].Claimed? && slot.record.None?)
        || events[0].Paired?
        || (events[0].Rejected? && slot.record == Some(events[0].expected));
      (if counts then 1 else 0) + Replacements(Step(slot, events[0], key), events[1..], key)
  }

  lemma {:induction false} GenerationCounts(slot: Slot, events: seq<SlotEvent>, key: string)
    ensures Steps(slot, events, key).generation == slot.generation + Replacements(slot, events, key)
    decreases |events|
  {
    if events != [] {
      GenerationCounts(Step(slot, events[0], key), events[1..], key);
    }
  }

  lemma {:induction false} GenerationsOnlyGrow(slot: Slot, events: seq<SlotEvent>, key: string)
    ensures Steps(slot, events, key).generation >= slot.generation
    decreases |events|
  {
    if events != [] {
      GenerationsOnlyGrow(Step(slot, events[0], key), events[1..], key);
    }
  }

  lemma {:induction false} SameGenerationStillOpens(slot: Slot, events: seq<SlotEvent>, read: Sealed, key: string)
    requires StillOpens(slot, read, key) && Genuine(events, key)
    requires Steps(slot, events, key).generation == slot.generation
    ensures StillOpens(Steps(slot, events, key), read, key)
    ensures read.key == key ==> Steps(slot, events, key).record.value.key == key
    ensures slot.record.value.key == key ==> Steps(slot, events, key).record.value.key == key
    decreases |events|
  {
    if events != [] {
      assert events[0] in events;
      GenerationsOnlyGrow(Step(slot, events[0], key), events[1..], key);
      SameGenerationStillOpens(Step(slot, events[0], key), events[1..], read, key);
    }
  }

  /** One period with one current key, in which a connector authenticates. */
  datatype Epoch = Epoch(
    key: string, previousKeys: seq<string>,
    first: seq<SlotEvent>, between: seq<SlotEvent>, iv: nat, last: seq<SlotEvent>)

  /** The authentication: what was read is re-encrypted, if still current, unless the current key opens it. */
  function Commit(slot: Slot, read: Option<Sealed>, epoch: Epoch): Slot {
    if read.None? then slot
    else
      var found := OpenWithRing(read.value, [epoch.key] + epoch.previousKeys);
      if found.Some? && found.value.1 > 0
      then Step(slot, Reencrypted(read.value, epoch.iv), epoch.key) else slot
  }

  function RunEpoch(slot: Slot, epoch: Epoch): Slot {
    var read := Steps(slot, epoch.first, epoch.key);
    var committing := Steps(read, epoch.between, epoch.key);
    Steps(Commit(committing, read.record, epoch), epoch.last, epoch.key)
  }

  predicate GenuineEpoch(epoch: Epoch) {
    Genuine(epoch.first, epoch.key) && Genuine(epoch.between, epoch.key) && Genuine(epoch.last, epoch.key)
  }

  lemma {:induction false} RingOpensKnownKey(sealed: Sealed, keys: seq<string>)
    requires sealed.credential != ""
    ensures OpenWithRing(sealed, keys).Some? <==> sealed.key in keys
    ensures OpenWithRing(sealed, keys).Some? ==> OpenWithRing(sealed, keys).value.0 == sealed.credential
    ensures keys != [] && OpenWithRing(sealed, keys).Some? ==>
      (OpenWithRing(sealed, keys).value.1 == 0 <==> sealed.key == keys[0])
  {
    if keys != [] {
      RingOpensKnownKey(sealed, keys[1..]);
    }
  }

  /** A ring opens exactly the nonempty records sealed under one of its keys, and tells the first place of that key. */
  lemma {:induction false} OpenedExactly(sealed: Sealed, keys: seq<string>, credential: string, place: nat)
    ensures OpenWithRing(sealed, keys) == Some((credential, place)) <==>
      && credential == sealed.credential != ""
      && place < |keys| && keys[place] == sealed.key && sealed.key !in keys[..place]
  {
    if keys != [] && place > 0 {
      OpenedExactly(sealed, keys[1..], credential, place - 1);
      if place < |keys| {
        assert keys[..place] == [keys[0]] + keys[1..][..place - 1];
      }
    }
  }

  /** An authentication rewrites the record exactly when it is still the one read and only an older key opens it. */
  lemma RewrittenExactly(slot: Slot, read: Sealed, epoch: Epoch)
    ensures Commit(slot, Some(read), epoch) ==
      if && slot.record == Some(read) && read.credential != ""
         && read.key != epoch.key && read.key in epoch.previousKeys
      then slot.(record := Some(Sealed(epoch.key, epoch.iv, read.credential)))
      else slot
  {
    if read.credential != "" {
      RingOpensKnownKey(read, [epoch.key] + epoch.previousKeys);
    } else {
      BlankStaysShut(read, [epoch.key] + epoch.previousKeys);
    }
  }

  lemma {:induction false} BlankStaysShut(sealed: Sealed, keys: seq<string>)
    requires sealed.credential == ""
    ensures OpenWithRing(sealed, keys).None?
  {
    if keys != [] {
      BlankStaysShut(sealed, keys[1..]);
    }
  }

  /**
    After a connector authenticated, its record opens under the current key alone to the same
    credential, whatever else happened meanwhile, unless a pairing or a reset replaced it.
   */
  lemma AuthenticatedUnderCurrentKey(slot: Slot, epoch: Epoch, credential: string)
    requires slot.record.Some? && slot.record.value.credential == credential != ""
    requires slot.record.value.key in [epoch.key] + epoch.previousKeys
    requires GenuineEpoch(epoch) && RunEpoch(slot, epoch).generation == slot.generation
    ensures RunEpoch(slot, epoch).record.Some?
    ensures OpenWithRing(RunEpoch(slot, epoch).record.value, [epoch.key]) == Some((credential, 0))
    ensures RunEpoch(slot, epoch).record.value.credential == credential
    ensures RunEpoch(slot, epoch).record.value.key == epoch.key
  {
    var key, ring := epoch.key, [epoch.key] + epoch.previousKeys;
    var reading := Steps(slot, epoch.first, key);
    var committing := Steps(reading, epoch.between, key);
    var committed := Commit(committing, reading.record, epoch);
    GenerationsOnlyGrow(slot, epoch.first, key);
    GenerationsOnlyGrow(reading, epoch.between, key);
    GenerationsOnlyGrow(committed, epoch.last, key);
    SameGenerationStillOpens(slot, epoch.first, slot.record.value, key);
    var read := reading.record.value;
    RingOpensKnownKey(read, ring);
    SameGenerationStillOpens(reading, epoch.between, read, key);
    assert committed.record.value.key == key && committed.record.value.credential == credential;
    SameGenerationStillOpens(committed, epoch.last, committed.record.value, key);
  }

  function RunEpochs(slot: Slot, epochs: seq<Epoch>): Slot
    decreases |epochs|
  {
    if epochs == [] then slot else RunEpochs(RunEpoch(slot, epochs[0]), epochs[1..])
  }

  /** Each period still knows the key that was current in the one before; older keys may be dropped. */
  predicate Overlapping(key: string, epochs: seq<Epoch>)
    decreases |epochs|
  {
    epochs == []
    || (key in [epochs[0].key] + epochs[0].previousKeys && Overlapping(epochs[0].key, epochs[1..]))
  }

  lemma {:induction false} EpochsOnlyGrow(slot: Slot, epochs: seq<Epoch>)
    ensures RunEpochs(slot, epochs).generation >= slot.generation
    decreases |epochs|
  {
    if epochs != [] {
      var epoch := epochs[0];
      var reading := Steps(slot, epoch.first, epoch.key);
      var committing := Steps(reading, epoch.between, epoch.key);
      GenerationsOnlyGrow(slot, epoch.first, epoch.key);
      GenerationsOnlyGrow(reading, epoch.between, epoch.key);
      GenerationsOnlyGrow(Commit(committing, reading.record, epoch), epoch.last, epoch.key);
      EpochsOnlyGrow(RunEpoch(slot, epoch), epochs[1..]);
    }
  }

  /** Any number of rotations locks out no connector that authenticates in each period. */
  lemma {:induction false} RotationNeverLocksOut(slot: Slot, epochs: seq<Epoch>, credential: string)
    requires slot.record.Some? && slot.record.value.credential == credential != ""
    requires Overlapping(slot.record.value.key, epochs) && epochs != []
    requires forall epoch :: epoch in epochs ==> GenuineEpoch(epoch)
    requires RunEpochs(slot, epochs).generation == slot.generation
    ensures
      var end := RunEpochs(slot, epochs);
      end.record.Some? && OpenWithRing(end.record.value, [epochs[|epochs| - 1].key]) == Some((credential, 0))
    decreases |epochs|
  {
    var next := RunEpoch(slot, epochs[0]);
    assert epochs[0] in epochs;
    EpochsOnlyGrow(slot, epochs[..1]);
    assert RunEpochs(slot, epochs[..1]) == RunEpochs(next, epochs[..1][1..]) == next;
    EpochsOnlyGrow(next, epochs[1..]);
    AuthenticatedUnderCurrentKey(slot, epochs[0], credential);
    if epochs[1..] != [] {
      RotationNeverLocksOut(next, epochs[1..], credential);
    } else {
      assert RunEpochs(next, epochs[1..]) == next;
    }
  }
}
