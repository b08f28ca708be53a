/**
  Merging observed players into the known ones
  (`mergeKnownPlayers` in src/service/observed-player-service.ts).
 */
module KnownPlayers {
  import opened Prelude

  /** The fields the merge treats specially, and all other fields that are present. */
  datatype Player = Player(
    uid: string, name: Option<string>, firstSeen: Option<int>, lastSeen: Option<int>, playtime: Option<int>,
    others: map<string, Json>)

  /** A JavaScript map keyed by uid: the keys in insertion order and the values. */
  datatype ByUid = ByUid(order: seq<string>, players: map<string, Player>)

  const EMPTY_BY_UID := ByUid([], map[])

  function Put(byUid: ByUid, player: Player): ByUid {
    ByUid(
      if player.uid in byUid.players then byUid.order else byUid.order + [player.uid],
      byUid.players[player.uid := player])
  }

  function ValueOr(value: Option<int>, default: int): int {
    if value.Some? then value.value else default
  }

  /** `Math.max(current ?? 0, observed ?? 0)`, left out when both are undefined. */
  function Latest(current: Option<int>, observed: Option<int>): Option<int> {
    if current.None? && observed.None? then None else Some(Max(ValueOr(current, 0), ValueOr(observed, 0)))
  }

  function Combine(current: Player, observed: Player): Player {
    Player(
      observed.uid,
      OrElse(observed.name, current.name),
      OrElse(current.firstSeen, observed.firstSeen),
      Latest(current.lastSeen, observed.lastSeen),
      Latest(current.playtime, observed.playtime),
      current.others + observed.others)
  }

  /** No current record contributes nothing. */
  function Nobody(uid: string): Player {
    Player(uid, None, None, None, None, map[])
  }

  function CurrentOf(byUid: ByUid, uid: string): Player {
    if uid in byUid.players then byUid.players[uid] else Nobody(uid)
  }

  function Observe(byUid: ByUid, observed: Player): ByUid {
    Put(byUid, Combine(CurrentOf(byUid, observed.uid), observed))
  }

  function Keep(byUid: ByUid, player: Player): ByUid {
    if player.uid == "" then byUid else Put(byUid, player)
  }

  function KeepAll(byUid: ByUid, players: seq<Player>): ByUid {
    if players == [] then byUid else Keep(KeepAll(byUid, players[..|players| - 1]), players[|players| - 1])
  }

  function ObserveAll(byUid: ByUid, players: seq<Player>): ByUid {
    if players == [] then byUid else Observe(ObserveAll(byUid, players[..|players| - 1]), players[|players| - 1])
  }

  ghost predicate WellFormed(byUid: ByUid) {
    && (forall i, j :: 0 <= i < j < |byUid.order| ==> byUid.order[i] != byUid.order[j])
    && (forall uid :: uid in byUid.order <==> uid in byUid.players)
    && (forall uid :: uid in byUid.players ==> byUid.players[uid].uid == uid)
  }

  function ValuesOf(byUid: ByUid): seq<Player>
    requires forall uid :: uid in byUid.order ==> uid in byUid.players
  {
    seq(|byUid.order|, i requires 0 <= i < |byUid.order| => byUid.players[byUid.order[i]])
  }

  function Stored(existing: Option<seq<Player>>): seq<Player> {
    if existing.Some? then existing.value else []
  }

  lemma PutIsWellFormed(byUid: ByUid, player: Player)
    requires WellFormed(byUid)
    ensures WellFormed(Put(byUid, player))
  {
  }

  lemma AllWellFormed(byUid: ByUid, players: seq<Player>)
    requires WellFormed(byUid)
    ensures WellFormed(KeepAll(byUid, players)) && WellFormed(ObserveAll(byUid, players))
  {
    if players != [] {
      var front, last := players[..|players| - 1], players[|players| - 1];
      AllWellFormed(byUid, front);
      PutIsWellFormed(KeepAll(byUid, front), last);
      PutIsWellFormed(ObserveAll(byUid, front), Combine(CurrentOf(ObserveAll(byUid, front), last.uid), last));
    }
  }

  function Merged(existing: seq<Player>, observed: seq<Player>): ByUid {
    ObserveAll(KeepAll(EMPTY_BY_UID, existing), observed)
  }

  lemma MergedIsWellFormed(existing: seq<Player>, observed: seq<Player>)
    ensures WellFormed(Merged(existing, observed))
  {
    AllWellFormed(EMPTY_BY_UID, existing);
    AllWellFormed(KeepAll(EMPTY_BY_UID, existing), observed);
  }

  function MergeKnownPlayers(existing: Option<seq<Player>>, observed: seq<Player>): Option<seq<Player>> {
    if Stored(existing) == [] && observed == [] then existing
    else
      MergedIsWellFormed(Stored(existing), observed);
      Some(ValuesOf(Merged(Stored(existing), observed)))
  }

  method Merge(existing: Option<seq<Player>>, observed: seq<Player>) returns (merged: Option<seq<Player>>)
    ensures merged == MergeKnownPlayers(existing, observed)
  {
    var stored := Stored(existing);
    if stored == [] && observed == [] { return existing; }
    var byUid := EMPTY_BY_UID;
    for i := 0 to |stored|
      invariant byUid == KeepAll(EMPTY_BY_UID, stored[..i])
    {
      assert stored[..i + 1][..i] == stored[..i];
      if stored[i].uid != "" {
        byUid := Put(byUid, stored[i]);
      }
    }
    assert stored[..|stored|] == stored;
    for i := 0 to |observed|
      invariant byUid == ObserveAll(KeepAll(EMPTY_BY_UID, stored), observed[..i])
    {
      assert observed[..i + 1][..i] == observed[..i];
      byUid := Put(byUid, Combine(CurrentOf(byUid, observed[i].uid), observed[i]));
    }
    assert observed[..|observed|] == observed;
    MergedIsWellFormed(stored, observed);
    merged := Some(ValuesOf(byUid));
  }

  // Batches.

  lemma {:induction false} ObserveAppends(byUid: ByUid, left: seq<Player>, right: seq<Player>)
    ensures ObserveAll(byUid, left + right) == ObserveAll(ObserveAll(byUid, left), right)
  {
    if right == [] {
      assert left + right == left;
    } else {
      assert (left + right)[..|left + right| - 1] == left + right[..|right| - 1];
      ObserveAppends(byUid, left, right[..|right| - 1]);
    }
  }

  /** A map whose keys are its values' non-blank uids is rebuilt from its values. */
  lemma RebuiltFromValues(byUid: ByUid)
    requires WellFormed(byUid) && "" !in byUid.order
    ensures KeepAll(EMPTY_BY_UID, ValuesOf(byUid)) == byUid
  {
    hide KeepAll;
    RebuiltFromPrefix(byUid, ValuesOf(byUid), |byUid.order|);
    assert ValuesOf(byUid)[..|byUid.order|] == ValuesOf(byUid);
    var all := KeepAll(EMPTY_BY_UID, ValuesOf(byUid));
    assert all.order == byUid.order;
    assert all.players == byUid.players;
  }

  lemma KeepNext(players: seq<Player>, count: nat)
    requires 0 < count <= |players| && players[count - 1].uid != ""
    ensures KeepAll(EMPTY_BY_UID, players[..count])
      == Put(KeepAll(EMPTY_BY_UID, players[..count - 1]), players[count - 1])
  {
    assert players[..count][..count - 1] == players[..count - 1];
  }

  /** The map restricted to its first keys. */
  ghost predicate IsPrefix(rebuilt: ByUid, byUid: ByUid, count: nat)
    requires count <= |byUid.order|
  {
    && rebuilt.order == byUid.order[..count]
    && (forall uid :: uid in rebuilt.players <==> uid in byUid.order[..count])
    && forall uid :: uid in rebuilt.players ==> uid in byUid.players && rebuilt.players[uid] == byUid.players[uid]
  }

  lemma PrefixGrows(rebuilt: ByUid, byUid: ByUid, count: nat)
    requires WellFormed(byUid) && count < |byUid.order| && IsPrefix(rebuilt, byUid, count)
    requires byUid.order[count] in byUid.players
    ensures IsPrefix(Put(rebuilt, byUid.players[byUid.order[count]]), byUid, count + 1)
  {
    var uid := byUid.order[count];
    assert uid in byUid.order && byUid.players[uid].uid == uid;
    assert byUid.order[..count + 1] == byUid.order[..count] + [uid];
    assert uid !in byUid.order[..count];
  }

  lemma ValueAt(byUid: ByUid, i: nat)
    requires WellFormed(byUid) && "" !in byUid.order && i < |byUid.order|
    ensures |ValuesOf(byUid)| == |byUid.order| && byUid.order[i] in byUid.players
    ensures ValuesOf(byUid)[i] == byUid.players[byUid.order[i]] && ValuesOf(byUid)[i].uid != ""
  {
    assert byUid.order[i] in byUid.order;
  }

  lemma NothingKept(byUid: ByUid, values: seq<Player>)
    ensures IsPrefix(KeepAll(EMPTY_BY_UID, values[..0]), byUid, 0)
  {
    assert values[..0] == [];
  }

  lemma {:induction false} RebuiltFromPrefix(byUid: ByUid, values: seq<Player>, count: nat)
    requires WellFormed(byUid) && "" !in byUid.order && count <= |byUid.order|
    requires values == ValuesOf(byUid)
    ensures count <= |values| && IsPrefix(KeepAll(EMPTY_BY_UID, values[..count]), byUid, count)
  {
    hide KeepAll, Put, IsPrefix, WellFormed;
    if count == 0 {
      NothingKept(byUid, values);
    } else {
      RebuiltFromPrefix(byUid, values, count - 1);
      ValueAt(byUid, count - 1);
      hide ValuesOf;
      KeepNext(values, count);
      PrefixGrows(KeepAll(EMPTY_BY_UID, values[..count - 1]), byUid, count - 1);
    }
  }

  ghost predicate HaveUids(players: seq<Player>) {
    forall player :: player in players ==> player.uid != ""
  }

  lemma {:induction false} NoBlankKeys(byUid: ByUid, existing: seq<Player>, observed: seq<Player>)
    requires "" !in byUid.order && HaveUids(observed)
    ensures "" !in KeepAll(byUid, existing).order
    ensures "" !in ObserveAll(byUid, observed).order
    decreases |existing| + |observed|
  {
    if existing != [] {
      NoBlankKeys(byUid, existing[..|existing| - 1], []);
    }
    if observed != [] {
      assert observed[|observed| - 1] in observed;
      NoBlankKeys(byUid, [], observed[..|observed| - 1]);
    }
  }

  lemma MergedHasNoBlanks(existing: seq<Player>, observed: seq<Player>)
    requires HaveUids(observed)
    ensures WellFormed(Merged(existing, observed)) && "" !in Merged(existing, observed).order
  {
    MergedIsWellFormed(existing, observed);
    NoBlankKeys(EMPTY_BY_UID, existing, []);
    NoBlankKeys(KeepAll(EMPTY_BY_UID, existing), [], observed);
  }

  /** Merging two batches one after the other is merging them in one call. */
  lemma BatchesCompose(existing: Option<seq<Player>>, first: seq<Player>, second: seq<Player>)
    requires HaveUids(first)
    ensures MergeKnownPlayers(MergeKnownPlayers(existing, first), second) == MergeKnownPlayers(existing, first + second)
  {
    var stored := Stored(existing);
    var once := MergeKnownPlayers(existing, first);
    if stored == [] && first == [] {
      assert first + second == second;
    } else {
      var byUid := Merged(stored, first);
      MergedHasNoBlanks(stored, first);
      RebuiltFromValues(byUid);
      ObserveAppends(KeepAll(EMPTY_BY_UID, stored), first, second);
      assert Merged(Stored(once), second) == Merged(stored, first + second);
      if Stored(once) == [] && second == [] {
        assert first + second == first;
      }
    }
  }

  // Repetition.

  lemma CombineIsAssociative(a: Player, b: Player, c: Player)
    ensures Combine(Combine(a, b), c) == Combine(a, Combine(b, c))
  {
  }

  /** Everything a batch says about one uid, combined into one record. */
  function Collected(players: seq<Player>, uid: string): Option<Player> {
    if players == [] then None
    else
      var front, last := Collected(players[..|players| - 1], uid), players[|players| - 1];
      if last.uid != uid then front
      else if front.None? then Some(last)
      else Some(Combine(front.value, last))
  }

  function Told(current: Player, news: Option<Player>): Player {
    if news.None? then current else Combine(current, news.value)
  }

  /** The value of a uid after a batch: what it was, combined with what the batch says about it. */
  lemma {:induction false} ObservedValue(byUid: ByUid, players: seq<Player>, uid: string)
    ensures uid in ObserveAll(byUid, players).players
      <==> uid in byUid.players || Collected(players, uid).Some?
    ensures CurrentOf(ObserveAll(byUid, players), uid) == Told(CurrentOf(byUid, uid), Collected(players, uid))
    ensures Collected(players, uid).Some? ==> Collected(players, uid).value.uid == uid
  {
    if players != [] {
      var front, last := players[..|players| - 1], players[|players| - 1];
      ObservedValue(byUid, front, uid);
      if last.uid == uid && Collected(front, uid).Some? {
        CombineIsAssociative(CurrentOf(byUid, uid), Collected(front, uid).value, last);
      }
    }
  }

  lemma CombineTwice(current: Player, news: Player)
    ensures Combine(Combine(current, news), news) == Combine(current, news)
  {
    assert current.others + news.others + news.others == current.others + news.others;
  }

  lemma {:induction false} KnownUidsKeepTheirPlaces(byUid: ByUid, players: seq<Player>)
    requires forall player :: player in players ==> player.uid in byUid.players
    ensures ObserveAll(byUid, players).order == byUid.order
    ensures ObserveAll(byUid, players).players.Keys == byUid.players.Keys
  {
    if players != [] {
      var front, last := players[..|players| - 1], players[|players| - 1];
      KnownUidsKeepTheirPlaces(byUid, front);
      assert last in players;
    }
  }

  lemma {:induction false} CollectedIsMentioned(players: seq<Player>, player: Player)
    requires player in players
    ensures Collected(players, player.uid).Some?
  {
    var front, last := players[..|players| - 1], players[|players| - 1];
    if last.uid != player.uid {
      assert player in front;
      CollectedIsMentioned(front, player);
    }
  }

  lemma ObserveTwice(byUid: ByUid, players: seq<Player>)
    requires WellFormed(byUid)
    ensures ObserveAll(ObserveAll(byUid, players), players) == ObserveAll(byUid, players)
  {
    var once := ObserveAll(byUid, players);
    var twice := ObserveAll(once, players);
    forall player | player in players ensures player.uid in once.players {
      CollectedIsMentioned(players, player);
      ObservedValue(byUid, players, player.uid);
    }
    KnownUidsKeepTheirPlaces(once, players);
    forall uid | uid in once.players ensures twice.players[uid] == once.players[uid] {
      ObservedValue(byUid, players, uid);
      ObservedValue(once, players, uid);
      if Collected(players, uid).Some? {
        CombineTwice(CurrentOf(byUid, uid), Collected(players, uid).value);
      }
    }
    assert twice.players == once.players;
  }

  /** Merging a batch a second time changes nothing. */
  lemma RepetitionChangesNothing(existing: Option<seq<Player>>, observed: seq<Player>)
    requires HaveUids(observed)
    ensures MergeKnownPlayers(MergeKnownPlayers(existing, observed), observed) == MergeKnownPlayers(existing, observed)
  {
    var kept := KeepAll(EMPTY_BY_UID, Stored(existing));
    BatchesCompose(existing, observed, observed);
    ObserveAppends(kept, observed, observed);
    AllWellFormed(EMPTY_BY_UID, Stored(existing));
    ObserveTwice(kept, observed);
    if observed == [] {
      assert observed + observed == observed;
    }
  }

  // What a run of merges does to one player.

  function MergeAll(existing: Option<seq<Player>>, batches: seq<seq<Player>>): Option<seq<Player>>
    decreases |batches|
  {
    if batches == [] then existing else MergeAll(MergeKnownPlayers(existing, batches[0]), batches[1..])
  }

  function Flatten(batches: seq<seq<Player>>): seq<Player> {
    if batches == [] then [] else batches[0] + Flatten(batches[1..])
  }

  /** Any number of merges is one merge of all that was observed. */
  lemma {:induction false} RunsAreOneMerge(existing: Option<seq<Player>>, batches: seq<seq<Player>>)
    requires forall batch :: batch in batches ==> HaveUids(batch)
    requires batches != []
    ensures MergeAll(existing, batches) == MergeKnownPlayers(existing, Flatten(batches))
    decreases |batches|
  {
    assert batches[0] in batches;
    var once := MergeKnownPlayers(existing, batches[0]);
    if |batches| == 1 {
      assert batches[1..] == [] && MergeAll(once, batches[1..]) == once;
      assert Flatten(batches) == batches[0] + [] == batches[0];
    } else {
      RunsAreOneMerge(once, batches[1..]);
      BatchesCompose(existing, batches[0], Flatten(batches[1..]));
    }
  }

  /** The player with a uid in a list; the merge keeps the last one listed. */
  function Find(players: seq<Player>, uid: string): Option<Player> {
    if players == [] then None
    else if players[|players| - 1].uid == uid then Some(players[|players| - 1])
    else Find(players[..|players| - 1], uid)
  }

  lemma {:induction false} KeptValue(existing: seq<Player>, uid: string)
    requires uid != ""
    ensures uid in KeepAll(EMPTY_BY_UID, existing).players <==> Find(existing, uid).Some?
    ensures Find(existing, uid).Some? ==> KeepAll(EMPTY_BY_UID, existing).players[uid] == Find(existing, uid).value
  {
    if existing != [] {
      KeptValue(existing[..|existing| - 1], uid);
    }
  }

  lemma {:induction false} FindIsMembership(players: seq<Player>, uid: string)
    ensures Find(players, uid).Some? <==> exists i :: 0 <= i < |players| && players[i].uid == uid
    ensures Find(players, uid).Some? ==> Find(players, uid).value in players && Find(players, uid).value.uid == uid
  {
    if players != [] {
      FindIsMembership(players[..|players| - 1], uid);
    }
  }

  /** The `lastseen` values a batch carries for a uid. */
  function LastSeens(players: seq<Player>, uid: string): seq<Option<int>> {
    if players == [] then []
    else
      var front, last := LastSeens(players[..|players| - 1], uid), players[|players| - 1];
      if last.uid == uid then front + [last.lastSeen] else front
  }

  function Playtimes(players: seq<Player>, uid: string): seq<Option<int>> {
    if players == [] then []
    else
      var front, last := Playtimes(players[..|players| - 1], uid), players[|players| - 1];
      if last.uid == uid then front + [last.playtime] else front
  }

  function LatestOf(before: Option<int>, values: seq<Option<int>>): Option<int> {
    if values == [] then before else Latest(LatestOf(before, values[..|values| - 1]), values[|values| - 1])
  }

  /** The result is the largest of the values, with 0 in place of an undefined one. */
  predicate IsLargest(result: Option<int>, before: Option<int>, values: seq<Option<int>>) {
    && (result.None? <==> before.None? && forall value :: value in values ==> value.None?)
    && (result.Some? ==>
          && (before.Some? ==> before.value <= result.value)
          && (forall value :: value in values && value.Some? ==> value.value <= result.value)
          && (result == before || result in values || result.value == 0))
  }

  lemma {:induction false} LatestOfIsLargest(before: Option<int>, values: seq<Option<int>>)
    ensures IsLargest(LatestOf(before, values), before, values)
  {
    if values != [] {
      var front, last := values[..|values| - 1], values[|values| - 1];
      LatestOfIsLargest(before, front);
      assert forall value :: value in values <==> value in front || value == last;
    }
  }

  /** The first first-seen time that any player of the uid carries. */
  function EarliestMention(players: seq<Player>, uid: string): Option<int> {
    if players == [] then None
    else if players[0].uid == uid && players[0].firstSeen.Some? then players[0].firstSeen
    else EarliestMention(players[1..], uid)
  }

  lemma {:induction false} EarliestMentionAppends(front: seq<Player>, last: Player, uid: string)
    ensures EarliestMention(front + [last], uid)
      == OrElse(EarliestMention(front, uid), if last.uid == uid then last.firstSeen else None)
  {
    if front == [] {
      assert ([] + [last])[1..] == [];
    } else {
      assert (front + [last])[1..] == front[1..] + [last];
      EarliestMentionAppends(front[1..], last, uid);
    }
  }

  lemma LatestAppends(before: Option<int>, front: seq<Option<int>>, last: Option<int>)
    ensures LatestOf(before, front + [last]) == Latest(LatestOf(before, front), last)
  {
    assert (front + [last])[..|front|] == front;
  }

  /** One more observation of any player, seen at one uid. */
  lemma ObserveOne(byUid: ByUid, observed: Player, uid: string)
    ensures
      var before, after := CurrentOf(byUid, uid), CurrentOf(Observe(byUid, observed), uid);
      if observed.uid == uid then
        && after.firstSeen == OrElse(before.firstSeen, observed.firstSeen)
        && after.lastSeen == Latest(before.lastSeen, observed.lastSeen)
        && after.playtime == Latest(before.playtime, observed.playtime)
      else after == before
  {
  }

  lemma {:induction false} ObservedFields(byUid: ByUid, players: seq<Player>, uid: string)
    ensures
      var before, after := CurrentOf(byUid, uid), CurrentOf(ObserveAll(byUid, players), uid);
      && after.firstSeen == OrElse(before.firstSeen, EarliestMention(players, uid))
      && after.lastSeen == LatestOf(before.lastSeen, LastSeens(players, uid))
      && after.playtime == LatestOf(before.playtime, Playtimes(players, uid))
  {
    if players != [] {
      hide EarliestMention, Observe, CurrentOf, LatestOf, Latest;
      var front, last := players[..|players| - 1], players[|players| - 1];
      ObservedFields(byUid, front, uid);
      assert players == front + [last];
      EarliestMentionAppends(front, last, uid);
      ObserveOne(ObserveAll(byUid, front), last, uid);
      var before := CurrentOf(byUid, uid);
      LatestAppends(before.lastSeen, LastSeens(front, uid), last.lastSeen);
      LatestAppends(before.playtime, Playtimes(front, uid), last.playtime);
    }
  }

  /**
    Over any run of merges on a stored list: no uid disappears or repeats, `firstseen` stays once
    set, and `lastseen` and `playtime` become the largest value seen, so they never decrease.
   */
  lemma MergeOverRuns(existing: seq<Player>, batches: seq<seq<Player>>, uid: string)
    requires forall batch :: batch in batches ==> HaveUids(batch)
    requires batches != [] && uid != "" && Find(existing, uid).Some?
    ensures
      var end, observed := MergeAll(Some(existing), batches), Flatten(batches);
      && end.Some? && Find(end.value, uid).Some?
      && (forall i, j :: 0 <= i < j < |end.value| ==> end.value[i].uid != end.value[j].uid)
      && var before, after := Find(existing, uid).value, Find(end.value, uid).value;
         && after.firstSeen == OrElse(before.firstSeen, EarliestMention(observed, uid))
         && IsLargest(after.lastSeen, before.lastSeen, LastSeens(observed, uid))
         && IsLargest(after.playtime, before.playtime, Playtimes(observed, uid))
  {
    var observed := Flatten(batches);
    var byUid := Merged(existing, observed);
    RunsAreOneMerge(Some(existing), batches);
    MergedIsWellFormed(existing, observed);
    KeptValue(existing, uid);
    ObservedValue(KeepAll(EMPTY_BY_UID, existing), observed, uid);
    ObservedFields(KeepAll(EMPTY_BY_UID, existing), observed, uid);
    FindInValues(byUid, uid);
    var before := Find(existing, uid).value;
    LatestOfIsLargest(before.lastSeen, LastSeens(observed, uid));
    LatestOfIsLargest(before.playtime, Playtimes(observed, uid));
  }

  lemma FindInValues(byUid: ByUid, uid: string)
    requires WellFormed(byUid) && uid in byUid.players
    ensures Find(ValuesOf(byUid), uid) == Some(byUid.players[uid])
    ensures forall i, j :: 0 <= i < j < |ValuesOf(byUid)| ==> ValuesOf(byUid)[i].uid != ValuesOf(byUid)[j].uid
  {
    var values := ValuesOf(byUid);
    FindIsMembership(values, uid);
    var i :| 0 <= i < |byUid.order| && byUid.order[i] == uid;
    assert values[i].uid == uid;
  }
}
