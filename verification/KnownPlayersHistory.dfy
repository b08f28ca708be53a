/**
  What any run of merges leaves of each player, told from the stored list and
  the observations alone (`mergeKnownPlayers` in src/service/observed-player-service.ts).
 */
module KnownPlayersHistory {
  import opened Prelude
  import opened KnownPlayers

  /** A field for which the newest statement wins: the name, or any that the merge does not know. */
  datatype Attribute = NameOf | OtherField(key: string)

  function ValueIn(player: Player, attribute: Attribute): Option<Json> {
    match attribute
    case NameOf => if player.name.Some? then Some(Text(player.name.value)) else None
    case OtherField(key) => if key in player.others then Some(player.others[key]) else None
  }

  predicate SilentFrom(players: seq<Player>, from: nat, uid: string, attribute: Attribute) {
    forall j :: from <= j < |players| && players[j].uid == uid ==> ValueIn(players[j], attribute).None?
  }

  /** The last player of the uid that has the field has this value. */
  predicate SaidLast(players: seq<Player>, uid: string, attribute: Attribute, value: Json) {
    exists i: nat :: i < |players| && players[i].uid == uid && ValueIn(players[i], attribute) == Some(value)
      && SilentFrom(players, i + 1, uid, attribute)
  }

  predicate Says(player: Player, uid: string, attribute: Attribute) {
    player.uid == uid && ValueIn(player, attribute).Some?
  }

  lemma SilentNext(front: seq<Player>, last: Player, from: nat, uid: string, attribute: Attribute)
    requires from <= |front|
    ensures SilentFrom(front + [last], from, uid, attribute)
      <==> !Says(last, uid, attribute) && SilentFrom(front, from, uid, attribute)
  {
    hide ValueIn;
    var players := front + [last];
    assert players[|front|] == last && forall j :: 0 <= j < |front| ==> players[j] == front[j];
  }

  lemma SaidStays(front: seq<Player>, last: Player, uid: string, attribute: Attribute, value: Json)
    requires SaidLast(front, uid, attribute, value) && !Says(last, uid, attribute)
    ensures SaidLast(front + [last], uid, attribute, value)
  {
    hide ValueIn, Says, SilentFrom;
    var i: nat :| i < |front| && front[i].uid == uid && ValueIn(front[i], attribute) == Some(value)
      && SilentFrom(front, i + 1, uid, attribute);
    SilentNext(front, last, i + 1, uid, attribute);
    assert (front + [last])[i] == front[i];
  }

  lemma SaidBefore(front: seq<Player>, last: Player, uid: string, attribute: Attribute, value: Json)
    requires SaidLast(front + [last], uid, attribute, value)
    ensures if Says(last, uid, attribute) then ValueIn(last, attribute) == Some(value)
      else SaidLast(front, uid, attribute, value)
  {
    hide ValueIn, SilentFrom;
    var players := front + [last];
    var i: nat :| i < |players| && players[i].uid == uid && ValueIn(players[i], attribute) == Some(value)
      && SilentFrom(players, i + 1, uid, attribute);
    if i < |front| {
      SilentNext(front, last, i + 1, uid, attribute);
      assert players[i] == front[i];
    }
  }

  lemma SaidNext(front: seq<Player>, last: Player, uid: string, attribute: Attribute, value: Json)
    ensures SaidLast(front + [last], uid, attribute, value) <==>
      if Says(last, uid, attribute) then ValueIn(last, attribute) == Some(value) else SaidLast(front, uid, attribute, value)
    ensures SilentFrom(front + [last], 0, uid, attribute) <==>
      !Says(last, uid, attribute) && SilentFrom(front, 0, uid, attribute)
  {
    SilentNext(front, last, 0, uid, attribute);
    if SaidLast(front + [last], uid, attribute, value) {
      SaidBefore(front, last, uid, attribute, value);
    } else if Says(last, uid, attribute) {
      assert (front + [last])[|front|] == last && SilentFrom(front + [last], |front| + 1, uid, attribute);
    } else if SaidLast(front, uid, attribute, value) {
      SaidStays(front, last, uid, attribute, value);
    }
  }

  lemma CombinedValue(current: Player, observed: Player, attribute: Attribute)
    ensures ValueIn(Combine(current, observed), attribute)
      == OrElse(ValueIn(observed, attribute), ValueIn(current, attribute))
  {
  }

  lemma {:induction false} ObservedAttribute(
      byUid: ByUid, players: seq<Player>, uid: string, attribute: Attribute, value: Json)
    ensures ValueIn(CurrentOf(ObserveAll(byUid, players), uid), attribute) == Some(value) <==>
      || SaidLast(players, uid, attribute, value)
      || (SilentFrom(players, 0, uid, attribute) && ValueIn(CurrentOf(byUid, uid), attribute) == Some(value))
  {
    if players != [] {
      hide ValueIn, SaidLast, Combine;
      var front, last := players[..|players| - 1], players[|players| - 1];
      assert players == front + [last];
      ObservedAttribute(byUid, front, uid, attribute, value);
      SaidNext(front, last, uid, attribute, value);
      var before := ObserveAll(byUid, front);
      if last.uid == uid {
        CombinedValue(CurrentOf(before, uid), last, attribute);
        CombinedUid(CurrentOf(before, uid), last);
      } else {
        CombinedUid(CurrentOf(before, last.uid), last);
      }
    }
  }

  lemma CombinedUid(current: Player, observed: Player)
    ensures Combine(current, observed).uid == observed.uid
  {
  }

  predicate Mentioned(players: seq<Player>, uid: string) {
    exists i :: 0 <= i < |players| && players[i].uid == uid
  }

  lemma {:induction false} MentionedOnly(byUid: ByUid, players: seq<Player>, uid: string)
    ensures uid in ObserveAll(byUid, players).players <==> uid in byUid.players || Mentioned(players, uid)
  {
    if players != [] {
      var front, last := players[..|players| - 1], players[|players| - 1];
      MentionedOnly(byUid, front, uid);
      assert players[|front|] == last && forall i :: 0 <= i < |front| ==> players[i] == front[i];
    }
  }

  /**
    Over any run of merges a player is listed if and only if they were before or were observed, and each of these
    fields has the value that was observed last, or without one the value it had.
   */
  lemma {:induction false} NewestStatementWins(
      existing: seq<Player>, batches: seq<seq<Player>>, uid: string, attribute: Attribute, value: Json)
    requires (forall batch :: batch in batches ==> HaveUids(batch)) && batches != [] && uid != ""
    ensures
      var end, observed := MergeAll(Some(existing), batches), Flatten(batches);
      && end.Some?
      && (Find(end.value, uid).Some? <==> Find(existing, uid).Some? || Mentioned(observed, uid))
      && (Find(end.value, uid).Some? ==>
            (ValueIn(Find(end.value, uid).value, attribute) == Some(value) <==>
              || SaidLast(observed, uid, attribute, value)
              || (&& SilentFrom(observed, 0, uid, attribute) && Find(existing, uid).Some?
                  && ValueIn(Find(existing, uid).value, attribute) == Some(value))))
  {
    var observed := Flatten(batches);
    var kept, byUid := KeepAll(EMPTY_BY_UID, existing), Merged(existing, observed);
    RunsAreOneMerge(Some(existing), batches);
    MergedIsWellFormed(existing, observed);
    KeptValue(existing, uid);
    MentionedOnly(kept, observed, uid);
    ObservedAttribute(kept, observed, uid, attribute, value);
    FindIsMembership(ValuesOf(byUid), uid);
    hide SaidLast, SilentFrom, ObserveAll, KeepAll;
    if uid in byUid.players {
      FindInValues(byUid, uid);
    } else {
      assert forall i :: 0 <= i < |ValuesOf(byUid)| ==> ValuesOf(byUid)[i].uid == byUid.order[i];
    }
  }

  // The order of the list.

  function Uids(players: seq<Player>): seq<string> {
    if players == [] then [] else Uids(players[..|players| - 1]) + [players[|players| - 1].uid]
  }

  function NonBlank(uids: seq<string>): seq<string> {
    if uids == [] then []
    else NonBlank(uids[..|uids| - 1]) + if uids[|uids| - 1] == "" then [] else [uids[|uids| - 1]]
  }

  lemma KeepOrder(byUid: ByUid, player: Player)
    requires WellFormed(byUid)
    ensures WellFormed(Keep(byUid, player))
    ensures Keep(byUid, player).order
      == if player.uid == "" || player.uid in byUid.order then byUid.order else byUid.order + [player.uid]
  {
  }

  lemma NonBlankNext(uids: seq<string>, uid: string)
    ensures NonBlank(uids + [uid]) == if uid == "" then NonBlank(uids) else NonBlank(uids) + [uid]
  {
    assert (uids + [uid])[..|uids|] == uids;
  }

  lemma KeepLast(players: seq<Player>)
    requires players != []
    ensures
      var front, last := players[..|players| - 1], players[|players| - 1];
      && KeepAll(EMPTY_BY_UID, players) == Keep(KeepAll(EMPTY_BY_UID, front), last)
      && Uids(players) == Uids(front) + [last.uid]
  {
  }

  lemma {:induction false} KeptOrder(players: seq<Player>)
    ensures WellFormed(KeepAll(EMPTY_BY_UID, players))
    ensures KeepAll(EMPTY_BY_UID, players).order == Distinct(NonBlank(Uids(players)))
  {
    if players != [] {
      hide Distinct, NonBlank, Keep, WellFormed, KeepAll, Uids;
      var front, last := players[..|players| - 1], players[|players| - 1];
      KeptOrder(front);
      KeepLast(players);
      KeepOrder(KeepAll(EMPTY_BY_UID, front), last);
      NonBlankNext(Uids(front), last.uid);
      var uids := NonBlank(Uids(front));
      DistinctOfAppended([], uids, last.uid);
      assert [] + (uids + [last.uid]) == uids + [last.uid] && [] + uids == uids;
    }
  }

  lemma {:induction false} ObservedOrder(byUid: ByUid, players: seq<Player>)
    requires WellFormed(byUid)
    ensures ObserveAll(byUid, players).order == Distinct(byUid.order + Uids(players))
  {
    if players == [] {
      assert byUid.order + [] == byUid.order;
      DistinctKeeps(byUid.order);
    } else {
      hide Combine;
      var front, last := players[..|players| - 1], players[|players| - 1];
      ObservedOrder(byUid, front);
      AllWellFormed(byUid, front);
      CombinedUid(CurrentOf(ObserveAll(byUid, front), last.uid), last);
      DistinctOfAppended(byUid.order, Uids(front), last.uid);
      assert Uids(players) == Uids(front) + [last.uid];
    }
  }

  lemma {:induction false} UidsOfValues(byUid: ByUid, values: seq<Player>)
    requires WellFormed(byUid) && |values| <= |byUid.order|
    requires forall i :: 0 <= i < |values| ==> byUid.order[i] in byUid.players && values[i] == byUid.players[byUid.order[i]]
    ensures Uids(values) == byUid.order[..|values|]
  {
    if values != [] {
      UidsOfValues(byUid, values[..|values| - 1]);
      assert byUid.order[..|values|] == byUid.order[..|values| - 1] + [byUid.order[|values| - 1]];
    }
  }

  lemma MergedUids(existing: seq<Player>, observed: seq<Player>)
    ensures WellFormed(Merged(existing, observed))
    ensures Uids(ValuesOf(Merged(existing, observed))) == Distinct(NonBlank(Uids(existing)) + Uids(observed))
  {
    var kept, byUid := KeepAll(EMPTY_BY_UID, existing), Merged(existing, observed);
    MergedIsWellFormed(existing, observed);
    KeptOrder(existing);
    hide KeepAll, ObserveAll, Distinct, NonBlank, Uids;
    ObservedOrder(kept, observed);
    DistinctAbsorbs(NonBlank(Uids(existing)), Uids(observed));
    UidsOfValues(byUid, ValuesOf(byUid));
    assert byUid.order[..|byUid.order|] == byUid.order;
  }

  /** Known players keep their places, and new ones follow in the order in which they were first observed. */
  lemma {:induction false} ListInOrder(existing: seq<Player>, batches: seq<seq<Player>>)
    requires (forall batch :: batch in batches ==> HaveUids(batch)) && batches != []
    ensures
      var end := MergeAll(Some(existing), batches);
      end.Some? && Uids(end.value) == Distinct(NonBlank(Uids(existing)) + Uids(Flatten(batches)))
  {
    hide MergeAll, Flatten, Merged, Distinct, NonBlank, Uids;
    RunsAreOneMerge(Some(existing), batches);
    MergedUids(existing, Flatten(batches));
    NothingMerged();
  }

  lemma NothingMerged()
    ensures WellFormed(Merged([], [])) && ValuesOf(Merged([], [])) == []
  {
    assert Merged([], []) == EMPTY_BY_UID;
  }
}
