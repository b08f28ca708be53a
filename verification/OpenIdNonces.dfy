/**
  Replay protection of the Steam sign-in: which response nonces are accepted, and
  how often (src/service/steam-openid-service.ts; section 11.3 of OpenID
  Authentication 2.0). A verification is two steps, before and after the request
  to Steam; verifications overlap freely.
 */
module OpenIdNonces {
  import opened Prelude

  /** A nonce is a time stamp, absent when it is no valid date, followed by arbitrary text. */
  datatype Nonce = Nonce(stamp: Option<int>, suffix: string)

  type CallId = nat

  /** A verification between its two steps: its nonce and the clock when it started. */
  datatype Pending = Pending(nonce: Nonce, start: int)

  /** `accepted` is the history of successful verifications, oldest first. */
  datatype State = State(
    used: map<Nonce, int>, pending: set<Nonce>, calls: map<CallId, Pending>, accepted: seq<Pending>)

  datatype Event =
    | Begin(call: CallId, nonce: Nonce, now: int)
    | End(call: CallId, valid: bool)

  const FRESH := State(map[], {}, map[], [])

  const NONCE_TTL_MS := 10 * 60 * 1000
  const MAX_AHEAD_MS := 60_000

  predicate InTime(nonce: Nonce, now: int) {
    nonce.stamp.Some? && now - NONCE_TTL_MS <= nonce.stamp.value <= now + MAX_AHEAD_MS
  }

  function Purged(used: map<Nonce, int>, now: int): map<Nonce, int> {
    map nonce | nonce in used && used[nonce] > now :: used[nonce]
  }

  function Next(state: State, event: Event): State {
    match event
    case Begin(call, nonce, now) =>
      if call in state.calls || !InTime(nonce, now) then state
      else
        var used := Purged(state.used, now);
        if nonce in used || nonce in state.pending then state.(used := used)
        else
          state.(used := used, pending := state.pending + {nonce}, calls := state.calls[call := Pending(nonce, now)])
    case End(call, valid) =>
      if call !in state.calls then state
      else
        var ended := state.calls[call];
        State(if valid then state.used[ended.nonce := ended.start + NONCE_TTL_MS] else state.used,
              state.pending - {ended.nonce},
              state.calls - {call},
              if valid then state.accepted + [ended] else state.accepted)
  }

  function Run(state: State, events: seq<Event>): State
    decreases |events|
  {
    if events == [] then state else Run(Next(state, events[0]), events[1..])
  }

  /** The clock readings of a run never go back. */
  predicate Timed(from: int, events: seq<Event>)
    decreases |events|
  {
    if events == [] then true
    else if events[0].End? then Timed(from, events[1..])
    else from <= events[0].now && Timed(events[0].now, events[1..])
  }

  /** Two calls never check one nonce at the same time. */
  ghost predicate Exclusive(state: State) {
    && (forall a, b :: a in state.calls && b in state.calls && state.calls[a].nonce == state.calls[b].nonce ==> a == b)
    && forall nonce :: nonce in state.pending <==> exists call :: call in state.calls && state.calls[call].nonce == nonce
  }

  /** The history: accepted nonces were in time when they started, and one nonce at most once per ten minutes. */
  ghost predicate Spaced(accepted: seq<Pending>) {
    && (forall i :: 0 <= i < |accepted| ==> InTime(accepted[i].nonce, accepted[i].start))
    && forall i, j :: 0 <= i < j < |accepted| && accepted[i].nonce == accepted[j].nonce ==>
         accepted[i].start + NONCE_TTL_MS <= accepted[j].start
  }

  /** Why the history stays spaced: an accepted nonce is remembered until its ten minutes are over. */
  ghost predicate Remembered(state: State, now: int) {
    && (forall call :: call in state.calls ==> state.calls[call].start <= now && InTime(state.calls[call].nonce, state.calls[call].start))
    && (forall i :: 0 <= i < |state.accepted| ==>
          var nonce, expiry := state.accepted[i].nonce, state.accepted[i].start + NONCE_TTL_MS;
          (nonce in state.used && state.used[nonce] >= expiry) || expiry <= now)
    && forall i, call :: 0 <= i < |state.accepted| && call in state.calls && state.accepted[i].nonce == state.calls[call].nonce ==>
         state.accepted[i].start + NONCE_TTL_MS <= state.calls[call].start
  }

  ghost predicate Safe(state: State, now: int) {
    Exclusive(state) && Spaced(state.accepted) && Remembered(state, now)
  }

  lemma BeginStaysExclusive(state: State, call: CallId, nonce: Nonce, now: int)
    requires Exclusive(state)
    ensures Exclusive(Next(state, Begin(call, nonce, now)))
  {
    var next := Next(state, Begin(call, nonce, now));
    if call in next.calls && call !in state.calls {
      assert next.calls[call].nonce == nonce;
      forall other | other in state.calls ensures state.calls[other].nonce != nonce && next.calls[other] == state.calls[other] {}
      forall kept | kept in next.pending ensures exists c :: c in next.calls && next.calls[c].nonce == kept {
        if kept != nonce {
          var c :| c in state.calls && state.calls[c].nonce == kept;
          assert c in next.calls && next.calls[c].nonce == kept;
        }
      }
    }
  }

  lemma BeginIsSafe(state: State, call: CallId, nonce: Nonce, from: int, now: int)
    requires Safe(state, from) && from <= now
    ensures Safe(Next(state, Begin(call, nonce, now)), now)
  {
    BeginStaysExclusive(state, call, nonce, now);
    hide Exclusive;
  }

  lemma EndIsSafe(state: State, call: CallId, valid: bool, now: int)
    requires Safe(state, now)
    ensures Safe(Next(state, End(call, valid)), now)
  {
    if call in state.calls {
      var next := Next(state, End(call, valid));
      forall kept | kept in next.pending ensures exists c :: c in next.calls && next.calls[c].nonce == kept {
        var c :| c in state.calls && state.calls[c].nonce == kept;
        assert c in next.calls && next.calls[c].nonce == kept;
      }
      forall c | c in next.calls ensures next.calls[c].nonce in next.pending {
        assert c in state.calls && state.calls[c].nonce in state.pending;
      }
    }
  }

  /** The last clock reading of a run. */
  function Clock(from: int, events: seq<Event>): int
    decreases |events|
  {
    if events == [] then from else Clock(if events[0].Begin? then events[0].now else from, events[1..])
  }

  lemma {:induction false} SafeOverRuns(state: State, events: seq<Event>, from: int)
    requires Safe(state, from) && Timed(from, events)
    ensures Safe(Run(state, events), Clock(from, events))
    decreases |events|
  {
    if events != [] {
      match events[0]
      case Begin(call, nonce, at) =>
        BeginIsSafe(state, call, nonce, from, at);
        SafeOverRuns(Next(state, events[0]), events[1..], at);
      case End(call, valid) =>
        EndIsSafe(state, call, valid, from);
        SafeOverRuns(Next(state, events[0]), events[1..], from);
    }
  }

  /**
    Over every interleaving with a clock that never goes back: no nonce is checked by two calls
    at once, and two acceptances of one nonce start at least ten minutes apart.
   */
  lemma NoncesAreSpaced(events: seq<Event>, from: int)
    requires Timed(from, events)
    ensures Exclusive(Run(FRESH, events)) && Spaced(Run(FRESH, events).accepted)
  {
    SafeOverRuns(FRESH, events, from);
  }

  /** Every remembered nonce is one that was accepted, until ten minutes after the start of its call. */
  ghost predicate OnlyAccepted(state: State) {
    forall nonce :: nonce in state.used ==> AcceptedUntil(state.accepted, nonce, state.used[nonce])
  }

  predicate AcceptedUntil(accepted: seq<Pending>, nonce: Nonce, expiry: int) {
    exists i :: 0 <= i < |accepted| && accepted[i].nonce == nonce && expiry == accepted[i].start + 600_000
  }

  lemma StepRemembersAccepted(state: State, event: Event)
    requires OnlyAccepted(state)
    ensures OnlyAccepted(Next(state, event))
  {
    var next := Next(state, event);
    forall nonce | nonce in next.used ensures AcceptedUntil(next.accepted, nonce, next.used[nonce]) {
      if nonce in state.used && next.used[nonce] == state.used[nonce] {
        var i :| 0 <= i < |state.accepted| && state.accepted[i].nonce == nonce
          && state.used[nonce] == state.accepted[i].start + 600_000;
        assert next.accepted[i] == state.accepted[i];
      } else {
        assert next.accepted[|state.accepted|] == state.calls[event.call];
      }
    }
  }

  lemma {:induction false} OnlyAcceptedOverRuns(state: State, events: seq<Event>)
    requires OnlyAccepted(state)
    ensures OnlyAccepted(Run(state, events))
    decreases |events|
  {
    hide OnlyAccepted;
    if events != [] {
      StepRemembersAccepted(state, events[0]);
      OnlyAcceptedOverRuns(Next(state, events[0]), events[1..]);
    }
  }

  /**
    After every run a verification goes to Steam if and only if its nonce is stamped at most ten minutes ago
    and at most one ahead, no other verification is checking it, and it was not accepted by one that started
    less than ten minutes ago.
   */
  lemma {:induction false} AdmittedExactly(events: seq<Event>, from: int, call: CallId, nonce: Nonce, now: int)
    requires Timed(from, events) && Clock(from, events) <= now && call !in Run(FRESH, events).calls
    ensures
      var before := Run(FRESH, events);
      call in Next(before, Begin(call, nonce, now)).calls <==>
        && nonce.stamp.Some? && now - 600_000 <= nonce.stamp.value <= now + 60_000
        && (forall other :: other in before.calls ==> before.calls[other].nonce != nonce)
        && forall i :: 0 <= i < |before.accepted| && before.accepted[i].nonce == nonce ==>
             before.accepted[i].start + 600_000 <= now
  {
    SafeOverRuns(FRESH, events, from);
    OnlyAcceptedOverRuns(FRESH, events);
  }

  /** A verification in time, admitted or not, forgets exactly the nonces whose ten minutes are over. */
  lemma ForgottenExactly(state: State, call: CallId, nonce: Nonce, now: int, other: Nonce)
    requires call !in state.calls
    requires nonce.stamp.Some? && now - 600_000 <= nonce.stamp.value <= now + 60_000
    ensures
      var after := Next(state, Begin(call, nonce, now));
      && (other in after.used <==> other in state.used && now < state.used[other])
      && (other in after.used ==> after.used[other] == state.used[other])
  {
  }

  /** An admitted verification is recorded with its start, and ends accepted exactly when Steam says so. */
  lemma EndedExactly(state: State, call: CallId, nonce: Nonce, now: int, valid: bool)
    requires call in state.calls
    ensures
      var after := Next(state, End(call, valid));
      && call !in after.calls
      && (forall other :: other != call ==> (other in after.calls <==> other in state.calls))
      && after.accepted == if valid then state.accepted + [state.calls[call]] else state.accepted
    ensures
      var begun := Next(state, Begin(call + 1, nonce, now));
      && begun.accepted == state.accepted
      && (call + 1 in begun.calls && call + 1 !in state.calls ==> begun.calls[call + 1] == Pending(nonce, now))
  {
  }

  /** No nonce is ever accepted three times. */
  lemma AtMostTwice(events: seq<Event>, from: int, i: nat, j: nat, k: nat)
    requires Timed(from, events) && i < j < k < |Run(FRESH, events).accepted|
    ensures
      var accepted := Run(FRESH, events).accepted;
      !(accepted[i].nonce == accepted[j].nonce == accepted[k].nonce)
  {
    NoncesAreSpaced(events, from);
  }

  /** The run accepts the nonce for a call started at `first` and once more later. */
  predicate AcceptsTwice(events: seq<Event>, nonce: Nonce, first: int) {
    var accepted := Run(FRESH, events).accepted;
    exists i, j :: 0 <= i < j < |accepted|
      && accepted[i] == Pending(nonce, first) && accepted[j].nonce == nonce
  }

  /**
    A nonce first accepted by a call started at `first` can be accepted again exactly when its stamp is
    not before that start, whatever happened before. So a nonce stamped in the past succeeds at most once.
   */
  lemma ReplayExactlyWhenStampedAhead(nonce: Nonce, first: int)
    ensures (exists from, events :: Timed(from, events) && AcceptsTwice(events, nonce, first))
      <==> nonce.stamp.Some? && first <= nonce.stamp.value <= first + MAX_AHEAD_MS
  {
    forall from, events | Timed(from, events) && AcceptsTwice(events, nonce, first)
      ensures nonce.stamp.Some? && first <= nonce.stamp.value <= first + MAX_AHEAD_MS
    {
      NoncesAreSpaced(events, from);
    }
    if nonce.stamp.Some? && first <= nonce.stamp.value <= first + MAX_AHEAD_MS {
      ReplayHappens(nonce, first);
    }
  }

  /** Two checks of one nonce, the second as soon as the first acceptance has expired. */
  function Replay(nonce: Nonce, first: int): seq<Event> {
    [Begin(1, nonce, first), End(1, true), Begin(2, nonce, first + NONCE_TTL_MS), End(2, true)]
  }

  lemma ReplayIsTimed(nonce: Nonce, first: int)
    ensures Timed(first, Replay(nonce, first))
  {
    var events := Replay(nonce, first);
    assert events[1..][1..] == events[2..] && events[2..][1..] == events[3..] && events[3..][1..] == [];
    assert Timed(first + NONCE_TTL_MS, events[3..]);
    assert Timed(first, events[2..]);
    assert Timed(first, events[1..]);
  }

  lemma ReplayEnds(nonce: Nonce, first: int)
    requires nonce.stamp.Some? && first <= nonce.stamp.value <= first + MAX_AHEAD_MS
    ensures Run(FRESH, Replay(nonce, first)).accepted == [Pending(nonce, first), Pending(nonce, first + NONCE_TTL_MS)]
  {
    var events, again := Replay(nonce, first), first + NONCE_TTL_MS;
    var begun := Next(FRESH, events[0]);
    var ended := Next(begun, events[1]);
    var resumed := Next(ended, events[2]);
    var end := Next(resumed, events[3]);
    assert begun.calls == map[1 := Pending(nonce, first)];
    assert ended == State(map[nonce := again], {}, map[], [Pending(nonce, first)]);
    assert Purged(ended.used, again) == map[];
    assert resumed.calls == map[2 := Pending(nonce, again)];
    assert end.accepted == [Pending(nonce, first), Pending(nonce, again)];
    hide Next;
    assert events[1..][1..] == events[2..] && events[2..][1..] == events[3..] && events[3..][1..] == [];
    assert Run(resumed, events[3..]) == Run(end, []) == end;
    assert Run(ended, events[2..]) == end;
    assert Run(begun, events[1..]) == end;
  }

  lemma ReplayHappens(nonce: Nonce, first: int)
    requires nonce.stamp.Some? && first <= nonce.stamp.value <= first + MAX_AHEAD_MS
    ensures exists events :: Timed(first, events) && AcceptsTwice(events, nonce, first)
  {
    hide Run, Timed;
    ReplayIsTimed(nonce, first);
    ReplayEnds(nonce, first);
    var accepted := Run(FRESH, Replay(nonce, first)).accepted;
    assert accepted[0] == Pending(nonce, first) && accepted[1].nonce == nonce;
    assert AcceptsTwice(Replay(nonce, first), nonce, first);
  }

  class SteamOpenId {
    var usedNonces: map<Nonce, int>
    var pendingNonces: set<Nonce>
    ghost var calls: map<CallId, Pending>
    ghost var accepted: seq<Pending>

    constructor ()
      ensures Current() == FRESH
    {
      usedNonces, pendingNonces, calls, accepted := map[], {}, map[], [];
    }

    ghost function Current(): State
      reads this
    {
      State(usedNonces, pendingNonces, calls, accepted)
    }

    method PurgeExpired(now: int)
      modifies this`usedNonces
      ensures usedNonces == Purged(old(usedNonces), now)
    {
      ghost var before := usedNonces;
      var todo := usedNonces.Keys;
      while todo != {}
        invariant todo <= usedNonces.Keys <= before.Keys
        invariant forall nonce :: nonce in usedNonces ==> usedNonces[nonce] == before[nonce]
        invariant forall nonce :: nonce in before && nonce !in todo ==> (nonce in usedNonces <==> before[nonce] > now)
      {
        var nonce :| nonce in todo;
        todo := todo - {nonce};
        if usedNonces[nonce] <= now {
          usedNonces := usedNonces - {nonce};
        }
      }
    }

    /** From the time check up to the request; refused verifications throw. */
    method BeginVerification(ghost call: CallId, nonce: Nonce, now: int) returns (admitted: bool)
      requires call !in calls
      modifies this
      ensures Current() == Next(old(Current()), Begin(call, nonce, now))
      ensures admitted <==> call in calls
    {
      if !InTime(nonce, now) { return false; }
      PurgeExpired(now);
      if nonce in usedNonces || nonce in pendingNonces { return false; }
      pendingNonces := pendingNonces + {nonce};
      calls := calls[call := Pending(nonce, now)];
      return true;
    }

    /** After Steam's answer; the nonce stops being pending whatever the answer was. */
    method EndVerification(ghost call: CallId, nonce: Nonce, start: int, valid: bool)
      requires call in calls && calls[call] == Pending(nonce, start)
      modifies this
      ensures Current() == Next(old(Current()), End(call, valid))
    {
      if valid {
        usedNonces := usedNonces[nonce := start + NONCE_TTL_MS];
        accepted := accepted + [Pending(nonce, start)];
      }
      pendingNonces := pendingNonces - {nonce};
      calls := calls - {call};
    }
  }
}
